/**
 * Decision dates used as sort keys.
 *
 * `parse_korean_date` reads the first "YYYY. M. D" in a 선고일자 cell and
 * `extract_date_from_info` the first "대법원 YYYY. M. D. 선고" (or 헌법재판소) in
 * a 판례 정보 text. Both fall back to `datetime.min` when nothing matches or
 * when the numbers do not name a calendar day. The two regular expressions are
 * written out below as matchers over the remaining text, one alternative per
 * way the regular-expression engine can backtrack.
 */
module Dates {
  import opened Text
  import opened Wrappers

  // ---------------------------------------------------------------------------
  // Calendar

  datatype Date = Date(year: int, month: int, day: int)

  /** `datetime.min`. */
  const MinDate: Date := Date(1, 1, 1)

  predicate IsLeapYear(y: int)
  {
    y % 4 == 0 && (y % 100 != 0 || y % 400 == 0)
  }

  function DaysInMonth(y: int, m: int): int
    requires 1 <= m <= 12
  {
    if m == 2 then (if IsLeapYear(y) then 29 else 28)
    else if m == 4 || m == 6 || m == 9 || m == 11 then 30
    else 31
  }

  /** What `datetime(y, m, d)` accepts: years 1 to 9999 of the proleptic Gregorian calendar. */
  predicate ValidDate(d: Date)
  {
    1 <= d.year <= 9999 && 1 <= d.month <= 12 && 1 <= d.day <= DaysInMonth(d.year, d.month)
  }

  /** `datetime(y, m, d)` with its `ValueError` caught and replaced by `datetime.min`. */
  function MakeDate(y: int, m: int, d: int): (r: Date)
    ensures ValidDate(r)
  {
    if ValidDate(Date(y, m, d)) then Date(y, m, d) else MinDate
  }

  /** `a < b` on dates: chronological order. */
  predicate Before(a: Date, b: Date)
  {
    a.year < b.year || (a.year == b.year && (a.month < b.month || (a.month == b.month && a.day < b.day)))
  }

  // ---------------------------------------------------------------------------
  // The pattern (\d{4})\.\s*(\d{1,2})\.\s*(\d{1,2})

  /** The three captured digit strings. */
  datatype Groups = Groups(year: string, month: string, day: string)

  /** `(\d{1,2})\.` at the start of `u`: two digits are tried before one. */
  function MonthPart(u: string): Option<(string, string)>
  {
    if |u| >= 3 && IsDigit(u[0]) && IsDigit(u[1]) && u[2] == '.' then Some((u[..2], u[3..]))
    else if |u| >= 2 && IsDigit(u[0]) && u[1] == '.' then Some((u[..1], u[2..]))
    else None
  }

  /** `(\d{1,2})` at the start of `v` followed by whatever `cont` demands of the rest. */
  function DayPart(v: string, cont: string -> bool): Option<string>
  {
    if |v| >= 2 && IsDigit(v[0]) && IsDigit(v[1]) && cont(v[2..]) then Some(v[..2])
    else if |v| >= 1 && IsDigit(v[0]) && cont(v[1..]) then Some(v[..1])
    else None
  }

  /** The date pattern anchored at the start of `t`, then `cont` on the rest;
    * `\s*` is greedy, and giving whitespace back never helps since a digit follows. */
  function DateHead(t: string, cont: string -> bool): Option<Groups>
  {
    if |t| >= 5 && AllDigits(t[..4]) && t[4] == '.' then
      match MonthPart(TrimStart(t[5..]))
      case None => None
      case Some(mv) =>
        match DayPart(TrimStart(mv.1), cont)
        case None => None
        case Some(d) => Some(Groups(t[..4], mv.0, d))
    else None
  }

  /** `re.search`: the leftmost position, from `i` on, where `head` matches. */
  function Search(s: string, i: nat, head: string -> Option<Groups>): Option<Groups>
    requires i <= |s|
    decreases |s| - i
  {
    match head(s[i..])
    case Some(g) => Some(g)
    case None => if i < |s| then Search(s, i + 1, head) else None
  }

  /** `int()` of the three groups, then `datetime(...)`. */
  function ToDate(g: Groups): Date
  {
    if AllDigits(g.year) && AllDigits(g.month) && AllDigits(g.day)
    then MakeDate(Value(g.year), Value(g.month), Value(g.day))
    else MinDate
  }

  function AnyRest(rest: string): bool { true }

  function PlainDate(t: string): Option<Groups> { DateHead(t, AnyRest) }

  /** `parse_korean_date(s)`; a missing cell is the empty string. */
  function ParseKoreanDate(s: string): Date
  {
    match Search(Trim(s), 0, PlainDate)
    case None => MinDate
    case Some(g) => ToDate(g)
  }

  // ---------------------------------------------------------------------------
  // The pattern (대법원|헌법재판소)\s+<date>\.?\s*선고

  /** `(대법원|헌법재판소)` at the start of `t`, and what follows it. */
  function AfterCourt(t: string): Option<string>
  {
    if |t| >= 3 && t[..3] == "대법원" then Some(t[3..])
    else if |t| >= 5 && t[..5] == "헌법재판소" then Some(t[5..])
    else None
  }

  /** `\s*선고` at the start of `w`. */
  predicate DeclaredNext(w: string)
  {
    var x := TrimStart(w);
    |x| >= 2 && x[..2] == "선고"
  }

  /** `\.?\s*선고` at the start of `w`: the dot is tried before its absence. */
  predicate Declared(w: string)
  {
    (w != [] && w[0] == '.' && DeclaredNext(w[1..])) || DeclaredNext(w)
  }

  function CourtDate(t: string): Option<Groups>
  {
    match AfterCourt(t)
    case None => None
    case Some(u) => if u != [] && IsSpace(u[0]) then DateHead(TrimStart(u), Declared) else None
  }

  /** The 판례 정보 text with its zero-width characters deleted. */
  function Cleaned(info: string): string
  {
    Without(info, IsZeroWidth)
  }

  /** `extract_date_from_info(info)`: zero-width characters are deleted first. */
  function ExtractDateFromInfo(info: string): Date
  {
    match Search(Cleaned(info), 0, CourtDate)
    case None => MinDate
    case Some(g) => ToDate(g)
  }

  // ---------------------------------------------------------------------------
  // Decimal rendering, the partner of int()

  function DigitChar(k: nat): char
    requires k < 10
  {
    (('0' as int) + k) as char
  }

  /** `str(n)`. */
  function Decimal(n: nat): string
  {
    if n < 10 then [DigitChar(n)] else Decimal(n / 10) + [DigitChar(n % 10)]
  }

  /** `f"{n:04d}"` for n below 10000. */
  function Pad4(n: nat): string
    requires n < 10000
  {
    var ds := Decimal(n);
    DecimalShort(n);
    seq(4 - |ds|, _ => '0') + ds
  }

  /** The way 선고일자 cells write a date: "2023. 5. 12.". */
  function Render(d: Date): string
    requires ValidDate(d)
  {
    Pad4(d.year) + "." + " " + Decimal(d.month) + "." + " " + Decimal(d.day) + "."
  }

  // ---------------------------------------------------------------------------
  // Properties of the calendar

  /** An impossible date becomes `datetime.min`, a possible one is kept. */
  lemma MakeDateMeaning(y: int, m: int, d: int)
    ensures MakeDate(y, m, d) == Date(y, m, d) <==> ValidDate(Date(y, m, d))
    ensures !ValidDate(Date(y, m, d)) ==> MakeDate(y, m, d) == MinDate
  {
  }

  lemma CalendarExamples()
    ensures MakeDate(2023, 13, 1) == MinDate
    ensures MakeDate(2023, 2, 29) == MinDate
    ensures MakeDate(2024, 2, 29) == Date(2024, 2, 29)
    ensures MakeDate(1900, 2, 29) == MinDate
    ensures MakeDate(2000, 2, 29) == Date(2000, 2, 29)
    ensures MakeDate(2023, 4, 31) == MinDate
    ensures MakeDate(0, 1, 1) == MinDate
  {
  }

  /** `datetime.min` is the earliest date, so undated records sort last under "latest". */
  lemma MinDateIsEarliest(d: Date)
    requires ValidDate(d) && d != MinDate
    ensures Before(MinDate, d)
  {
  }

  lemma BeforeIsStrictTotal(a: Date, b: Date, c: Date)
    ensures !Before(a, a)
    ensures Before(a, b) && Before(b, c) ==> Before(a, c)
    ensures a == b || Before(a, b) || Before(b, a)
  {
  }

  // ---------------------------------------------------------------------------
  // Properties of the decimal rendering

  lemma {:induction false} DecimalDigits(n: nat)
    ensures AllDigits(Decimal(n))
  {
    var ds := Decimal(n);
    if n >= 10 {
      DecimalDigits(n / 10);
      forall i | 0 <= i < |ds| ensures IsDigit(ds[i]) {
        if i < |ds| - 1 {
          assert ds[i] == Decimal(n / 10)[i];
        }
      }
    }
  }

  /** `int(str(n)) == n`. */
  lemma {:induction false} DecimalValue(n: nat)
    ensures AllDigits(Decimal(n)) && Value(Decimal(n)) == n
  {
    DecimalDigits(n);
    var ds := Decimal(n);
    if n >= 10 {
      DecimalValue(n / 10);
      assert ds[..|ds| - 1] == Decimal(n / 10);
      assert ds[|ds| - 1] == DigitChar(n % 10);
      assert DigitValue(DigitChar(n % 10)) == n % 10;
      assert Value(ds) == 10 * (n / 10) + n % 10;
    } else {
      assert ds[..0] == [];
    }
  }

  lemma {:induction false} DecimalShort(n: nat)
    ensures 1 <= |Decimal(n)|
    ensures n < 10 ==> |Decimal(n)| == 1
    ensures 10 <= n < 100 ==> |Decimal(n)| == 2
    ensures n < 100 ==> |Decimal(n)| <= 2
    ensures n < 1000 ==> |Decimal(n)| <= 3
    ensures n < 10000 ==> |Decimal(n)| <= 4
  {
    if n >= 10 {
      DecimalShort(n / 10);
    }
  }

  lemma {:induction false} ValueOfZeros(k: nat)
    ensures AllDigits(seq(k, _ => '0')) && Value(seq(k, _ => '0')) == 0
  {
    if k > 0 {
      ValueOfZeros(k - 1);
      assert seq(k, _ => '0')[..k - 1] == seq(k - 1, _ => '0');
    }
  }

  /** Leading zeros do not change `int()`. */
  lemma {:induction false} ValueLeadingZeros(z: string, ds: string)
    requires AllDigits(z) && Value(z) == 0 && AllDigits(ds)
    ensures AllDigits(z + ds) && Value(z + ds) == Value(ds)
  {
    if ds == [] {
      assert z + ds == z;
    } else {
      ValueLeadingZeros(z, ds[..|ds| - 1]);
      assert (z + ds)[..|z + ds| - 1] == z + ds[..|ds| - 1];
    }
  }

  lemma Pad4Value(n: nat)
    requires n < 10000
    ensures |Pad4(n)| == 4 && AllDigits(Pad4(n)) && Value(Pad4(n)) == n
  {
    DecimalShort(n);
    DecimalValue(n);
    ValueOfZeros(4 - |Decimal(n)|);
    ValueLeadingZeros(seq(4 - |Decimal(n)|, _ => '0'), Decimal(n));
  }

  // ---------------------------------------------------------------------------
  // What the date pattern reads

  lemma MonthPartOf(m: string, rest: string)
    requires 1 <= |m| <= 2 && AllDigits(m)
    ensures MonthPart(m + "." + rest) == Some((m, rest))
  {
    var u := m + "." + rest;
    if |m| == 2 {
      assert u[..2] == m && u[3..] == rest;
    } else {
      assert u[..1] == m && u[2..] == rest;
    }
  }

  lemma DayPartOf(dd: string, rest: string, cont: string -> bool)
    requires 1 <= |dd| <= 2 && AllDigits(dd) && cont(rest)
    requires |dd| == 1 && rest != [] ==> !IsDigit(rest[0])
    ensures DayPart(dd + rest, cont) == Some(dd)
  {
    var v := dd + rest;
    if |dd| == 2 {
      assert v[..2] == dd && v[2..] == rest;
    } else {
      assert v[..1] == dd && v[1..] == rest;
    }
  }

  /** The date pattern reads back the digit strings it is given. */
  lemma DateHeadOf(y: string, ws1: string, m: string, ws2: string, dd: string, rest: string, cont: string -> bool)
    requires |y| == 4 && AllDigits(y) && AllSpace(ws1) && AllSpace(ws2)
    requires 1 <= |m| <= 2 && AllDigits(m) && 1 <= |dd| <= 2 && AllDigits(dd)
    requires cont(rest) && (|dd| == 1 && rest != [] ==> !IsDigit(rest[0]))
    ensures DateHead(y + "." + ws1 + m + "." + ws2 + dd + rest, cont) == Some(Groups(y, m, dd))
  {
    var after := m + "." + ws2 + dd + rest;
    var t := y + "." + ws1 + m + "." + ws2 + dd + rest;
    assert t == y + "." + (ws1 + after);
    assert t[..4] == y && t[4] == '.' && t[5..] == ws1 + after;
    TrimStartSkips(ws1, after);
    assert after == m + "." + (ws2 + (dd + rest));
    MonthPartOf(m, ws2 + (dd + rest));
    TrimStartSkips(ws2, dd + rest);
    DayPartOf(dd, rest, cont);
  }

  /** Positions where `head` does not match are skipped. */
  lemma {:induction false} SearchSkips(s: string, i: nat, k: nat, head: string -> Option<Groups>)
    requires i <= k <= |s|
    requires forall j :: i <= j < k ==> head(s[j..]).None?
    ensures Search(s, i, head) == Search(s, k, head)
    decreases k - i
  {
    if i < k {
      SearchSkips(s, i + 1, k, head);
    }
  }

  /** No digit, no date: the row gets `datetime.min`. */
  lemma {:induction false} SearchNeedsDigit(s: string, i: nat)
    requires i <= |s| && forall j :: i <= j < |s| ==> !IsDigit(s[j])
    ensures Search(s, i, PlainDate).None?
    decreases |s| - i
  {
    var t := s[i..];
    if |t| >= 5 {
      assert t[..4][0] == s[i];
    }
    if i < |s| {
      SearchNeedsDigit(s, i + 1);
    }
  }

  lemma NoDigitNoDate(s: string)
    requires forall j :: 0 <= j < |s| ==> !IsDigit(s[j])
    ensures ParseKoreanDate(s) == MinDate
  {
    var t := Trim(s);
    forall j | 0 <= j < |t| ensures !IsDigit(t[j]) {
      assert t[j] in s;
    }
    SearchNeedsDigit(t, 0);
  }

  /** `re.search` finds nothing exactly when the pattern matches at no position. */
  lemma {:induction false} SearchNone(s: string, i: nat, head: string -> Option<Groups>)
    requires i <= |s|
    ensures Search(s, i, head).None? <==> forall j :: i <= j <= |s| ==> head(s[j..]).None?
    decreases |s| - i
  {
    if head(s[i..]).None? && i < |s| {
      SearchNone(s, i + 1, head);
    }
  }

  /** What `re.search` finds is the match at the leftmost position where there is one. */
  lemma {:induction false} SearchLeftmost(s: string, i: nat, head: string -> Option<Groups>)
    requires i <= |s| && Search(s, i, head).Some?
    ensures exists k :: i <= k <= |s| && head(s[k..]) == Search(s, i, head) &&
              forall j :: i <= j < k ==> head(s[j..]).None?
    decreases |s| - i
  {
    if head(s[i..]).None? {
      SearchLeftmost(s, i + 1, head);
      var k :| i + 1 <= k <= |s| && head(s[k..]) == Search(s, i + 1, head) &&
               forall j :: i + 1 <= j < k ==> head(s[j..]).None?;
      assert forall j :: i <= j < k ==> head(s[j..]).None?;
    } else {
      assert head(s[i..]) == Search(s, i, head);
    }
  }

  /** A match with none to its left is what `re.search` finds. */
  lemma SearchFirst(s: string, k: nat, head: string -> Option<Groups>)
    requires k <= |s| && head(s[k..]).Some?
    requires forall j :: 0 <= j < k ==> head(s[j..]).None?
    ensures Search(s, 0, head) == head(s[k..])
  {
    SearchSkips(s, 0, k, head);
  }

  /** A match of the date pattern is four digits, a dot, whitespace, one or two
      digits, a dot, whitespace and one or two digits, after which `cont` holds;
      the groups are those digit strings, and `int()` of them is defined. */
  lemma DateHeadSound(t: string, cont: string -> bool)
    requires DateHead(t, cont).Some?
    ensures var g := DateHead(t, cont).value;
      |g.year| == 4 && AllDigits(g.year) && 1 <= |g.month| <= 2 && AllDigits(g.month) &&
      1 <= |g.day| <= 2 && AllDigits(g.day) &&
      ToDate(g) == MakeDate(Value(g.year), Value(g.month), Value(g.day)) &&
      exists ws1, ws2, rest :: AllSpace(ws1) && AllSpace(ws2) && cont(rest) &&
        t == g.year + "." + ws1 + g.month + "." + ws2 + g.day + rest
  {
    var g := DateHead(t, cont).value;
    var a := t[5..];
    var ws1 := SpacePrefix(a);
    var u := TrimStart(a);
    var mv := MonthPart(u).value;
    MonthPartSound(u);
    var ws2 := SpacePrefix(mv.1);
    var v := TrimStart(mv.1);
    DayPartSound(v, cont);
    var rest := v[|g.day|..];
    assert t == g.year + "." + a;
    Glue(g.year, ws1, u, g.month, mv.1, ws2, v, g.day, rest);
    assert t == g.year + "." + ws1 + g.month + "." + ws2 + g.day + rest;
  }

  /** The whitespace `TrimStart` removes. */
  function SpacePrefix(a: string): (w: string)
    ensures AllSpace(w) && a == w + TrimStart(a)
  {
    TrimStartFacts(a);
    a[..|a| - |TrimStart(a)|]
  }

  lemma MonthPartSound(u: string)
    requires MonthPart(u).Some?
    ensures var mv := MonthPart(u).value;
      1 <= |mv.0| <= 2 && AllDigits(mv.0) && u == mv.0 + "." + mv.1
  {
  }

  lemma DayPartSound(v: string, cont: string -> bool)
    requires DayPart(v, cont).Some?
    ensures var d := DayPart(v, cont).value;
      1 <= |d| <= 2 && AllDigits(d) && cont(v[|d|..]) && v == d + v[|d|..]
  {
  }

  lemma Glue(y: string, ws1: string, u: string, m: string, mrest: string, ws2: string, v: string, d: string, rest: string)
    requires u == m + "." + mrest && mrest == ws2 + v && v == d + rest
    ensures y + "." + (ws1 + u) == y + "." + ws1 + m + "." + ws2 + d + rest
  {
  }

  /** The first "YYYY. M. D" in the stripped cell is the date read: no match of
      the pattern starts before it, and a one-digit day is not followed by a
      digit (which the pattern would take as a second digit of the day). */
  lemma ParseKoreanDateOf(s: string, pre: string, y: string, ws1: string, m: string,
                          ws2: string, dd: string, post: string)
    requires Trim(s) == pre + (y + "." + ws1 + m + "." + ws2 + dd + post)
    requires forall j :: 0 <= j < |pre| ==> PlainDate(Trim(s)[j..]).None?
    requires |y| == 4 && AllDigits(y) && AllSpace(ws1) && AllSpace(ws2)
    requires 1 <= |m| <= 2 && AllDigits(m) && 1 <= |dd| <= 2 && AllDigits(dd)
    requires |dd| == 1 && post != [] ==> !IsDigit(post[0])
    ensures ParseKoreanDate(s) == MakeDate(Value(y), Value(m), Value(dd))
  {
    var t := Trim(s);
    var core := y + "." + ws1 + m + "." + ws2 + dd + post;
    assert t[|pre|..] == core;
    DateHeadOf(y, ws1, m, ws2, dd, post, AnyRest);
    SearchFirst(t, |pre|, PlainDate);
  }

  /** Without a match in the stripped cell the key is `datetime.min`; any other
      key is the date of the leftmost match. */
  lemma ParseKoreanDateSound(s: string)
    ensures (forall k :: 0 <= k <= |Trim(s)| ==> PlainDate(Trim(s)[k..]).None?) ==> ParseKoreanDate(s) == MinDate
    ensures ParseKoreanDate(s) != MinDate ==>
      exists k :: 0 <= k <= |Trim(s)| && PlainDate(Trim(s)[k..]).Some? &&
        (forall j :: 0 <= j < k ==> PlainDate(Trim(s)[j..]).None?) &&
        ParseKoreanDate(s) == ToDate(PlainDate(Trim(s)[k..]).value)
  {
    var t := Trim(s);
    SearchNone(t, 0, PlainDate);
    if Search(t, 0, PlainDate).Some? {
      SearchLeftmost(t, 0, PlainDate);
    }
  }

  lemma DateTextTrimmed(head: string, dd: string, post: string)
    requires head != [] && IsDigit(head[0]) && dd != [] && IsDigit(dd[|dd| - 1])
    requires post == [] || !IsSpace(post[|post| - 1])
    ensures IsTrimmed(head + dd + post)
  {
    var s := head + dd + post;
    assert s[0] == head[0];
    if post == [] {
      assert s[|s| - 1] == dd[|dd| - 1];
    } else {
      assert s[|s| - 1] == post[|post| - 1];
    }
  }

  /** Parsing a rendered date gives the date back. */
  lemma RenderParse(d: Date)
    requires ValidDate(d)
    ensures ParseKoreanDate(Render(d)) == d
  {
    Pad4Value(d.year);
    DecimalValue(d.month);
    DecimalValue(d.day);
    DecimalShort(d.month);
    DecimalShort(d.day);
    DateTextTrimmed(Pad4(d.year) + "." + " " + Decimal(d.month) + "." + " ", Decimal(d.day), ".");
    TrimTrimmed(Render(d));
    assert Render(d) == [] + (Pad4(d.year) + "." + " " + Decimal(d.month) + "." + " " + Decimal(d.day) + ".");
    ParseKoreanDateOf(Render(d), [], Pad4(d.year), " ", Decimal(d.month), " ", Decimal(d.day), ".");
  }

  /** No date starts at a position whose first four characters are not all digits. */
  lemma NoYearAt(t: string, k: nat)
    requires k < 4 && k < |t| && !IsDigit(t[k])
    ensures PlainDate(t).None?
  {
    if |t| >= 5 {
      assert t[..4][k] == t[k];
    }
  }

  lemma ValueExamples()
    ensures AllDigits("2023") && Value("2023") == 2023
    ensures Value("30") == 30 && Value("2") == 2 && Value("12") == 12 && Value("5") == 5
  {
    assert "2023"[..3] == "202" && "202"[..2] == "20" && "20"[..1] == "2" && "2"[..0] == [];
    assert "30"[..1] == "3" && "3"[..0] == [];
    assert "12"[..1] == "1" && "1"[..0] == [];
    assert "5"[..0] == [];
  }

  /** An impossible day in a well-formed cell falls back to `datetime.min`. */
  lemma ParseInvalidExample()
    ensures ParseKoreanDate("2023. 2. 30.") == MinDate
  {
    ValueExamples();
    var s := "2023. 2. 30.";
    TrimTrimmed(s);
    assert s == "" + ("2023" + "." + " " + "2" + "." + " " + "30" + ".");
    ParseKoreanDateOf(s, "", "2023", " ", "2", " ", "30", ".");
  }

  /** The spaces after the dots are optional. */
  lemma ParseCompactExample()
    ensures ParseKoreanDate("2023.12.5") == Date(2023, 12, 5)
  {
    ValueExamples();
    var s := "2023.12.5";
    TrimTrimmed(s);
    assert s == "" + ("2023" + "." + "" + "12" + "." + "" + "5" + "");
    ParseKoreanDateOf(s, "", "2023", "", "12", "", "5", "");
  }

  /** Digits before the date that do not start a match are passed over. */
  lemma ParseAfterInstanceExample()
    ensures ParseKoreanDate("제1심 2023. 5. 12.") == Date(2023, 5, 12)
  {
    ValueExamples();
    var s := "제1심 2023. 5. 12.";
    TrimTrimmed(s);
    var pre := "제1심 ";
    assert s == pre + ("2023" + "." + " " + "5" + "." + " " + "12" + ".");
    forall j | 0 <= j < |pre| ensures PlainDate(s[j..]).None? {
      if j == 1 {
        NoYearAt(s[j..], 1);
      } else {
        NoYearAt(s[j..], 0);
      }
    }
    ParseKoreanDateOf(s, pre, "2023", " ", "5", " ", "12", ".");
  }

  // ---------------------------------------------------------------------------
  // What the court pattern reads

  /** Zero-width characters anywhere in the text do not change the date read. */
  lemma ExtractIgnoresZeroWidth(a: string, z: string, b: string)
    requires forall j :: 0 <= j < |z| ==> IsZeroWidth(z[j])
    ensures ExtractDateFromInfo(a + z + b) == ExtractDateFromInfo(a + b)
  {
    WithoutAppend(a + z, b, IsZeroWidth);
    WithoutAppend(a, z, IsZeroWidth);
    WithoutAppend(a, b, IsZeroWidth);
    WithoutAll(z, IsZeroWidth);
    assert Without(a, IsZeroWidth) + [] == Without(a, IsZeroWidth);
  }

  /** Without "대법원" or "헌법재판소" in the text, zero-width characters deleted,
      there is no date: the record gets `datetime.min`. */
  lemma NoCourtNoDate(info: string)
    requires !Contains(Cleaned(info), "대법원") && !Contains(Cleaned(info), "헌법재판소")
    ensures ExtractDateFromInfo(info) == MinDate
  {
    var s := Cleaned(info);
    ContainsIff(s, "대법원");
    ContainsIff(s, "헌법재판소");
    forall k | 0 <= k <= |s| ensures CourtDate(s[k..]).None? {
      var t := s[k..];
      if |t| >= 3 {
        assert t[..3] == s[k..k + 3];
        assert !OccursAt(s, "대법원", k);
      }
      if |t| >= 5 {
        assert t[..5] == s[k..k + 5];
        assert !OccursAt(s, "헌법재판소", k);
      }
    }
    SearchNone(s, 0, CourtDate);
  }

  lemma DeclaredNextOf(ws: string, post: string)
    requires AllSpace(ws)
    ensures DeclaredNext(ws + ("선고" + post))
  {
    TrimStartSkips(ws, "선고" + post);
    assert ("선고" + post)[..2] == "선고";
  }

  lemma DeclaredOf(dot: string, ws: string, post: string)
    requires dot == "" || dot == "."
    requires AllSpace(ws)
    ensures Declared(dot + ws + "선고" + post)
  {
    var w := ws + ("선고" + post);
    DeclaredNextOf(ws, post);
    if dot == "." {
      assert (dot + ws + "선고" + post)[1..] == w;
    } else {
      assert dot + ws + "선고" + post == w;
    }
  }

  /** The court pattern read at a court name. */
  lemma CourtDateOf(court: string, ws0: string, y: string, ws1: string, m: string,
                    ws2: string, dd: string, dot: string, ws3: string, post: string)
    requires court == "대법원" || court == "헌법재판소"
    requires ws0 != [] && AllSpace(ws0) && AllSpace(ws1) && AllSpace(ws2) && AllSpace(ws3)
    requires |y| == 4 && AllDigits(y) && 1 <= |m| <= 2 && AllDigits(m) && 1 <= |dd| <= 2 && AllDigits(dd)
    requires dot == "" || dot == "."
    ensures CourtDate(court + (ws0 + (y + "." + ws1 + m + "." + ws2 + dd + (dot + ws3 + "선고" + post)))) == Some(Groups(y, m, dd))
  {
    var rest := dot + ws3 + "선고" + post;
    var date := y + "." + ws1 + m + "." + ws2 + dd + rest;
    var t := court + (ws0 + date);
    if court == "대법원" {
      assert t[..3] == court && t[3..] == ws0 + date;
    } else {
      assert t[..3][0] == '헌';
      assert t[..5] == court && t[5..] == ws0 + date;
    }
    assert date[0] == y[0];
    TrimStartSkips(ws0, date);
    DeclaredOf(dot, ws3, post);
    assert rest[0] == (if dot == "." then '.' else if ws3 != [] then ws3[0] else '선');
    DateHeadOf(y, ws1, m, ws2, dd, rest, Declared);
  }

  /** The first "대법원 2023. 5. 12. 선고" (or 헌법재판소) in the text, zero-width
      characters deleted, gives the date read: no match of the pattern starts
      before it. */
  lemma ExtractDateOf(info: string, pre: string, court: string, ws0: string, y: string, ws1: string, m: string,
                      ws2: string, dd: string, dot: string, ws3: string, post: string)
    requires Cleaned(info) == pre + (court + (ws0 + (y + "." + ws1 + m + "." + ws2 + dd + (dot + ws3 + "선고" + post))))
    requires forall j :: 0 <= j < |pre| ==> CourtDate(Cleaned(info)[j..]).None?
    requires court == "대법원" || court == "헌법재판소"
    requires ws0 != [] && AllSpace(ws0) && AllSpace(ws1) && AllSpace(ws2) && AllSpace(ws3)
    requires |y| == 4 && AllDigits(y) && 1 <= |m| <= 2 && AllDigits(m) && 1 <= |dd| <= 2 && AllDigits(dd)
    requires dot == "" || dot == "."
    ensures ExtractDateFromInfo(info) == MakeDate(Value(y), Value(m), Value(dd))
  {
    var s := Cleaned(info);
    var t := court + (ws0 + (y + "." + ws1 + m + "." + ws2 + dd + (dot + ws3 + "선고" + post)));
    assert s[|pre|..] == t;
    CourtDateOf(court, ws0, y, ws1, m, ws2, dd, dot, ws3, post);
    SearchFirst(s, |pre|, CourtDate);
  }

  /** A match of the court pattern is a court label, whitespace, and a match of
      the date pattern followed by an optional dot, whitespace and "선고". */
  lemma CourtDateSound(t: string)
    requires CourtDate(t).Some?
    ensures exists court, ws0, rest ::
              (court == "대법원" || court == "헌법재판소") && ws0 != [] && AllSpace(ws0) &&
              t == court + ws0 + rest && DateHead(rest, Declared) == CourtDate(t)
  {
    var u := AfterCourt(t).value;
    AfterCourtSplit(t);
    var court := t[..|t| - |u|];
    var ws0 := SpacePrefix(u);
    var rest := TrimStart(u);
    LeadingSpaceKept(u);
    assert t == court + ws0 + rest;
    assert DateHead(rest, Declared) == CourtDate(t);
  }

  /** What `AfterCourt` cuts off is one of the two court labels. */
  lemma AfterCourtSplit(t: string)
    requires AfterCourt(t).Some?
    ensures var n := |t| - |AfterCourt(t).value|;
      0 <= n <= |t| && (t[..n] == "대법원" || t[..n] == "헌법재판소") && t == t[..n] + AfterCourt(t).value
  {
  }

  /** A text that starts with whitespace has a non-empty whitespace prefix. */
  lemma LeadingSpaceKept(u: string)
    requires u != [] && IsSpace(u[0])
    ensures SpacePrefix(u) != []
  {
    TrimStartFacts(u[1..]);
    assert TrimStart(u) == TrimStart(u[1..]);
  }

  /** `\.?\s*선고`: an optional dot, whitespace, then "선고". */
  lemma DeclaredSound(w: string)
    requires Declared(w)
    ensures exists dot, ws, post :: (dot == "" || dot == ".") && AllSpace(ws) && w == dot + ws + "선고" + post
  {
    if w != [] && w[0] == '.' && DeclaredNext(w[1..]) {
      var x := w[1..];
      DeclaredNextSound(x);
      var ws, post := SpacePrefix(x), TrimStart(x)[2..];
      assert w == "." + x;
      assert w == "." + ws + "선고" + post;
    } else {
      DeclaredNextSound(w);
      var ws, post := SpacePrefix(w), TrimStart(w)[2..];
      assert w == "" + ws + "선고" + post;
    }
  }

  /** `\s*선고`: whitespace, then "선고". */
  lemma DeclaredNextSound(x: string)
    requires DeclaredNext(x)
    ensures x == SpacePrefix(x) + "선고" + TrimStart(x)[2..]
  {
    var r := TrimStart(x);
    assert r == r[..2] + r[2..];
  }

  /** Without a match in the cleaned text the key is `datetime.min`; any other
      key is the date of the leftmost match. */
  lemma ExtractDateSound(info: string)
    ensures (forall k :: 0 <= k <= |Cleaned(info)| ==> CourtDate(Cleaned(info)[k..]).None?) ==>
      ExtractDateFromInfo(info) == MinDate
    ensures ExtractDateFromInfo(info) != MinDate ==>
      exists k :: 0 <= k <= |Cleaned(info)| && CourtDate(Cleaned(info)[k..]).Some? &&
        (forall j :: 0 <= j < k ==> CourtDate(Cleaned(info)[j..]).None?) &&
        ExtractDateFromInfo(info) == ToDate(CourtDate(Cleaned(info)[k..]).value)
  {
    var s := Cleaned(info);
    SearchNone(s, 0, CourtDate);
    if Search(s, 0, CourtDate).Some? {
      SearchLeftmost(s, 0, CourtDate);
    }
  }

  /** No court label starts where one character differs from each label. */
  lemma NoCourtAt(t: string, a: nat, b: nat)
    requires a < 3 && a < |t| && t[a] != "대법원"[a]
    requires b < 5 && b < |t| && t[b] != "헌법재판소"[b]
    ensures CourtDate(t).None?
  {
    if |t| >= 3 {
      assert t[..3][a] == t[a];
    }
    if |t| >= 5 {
      assert t[..5][b] == t[b];
    }
  }

  /** A court label earlier in the text that is not followed by a date is
      passed over. (The text is a parameter so that the verifier does not
      evaluate the recursive functions on a literal.) */
  lemma ExtractAfterMentionExample(s: string)
    requires s == "헌법 위반, 대법원 2023. 5. 12. 선고"
    ensures ExtractDateFromInfo(s) == Date(2023, 5, 12)
  {
    MentionShape(s);
    MentionPrefix(s);
    ValueExamples();
    ExtractDateOf(s, "헌법 위반, ", "대법원", " ", "2023", " ", "5", " ", "12", ".", " ", "");
  }

  lemma MentionShape(s: string)
    requires s == "헌법 위반, 대법원 2023. 5. 12. 선고"
    ensures Cleaned(s) == s
    ensures s == "헌법 위반, " + ("대법원" + (" " + ("2023" + "." + " " + "5" + "." + " " + "12" + ("." + " " + "선고" + ""))))
  {
    forall i | 0 <= i < |s| ensures !IsZeroWidth(s[i]) {
      assert s[i] in s;
    }
    WithoutKeeps(s, IsZeroWidth);
    MentionPieces(s);
  }

  lemma MentionPieces(s: string)
    requires s == "헌법 위반, 대법원 2023. 5. 12. 선고"
    ensures s == "헌법 위반, " + ("대법원" + (" " + ("2023" + "." + " " + "5" + "." + " " + "12" + ("." + " " + "선고" + ""))))
  {
  }

  lemma MentionPrefix(s: string)
    requires s == "헌법 위반, 대법원 2023. 5. 12. 선고"
    ensures forall j :: 0 <= j < 7 ==> CourtDate(s[j..]).None?
  {
    var rest := "법 위반, 대법원 2023. 5. 12. 선고";
    assert s[1..] == rest;
    assert forall j :: 0 <= j < 6 ==> rest[j] != '대' && rest[j] != '헌';
    NoCourtAt(s, 0, 2);
    forall j | 1 <= j < 7 ensures CourtDate(s[j..]).None? {
      assert s[j] == rest[j - 1];
      assert s[j..][0] == s[j];
      NoCourtAt(s[j..], 0, 0);
    }
  }

  /** A lower court's name merely ends in "법원": it is not a court label, and
      the key is `datetime.min`. */
  lemma LowerCourtExample(s: string)
    requires s == "대구지방법원 2023. 5. 12. 선고"
    ensures ExtractDateFromInfo(s) == MinDate
  {
    forall i | 0 <= i < |s| ensures !IsZeroWidth(s[i]) {
      assert s[i] in s;
    }
    WithoutKeeps(s, IsZeroWidth);
    LowerCourtNowhere(s);
    SearchNone(s, 0, CourtDate);
  }

  lemma LowerCourtNowhere(s: string)
    requires s == "대구지방법원 2023. 5. 12. 선고"
    ensures forall k :: 0 <= k <= |s| ==> CourtDate(s[k..]).None?
  {
    var tail := "구지방법원 2023. 5. 12. 선고";
    assert s[1..] == tail;
    assert '대' !in tail && '헌' !in tail;
    NoCourtAt(s, 1, 0);
    forall k | 1 <= k < |s| ensures CourtDate(s[k..]).None? {
      assert s[k] == tail[k - 1];
      assert s[k..][0] == s[k];
      NoCourtAt(s[k..], 0, 0);
    }
  }
}
