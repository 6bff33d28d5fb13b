/**
 * Display grouping of a 참조조문 (reference articles) cell.
 *
 * The cell is cut at commas into stripped, non-empty fragments. Each fragment
 * is matched against the pattern `^(.*?)\s*(제\d+조.*)$`: the statute is the
 * stripped first group, the article the stripped second group. A fragment
 * that does not match goes to the "" statute unchanged. Fragments are then
 * collected into an insertion-ordered dictionary keyed by statute, and every
 * statute's group is printed as "statute first, second, ...", while the ""
 * group contributes its fragments one by one.
 */
module Grouping {
  import opened Text
  import opened Wrappers

  // ---------------------------------------------------------------------------
  // The pattern ^(.*?)\s*(제\d+조.*)$

  predicate NoNewline(s: string) { forall i :: 0 <= i < |s| ==> s[i] != '\n' }

  /** `.*$`: `.` never crosses a newline and `$` matches at the end or before a final newline. */
  predicate RestMatches(r: string)
  {
    NoNewline(r) || (r != [] && r[|r| - 1] == '\n' && NoNewline(r[..|r| - 1]))
  }

  /** `\d+조.*$` on `s`, once `seen` digits have been consumed: the digit run is
    * greedy, and a shorter run would leave a digit where `조` is needed. */
  predicate DigitsThenJo(s: string, seen: bool)
  {
    s != [] &&
    if IsDigit(s[0]) then DigitsThenJo(s[1..], true)
    else seen && s[0] == '조' && RestMatches(s[1..])
  }

  /** `제\d+조.*$` matches the whole of `s`. */
  predicate ArticleHead(s: string)
  {
    s != [] && s[0] == '제' && DigitsThenJo(s[1..], false)
  }

  /** The lazy `(.*?)`: the first end position, from `i` on, after which the greedy
    * `\s*` (giving back whitespace never helps, since `제` is not whitespace)
    * reaches an article head; `.` cannot step over a newline. */
  function LazyFrom(p: string, i: nat): (r: Option<nat>)
    requires i <= |p|
    ensures r.Some? ==> i <= r.value <= |p|
    decreases |p| - i
  {
    if ArticleHead(TrimStart(p[i..])) then Some(i)
    else if i < |p| && p[i] != '\n' then LazyFrom(p, i + 1)
    else None
  }

  /** The text of the second group: `.*` stops before a final newline. */
  function ArticleGroup(s: string): string
  {
    if s == [] || NoNewline(s) then s else s[..|s| - 1]
  }

  /** `re.match(r"^(.*?)\s*(제\d+조.*)$", p)` followed by `.strip()` of both groups. */
  function GroupMatch(p: string): Option<(string, string)>
  {
    match LazyFrom(p, 0)
    case None => None
    case Some(i) => Some((Trim(p[..i]), Trim(ArticleGroup(TrimStart(p[i..])))))
  }

  /** The (statute, fragment) entry a fragment contributes to the dictionary. */
  function Entry(p: string): (string, string)
  {
    match GroupMatch(p)
    case Some(m) => m
    case None => ("", p)
  }

  function Entries(parts: seq<string>): (es: seq<(string, string)>)
    ensures |es| == |parts|
  {
    seq(|parts|, i requires 0 <= i < |parts| => Entry(parts[i]))
  }

  // ---------------------------------------------------------------------------
  // The insertion-ordered dictionary

  type Bucket = (string, seq<string>)

  /** Position of key `k` among the buckets. */
  function Find(b: seq<Bucket>, k: string): (r: Option<nat>)
    ensures r.Some? ==> r.value < |b| && b[r.value].0 == k
    ensures r.None? ==> forall j :: 0 <= j < |b| ==> b[j].0 != k
  {
    if b == [] then None
    else if b[0].0 == k then Some(0)
    else match Find(b[1..], k)
      case None => None
      case Some(j) => Some(j + 1)
  }

  /** `grouped.setdefault(k, []).append(v)`. */
  function SetDefaultAppend(b: seq<Bucket>, k: string, v: string): seq<Bucket>
  {
    match Find(b, k)
    case Some(j) => b[j := (k, b[j].1 + [v])]
    case None => b + [(k, [v])]
  }

  /** The dictionary after inserting every entry in order. */
  function GroupAll(es: seq<(string, string)>): (b: seq<Bucket>)
    ensures forall j :: 0 <= j < |b| ==> b[j].1 != []
  {
    if es == [] then []
    else SetDefaultAppend(GroupAll(es[..|es| - 1]), es[|es| - 1].0, es[|es| - 1].1)
  }

  /** One statute's output: the "" group lists its fragments, any other statute
    * becomes `f"{law} {articles[0]}"` joined by ", " with the other articles. */
  function Cell(law: string, articles: seq<string>): seq<string>
    requires articles != []
  {
    if law == "" then articles
    else [Join(", ", [law + " " + articles[0]] + articles[1..])]
  }

  function Cells(b: seq<Bucket>): seq<string>
    requires forall j :: 0 <= j < |b| ==> b[j].1 != []
  {
    if b == [] then [] else Cells(b[..|b| - 1]) + Cell(b[|b| - 1].0, b[|b| - 1].1)
  }

  /** `group_reference_articles(text)`. */
  function Grouped(text: string): string
  {
    if text == "" then ""
    else Join(", ", Cells(GroupAll(Entries(NonEmptyPieces(text, ',')))))
  }

  /** The loops of `group_reference_articles`: build the dictionary, then the result list. */
  method GroupReferenceArticles(text: string) returns (out: string)
    ensures out == Grouped(text)
  {
    if text == "" {
      return "";
    }
    var parts := NonEmptyPieces(text, ',');
    var grouped := CollectGroups(parts);
    var result := RenderGroups(grouped);
    out := Join(", ", result);
  }

  /** The first loop: file every fragment under its statute. */
  method CollectGroups(parts: seq<string>) returns (grouped: seq<Bucket>)
    ensures grouped == GroupAll(Entries(parts))
  {
    grouped := [];
    for i := 0 to |parts|
      invariant grouped == GroupAll(Entries(parts[..i]))
    {
      assert Entries(parts[..i + 1])[..i] == Entries(parts[..i]);
      var m := GroupMatch(parts[i]);
      if m.Some? {
        grouped := SetDefaultAppend(grouped, m.value.0, m.value.1);
      } else {
        grouped := SetDefaultAppend(grouped, "", parts[i]);
      }
    }
    assert parts[..|parts|] == parts;
  }

  /** The second loop: one or more output items per statute, in dictionary order. */
  method RenderGroups(grouped: seq<Bucket>) returns (result: seq<string>)
    requires forall j :: 0 <= j < |grouped| ==> grouped[j].1 != []
    ensures result == Cells(grouped)
  {
    result := [];
    for j := 0 to |grouped|
      invariant result == Cells(grouped[..j])
    {
      assert grouped[..j + 1][..j] == grouped[..j];
      var law := grouped[j].0;
      var articles := grouped[j].1;
      if law == "" {
        result := result + articles;
      } else {
        var first := law + " " + articles[0];
        var rest := articles[1..];
        result := result + [Join(", ", [first] + rest)];
      }
    }
    assert grouped[..|grouped|] == grouped;
  }

  // ---------------------------------------------------------------------------
  // Reference definitions

  function KeysOf(es: seq<(string, string)>): (ks: seq<string>)
    ensures |ks| == |es|
  {
    seq(|es|, i requires 0 <= i < |es| => es[i].0)
  }

  function Keys(b: seq<Bucket>): (ks: seq<string>)
    ensures |ks| == |b|
  {
    seq(|b|, j requires 0 <= j < |b| => b[j].0)
  }

  /** Each key once, at the position of its first appearance. */
  function FirstAppearances(ks: seq<string>): seq<string>
  {
    if ks == [] then []
    else
      var d := FirstAppearances(ks[..|ks| - 1]);
      if ks[|ks| - 1] in d then d else d + [ks[|ks| - 1]]
  }

  /** The fragments of the entries filed under `k`, in input order. */
  function ValuesFor(es: seq<(string, string)>, k: string): seq<string>
  {
    if es == [] then []
    else ValuesFor(es[..|es| - 1], k) + (if es[|es| - 1].0 == k then [es[|es| - 1].1] else [])
  }

  /** All fragments held by the buckets, bucket after bucket. */
  function AllValues(b: seq<Bucket>): seq<string>
  {
    if b == [] then [] else AllValues(b[..|b| - 1]) + b[|b| - 1].1
  }

  function Fragments(es: seq<(string, string)>): (vs: seq<string>)
    ensures |vs| == |es|
  {
    seq(|es|, i requires 0 <= i < |es| => es[i].1)
  }

  // ---------------------------------------------------------------------------
  // Properties

  lemma GroupedEmpty()
    ensures Grouped("") == ""
  {
  }

  /** Statutes come out once each, in the order of their first appearance. */
  lemma {:induction false} GroupKeys(es: seq<(string, string)>)
    ensures Keys(GroupAll(es)) == FirstAppearances(KeysOf(es))
  {
    if es != [] {
      var pre := es[..|es| - 1];
      var (k, v) := es[|es| - 1];
      GroupKeys(pre);
      assert KeysOf(es)[..|es| - 1] == KeysOf(pre);
      var b := GroupAll(pre);
      match Find(b, k)
      case Some(j) =>
        assert k in Keys(b) by { assert Keys(b)[j] == k; }
        assert Keys(b[j := (k, b[j].1 + [v])]) == Keys(b);
      case None =>
        assert k !in Keys(b);
        assert Keys(b + [(k, [v])]) == Keys(b) + [k];
    }
  }

  lemma {:induction false} FirstAppearancesDistinct(ks: seq<string>)
    ensures forall x :: x in FirstAppearances(ks) <==> x in ks
    ensures forall i, j :: 0 <= i < j < |FirstAppearances(ks)| ==> FirstAppearances(ks)[i] != FirstAppearances(ks)[j]
  {
    if ks != [] {
      FirstAppearancesDistinct(ks[..|ks| - 1]);
      assert ks == ks[..|ks| - 1] + [ks[|ks| - 1]];
    }
  }

  /** Keys absent from the entries have no fragments. */
  lemma {:induction false} ValuesForAbsent(es: seq<(string, string)>, k: string)
    requires k !in KeysOf(es)
    ensures ValuesFor(es, k) == []
  {
    if es != [] {
      assert KeysOf(es)[..|es| - 1] == KeysOf(es[..|es| - 1]);
      assert KeysOf(es)[|es| - 1] == es[|es| - 1].0;
      ValuesForAbsent(es[..|es| - 1], k);
    }
  }

  /** Every statute's group holds exactly its fragments, in input order; so
    * fragments of one statute are merged even when they were not adjacent. */
  lemma {:induction false} GroupValues(es: seq<(string, string)>)
    ensures forall j :: 0 <= j < |GroupAll(es)| ==> GroupAll(es)[j].1 == ValuesFor(es, GroupAll(es)[j].0)
  {
    if es != [] {
      var pre := es[..|es| - 1];
      var (k, v) := es[|es| - 1];
      GroupValues(pre);
      var b := GroupAll(pre);
      GroupKeys(pre);
      FirstAppearancesDistinct(KeysOf(pre));
      assert es[..|es| - 1] == pre;
      match Find(b, k)
      case Some(j) =>
        forall t | 0 <= t < |b| && t != j ensures b[t].0 != k {
          assert Keys(b)[t] != Keys(b)[j];
        }
      case None =>
        assert k !in Keys(b) by {
          forall t | 0 <= t < |b| ensures Keys(b)[t] != k { }
        }
        ValuesForAbsent(pre, k);
    }
  }

  lemma {:induction false} AllValuesUpdate(b: seq<Bucket>, j: nat, x: Bucket, vs: seq<string>)
    requires j < |b| && x.1 == b[j].1 + vs
    ensures multiset(AllValues(b[j := x])) == multiset(AllValues(b)) + multiset(vs)
  {
    var n := |b| - 1;
    if j == n {
      assert b[j := x][..n] == b[..n];
    } else {
      assert b[j := x][..n] == b[..n][j := x];
      AllValuesUpdate(b[..n], j, x, vs);
    }
  }

  /** Every fragment appears exactly once among the groups. */
  lemma {:induction false} GroupKeepsFragments(es: seq<(string, string)>)
    ensures multiset(AllValues(GroupAll(es))) == multiset(Fragments(es))
  {
    if es != [] {
      var pre := es[..|es| - 1];
      var (k, v) := es[|es| - 1];
      GroupKeepsFragments(pre);
      assert Fragments(es) == Fragments(pre) + [v];
      var b := GroupAll(pre);
      match Find(b, k)
      case Some(j) =>
        AllValuesUpdate(b, j, (k, b[j].1 + [v]), [v]);
      case None =>
        assert (b + [(k, [v])])[..|b|] == b;
    }
  }

  /** A statute's group reads "statute a1, a2, ...": the statute once, before its first article. */
  lemma CellOfStatute(law: string, articles: seq<string>)
    requires law != "" && articles != []
    ensures Cell(law, articles) == [law + " " + Join(", ", articles)]
  {
    var first := law + " " + articles[0];
    var rest := articles[1..];
    if rest == [] {
      assert [first] + rest == [first];
    } else {
      JoinPrefixed(", ", law + " ", articles);
    }
  }

  /** Prefixing the first part prefixes the join. */
  lemma JoinPrefixed(sep: string, p: string, parts: seq<string>)
    requires |parts| >= 2
    ensures Join(sep, [p + parts[0]] + parts[1..]) == p + Join(sep, parts)
  {
    var rest := parts[1..];
    var j := Join(sep, rest);
    JoinCons(sep, p + parts[0], rest);
    assert parts == [parts[0]] + rest;
    JoinCons(sep, parts[0], rest);
    assert p + parts[0] + sep + j == p + (parts[0] + sep + j);
  }

  /** The lazy group ends where the rest of the pattern matches. */
  lemma {:induction false} LazyFromHead(p: string, i: nat)
    requires i <= |p| && LazyFrom(p, i).Some?
    ensures ArticleHead(TrimStart(p[LazyFrom(p, i).value..]))
    decreases |p| - i
  {
    if !ArticleHead(TrimStart(p[i..])) {
      LazyFromHead(p, i + 1);
    }
  }

  /** The first group never holds a newline. */
  lemma {:induction false} LazyFromNoNewline(p: string, i: nat)
    requires i <= |p| && LazyFrom(p, i).Some?
    ensures NoNewline(p[i..LazyFrom(p, i).value])
    decreases |p| - i
  {
    if !ArticleHead(TrimStart(p[i..])) {
      LazyFromNoNewline(p, i + 1);
      var r := LazyFrom(p, i).value;
      assert p[i..r] == [p[i]] + p[i + 1..r];
    }
  }

  /** No earlier end position lets the rest of the pattern match. */
  lemma {:induction false} LazyFromIsFirst(p: string, i: nat, k: nat)
    requires i <= k <= |p| && NoNewline(p[i..k]) && ArticleHead(TrimStart(p[k..]))
    ensures LazyFrom(p, i).Some? && LazyFrom(p, i).value <= k
    decreases k - i
  {
    if i < k && !ArticleHead(TrimStart(p[i..])) {
      assert p[i..k][0] == p[i];
      assert p[i + 1..k] == p[i..k][1..];
      LazyFromIsFirst(p, i + 1, k);
    }
  }

  lemma {:induction false} DigitsThenJoNoNewline(s: string, seen: bool)
    requires DigitsThenJo(s, seen) && s[|s| - 1] != '\n'
    ensures NoNewline(s)
  {
    if IsDigit(s[0]) {
      DigitsThenJoNoNewline(s[1..], true);
      assert s == [s[0]] + s[1..];
    } else {
      var r := s[1..];
      if r != [] {
        assert r[|r| - 1] == s[|s| - 1];
      }
      assert s == [s[0]] + r;
    }
  }

  /** Without a final newline, the article group is the whole matched text. */
  lemma HeadGroup(s: string)
    requires ArticleHead(s) && s[|s| - 1] != '\n'
    ensures ArticleGroup(s) == s
  {
    DigitsThenJoNoNewline(s[1..], false);
    assert s == [s[0]] + s[1..];
  }

  /** A stripped fragment that is filed under the "" statute is emitted unchanged. */
  lemma UnfiledFragmentUnchanged(p: string)
    requires p != "" && IsTrimmed(p)
    requires Entry(p).0 == ""
    ensures Entry(p).1 == p
  {
    match LazyFrom(p, 0)
    case None =>
    case Some(i) =>
      if i > 0 {
        assert p[..i][0] == p[0];
        TrimEndFacts(p[..i]);
      } else {
        assert p[0..] == p;
        LazyFromHead(p, 0);
        HeadGroup(p);
        TrimTrimmed(p);
      }
  }

  /** No `제` of the statute is followed by a digit, so no article head starts
      inside it; a `제` elsewhere ("특정경제범죄", "국제", "제주") is allowed. */
  predicate NoArticleStart(law: string)
  {
    forall u :: 0 <= u < |law| - 1 && law[u] == '제' ==> !IsDigit(law[u + 1])
  }

  /** Inside a trimmed statute the greedy `\s*` stops at a character of the
      statute, and no article head starts there. */
  lemma LawPrefixNoHead(law: string, rest: string, t: nat)
    requires IsTrimmed(law) && NoArticleStart(law) && t < |law|
    requires rest == [] || !IsDigit(rest[0])
    ensures !ArticleHead(TrimStart((law + rest)[t..]))
  {
    var s := (law + rest)[t..];
    TrimStartFacts(s);
    var g := |s| - |TrimStart(s)|;
    assert s[|law| - 1 - t] == law[|law| - 1];
    TrimStartStops(s, |law| - 1 - t);
    var h := TrimStart(s);
    assert h[0] == s[g] == law[t + g];
    if h[0] == '제' && |h| > 1 {
      assert h[1] == s[g + 1] == (law + rest)[t + g + 1];
      if t + g + 1 < |law| {
        assert h[1] == law[t + g + 1];
      } else {
        assert h[1] == rest[0];
      }
      assert h[1..][0] == h[1];
    }
  }

  /** A statute with no article head and no newline is consumed entirely by the lazy group. */
  lemma {:induction false} LazyThroughLaw(law: string, rest: string, i: nat)
    requires i <= |law| && IsTrimmed(law) && NoNewline(law) && NoArticleStart(law)
    requires rest == [] || !IsDigit(rest[0])
    ensures LazyFrom(law + rest, i) == LazyFrom(law + rest, |law|)
    decreases |law| - i
  {
    if i < |law| {
      LawPrefixNoHead(law, rest, i);
      assert (law + rest)[i] == law[i];
      LazyThroughLaw(law, rest, i + 1);
    }
  }

  lemma {:induction false} DigitsThenJoOf(digits: string, tail: string, seen: bool)
    requires AllDigits(digits) && (seen || digits != []) && RestMatches(tail)
    ensures DigitsThenJo(digits + "조" + tail, seen)
  {
    if digits != [] {
      assert (digits + "조" + tail)[1..] == digits[1..] + "조" + tail;
      DigitsThenJoOf(digits[1..], tail, true);
    } else {
      assert digits + "조" + tail == "조" + tail;
      assert ("조" + tail)[1..] == tail;
    }
  }

  /** `제<digits>조<tail>` is an article head that its group reproduces after stripping. */
  lemma ArticleText(digits: string, tail: string)
    requires digits != [] && AllDigits(digits) && NoNewline(tail)
    requires tail == [] || !IsSpace(tail[|tail| - 1])
    ensures ArticleHead("제" + digits + "조" + tail)
    ensures Trim(ArticleGroup("제" + digits + "조" + tail)) == "제" + digits + "조" + tail
  {
    var art := "제" + digits + "조" + tail;
    DigitsThenJoOf(digits, tail, false);
    assert art == "제" + (digits + "조" + tail);
    assert art[|art| - 1] == (if tail == [] then '조' else tail[|tail| - 1]);
    HeadGroup(art);
    TrimTrimmed(art);
  }

  /** A fragment "statute article" is split into its statute and its article. */
  lemma StatuteFragment(law: string, ws: string, digits: string, tail: string)
    requires IsTrimmed(law) && NoNewline(law) && NoArticleStart(law) && AllSpace(ws)
    requires digits != [] && AllDigits(digits) && NoNewline(tail)
    requires tail == [] || !IsSpace(tail[|tail| - 1])
    ensures GroupMatch(law + ws + ("제" + digits + "조" + tail)) == Some((law, "제" + digits + "조" + tail))
  {
    var art := "제" + digits + "조" + tail;
    var p := law + ws + art;
    var k := |law|;
    assert p == law + (ws + art);
    assert (ws + art)[0] == (if ws == [] then '제' else ws[0]);
    LazyThroughLaw(law, ws + art, 0);
    assert p[k..] == ws + art;
    TrimStartSkips(ws, art);
    ArticleText(digits, tail);
    assert LazyFrom(p, k) == Some(k);
    assert p[..k] == law;
    TrimTrimmed(law);
  }

  /** A statute whose only `제` is followed by something other than a digit. */
  lemma NoArticleStartOf(a: string, b: string)
    requires '제' !in a && '제' !in b && (b == [] || !IsDigit(b[0]))
    ensures NoArticleStart(a + "제" + b)
  {
    var law := a + "제" + b;
    forall u | 0 <= u < |law| - 1 ensures law[u] == '제' ==> !IsDigit(law[u + 1]) {
      if u < |a| {
        assert law[u] == a[u] && a[u] in a;
      } else if u > |a| {
        assert law[u] == b[u - |a| - 1] && b[u - |a| - 1] in b;
      } else {
        assert law[u + 1] == b[0];
      }
    }
  }

  /** A statute name that holds a `제` of its own keeps it: the lazy group
      passes over "경제" and splits at "제3조". (The texts are parameters so
      that the verifier does not evaluate the recursive functions on literals.) */
  lemma StatuteWithJeExample(law: string, p: string)
    requires law == "특정경제범죄 가중처벌 등에 관한 법률" && p == law + " 제3조"
    ensures GroupMatch(p) == Some((law, "제3조"))
  {
    StatuteWithJeFacts(law);
    assert "제" + "3" + "조" + "" == "제3조";
    assert p == law + " " + ("제" + "3" + "조" + "");
    StatuteFragment(law, " ", "3", "");
  }

  lemma StatuteWithJeFacts(law: string)
    requires law == "특정경제범죄 가중처벌 등에 관한 법률"
    ensures IsTrimmed(law) && NoNewline(law) && NoArticleStart(law)
  {
    NoArticleStartOf("특정경", "범죄 가중처벌 등에 관한 법률");
    assert law == "특정경" + "제" + "범죄 가중처벌 등에 관한 법률";
    forall i | 0 <= i < |law| ensures law[i] != '\n' {
      assert law[i] in law;
    }
  }

  /** Fragments of one statute are merged even when another statute sits between them. */
  lemma MergeExample()
    ensures GroupAll([("형법", "제1조"), ("민법", "제2조"), ("형법", "제3조")])
         == [("형법", ["제1조", "제3조"]), ("민법", ["제2조"])]
    ensures Join(", ", Cells([("형법", ["제1조", "제3조"]), ("민법", ["제2조"])]))
         == "형법 제1조, 제3조, 민법 제2조"
  {
    MergeExampleGroups();
    MergeExampleCells();
  }

  lemma MergeExampleGroups()
    ensures GroupAll([("형법", "제1조"), ("민법", "제2조"), ("형법", "제3조")])
         == [("형법", ["제1조", "제3조"]), ("민법", ["제2조"])]
  {
    var e1 := [("형법", "제1조")];
    var e2 := e1 + [("민법", "제2조")];
    var es := e2 + [("형법", "제3조")];
    assert e1[..0] == [];
    var b1 := [("형법", ["제1조"])];
    assert Find([], "형법") == None;
    assert GroupAll(e1) == b1;
    assert e2[..1] == e1;
    assert Find(b1[1..], "민법") == None;
    assert Find(b1, "민법") == None;
    var b2 := b1 + [("민법", ["제2조"])];
    assert GroupAll(e2) == b2;
    assert es[..2] == e2;
    assert Find(b2, "형법") == Some(0);
    assert b2[0] == ("형법", ["제1조"]);
    assert ["제1조"] + ["제3조"] == ["제1조", "제3조"];
    var b := [("형법", ["제1조", "제3조"]), ("민법", ["제2조"])];
    assert b2[0 := ("형법", b2[0].1 + ["제3조"])] == b;
    assert GroupAll(es) == b;
    assert es == [("형법", "제1조"), ("민법", "제2조"), ("형법", "제3조")];
  }

  lemma MergeExampleCells()
    ensures Join(", ", Cells([("형법", ["제1조", "제3조"]), ("민법", ["제2조"])]))
         == "형법 제1조, 제3조, 민법 제2조"
  {
    var b := [("형법", ["제1조", "제3조"]), ("민법", ["제2조"])];
    assert b[..1] == [("형법", ["제1조", "제3조"])];
    assert b[..1][..0] == [];
    JoinCons(", ", "형법 제1조", ["제3조"]);
  }

}
