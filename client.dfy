/** The browser-side arithmetic and text logic of the search page: the keyword
    list taken from the input box (script.js:156-159), the single-pass highlighter
    `highlightText` (script.js:366-386) and the page buttons of
    `createPagination` (script.js:388-429). */
module Client {
  import opened Text
  import opened Wrappers
  import opened Elastic
  import Paging

  // ---------------------------------------------------------------------------
  // Keyword list

  /** JavaScript's white space and line terminators: `\s` in a regular
      expression and what `String.prototype.trim` removes. */
  predicate JsIsSpace(c: char)
  {
    || '\t' <= c <= '\r'
    || c == ' ' || c == '\U{A0}' || c == '\U{1680}'
    || '\U{2000}' <= c <= '\U{200A}'
    || c == '\U{2028}' || c == '\U{2029}' || c == '\U{202F}' || c == '\U{205F}'
    || c == '\U{3000}' || c == '\U{FEFF}'
  }

  function JsTrimStart(s: string): string
  {
    if s != [] && JsIsSpace(s[0]) then JsTrimStart(s[1..]) else s
  }

  function JsTrimEnd(s: string): string
  {
    if s != [] && JsIsSpace(s[|s| - 1]) then JsTrimEnd(s[..|s| - 1]) else s
  }

  /** `s.trim()`. */
  function JsTrim(s: string): string
  {
    JsTrimEnd(JsTrimStart(s))
  }

  predicate JsTrimmed(s: string)
  {
    s == [] || (!JsIsSpace(s[0]) && !JsIsSpace(s[|s| - 1]))
  }

  lemma {:induction false} JsTrimStartFacts(s: string)
    ensures JsTrimStart(s) == [] || !JsIsSpace(JsTrimStart(s)[0])
    ensures |JsTrimStart(s)| <= |s| && JsTrimStart(s) == s[|s| - |JsTrimStart(s)|..]
  {
    if s != [] && JsIsSpace(s[0]) {
      JsTrimStartFacts(s[1..]);
    }
  }

  lemma {:induction false} JsTrimEndFacts(s: string)
    ensures JsTrimEnd(s) == [] || !JsIsSpace(JsTrimEnd(s)[|JsTrimEnd(s)| - 1])
    ensures |JsTrimEnd(s)| <= |s| && JsTrimEnd(s) == s[..|JsTrimEnd(s)|]
  {
    if s != [] && JsIsSpace(s[|s| - 1]) {
      JsTrimEndFacts(s[..|s| - 1]);
    }
  }

  /** `trim` leaves no white space at either end, keeps a middle slice of the
      text, and changes nothing in a text that is already trimmed. */
  lemma JsTrimMeaning(s: string)
    ensures JsTrimmed(JsTrim(s))
    ensures exists i, j :: 0 <= i <= j <= |s| && JsTrim(s) == s[i..j]
    ensures JsTrimmed(s) ==> JsTrim(s) == s
  {
    var t := JsTrimStart(s);
    JsTrimStartFacts(s);
    JsTrimEndFacts(t);
    var r := JsTrimEnd(t);
    if r != [] {
      assert r[0] == t[0];
    }
    var i := |s| - |t|;
    assert r == s[i..i + |r|];
  }

  /** `pieces.map((k) => k.trim()).filter(Boolean)`. */
  function TrimAndDrop(pieces: seq<string>): seq<string>
  {
    if pieces == [] then []
    else (if JsTrim(pieces[0]) == "" then [] else [JsTrim(pieces[0])]) + TrimAndDrop(pieces[1..])
  }

  /** The keywords the page searches for and highlights: the input split at
      commas, each piece trimmed, empty pieces dropped. */
  function ParseKeywords(input: string): seq<string>
  {
    TrimAndDrop(SplitOn(input, ','))
  }

  /** Each keyword is non-empty, trimmed and free of commas. */
  ghost predicate ProperKeywords(ks: seq<string>)
  {
    forall i :: 0 <= i < |ks| ==> ks[i] != "" && JsTrimmed(ks[i]) && ',' !in ks[i]
  }

  lemma {:induction false} TrimAndDropProper(pieces: seq<string>)
    requires forall i :: 0 <= i < |pieces| ==> ',' !in pieces[i]
    ensures ProperKeywords(TrimAndDrop(pieces))
  {
    if pieces != [] {
      TrimAndDropProper(pieces[1..]);
      JsTrimMeaning(pieces[0]);
      var i, j :| 0 <= i <= j <= |pieces[0]| && JsTrim(pieces[0]) == pieces[0][i..j];
      assert forall c :: c in pieces[0][i..j] ==> c in pieces[0];
    }
  }

  /** Every parsed keyword is non-empty, trimmed and free of commas. */
  lemma ParseKeywordsProper(input: string)
    ensures ProperKeywords(ParseKeywords(input))
  {
    TrimAndDropProper(SplitOn(input, ','));
  }

  lemma {:induction false} TrimAndDropKeeps(ks: seq<string>)
    requires ProperKeywords(ks)
    ensures TrimAndDrop(ks) == ks
  {
    if ks != [] {
      JsTrimMeaning(ks[0]);
      TrimAndDropKeeps(ks[1..]);
    }
  }

  /** Writing a proper keyword list with commas between, and parsing it, gives
      back the list. */
  lemma ParseKeywordsJoin(ks: seq<string>)
    requires ks != [] && ProperKeywords(ks)
    ensures ParseKeywords(Join([','], ks)) == ks
  {
    SplitJoin(ks, ',');
    TrimAndDropKeeps(ks);
  }

  // ---------------------------------------------------------------------------
  // The single-pass highlighter

  const MarkOpen: string := "<mark class=\"highlight\">"
  const MarkClose: string := "</mark>"

  /** The alternation at one position: the first keyword, in list order, whose
      elastic pattern matches there decides the match. */
  function FirstAlt(ks: seq<string>, t: string): (r: Option<nat>)
    requires forall i :: 0 <= i < |ks| ==> ks[i] != ""
    ensures r.Some? ==> 1 <= r.value <= |t|
  {
    if ks == [] then None
    else
      match MatchLen(ks[0], t, JsIsSpace)
      case Some(n) => Some(n)
      case None => FirstAlt(ks[1..], t)
  }

  /** The scan of one global `replace` with the combined pattern. */
  function AltPieces(ks: seq<string>, t: string): seq<Piece>
    requires forall i :: 0 <= i < |ks| ==> ks[i] != ""
    decreases |t|
  {
    if t == [] then []
    else
      match FirstAlt(ks, t)
      case Some(n) => [Marked(t[..n])] + AltPieces(ks, t[n..])
      case None => [Plain(t[0])] + AltPieces(ks, t[1..])
  }

  /** `highlightText(text)` with `currentSearchKeywords == keywords`, for a
      string `text`; the keywords are the parsed ones, so none is empty. The
      combined pattern is read as the patterns of the keywords themselves, which
      is what the source builds for keywords without pattern metacharacters
      (`AsWrittenSameWithoutSpecials`). */
  function HighlightText(keywords: seq<string>, text: string): string
    requires forall i :: 0 <= i < |keywords| ==> keywords[i] != ""
  {
    if keywords == [] || text == "" then text
    else Render(AltPieces(keywords, text), MarkOpen, MarkClose)
  }

  /** The alternation picks the earliest-listed keyword that matches at this
      position, and nothing when none does. */
  lemma {:induction false} FirstAltMeaning(ks: seq<string>, t: string)
    requires forall i :: 0 <= i < |ks| ==> ks[i] != ""
    ensures FirstAlt(ks, t).None? <==> forall j :: 0 <= j < |ks| ==> MatchLen(ks[j], t, JsIsSpace).None?
    ensures FirstAlt(ks, t).Some? ==>
      exists j :: 0 <= j < |ks| && MatchLen(ks[j], t, JsIsSpace) == FirstAlt(ks, t) &&
        forall i :: 0 <= i < j ==> MatchLen(ks[i], t, JsIsSpace).None?
  {
    if ks != [] {
      FirstAltMeaning(ks[1..], t);
      if MatchLen(ks[0], t, JsIsSpace).None? {
        if FirstAlt(ks, t).Some? {
          var j :| 0 <= j < |ks| - 1 && MatchLen(ks[1..][j], t, JsIsSpace) == FirstAlt(ks, t) &&
            forall i :: 0 <= i < j ==> MatchLen(ks[1..][i], t, JsIsSpace).None?;
          assert ks[1..][j] == ks[j + 1];
          assert forall i :: 0 < i < j + 1 ==> ks[1..][i - 1] == ks[i];
        }
        if forall j :: 0 <= j < |ks| - 1 ==> MatchLen(ks[1..][j], t, JsIsSpace).None? {
          forall j | 0 <= j < |ks| ensures MatchLen(ks[j], t, JsIsSpace).None? {
            if j > 0 { assert ks[1..][j - 1] == ks[j]; }
          }
        }
        if forall j :: 0 <= j < |ks| ==> MatchLen(ks[j], t, JsIsSpace).None? {
          forall j | 0 <= j < |ks| - 1 ensures MatchLen(ks[1..][j], t, JsIsSpace).None? {
            assert ks[1..][j] == ks[j + 1];
          }
        }
      }
    }
  }

  /** Taking the markers out gives back the text: the pass marks parts of the
      original text only, so markers never nest. */
  lemma {:induction false} AltPiecesKeepText(ks: seq<string>, t: string)
    requires forall i :: 0 <= i < |ks| ==> ks[i] != ""
    ensures Flatten(AltPieces(ks, t)) == t
    decreases |t|
  {
    if t != [] {
      var m := FirstAlt(ks, t);
      var n := if m.Some? then m.value else 1;
      var head := if m.Some? then Marked(t[..n]) else Plain(t[0]);
      var ps := AltPieces(ks, t);
      assert ps == [head] + AltPieces(ks, t[n..]);
      assert PieceText(head) == t[..n];
      AltPiecesKeepText(ks, t[n..]);
      assert Flatten(ps) == PieceText(head) + Flatten(AltPieces(ks, t[n..]));
      assert t == t[..n] + t[n..];
    }
  }

  /** Every marked text is a loose spelling of one of the keywords. */
  lemma {:induction false} AltPiecesMarkLoose(ks: seq<string>, t: string)
    requires forall i :: 0 <= i < |ks| ==> ks[i] != ""
    ensures forall i :: 0 <= i < |AltPieces(ks, t)| && AltPieces(ks, t)[i].Marked? ==>
              exists j :: 0 <= j < |ks| && Loose(ks[j], AltPieces(ks, t)[i].s, JsIsSpace)
    decreases |t|
  {
    if t != [] {
      var ps := AltPieces(ks, t);
      match FirstAlt(ks, t)
      case Some(n) =>
        AltPiecesMarkLoose(ks, t[n..]);
        assert ps[1..] == AltPieces(ks, t[n..]);
        FirstAltMeaning(ks, t);
        var j :| 0 <= j < |ks| && MatchLen(ks[j], t, JsIsSpace) == Some(n) &&
          forall i :: 0 <= i < j ==> MatchLen(ks[i], t, JsIsSpace).None?;
        MatchSound(ks[j], t, JsIsSpace);
        assert ps[0] == Marked(t[..n]);
      case None =>
        AltPiecesMarkLoose(ks, t[1..]);
        assert ps[1..] == AltPieces(ks, t[1..]);
    }
  }

  /** With no keywords, or an empty text, the text comes back as it is;
      otherwise the output is the text with marked parts, each a loose spelling
      of a keyword. */
  lemma HighlightTextMeaning(keywords: seq<string>, text: string)
    requires forall i :: 0 <= i < |keywords| ==> keywords[i] != ""
    ensures keywords == [] || text == "" ==> HighlightText(keywords, text) == text
    ensures keywords != [] && text != "" ==>
      HighlightText(keywords, text) == Render(AltPieces(keywords, text), MarkOpen, MarkClose) &&
      Flatten(AltPieces(keywords, text)) == text
  {
    AltPiecesKeepText(keywords, text);
  }

  lemma {:induction false} AltLiteralLength(ks: string, s: string)
    requires LooseRest(ks, s, JsIsSpace)
    ensures |s| >= |ks|
    decreases |ks|
  {
    if ks != [] {
      var g :| 0 <= g < |s| && (forall i :: 0 <= i < g ==> JsIsSpace(s[i]))
               && SameLetter(ks[0], s[g]) && LooseRest(ks[1..], s[g + 1..], JsIsSpace);
      AltLiteralLength(ks[1..], s[g + 1..]);
    }
  }

  /** Overlapping keywords are marked once: the first keyword covers the text
      and the second is not tried inside it. */
  lemma MarksOnce(a: char, b: char)
    ensures HighlightText([[a, b], [b]], [a, b]) == MarkOpen + [a, b] + MarkClose
  {
    var kw := [a, b];
    var ks: seq<string> := [kw, [b]];
    LiteralLoose(kw[1..], JsIsSpace);
    assert kw[..|kw|][1..] == kw[1..];
    MatchComplete(kw, kw, |kw|, JsIsSpace);
    var n := MatchLen(kw, kw, JsIsSpace).value;
    MatchSound(kw, kw, JsIsSpace);
    assert kw[..n][1..] == kw[1..n];
    AltLiteralLength(kw[1..], kw[1..n]);
    assert ks[0] == kw;
    assert FirstAlt(ks, kw) == Some(2);
    assert kw[..2] == kw && kw[2..] == [];
    assert AltPieces(ks, kw) == [Marked(kw)] + AltPieces(ks, []);
    assert Render([Marked(kw)], MarkOpen, MarkClose) == MarkOpen + kw + MarkClose;
  }

  // ---------------------------------------------------------------------------
  // The pattern source

  /** The characters the page escapes: `/[.*+?^${}()|[\]\\]/`. */
  predicate IsRegexSpecial(c: char)
  {
    c in ".*+?^${}()|[]\\"
  }

  /** `k.replace(/[.*+?^${}()|[\]\\]/g, "\\$&")`: a backslash before every
      metacharacter. */
  function EscapeAll(k: string): string
  {
    if k == [] then [] else (if IsRegexSpecial(k[0]) then ['\\', k[0]] else [k[0]]) + EscapeAll(k[1..])
  }

  /** `s.split("")`: the characters, each as a string of its own. */
  function Chars(s: string): seq<string>
  {
    if s == [] then [] else [[s[0]]] + Chars(s[1..])
  }

  /** The pattern text `\s*` placed between characters. */
  const Gap: string := "\\s*"

  /** The alternative the page builds for one keyword: escape, then split into
      characters, then join with `\s*`. */
  function AsWrittenAlternative(k: string): string
  {
    Join(Gap, Chars(EscapeAll(k)))
  }

  /** One keyword character as a literal in a pattern. */
  function EscapeChar(c: char): string
  {
    if IsRegexSpecial(c) then ['\\', c] else [c]
  }

  function EscapedChars(k: string): seq<string>
  {
    if k == [] then [] else [EscapeChar(k[0])] + EscapedChars(k[1..])
  }

  /** The alternative with the steps in the intended order: split into
      characters, escape each one, then join with `\s*`. */
  function CorrectedAlternative(k: string): string
  {
    Join(Gap, EscapedChars(k))
  }

  /** A lexical unit of a JavaScript pattern: a character on its own, or a
      character after a backslash. */
  datatype Token = Raw(c: char) | Escaped(e: char)

  /** The units of a pattern text; a backslash at the very end is a syntax error. */
  function Lex(src: string): Option<seq<Token>>
  {
    if src == [] then Some([])
    else if src[0] == '\\' then
      if |src| == 1 then None
      else match Lex(src[2..])
        case Some(ts) => Some([Escaped(src[1])] + ts)
        case None => None
    else
      match Lex(src[1..])
      case Some(ts) => Some([Raw(src[0])] + ts)
      case None => None
  }

  /** A unit that stands for one literal character: an ordinary character, or
      an escaped metacharacter. */
  function Atom(t: Token): Option<char>
  {
    match t
    case Raw(c) => if IsRegexSpecial(c) then None else Some(c)
    case Escaped(c) => if IsRegexSpecial(c) then Some(c) else None
  }

  /** The keyword whose elastic pattern the units spell out: literal characters
      with `\s*` between consecutive ones; `None` for units of any other shape. */
  function DecodeAlt(ts: seq<Token>): Option<string>
  {
    if ts == [] then None
    else
      match Atom(ts[0])
      case None => None
      case Some(c) =>
        if |ts| == 1 then Some([c])
        else if |ts| >= 4 && ts[1] == Escaped('s') && ts[2] == Raw('*') then
          match DecodeAlt(ts[3..])
          case Some(k) => Some([c] + k)
          case None => None
        else None
  }

  function TokenOf(c: char): Token
  {
    if IsRegexSpecial(c) then Escaped(c) else Raw(c)
  }

  lemma LexEscapeChar(c: char, rest: string)
    ensures Lex(EscapeChar(c) + rest) ==
      (match Lex(rest) case Some(ts) => Some([TokenOf(c)] + ts) case None => None)
  {
    var s := EscapeChar(c) + rest;
    if IsRegexSpecial(c) {
      assert c != '\\' ==> s[0] == '\\';
      assert s[0] == '\\' && s[1] == c && s[2..] == rest;
    } else {
      assert s[0] == c && s[1..] == rest;
    }
  }

  lemma LexGap(rest: string)
    ensures Lex(Gap + rest) ==
      (match Lex(rest) case Some(ts) => Some([Escaped('s'), Raw('*')] + ts) case None => None)
  {
    var s := Gap + rest;
    var u := "*" + rest;
    assert Gap == ['\\', 's', '*'];
    assert s[0] == '\\' && s[1] == 's' && s[2..] == u && |s| > 1;
    assert u[0] == '*' && u[1..] == rest;
    match Lex(rest)
    case Some(ts) =>
      assert Lex(u) == Some([Raw('*')] + ts);
      assert Lex(s) == Some([Escaped('s')] + ([Raw('*')] + ts));
      assert [Escaped('s')] + ([Raw('*')] + ts) == [Escaped('s'), Raw('*')] + ts;
    case None =>
      assert Lex(u) == None;
  }

  /** The corrected alternative reads back as exactly its keyword: each keyword
      character becomes one literal, with `\s*` between them. */
  lemma {:induction false} CorrectedDecodes(k: string)
    requires k != []
    ensures Lex(CorrectedAlternative(k)).Some?
    ensures DecodeAlt(Lex(CorrectedAlternative(k)).value) == Some(k)
  {
    assert EscapedChars(k) == [EscapeChar(k[0])] + EscapedChars(k[1..]);
    if |k| == 1 {
      assert EscapedChars(k[1..]) == [];
      assert CorrectedAlternative(k) == EscapeChar(k[0]) + [];
      LexEscapeChar(k[0], []);
      assert Atom(TokenOf(k[0])) == Some(k[0]);
      assert [k[0]] == k;
    } else {
      var rest := CorrectedAlternative(k[1..]);
      CorrectedDecodes(k[1..]);
      assert EscapedChars(k[1..]) != [];
      JoinCons(Gap, EscapeChar(k[0]), EscapedChars(k[1..]));
      assert CorrectedAlternative(k) == EscapeChar(k[0]) + (Gap + rest);
      LexGap(rest);
      LexEscapeChar(k[0], Gap + rest);
      var ts := Lex(rest).value;
      var all := [TokenOf(k[0])] + ([Escaped('s'), Raw('*')] + ts);
      assert Lex(CorrectedAlternative(k)) == Some(all);
      assert all[3..] == ts && all[1] == Escaped('s') && all[2] == Raw('*');
      assert Atom(all[0]) == Some(k[0]);
      assert [k[0]] + k[1..] == k;
    }
  }

  /** For a keyword without metacharacters the page's alternative is the
      corrected one. */
  lemma {:induction false} AsWrittenSameWithoutSpecials(k: string)
    requires forall i :: 0 <= i < |k| ==> !IsRegexSpecial(k[i])
    ensures AsWrittenAlternative(k) == CorrectedAlternative(k)
  {
    EscapesNothing(k);
  }

  lemma {:induction false} EscapesNothing(k: string)
    requires forall i :: 0 <= i < |k| ==> !IsRegexSpecial(k[i])
    ensures EscapeAll(k) == k && Chars(k) == EscapedChars(k)
  {
    if k != [] {
      assert !IsRegexSpecial(k[0]);
      assert forall i :: 0 <= i < |k[1..]| ==> k[1..][i] == k[i + 1];
      EscapesNothing(k[1..]);
      assert [k[0]] + k[1..] == k;
    }
  }

  /** The keyword "(" as written: the backslash added by escaping is split off
      and escaped by the following `\s*`, which leaves `s*` and an unescaped,
      unclosed group opening. The constructor `RegExp` rejects such a pattern. */
  lemma OpenParenAsWritten()
    ensures AsWrittenAlternative("(") == "\\\\s*("
    ensures Lex(AsWrittenAlternative("(")) == Some([Escaped('\\'), Raw('s'), Raw('*'), Raw('(')])
    ensures DecodeAlt(Lex(AsWrittenAlternative("(")).value) == None
    ensures CorrectedAlternative("(") == "\\("
    ensures DecodeAlt(Lex(CorrectedAlternative("(")).value) == Some("(")
  {
    assert EscapeAll("(") == "\\(" by {
      assert "("[0] == '(' && "("[1..] == [];
    }
    assert Chars("\\(") == ["\\", "("] by {
      assert "\\("[1..] == "(" && "("[1..] == [];
    }
    assert Join(Gap, ["\\", "("]) == "\\" + Gap + "(" by {
      JoinCons(Gap, "\\", ["("]);
    }
    var src := AsWrittenAlternative("(");
    assert src == ['\\', '\\', 's', '*', '('];
    assert src[2..] == ['s', '*', '('];
    assert ['s', '*', '('][1..] == ['*', '('] && ['*', '('][1..] == ['('] && ['('][1..] == [];
    assert [Raw('(')] + [] == [Raw('(')];
    assert Lex(['(']) == Some([Raw('(')]);
    assert [Raw('*')] + [Raw('(')] == [Raw('*'), Raw('(')];
    assert Lex(['*', '(']) == Some([Raw('*'), Raw('(')]);
    assert [Raw('s')] + [Raw('*'), Raw('(')] == [Raw('s'), Raw('*'), Raw('(')];
    assert Lex(['s', '*', '(']) == Some([Raw('s'), Raw('*'), Raw('(')]);
    assert [Escaped('\\')] + [Raw('s'), Raw('*'), Raw('(')] == [Escaped('\\'), Raw('s'), Raw('*'), Raw('(')];
    CorrectedDecodes("(");
    assert EscapedChars("(") == ["\\("] by {
      assert "("[0] == '(' && "("[1..] == [];
    }
  }

  /** The keyword "a.b" as written: the backslash added before the dot is split
      off, so the pattern asks for "a", whitespace, a literal backslash, any
      number of "s", any character in place of the dot, whitespace and "b". The
      text "a.b" has no backslash, so the keyword never marks itself. */
  lemma DotAsWritten(k: string)
    requires k == "a.b"
    ensures AsWrittenAlternative(k) == "a\\s*\\\\s*.\\s*b"
    ensures Lex(AsWrittenAlternative(k)) ==
      Some([Raw('a'), Escaped('s'), Raw('*'), Escaped('\\'), Raw('s'), Raw('*'), Raw('.'), Escaped('s'), Raw('*'), Raw('b')])
    ensures DecodeAlt(Lex(AsWrittenAlternative(k)).value) == None
  {
    DotEscaped(k);
    DotChars("a\\.b");
    DotJoin();
    DotLex(AsWrittenAlternative(k));
  }

  lemma DotEscaped(k: string)
    requires k == "a.b"
    ensures EscapeAll(k) == "a\\.b"
  {
    assert k[0] == 'a' && k[1..] == ".b";
    assert ".b"[0] == '.' && ".b"[1..] == "b";
    assert "b"[0] == 'b' && "b"[1..] == [];
  }

  lemma DotChars(e: string)
    requires e == "a\\.b"
    ensures Chars(e) == ["a", "\\", ".", "b"]
  {
    assert e[1..] == "\\.b";
    assert "\\.b"[1..] == ".b";
    assert ".b"[1..] == "b" && "b"[1..] == [];
  }

  lemma DotJoin()
    ensures Join(Gap, ["a", "\\", ".", "b"]) == "a\\s*\\\\s*.\\s*b"
  {
    JoinCons(Gap, "a", ["\\", ".", "b"]);
    assert ["a", "\\", ".", "b"] == ["a"] + ["\\", ".", "b"];
    JoinCons(Gap, "\\", [".", "b"]);
    assert ["\\", ".", "b"] == ["\\"] + [".", "b"];
    JoinCons(Gap, ".", ["b"]);
    assert [".", "b"] == ["."] + ["b"];
  }

  lemma DotLex(src: string)
    requires src == "a\\s*\\\\s*.\\s*b"
    ensures Lex(src) ==
      Some([Raw('a'), Escaped('s'), Raw('*'), Escaped('\\'), Raw('s'), Raw('*'), Raw('.'), Escaped('s'), Raw('*'), Raw('b')])
  {
    LexSplitEscape('a', '.', 'b');
    assert Gap == ['\\', 's', '*'];
    assert src == ['a'] + (Gap + (['\\', '\\'] + (['s'] + (['*'] + (['.'] + (Gap + ['b']))))));
  }

  /** The units of `x\s*\\s*d\s*y`: the shape of an escaped middle character
      after escaping and splitting. */
  lemma LexSplitEscape(x: char, d: char, y: char)
    requires x != '\\' && d != '\\' && y != '\\'
    ensures Lex([x] + (Gap + (['\\', '\\'] + (['s'] + (['*'] + ([d] + (Gap + [y]))))))) ==
      Some([Raw(x), Escaped('s'), Raw('*'), Escaped('\\'), Raw('s'), Raw('*'), Raw(d), Escaped('s'), Raw('*'), Raw(y)])
  {
    var u7 := [y];
    LexRaw(y, []);
    assert [y] + [] == u7;
    assert Lex([]) == Some([]) && [Raw(y)] + [] == [Raw(y)];
    var ts7 := [Raw(y)];
    assert Lex(u7) == Some(ts7);
    var u6 := Gap + u7;
    LexGap(u7);
    var ts6 := [Escaped('s'), Raw('*')] + ts7;
    var u5 := [d] + u6;
    LexRaw(d, u6);
    var ts5 := [Raw(d)] + ts6;
    var u4 := ['*'] + u5;
    LexRaw('*', u5);
    var ts4 := [Raw('*')] + ts5;
    var u3 := ['s'] + u4;
    LexRaw('s', u4);
    var ts3 := [Raw('s')] + ts4;
    var u2 := ['\\', '\\'] + u3;
    LexEscaped('\\', u3);
    var ts2 := [Escaped('\\')] + ts3;
    var u1 := Gap + u2;
    LexGap(u2);
    var ts1 := [Escaped('s'), Raw('*')] + ts2;
    LexRaw(x, u1);
    assert [Raw(x)] + ts1 ==
      [Raw(x), Escaped('s'), Raw('*'), Escaped('\\'), Raw('s'), Raw('*'), Raw(d), Escaped('s'), Raw('*'), Raw(y)];
  }

  /** An ordinary character is one unit. */
  lemma LexRaw(c: char, rest: string)
    requires c != '\\'
    ensures Lex([c] + rest) == (match Lex(rest) case Some(ts) => Some([Raw(c)] + ts) case None => None)
  {
    assert ([c] + rest)[1..] == rest;
  }

  /** A backslash and the character after it are one unit. */
  lemma LexEscaped(c: char, rest: string)
    ensures Lex(['\\', c] + rest) == (match Lex(rest) case Some(ts) => Some([Escaped(c)] + ts) case None => None)
  {
    assert (['\\', c] + rest)[2..] == rest;
  }

  // ---------------------------------------------------------------------------
  // Page buttons

  /** `Math.ceil(total / pageSize)`. */
  function TotalPages(total: nat, pageSize: nat): nat
    requires pageSize >= 1
  {
    (total + pageSize - 1) / pageSize
  }

  /** The page count is the least number of pages of `pageSize` results that
      hold `total` results. */
  lemma TotalPagesMeaning(total: nat, pageSize: nat)
    requires pageSize >= 1
    ensures TotalPages(total, pageSize) * pageSize >= total
    ensures TotalPages(total, pageSize) > 0 ==> (TotalPages(total, pageSize) - 1) * pageSize < total
    ensures TotalPages(total, pageSize) == 0 <==> total == 0
  {
    var t := TotalPages(total, pageSize);
    var r := (total + pageSize - 1) % pageSize;
    assert t * pageSize + r == total + pageSize - 1;
  }

  /** Every page the page buttons offer holds at least one result, and the page
      after the last one holds none. */
  lemma PagesOfButtons<T>(results: seq<T>, page: int, pageSize: nat)
    requires pageSize >= 1
    ensures 1 <= page <= TotalPages(|results|, pageSize) ==> Paging.Paginate(results, page, pageSize) != []
    ensures page == TotalPages(|results|, pageSize) + 1 ==> Paging.Paginate(results, page, pageSize) == []
  {
    var t := TotalPages(|results|, pageSize);
    TotalPagesMeaning(|results|, pageSize);
    if 1 <= page <= t {
      Paging.PaginateMeaning(results, page, pageSize);
      MulMonotone(page - 1, t - 1, pageSize);
      assert page * pageSize == (page - 1) * pageSize + pageSize;
    } else if page == t + 1 {
      Paging.PaginateMeaning(results, page, pageSize);
    }
  }

  lemma MulMonotone(a: nat, b: nat, c: nat)
    requires a <= b
    ensures a * c <= b * c
  {
    assert b * c == a * c + (b - a) * c;
  }

  function Max(a: int, b: int): int { if a >= b then a else b }

  /** The first and last numbered page around `page`. */
  function Window(page: int, totalPages: int): (int, int)
  {
    var start := Max(1, page - 2);
    var end := Paging.Min(totalPages, page + 2);
    var end' := if page <= 3 then Paging.Min(totalPages, 5) else end;
    var start' := if page >= totalPages - 2 then Max(1, totalPages - 4) else start;
    (start', end')
  }

  /** For a page within range the window contains it, stays within the pages,
      and shows five pages, or all of them when there are fewer. */
  lemma WindowMeaning(page: int, totalPages: int)
    requires 1 <= page <= totalPages
    ensures 1 <= Window(page, totalPages).0 <= page <= Window(page, totalPages).1 <= totalPages
    ensures Window(page, totalPages).1 - Window(page, totalPages).0 + 1 == Paging.Min(5, totalPages)
  {
  }

  /** What a button shows. */
  datatype Label = First | Prev | Number(n: int) | Next | Last

  /** A page button: its label, the page it leads to, and its state. */
  datatype Button = Button(caption: Label, target: int, disabled: bool, active: bool)

  /** The buttons `createPagination` appends, in order. */
  method CreatePagination(total: nat, page: int, pageSize: nat) returns (buttons: seq<Button>)
    requires pageSize >= 1
    ensures TotalPages(total, pageSize) <= 1 ==> buttons == []
    ensures TotalPages(total, pageSize) > 1 ==>
      var t := TotalPages(total, pageSize);
      var (start, end) := Window(page, t);
      var count := Max(0, end - start + 1);
      |buttons| == count + 4 &&
      buttons[0] == Button(First, 1, page == 1, false) &&
      buttons[1] == Button(Prev, page - 1, page == 1, false) &&
      (forall k :: 2 <= k < count + 2 ==>
         buttons[k] == Button(Number(start + k - 2), start + k - 2, false, start + k - 2 == page)) &&
      buttons[count + 2] == Button(Next, page + 1, page == t, false) &&
      buttons[count + 3] == Button(Last, t, page == t, false)
  {
    var totalPages: int := TotalPages(total, pageSize);
    if totalPages <= 1 {
      return [];
    }
    buttons := [Button(First, 1, page == 1, false), Button(Prev, page - 1, page == 1, false)];
    var startPage := Max(1, page - 2);
    var endPage := Paging.Min(totalPages, page + 2);
    if page <= 3 {
      endPage := Paging.Min(totalPages, 5);
    }
    if page >= totalPages - 2 {
      startPage := Max(1, totalPages - 4);
    }
    assert (startPage, endPage) == Window(page, totalPages);
    var numbers := NumberButtons(startPage, endPage, page);
    buttons := buttons + numbers;
    buttons := buttons + [Button(Next, page + 1, page == totalPages, false)];
    buttons := buttons + [Button(Last, totalPages, page == totalPages, false)];
  }

  /** The numbered buttons `startPage` to `endPage`, the current page active. */
  method NumberButtons(startPage: int, endPage: int, page: int) returns (numbers: seq<Button>)
    ensures |numbers| == Max(0, endPage - startPage + 1)
    ensures forall k :: 0 <= k < |numbers| ==>
      numbers[k] == Button(Number(startPage + k), startPage + k, false, startPage + k == page)
  {
    numbers := [];
    var i := startPage;
    while i <= endPage
      invariant startPage <= i <= Max(startPage, endPage + 1)
      invariant |numbers| == i - startPage
      invariant forall k :: 0 <= k < |numbers| ==>
        numbers[k] == Button(Number(startPage + k), startPage + k, false, startPage + k == page)
    {
      numbers := numbers + [Button(Number(i), i, false, i == page)];
      i := i + 1;
    }
  }
}
