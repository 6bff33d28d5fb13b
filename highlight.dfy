/** The server-side keyword highlighters: `highlight_matches` of the legacy
    search (app.py:56-66) and `criminal_highlight_matches` of the criminal
    search (app.py:158-171). Both wrap every loose spelling of a keyword in
    `<mark>` and `</mark>`, one keyword after the other, each pass working on the
    output of the previous one. */
module Highlight {
  import opened Text
  import opened Wrappers
  import opened Elastic

  const Open: string := "<mark>"
  const Close: string := "</mark>"

  /** The scan of `re.sub` with the elastic pattern of `kw`: at each position the
      pattern is tried; a match becomes one marked piece and the scan continues
      after it, otherwise the character is kept and the scan moves on by one. */
  function SubPieces(kw: string, t: string): seq<Piece>
    requires kw != []
    decreases |t|
  {
    if t == [] then []
    else
      match MatchLen(kw, t, IsSpace)
      case Some(n) => [Marked(t[..n])] + SubPieces(kw, t[n..])
      case None => [Plain(t[0])] + SubPieces(kw, t[1..])
  }

  /** `re.sub(pattern, r"<mark>\1</mark>", t, flags=re.IGNORECASE)` with the
      one-group elastic pattern of a non-empty keyword. */
  function Sub(kw: string, t: string): string
    requires kw != []
  {
    Render(SubPieces(kw, t), Open, Close)
  }

  /** One pass of the criminal loop: an empty keyword is skipped. */
  function Step(t: string, kw: string): string
  {
    if kw == [] then t else Sub(kw, t)
  }

  /** What `criminal_highlight_matches` returns for a string: the passes of the
      keywords in order. */
  function HighlightAll(t: string, keywords: seq<string>): string
    decreases |keywords|
  {
    if keywords == [] then t else HighlightAll(Step(t, keywords[0]), keywords[1..])
  }

  /** `criminal_highlight_matches(text, keywords)` for a string `text`. */
  method CriminalHighlightMatches(text: string, keywords: seq<string>) returns (out: string)
    ensures out == HighlightAll(text, keywords)
  {
    if keywords == [] {
      return text;
    }
    out := text;
    for i := 0 to |keywords|
      invariant HighlightAll(out, keywords[i..]) == HighlightAll(text, keywords)
    {
      assert keywords[i..][1..] == keywords[i + 1..];
      if keywords[i] == [] {
        continue;
      }
      out := Sub(keywords[i], out);
    }
  }

  /** What `highlight_matches` returns for a string. A keyword of at most one
      character gets a pattern without a group, and the template `\1` then names
      a group that does not exist: `re.sub` raises `re.error` before it scans, and
      nothing catches it. */
  function LegacyHighlight(t: string, keywords: seq<string>): Result<string>
    decreases |keywords|
  {
    if keywords == [] then Ok(t)
    else if |keywords[0]| <= 1 then Err("invalid group reference 1")
    else LegacyHighlight(Sub(keywords[0], t), keywords[1..])
  }

  /** `highlight_matches(text, keywords)` for a string `text`. */
  method HighlightMatches(text: string, keywords: seq<string>) returns (r: Result<string>)
    ensures r == LegacyHighlight(text, keywords)
  {
    var out := text;
    for i := 0 to |keywords|
      invariant LegacyHighlight(out, keywords[i..]) == LegacyHighlight(text, keywords)
    {
      assert keywords[i..][1..] == keywords[i + 1..];
      if |keywords[i]| <= 1 {
        return Err("invalid group reference 1");
      }
      out := Sub(keywords[i], out);
    }
    return Ok(out);
  }

  // ---------------------------------------------------------------------------
  // One substitution pass

  /** Taking the markers out of a pass gives back the text it was given. */
  lemma {:induction false} SubKeepsText(kw: string, t: string)
    requires kw != []
    ensures Flatten(SubPieces(kw, t)) == t
    decreases |t|
  {
    if t != [] {
      var ps := SubPieces(kw, t);
      match MatchLen(kw, t, IsSpace)
      case Some(n) =>
        SubKeepsText(kw, t[n..]);
        assert ps[1..] == SubPieces(kw, t[n..]);
        assert t == t[..n] + t[n..];
      case None =>
        SubKeepsText(kw, t[1..]);
        assert ps[1..] == SubPieces(kw, t[1..]);
        assert t == [t[0]] + t[1..];
    }
  }

  /** Every marked piece is a loose spelling of the keyword. */
  lemma {:induction false} SubMarksLoose(kw: string, t: string)
    requires kw != []
    ensures forall i :: 0 <= i < |SubPieces(kw, t)| && SubPieces(kw, t)[i].Marked? ==>
              Loose(kw, SubPieces(kw, t)[i].s, IsSpace)
    decreases |t|
  {
    if t != [] {
      var ps := SubPieces(kw, t);
      match MatchLen(kw, t, IsSpace)
      case Some(n) =>
        SubMarksLoose(kw, t[n..]);
        MatchSound(kw, t, IsSpace);
        assert ps[1..] == SubPieces(kw, t[n..]);
      case None =>
        SubMarksLoose(kw, t[1..]);
        assert ps[1..] == SubPieces(kw, t[1..]);
    }
  }

  /** A pass leaves a character unmarked only where no loose spelling of the
      keyword starts. */
  lemma SubPlainMeansNoMatch(kw: string, t: string, n: nat)
    requires kw != [] && t != [] && SubPieces(kw, t)[0].Plain? && n <= |t|
    ensures !Loose(kw, t[..n], IsSpace)
  {
    if Loose(kw, t[..n], IsSpace) {
      MatchComplete(kw, t, n, IsSpace);
    }
  }

  /** Where no loose spelling starts, the pattern does not match. */
  lemma NoLooseNoMatch(kw: string, t: string)
    requires kw != [] && forall n :: 0 <= n <= |t| ==> !Loose(kw, t[..n], IsSpace)
    ensures MatchLen(kw, t, IsSpace).None?
  {
    if MatchLen(kw, t, IsSpace).Some? {
      MatchSound(kw, t, IsSpace);
    }
  }

  /** Text in which the keyword has no loose spelling comes out unchanged. */
  lemma {:induction false} SubWithoutOccurrence(kw: string, t: string)
    requires kw != []
    requires forall p, n :: 0 <= p <= n <= |t| ==> !Loose(kw, t[p..n], IsSpace)
    ensures Sub(kw, t) == t
    decreases |t|
  {
    if t != [] {
      NoOccurrenceAtStart(kw, t);
      NoOccurrenceInTail(kw, t);
      SubWithoutOccurrence(kw, t[1..]);
      assert SubPieces(kw, t) == [Plain(t[0])] + SubPieces(kw, t[1..]);
      assert Sub(kw, t) == [t[0]] + Sub(kw, t[1..]);
    }
  }

  lemma NoOccurrenceAtStart(kw: string, t: string)
    requires kw != []
    requires forall p, n :: 0 <= p <= n <= |t| ==> !Loose(kw, t[p..n], IsSpace)
    ensures MatchLen(kw, t, IsSpace).None?
  {
    forall n | 0 <= n <= |t| ensures !Loose(kw, t[..n], IsSpace) {
      assert t[0..n] == t[..n];
    }
    NoLooseNoMatch(kw, t);
  }

  lemma NoOccurrenceInTail(kw: string, t: string)
    requires t != []
    requires forall p, n :: 0 <= p <= n <= |t| ==> !Loose(kw, t[p..n], IsSpace)
    ensures forall p, n :: 0 <= p <= n <= |t[1..]| ==> !Loose(kw, t[1..][p..n], IsSpace)
  {
    forall p, n | 0 <= p <= n <= |t[1..]| ensures !Loose(kw, t[1..][p..n], IsSpace) {
      var u := t[1..];
      assert forall k :: 0 <= k < n - p ==> u[p..n][k] == t[p + 1..n + 1][k];
      assert u[p..n] == t[p + 1..n + 1];
      assert !Loose(kw, t[p + 1..n + 1], IsSpace);
    }
  }

  /** The length of a loose spelling is at least the keyword's. */
  lemma {:induction false} LooseRestLength(ks: string, s: string)
    requires LooseRest(ks, s, IsSpace)
    ensures |s| >= |ks|
    decreases |ks|
  {
    if ks != [] {
      var g :| 0 <= g < |s| && (forall i :: 0 <= i < g ==> IsSpace(s[i]))
               && SameLetter(ks[0], s[g]) && LooseRest(ks[1..], s[g + 1..], IsSpace);
      LooseRestLength(ks[1..], s[g + 1..]);
    }
  }

  /** The keyword written out on its own is marked as a whole. */
  lemma SubOfKeyword(kw: string)
    requires kw != []
    ensures Sub(kw, kw) == Open + kw + Close
  {
    LiteralLoose(kw[1..], IsSpace);
    assert kw[..|kw|][1..] == kw[1..];
    assert Loose(kw, kw[..|kw|], IsSpace);
    MatchComplete(kw, kw, |kw|, IsSpace);
    var n := MatchLen(kw, kw, IsSpace).value;
    MatchSound(kw, kw, IsSpace);
    assert kw[..n][1..] == kw[1..n];
    LooseRestLength(kw[1..], kw[1..n]);
    assert n == |kw|;
    assert MatchLen(kw, kw, IsSpace) == Some(|kw|);
    assert kw[..|kw|] == kw;
    assert kw[|kw|..] == [];
    assert SubPieces(kw, kw) == [Marked(kw)] + SubPieces(kw, []);
    assert Render([Marked(kw)], Open, Close) == Open + kw + Close;
  }

  // ---------------------------------------------------------------------------
  // The two highlighters compared

  /** The legacy highlighter fails exactly when some keyword has at most one
      character. */
  lemma {:induction false} LegacyErrIff(t: string, keywords: seq<string>)
    ensures LegacyHighlight(t, keywords).Err? <==> exists j :: 0 <= j < |keywords| && |keywords[j]| <= 1
    decreases |keywords|
  {
    if keywords != [] && |keywords[0]| > 1 {
      LegacyErrIff(Sub(keywords[0], t), keywords[1..]);
      if exists j :: 0 <= j < |keywords| && |keywords[j]| <= 1 {
        var j :| 0 <= j < |keywords| && |keywords[j]| <= 1;
        assert keywords[1..][j - 1] == keywords[j];
      }
      if exists j :: 0 <= j < |keywords| - 1 && |keywords[1..][j]| <= 1 {
        var j :| 0 <= j < |keywords| - 1 && |keywords[1..][j]| <= 1;
        assert keywords[1..][j] == keywords[j + 1];
      }
    }
  }

  /** When every keyword has two characters or more, both highlighters give the
      same text. */
  lemma {:induction false} LegacyAgrees(t: string, keywords: seq<string>)
    requires forall j :: 0 <= j < |keywords| ==> |keywords[j]| >= 2
    ensures LegacyHighlight(t, keywords) == Ok(HighlightAll(t, keywords))
    decreases |keywords|
  {
    if keywords != [] {
      assert |keywords[0]| >= 2;
      forall j | 0 <= j < |keywords| - 1 ensures |keywords[1..][j]| >= 2 {
        assert keywords[1..][j] == keywords[j + 1];
      }
      LegacyAgrees(Sub(keywords[0], t), keywords[1..]);
    }
  }

  /** A one-character keyword: the legacy highlighter raises, the criminal one
      marks the character. */
  lemma OneCharacterKeyword(c: char)
    ensures LegacyHighlight([c], [[c]]).Err?
    ensures HighlightAll([c], [[c]]) == Open + [c] + Close
  {
    SubOfKeyword([c]);
    assert [[c]][1..] == [];
  }

  /** Characters that cannot begin the keyword are copied as they are. */
  lemma {:induction false} SubSkips(kw: string, a: string, rest: string)
    requires kw != [] && forall i :: 0 <= i < |a| ==> !SameLetter(kw[0], a[i])
    ensures Sub(kw, a + rest) == a + Sub(kw, rest)
    decreases |a|
  {
    if a == [] {
      assert a + rest == rest;
    } else {
      var t := a + rest;
      var a' := a[1..];
      assert t[0] == a[0] && t[1..] == a' + rest;
      SubPlainHead(kw, t);
      forall i | 0 <= i < |a'| ensures !SameLetter(kw[0], a'[i]) {
        assert a'[i] == a[i + 1];
      }
      SubSkips(kw, a', rest);
      assert a == [a[0]] + a';
      assert [a[0]] + (a' + Sub(kw, rest)) == a + Sub(kw, rest);
    }
  }

  /** A first character that cannot begin the keyword is copied. */
  lemma SubPlainHead(kw: string, t: string)
    requires kw != [] && t != [] && !SameLetter(kw[0], t[0])
    ensures Sub(kw, t) == [t[0]] + Sub(kw, t[1..])
  {
    assert SubPieces(kw, t) == [Plain(t[0])] + SubPieces(kw, t[1..]);
  }

  /** A character that occurs in neither marker, nor in `before`. */
  predicate OutsideMarkup(b: char, before: string)
  {
    (forall i :: 0 <= i < |Open| ==> !SameLetter(b, Open[i])) &&
    (forall i :: 0 <= i < |Close| ==> !SameLetter(b, Close[i])) &&
    (forall i :: 0 <= i < |before| ==> !SameLetter(b, before[i]))
  }

  lemma SecondPass(a: char, b: char)
    requires OutsideMarkup(b, [a])
    ensures Sub([b], Open + [a, b] + Close) == Open + [a] + (Open + [b] + Close) + Close
  {
    var head := Open + [a];
    assert Open + [a, b] + Close == head + ([b] + Close);
    assert forall i :: 0 <= i < |head| ==> !SameLetter(b, head[i]) by {
      forall i | 0 <= i < |head| ensures !SameLetter(b, head[i]) {
        if i < |Open| { assert head[i] == Open[i]; } else { assert head[i] == a; }
      }
    }
    SubSkips([b], head, [b] + Close);
    SubBeforeClose(b);
  }

  lemma SubBeforeClose(b: char)
    requires forall i :: 0 <= i < |Close| ==> !SameLetter(b, Close[i])
    ensures Sub([b], [b] + Close) == Open + [b] + Close + Close
  {
    var bt := [b] + Close;
    assert bt[0] == b && [b][0] == b && [b][1..] == [];
    assert Try([b][1..], bt[1..], IsSpace) == Some(0);
    assert MatchLen([b], bt, IsSpace) == Some(1);
    assert bt[..1] == [b] && bt[1..] == Close;
    assert SubPieces([b], bt) == [Marked([b])] + SubPieces([b], Close);
    SubSkips([b], Close, []);
    assert Close + [] == Close;
  }

  /** Each pass works on the previous pass's output, markup included: a later
      keyword found inside an earlier match is marked again, inside it. */
  lemma NestedMarks(a: char, b: char)
    requires OutsideMarkup(b, [a])
    ensures HighlightAll([a, b], [[a, b], [b]]) == Open + [a] + (Open + [b] + Close) + Close
  {
    SubOfKeyword([a, b]);
    SecondPass(a, b);
    var ks: seq<string> := [[a, b], [b]];
    assert ks[0] == [a, b] && ks[1..] == [[b]] && [[b]][1..] == [];
    var once := Open + [a, b] + Close;
    assert HighlightAll([a, b], ks) == HighlightAll(once, [[b]]);
    assert HighlightAll(once, [[b]]) == HighlightAll(Sub([b], once), []);
  }
}
