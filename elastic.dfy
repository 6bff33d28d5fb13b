/**
 * The "elastic" keyword pattern both highlighters build: the keyword's
 * characters, each taken literally and compared without regard to ASCII case,
 * with `\s*` between consecutive characters. The server's pattern is
 * `"(" + r"\s*".join(map(re.escape, kw)) + ")"`; the browser's alternative for
 * a keyword is the same shape. The matcher below follows the backtracking
 * engine: each `\s*` first takes the whole whitespace run and gives characters
 * back one at a time until the rest of the pattern matches.
 */
module Elastic {
  import opened Text
  import opened Wrappers

  /** ASCII lower case; other characters are left alone. */
  function Lower(c: char): char
  {
    if 'A' <= c <= 'Z' then ((c as int) + 32) as char else c
  }

  /** A pattern character and a text character are equal under the ignore-case flag. */
  predicate SameLetter(a: char, b: char) { Lower(a) == Lower(b) }

  /** `\s* k0 \s* k1 ...` at the start of `t`: the length matched on the first success. */
  function Try(ks: string, t: string, space: char -> bool): (r: Option<nat>)
    ensures r.Some? ==> r.value <= |t|
    decreases |ks|, |t| + 1
  {
    if ks == [] then Some(0) else TryGap(ks, t, Span(t, space), space)
  }

  /** As `Try`, with the leading `\s*` holding `g` characters and fewer on failure. */
  function TryGap(ks: string, t: string, g: nat, space: char -> bool): (r: Option<nat>)
    requires ks != [] && g <= |t|
    ensures r.Some? ==> r.value <= |t|
    decreases |ks|, g
  {
    var here :=
      if g < |t| && SameLetter(ks[0], t[g]) then
        match Try(ks[1..], t[g + 1..], space)
        case Some(n) => Some(g + 1 + n)
        case None => None
      else None;
    if here.Some? then here else if g == 0 then None else TryGap(ks, t, g - 1, space)
  }

  /** The elastic pattern of a non-empty keyword anchored at the start of `t`. */
  function MatchLen(kw: string, t: string, space: char -> bool): (r: Option<nat>)
    requires kw != []
    ensures r.Some? ==> 1 <= r.value <= |t|
  {
    if t != [] && SameLetter(kw[0], t[0]) then
      match Try(kw[1..], t[1..], space)
      case Some(n) => Some(n + 1)
      case None => None
    else None
  }

  /** `s` spells `ks`, each character preceded by a run of whitespace. */
  ghost predicate LooseRest(ks: string, s: string, space: char -> bool)
    decreases |ks|
  {
    if ks == [] then s == []
    else exists g :: 0 <= g < |s| && (forall i :: 0 <= i < g ==> space(s[i]))
                     && SameLetter(ks[0], s[g]) && LooseRest(ks[1..], s[g + 1..], space)
  }

  /** `s` is `kw` spelled with any whitespace between its characters: exactly the
    * texts the elastic pattern of `kw` matches. */
  ghost predicate Loose(kw: string, s: string, space: char -> bool)
  {
    kw != [] && s != [] && SameLetter(kw[0], s[0]) && LooseRest(kw[1..], s[1..], space)
  }

  // ---------------------------------------------------------------------------
  // The matcher matches exactly the loose spellings

  lemma {:induction false} TrySound(ks: string, t: string, space: char -> bool)
    requires Try(ks, t, space).Some?
    ensures LooseRest(ks, t[..Try(ks, t, space).value], space)
    decreases |ks|, |t| + 1
  {
    if ks != [] {
      TryGapSound(ks, t, Span(t, space), space);
    }
  }

  lemma {:induction false} TryGapSound(ks: string, t: string, g: nat, space: char -> bool)
    requires ks != [] && g <= |t| && forall i :: 0 <= i < g ==> space(t[i])
    requires TryGap(ks, t, g, space).Some?
    ensures LooseRest(ks, t[..TryGap(ks, t, g, space).value], space)
    decreases |ks|, g
  {
    if g < |t| && SameLetter(ks[0], t[g]) && Try(ks[1..], t[g + 1..], space).Some? {
      var n := Try(ks[1..], t[g + 1..], space).value;
      TrySound(ks[1..], t[g + 1..], space);
      var s := t[..g + 1 + n];
      assert s[g + 1..] == t[g + 1..][..n];
      assert forall i :: 0 <= i < g ==> space(s[i]);
      assert SameLetter(ks[0], s[g]);
    } else {
      TryGapSound(ks, t, g - 1, space);
    }
  }

  /** What the matcher accepts is a loose spelling of the keyword. */
  lemma MatchSound(kw: string, t: string, space: char -> bool)
    requires kw != [] && MatchLen(kw, t, space).Some?
    ensures Loose(kw, t[..MatchLen(kw, t, space).value], space)
  {
    var n := MatchLen(kw, t, space).value;
    TrySound(kw[1..], t[1..], space);
    assert t[..n][1..] == t[1..][..n - 1];
  }

  lemma {:induction false} TryComplete(ks: string, t: string, n: nat, space: char -> bool)
    requires n <= |t| && LooseRest(ks, t[..n], space)
    ensures Try(ks, t, space).Some?
    decreases |ks|, |t| + 1
  {
    if ks != [] {
      var s := t[..n];
      var g :| 0 <= g < |s| && (forall i :: 0 <= i < g ==> space(s[i]))
               && SameLetter(ks[0], s[g]) && LooseRest(ks[1..], s[g + 1..], space);
      assert forall i :: 0 <= i < g ==> space(t[i]) by {
        forall i | 0 <= i < g ensures space(t[i]) {
          assert s[i] == t[i];
        }
      }
      assert s[g] == t[g];
      SpanCovers(t, g, space);
      TryGapComplete(ks, t, Span(t, space), g, n, space);
    }
  }

  /** A whitespace prefix of `t` is covered by the greedy run. */
  lemma {:induction false} SpanCovers(t: string, g: nat, space: char -> bool)
    requires g <= |t| && forall i :: 0 <= i < g ==> space(t[i])
    ensures g <= Span(t, space)
  {
    if g > 0 {
      SpanCovers(t[1..], g - 1, space);
    }
  }

  /** Backtracking through the `\s*` run reaches the first whitespace length that works. */
  lemma {:induction false} TryGapComplete(ks: string, t: string, g: nat, g0: nat, n: nat, space: char -> bool)
    requires ks != [] && g0 <= g <= |t| && g0 < n <= |t|
    requires SameLetter(ks[0], t[g0]) && LooseRest(ks[1..], t[..n][g0 + 1..], space)
    ensures TryGap(ks, t, g, space).Some?
    decreases |ks|, g
  {
    if g == g0 {
      assert t[..n][g0 + 1..] == t[g0 + 1..][..n - g0 - 1];
      TryComplete(ks[1..], t[g0 + 1..], n - g0 - 1, space);
    } else if !(g < |t| && SameLetter(ks[0], t[g]) && Try(ks[1..], t[g + 1..], space).Some?) {
      TryGapComplete(ks, t, g - 1, g0, n, space);
    }
  }

  /** A text that starts with a loose spelling of the keyword is matched there. */
  lemma MatchComplete(kw: string, t: string, n: nat, space: char -> bool)
    requires kw != [] && n <= |t| && Loose(kw, t[..n], space)
    ensures MatchLen(kw, t, space).Some?
  {
    assert t[..n][1..] == t[1..][..n - 1];
    TryComplete(kw[1..], t[1..], n - 1, space);
  }

  /** The keyword itself, written without extra whitespace, is matched in full. */
  lemma {:induction false} LiteralLoose(kw: string, space: char -> bool)
    ensures LooseRest(kw, kw, space)
  {
    if kw != [] {
      LiteralLoose(kw[1..], space);
      assert kw[1..] == kw[0 + 1..];
      assert SameLetter(kw[0], kw[0]);
    }
  }

  // ---------------------------------------------------------------------------
  // Highlighted output

  /** A character left alone, or a matched text wrapped in markers. */
  datatype Piece = Plain(c: char) | Marked(s: string)

  function PieceText(p: Piece): string
  {
    match p
    case Plain(c) => [c]
    case Marked(s) => s
  }

  /** The text the pieces cover, markers left out. */
  function Flatten(ps: seq<Piece>): string
  {
    if ps == [] then [] else PieceText(ps[0]) + Flatten(ps[1..])
  }

  /** The replacement output: each marked text between `open` and `close`. */
  function Render(ps: seq<Piece>, open: string, close: string): string
  {
    if ps == [] then []
    else
      (match ps[0]
       case Plain(c) => [c]
       case Marked(s) => open + s + close)
      + Render(ps[1..], open, close)
  }

  lemma {:induction false} RenderPlain(s: string, open: string, close: string)
    ensures Render(seq(|s|, i requires 0 <= i < |s| => Plain(s[i])), open, close) == s
  {
    if s != [] {
      var ps := seq(|s|, i requires 0 <= i < |s| => Plain(s[i]));
      assert ps[1..] == seq(|s[1..]|, i requires 0 <= i < |s[1..]| => Plain(s[1..][i]));
      RenderPlain(s[1..], open, close);
    }
  }
}
