/** Keyword matching after normalisation: `strict_match` (app.py:50-53), used by
    the legacy search, and `strip_zero_width_and_spaces` / `criminal_strict_match`
    (app.py:149-156), used by the criminal-precedent search. */
module Matching {
  import opened Text

  /** A character normalisation deletes: whitespace or a zero-width character. */
  predicate IsIgnorable(c: char)
  {
    IsSpace(c) || IsZeroWidth(c)
  }

  /** `strip_zero_width_and_spaces`: delete U+200B..U+200D and U+FEFF, then all
      whitespace (the same two substitutions `strict_match` applies inline). */
  function Normalize(s: string): (r: string)
    ensures forall c :: c in r ==> c in s && !IsIgnorable(c)
  {
    Without(Without(s, IsZeroWidth), IsSpace)
  }

  /** Normalisation distributes over concatenation. */
  lemma NormalizeAppend(a: string, b: string)
    ensures Normalize(a + b) == Normalize(a) + Normalize(b)
  {
    WithoutAppend(a, b, IsZeroWidth);
    WithoutAppend(Without(a, IsZeroWidth), Without(b, IsZeroWidth), IsSpace);
  }

  /** Normalisation deletes a run of ignorable characters entirely. */
  lemma NormalizeIgnorable(w: string)
    requires forall i :: 0 <= i < |w| ==> IsIgnorable(w[i])
    ensures Normalize(w) == []
  {
    var v := Without(w, IsZeroWidth);
    assert forall i :: 0 <= i < |v| ==> IsSpace(v[i]) by {
      forall i | 0 <= i < |v| ensures IsSpace(v[i]) {
        assert v[i] in v;
      }
    }
    WithoutAll(v, IsSpace);
  }

  /** Normalising twice is normalising once. */
  lemma NormalizeIdempotent(s: string)
    ensures Normalize(Normalize(s)) == Normalize(s)
  {
    var r := Normalize(s);
    assert forall i :: 0 <= i < |r| ==> !IsZeroWidth(r[i]) by {
      forall i | 0 <= i < |r| ensures !IsZeroWidth(r[i]) {
        assert r[i] in r;
      }
    }
    WithoutKeeps(r, IsZeroWidth);
    assert forall i :: 0 <= i < |r| ==> !IsSpace(r[i]) by {
      forall i | 0 <= i < |r| ensures !IsSpace(r[i]) {
        assert r[i] in r;
      }
    }
    WithoutKeeps(r, IsSpace);
  }

  /** `strict_match(keyword, text)`: the normalised keyword is a substring of the
      normalised text; an empty keyword therefore matches every text. */
  predicate StrictMatch(keyword: string, text: string)
  {
    Contains(Normalize(text), Normalize(keyword))
  }

  /** `criminal_strict_match(keyword, text)`: as `strict_match`, except that the
      empty keyword matches nothing. */
  predicate CriminalStrictMatch(keyword: string, text: string)
  {
    keyword != "" && StrictMatch(keyword, text)
  }

  /** Both matchers ignore whitespace and zero-width characters inserted anywhere
      in the text or in the keyword. */
  lemma SpacingInsensitive(a: string, w: string, b: string, other: string)
    requires forall i :: 0 <= i < |w| ==> IsIgnorable(w[i])
    ensures StrictMatch(other, a + w + b) == StrictMatch(other, a + b)
    ensures StrictMatch(a + w + b, other) == StrictMatch(a + b, other)
  {
    NormalizeSkips(a, w, b);
  }

  lemma NormalizeSkips(a: string, w: string, b: string)
    requires forall i :: 0 <= i < |w| ==> IsIgnorable(w[i])
    ensures Normalize(a + w + b) == Normalize(a + b)
  {
    NormalizeAppend(a + w, b);
    NormalizeAppend(a, w);
    NormalizeIgnorable(w);
    assert Normalize(a + w) == Normalize(a);
    NormalizeAppend(a, b);
  }

  /** A keyword occurring literally in the text matches under both matchers (the
      criminal one only when the keyword is not empty). */
  lemma LiteralOccurrenceMatches(keyword: string, text: string)
    requires Contains(text, keyword)
    ensures StrictMatch(keyword, text)
    ensures keyword != "" ==> CriminalStrictMatch(keyword, text)
  {
    ContainsIff(text, keyword);
    var i :| OccursAt(text, keyword, i);
    var a, b := text[..i], text[i + |keyword|..];
    assert text == a + keyword + b;
    NormalizeAppend(a + keyword, b);
    NormalizeAppend(a, keyword);
    ContainsInside(Normalize(a), Normalize(keyword), Normalize(b));
  }

  /** The two matchers differ exactly on the literally empty keyword: `strict_match`
      accepts it everywhere, `criminal_strict_match` nowhere, while a keyword made
      only of whitespace passes the emptiness test and then matches every text. */
  lemma EmptyKeywordDivergence(text: string)
    ensures StrictMatch("", text)
    ensures !CriminalStrictMatch("", text)
    ensures CriminalStrictMatch(" ", text)
  {
    assert Normalize(text)[..0] == [];
    NormalizeIgnorable(" ");
  }
}
