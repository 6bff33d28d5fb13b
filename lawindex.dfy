/** The statute→article index built by `load_criminal_csv` (app.py:126-147): each
    row's 참조조문 is cut into fragments, a fragment without a statute inherits the
    row's most recent one, the (statute, article) pairs are collected into a
    dictionary of sets, every set is sorted by `sort_article_key`, and the
    statutes are sorted. The `/criminal/articles` lookup (app.py:324-327) reads
    the index. */
module LawIndex {
  import opened Text
  import opened Wrappers
  import opened Citation

  // ---------------------------------------------------------------------------
  // The "inherit the last statute" fold over one row

  /** A fragment as `parse_refs_to_law_and_article` splits it: (statute, article). */
  type Parsed = (string, string)

  /** Every fragment of a row, parsed. */
  function ParseAll(refs: seq<string>): (r: seq<Parsed>)
    ensures |r| == |refs|
    ensures forall i :: 0 <= i < |refs| ==> r[i] == LawAndArticle(refs[i])
  {
    seq(|refs|, i requires 0 <= i < |refs| => LawAndArticle(refs[i]))
  }

  /** The statute fragment `f` registers under, given the most recent statute
      `last`: its own, else `last` when it carries an article. */
  function Owner(last: string, f: Parsed): string
  {
    if f.0 != "" then f.0 else if last != "" && f.1 != "" then last else f.0
  }

  /** What fragment `f` registers: a pair when both parts are non-empty. */
  function StepPairs(last: string, f: Parsed): seq<(string, string)>
  {
    if Owner(last, f) != "" && f.1 != "" then [(Owner(last, f), f.1)] else []
  }

  /** The most recent statute after fragment `f`. */
  function StepLast(last: string, f: Parsed): string
  {
    if f.0 != "" then f.0 else last
  }

  /** The pairs the parsed fragments `frags` register, `last` being the most
      recent statute seen before them in the row ("" for none). */
  function PairsFrom(last: string, frags: seq<Parsed>): (ps: seq<(string, string)>)
    ensures forall i :: 0 <= i < |ps| ==> ps[i].0 != "" && ps[i].1 != ""
    decreases |frags|
  {
    if frags == [] then []
    else StepPairs(last, frags[0]) + PairsFrom(StepLast(last, frags[0]), frags[1..])
  }

  lemma PairsFromCons(last: string, frags: seq<Parsed>)
    requires frags != []
    ensures PairsFrom(last, frags) == StepPairs(last, frags[0]) + PairsFrom(StepLast(last, frags[0]), frags[1..])
  {
  }

  lemma AppendEmpty<T>(a: seq<T>)
    ensures a + [] == a
  {
  }

  lemma AppendAssoc<T>(a: seq<T>, b: seq<T>, c: seq<T>)
    ensures (a + b) + c == a + (b + c)
  {
  }

  /** The pairs one row registers. */
  function RowPairs(refs: seq<string>): seq<(string, string)>
  {
    PairsFrom("", ParseAll(refs))
  }

  /** Reference definition: the statute named by the last fragment of `frags`
      that names one, or `fallback`. */
  function LastLaw(fallback: string, frags: seq<Parsed>): string
  {
    if frags == [] then fallback
    else if frags[|frags| - 1].0 != "" then frags[|frags| - 1].0
    else LastLaw(fallback, frags[..|frags| - 1])
  }

  /** Reference definition: what fragment `i` registers. It keeps its own
      statute, or else takes the most recent earlier statute of the row, and it
      registers only when both the statute and the article are non-empty. */
  function PairAt(fallback: string, frags: seq<Parsed>, i: nat): Option<(string, string)>
    requires i < |frags|
  {
    var (law, article) := frags[i];
    var owner := if law != "" then law else LastLaw(fallback, frags[..i]);
    if owner != "" && article != "" then Some((owner, article)) else None
  }

  lemma {:induction false} LastLawCons(fallback: string, f: Parsed, frags: seq<Parsed>)
    ensures LastLaw(fallback, [f] + frags) == LastLaw(if f.0 != "" then f.0 else fallback, frags)
    decreases |frags|
  {
    if frags == [] {
      assert [f] + frags == [f];
      assert [f][..0] == [];
    } else {
      var n := |frags|;
      assert ([f] + frags)[..n] == [f] + frags[..n - 1];
      LastLawCons(fallback, f, frags[..n - 1]);
    }
  }

  /** The fold registers exactly the pairs the reference definition names. */
  lemma PairsFromMeaning(last: string, frags: seq<Parsed>, p: (string, string))
    ensures p in PairsFrom(last, frags) <==> exists i :: 0 <= i < |frags| && PairAt(last, frags, i) == Some(p)
  {
    if p in PairsFrom(last, frags) {
      PairsFromSound(last, frags, p);
    }
    if i :| 0 <= i < |frags| && PairAt(last, frags, i) == Some(p) {
      PairsFromComplete(last, frags, i, p);
    }
  }

  /** The first fragment registers what the reference definition says. */
  lemma PairAtFirst(last: string, frags: seq<Parsed>)
    requires frags != []
    ensures StepPairs(last, frags[0]) == if PairAt(last, frags, 0).Some? then [PairAt(last, frags, 0).value] else []
  {
    assert frags[..0] == [];
  }

  /** Past the first fragment, the reference definition continues with the
      statute the first fragment leaves behind. */
  lemma PairAtShift(last: string, frags: seq<Parsed>, i: nat)
    requires 1 <= i < |frags|
    ensures PairAt(last, frags, i) == PairAt(StepLast(last, frags[0]), frags[1..], i - 1)
  {
    assert frags[..i] == [frags[0]] + frags[1..][..i - 1];
    LastLawCons(last, frags[0], frags[1..][..i - 1]);
  }

  /** Every registered pair is named by the reference definition. */
  lemma {:induction false} PairsFromSound(last: string, frags: seq<Parsed>, p: (string, string))
    requires p in PairsFrom(last, frags)
    ensures exists i :: 0 <= i < |frags| && PairAt(last, frags, i) == Some(p)
    decreases |frags|
  {
    PairsFromCons(last, frags);
    PairAtFirst(last, frags);
    var last', tail := StepLast(last, frags[0]), frags[1..];
    if p in StepPairs(last, frags[0]) {
      assert PairAt(last, frags, 0) == Some(p);
    } else {
      assert p in PairsFrom(last', tail);
      PairsFromSound(last', tail, p);
      var j :| 0 <= j < |tail| && PairAt(last', tail, j) == Some(p);
      PairAtShift(last, frags, j + 1);
      assert PairAt(last, frags, j + 1) == Some(p);
    }
  }

  /** Every pair the reference definition names is registered. */
  lemma {:induction false} PairsFromComplete(last: string, frags: seq<Parsed>, i: nat, p: (string, string))
    requires i < |frags| && PairAt(last, frags, i) == Some(p)
    ensures p in PairsFrom(last, frags)
    decreases i
  {
    PairsFromCons(last, frags);
    if i == 0 {
      PairAtFirst(last, frags);
    } else {
      PairAtShift(last, frags, i);
      PairsFromComplete(StepLast(last, frags[0]), frags[1..], i - 1, p);
    }
  }

  lemma PairAtMeaning(frags: seq<Parsed>, i: nat, law: string, article: string)
    requires i < |frags|
    ensures PairAt("", frags, i) == Some((law, article))
        <==> law != "" && article != "" && frags[i].1 == article
             && (frags[i].0 == law || (frags[i].0 == "" && LastLaw("", frags[..i]) == law))
  {
  }

  /** A row registers `(law, article)` exactly when some fragment carries that
      article and either names that statute itself or names none while that
      statute is the most recent one named before it in the row. */
  lemma RowPairsMeaning(frags: seq<Parsed>, law: string, article: string)
    ensures (law, article) in PairsFrom("", frags)
        <==> law != "" && article != ""
             && exists i :: 0 <= i < |frags| && frags[i].1 == article
                  && (frags[i].0 == law || (frags[i].0 == "" && LastLaw("", frags[..i]) == law))
  {
    PairsFromMeaning("", frags, (law, article));
    forall i | 0 <= i < |frags| {
      PairAtMeaning(frags, i, law, article);
    }
  }

  /** A fragment with no statute of its own before any statute in its row
      registers nothing. */
  lemma NoStatuteYet(frags: seq<Parsed>, i: nat)
    requires i < |frags| && frags[i].0 == "" && forall j :: 0 <= j < i ==> frags[j].0 == ""
    ensures PairAt("", frags, i) == None
  {
    LastLawNone(frags[..i]);
  }

  lemma {:induction false} LastLawNone(frags: seq<Parsed>)
    requires forall j :: 0 <= j < |frags| ==> frags[j].0 == ""
    ensures LastLaw("", frags) == ""
  {
    if frags != [] {
      LastLawNone(frags[..|frags| - 1]);
    }
  }

  /** The body of the fragment loop of `load_criminal_csv`, given the parsed
      fragment: update the most recent statute, and register the pair when both
      parts are there. */
  method ScanFragment(last: string, law: string, article: string) returns (registered: seq<(string, string)>, last': string)
    ensures registered == StepPairs(last, (law, article))
    ensures last' == StepLast(last, (law, article))
  {
    var owner := law;
    last' := last;
    if law != "" {
      last' := law;
    } else if last != "" && article != "" {
      owner := last;
    }
    registered := if owner != "" && article != "" then [(owner, article)] else [];
  }

  /** One row, fragment by fragment, as the loop of `load_criminal_csv` does it. */
  method ScanRow(refs: seq<string>) returns (pairs: seq<(string, string)>)
    ensures pairs == RowPairs(refs)
  {
    ghost var frags := ParseAll(refs);
    pairs := [];
    var last := "";
    for i := 0 to |refs|
      invariant pairs + PairsFrom(last, frags[i..]) == PairsFrom("", frags)
    {
      ghost var pairs0, last0 := pairs, last;
      var law, article := ParseRefs(refs[i]);
      assert frags[i..][0] == (law, article);
      var registered;
      registered, last := ScanFragment(last, law, article);
      pairs := pairs + registered;
      ScanRowStep(pairs0, last0, frags[i..]);
      assert frags[i..][1..] == frags[i + 1..];
    }
    AppendEmpty(pairs);
  }

  lemma ScanRowStep(done: seq<(string, string)>, last: string, rest: seq<Parsed>)
    requires rest != []
    ensures done + PairsFrom(last, rest) ==
      (done + StepPairs(last, rest[0])) + PairsFrom(StepLast(last, rest[0]), rest[1..])
  {
    PairsFromCons(last, rest);
    AppendAssoc(done, StepPairs(last, rest[0]), PairsFrom(StepLast(last, rest[0]), rest[1..]));
  }

  // ---------------------------------------------------------------------------
  // The dictionary of sets

  /** `criminal_laws_dict[law].add(article)` for each pair, in order. */
  function AddPairs(m: map<string, set<string>>, ps: seq<(string, string)>): map<string, set<string>>
    decreases |ps|
  {
    if ps == [] then m
    else AddPairs(m[ps[0].0 := (if ps[0].0 in m then m[ps[0].0] else {}) + {ps[0].1}], ps[1..])
  }

  lemma {:induction false} AddPairsAppend(m: map<string, set<string>>, x: seq<(string, string)>, y: seq<(string, string)>)
    ensures AddPairs(m, x + y) == AddPairs(AddPairs(m, x), y)
    decreases |x|
  {
    if x != [] {
      assert (x + y)[1..] == x[1..] + y;
      AddPairsAppend(m[x[0].0 := (if x[0].0 in m then m[x[0].0] else {}) + {x[0].1}], x[1..], y);
    } else {
      assert x + y == y;
    }
  }

  /** The dictionary holds what it held plus exactly the added pairs. */
  lemma {:induction false} AddPairsMeaning(m: map<string, set<string>>, ps: seq<(string, string)>, law: string, article: string)
    ensures law in AddPairs(m, ps) <==> law in m || exists a :: (law, a) in ps
    ensures law in AddPairs(m, ps) && article in AddPairs(m, ps)[law]
        <==> (law in m && article in m[law]) || (law, article) in ps
    decreases |ps|
  {
    if ps != [] {
      var m' := m[ps[0].0 := (if ps[0].0 in m then m[ps[0].0] else {}) + {ps[0].1}];
      AddPairsMeaning(m', ps[1..], law, article);
      assert ps == [ps[0]] + ps[1..];
      if law in m' && law !in m {
        assert (law, ps[0].1) in ps;
      }
      if a :| (law, a) in ps {
        if (law, a) != ps[0] {
          assert (law, a) in ps[1..];
        }
      }
    }
  }

  /** All pairs of all rows, row by row. */
  function AllPairs(refFields: seq<string>): seq<(string, string)>
  {
    if refFields == [] then []
    else RowPairs(NonEmptyPieces(refFields[0], ',')) + AllPairs(refFields[1..])
  }

  /** `criminal_laws_dict` after all rows, before sorting. */
  function Collect(refFields: seq<string>): map<string, set<string>>
  {
    AddPairs(map[], AllPairs(refFields))
  }

  /** A statute is a key iff some row registers an article for it, and its set
      holds exactly the articles registered for it. */
  lemma CollectMeaning(refFields: seq<string>, law: string, article: string)
    ensures law in Collect(refFields) <==> exists a :: (law, a) in AllPairs(refFields)
    ensures law in Collect(refFields) && article in Collect(refFields)[law]
        <==> (law, article) in AllPairs(refFields)
  {
    AddPairsMeaning(map[], AllPairs(refFields), law, article);
  }

  // ---------------------------------------------------------------------------
  // Orders

  predicate NotDigit(c: char) { !IsDigit(c) }

  /** `re.search(r"\d+", x)` converted by `int`, or 0 when `x` has no digit. */
  function FirstInt(x: string): nat
  {
    var i := Span(x, NotDigit);
    if i == |x| then 0
    else
      var d := x[i..][..Span(x[i..], IsDigit)];
      assert AllDigits(d);
      Value(d)
  }

  /** The first integer of a string is the value of its first run of digits. */
  lemma FirstIntOf(pre: string, digits: string, post: string)
    requires forall i :: 0 <= i < |pre| ==> !IsDigit(pre[i])
    requires digits != [] && AllDigits(digits)
    requires post == [] || !IsDigit(post[0])
    ensures FirstInt(pre + digits + post) == Value(digits)
  {
    var x := pre + digits + post;
    assert x == pre + (digits + post);
    SpanStops(pre, digits + post, NotDigit);
    assert x[|pre|..] == digits + post;
    SpanStops(digits, post, IsDigit);
    assert (digits + post)[..|digits|] == digits;
  }

  lemma FirstIntNone(x: string)
    requires forall i :: 0 <= i < |x| ==> !IsDigit(x[i])
    ensures FirstInt(x) == 0
  {
    SpanStops(x, [], NotDigit);
    assert x + [] == x;
  }

  /** `sort_article_key`: the first integer, then the whole string. */
  predicate ArticleLess(a: string, b: string)
  {
    FirstInt(a) < FirstInt(b) || (FirstInt(a) == FirstInt(b) && LexLess(a, b))
  }

  /** The two orders of the index: articles by `sort_article_key`, statutes as
      plain strings. */
  datatype Order = ByArticle | ByText

  predicate Less(o: Order, a: string, b: string)
  {
    match o
    case ByArticle => ArticleLess(a, b)
    case ByText => LexLess(a, b)
  }

  lemma LessIrreflexive(o: Order, a: string)
    ensures !Less(o, a, a)
  {
    LexLessIrreflexive(a);
  }

  lemma LessTransitive(o: Order, a: string, b: string, c: string)
    requires Less(o, a, b) && Less(o, b, c)
    ensures Less(o, a, c)
  {
    if o.ByText? || (FirstInt(a) == FirstInt(b) && FirstInt(b) == FirstInt(c)) {
      LexLessTransitive(a, b, c);
    }
  }

  lemma LessTotal(o: Order, a: string, b: string)
    requires a != b
    ensures Less(o, a, b) || Less(o, b, a)
  {
    LexLessTotal(a, b);
  }

  lemma FirstIntExamples()
    ensures FirstInt("제2조") == 2 && FirstInt("제2조의2") == 2 && FirstInt("제10조") == 10
  {
    FirstIntTwo();
    FirstIntTen();
  }

  /** An article and its branch article have the same key. */
  lemma FirstIntTwo()
    ensures FirstInt("제2조") == 2 && FirstInt("제2조의2") == 2
  {
    FirstIntOf("제", "2", "조");
    FirstIntOf("제", "2", "조의2");
    assert "제2조" == "제" + "2" + "조";
    assert "제2조의2" == "제" + "2" + "조의2";
    assert "2"[..0] == "";
  }

  /** A two-digit article number is read as one number. */
  lemma FirstIntTen()
    ensures FirstInt("제10조") == 10
  {
    FirstIntOf("제", "10", "조");
    assert "제10조" == "제" + "10" + "조";
    assert "10"[..1] == "1";
    assert "1"[..0] == "";
  }

  /** "제2조" < "제2조의2" < "제10조": the same number orders by the whole
      string, and numbers compare as numbers, not as text. */
  lemma ArticleOrderExamples()
    ensures ArticleLess("제2조", "제2조의2")
    ensures ArticleLess("제2조의2", "제10조")
    ensures !LexLess("제2조", "제10조") && ArticleLess("제2조", "제10조")
  {
    FirstIntExamples();
    assert "제2조"[1..] == "2조" && "제2조의2"[1..] == "2조의2" && "제10조"[1..] == "10조";
    assert "2조"[1..] == "조" && "2조의2"[1..] == "조의2";
    assert "조"[1..] == "" && "조의2"[1..] == "의2";
  }

  /** Strictly increasing, hence also free of duplicates. */
  predicate Ascending(o: Order, xs: seq<string>)
  {
    forall i, j :: 0 <= i < j < |xs| ==> Less(o, xs[i], xs[j])
  }

  /** `x` put into its place in an ascending sequence. */
  function InsertSorted(o: Order, x: string, xs: seq<string>): (r: seq<string>)
    requires Ascending(o, xs) && x !in xs
    ensures Ascending(o, r)
    ensures forall y :: y in r <==> y == x || y in xs
    ensures |r| == |xs| + 1
  {
    if xs == [] then [x]
    else if Less(o, x, xs[0]) then
      assert forall j :: 0 <= j < |xs| ==> Less(o, x, xs[j]) by {
        forall j | 0 < j < |xs| {
          LessTransitive(o, x, xs[0], xs[j]);
        }
      }
      [x] + xs
    else
      LessTotal(o, x, xs[0]);
      var rest := InsertSorted(o, x, xs[1..]);
      assert forall y :: y in rest ==> Less(o, xs[0], y);
      [xs[0]] + rest
  }

  /** `sorted(s, key=...)` of a set: the elements in ascending order. */
  method SortSet(o: Order, s: set<string>) returns (xs: seq<string>)
    ensures Ascending(o, xs)
    ensures forall x :: x in xs <==> x in s
  {
    xs := [];
    var rest := s;
    while rest != {}
      invariant rest <= s
      invariant Ascending(o, xs)
      invariant forall x :: x in xs <==> x in s && x !in rest
      decreases rest
    {
      var x :| x in rest;
      xs := InsertSorted(o, x, xs);
      rest := rest - {x};
    }
  }

  lemma SameElementsEmpty(xs: seq<string>, ys: seq<string>)
    requires forall x :: x in xs <==> x in ys
    ensures xs == [] <==> ys == []
  {
    if xs != [] {
      assert xs[0] in ys;
    }
    if ys != [] {
      assert ys[0] in xs;
    }
  }

  /** There is only one ascending arrangement of a set, so the result does not
      depend on the order in which the set is visited. */
  lemma {:induction false} AscendingUnique(o: Order, xs: seq<string>, ys: seq<string>)
    requires Ascending(o, xs) && Ascending(o, ys)
    requires forall x :: x in xs <==> x in ys
    ensures xs == ys
    decreases |xs|
  {
    SameElementsEmpty(xs, ys);
    if xs != [] {
      assert xs[0] in ys && ys[0] in xs;
      var k :| 0 <= k < |ys| && ys[k] == xs[0];
      var m :| 0 <= m < |xs| && xs[m] == ys[0];
      if k != 0 {
        assert Less(o, ys[0], xs[0]);
        if m == 0 {
          LessIrreflexive(o, xs[0]);
        } else {
          LessTransitive(o, xs[0], ys[0], xs[0]);
          LessIrreflexive(o, xs[0]);
        }
      }
      forall x
        ensures x in xs[1..] <==> x in ys[1..]
      {
        if x in xs[1..] {
          var i :| 1 <= i < |xs| && xs[i] == x;
          LessIrreflexive(o, x);
          assert x != xs[0];
          assert x in ys;
          assert x in ys[1..] by { assert x == ys[0] ==> false; }
        }
        if x in ys[1..] {
          var i :| 1 <= i < |ys| && ys[i] == x;
          LessIrreflexive(o, x);
          assert x in xs;
          assert x in xs[1..] by { assert x == xs[0] ==> false; }
        }
      }
      AscendingUnique(o, xs[1..], ys[1..]);
      assert xs == [xs[0]] + xs[1..] && ys == [ys[0]] + ys[1..];
    }
  }

  // ---------------------------------------------------------------------------
  // The index

  /** What `load_criminal_csv` leaves behind: every collected statute maps to its
      articles sorted by `sort_article_key`, and the statute list is the sorted
      keys. */
  ghost predicate IsIndexOf(refFields: seq<string>, index: map<string, seq<string>>, laws: seq<string>)
  {
    && index.Keys == Collect(refFields).Keys
    && (forall law :: law in index ==>
          Ascending(ByArticle, index[law]) && forall a :: a in index[law] <==> a in Collect(refFields)[law])
    && Ascending(ByText, laws)
    && (forall law :: law in laws <==> law in index)
  }

  /** The index part of `load_criminal_csv`, given the 참조조문 field of every row:
      the fragment loop with `last_law`, then the per-statute sort and the sorted
      statute list. */
  method BuildIndex(refFields: seq<string>) returns (index: map<string, seq<string>>, laws: seq<string>)
    ensures IsIndexOf(refFields, index, laws)
  {
    var m: map<string, set<string>> := map[];
    for j := 0 to |refFields|
      invariant AddPairs(m, AllPairs(refFields[j..])) == Collect(refFields)
    {
      assert refFields[j..][1..] == refFields[j + 1..];
      var refs := NonEmptyPieces(refFields[j], ',');
      var pairs := ScanRow(refs);
      ghost var rowStart := m;
      for k := 0 to |pairs|
        invariant AddPairs(m, pairs[k..]) == AddPairs(rowStart, pairs)
      {
        assert pairs[k..][1..] == pairs[k + 1..];
        var (law, article) := pairs[k];
        m := m[law := (if law in m then m[law] else {}) + {article}];
      }
      AddPairsAppend(rowStart, RowPairs(refs), AllPairs(refFields[j + 1..]));
    }
    assert refFields[|refFields|..] == [];

    index := map[];
    var keys := m.Keys;
    while keys != {}
      invariant keys <= m.Keys
      invariant index.Keys == m.Keys - keys
      invariant forall law :: law in index ==>
                  Ascending(ByArticle, index[law]) && forall a :: a in index[law] <==> a in m[law]
      decreases keys
    {
      var law :| law in keys;
      var articles := SortSet(ByArticle, m[law]);
      index := index[law := articles];
      keys := keys - {law};
    }
    laws := SortSet(ByText, m.Keys);
  }

  /** Every statute in the index has at least one article, and holds an article
      iff some row registers the pair. */
  lemma IndexMeaning(refFields: seq<string>, index: map<string, seq<string>>, laws: seq<string>, law: string, article: string)
    requires IsIndexOf(refFields, index, laws)
    ensures law in laws <==> exists a :: (law, a) in AllPairs(refFields)
    ensures law in index && article in index[law] <==> (law, article) in AllPairs(refFields)
  {
    CollectMeaning(refFields, law, article);
  }

  /** `/criminal/articles`: the stripped statute name looked up in the index;
      empty or unknown gives []. */
  function ArticlesFor(index: map<string, seq<string>>, law: string): seq<string>
  {
    var l := Trim(law);
    if l == "" || l !in index then [] else index[l]
  }

  /** The lookup lists, in `sort_article_key` order, exactly the articles some
      row registers for the stripped statute name, and nothing for an empty or
      unknown one. */
  lemma ArticlesForMeaning(refFields: seq<string>, index: map<string, seq<string>>, laws: seq<string>, law: string, article: string)
    requires IsIndexOf(refFields, index, laws)
    ensures Ascending(ByArticle, ArticlesFor(index, law))
    ensures article in ArticlesFor(index, law) <==> (Trim(law), article) in AllPairs(refFields)
    ensures Trim(law) == "" || Trim(law) !in laws ==> ArticlesFor(index, law) == []
  {
    CollectMeaning(refFields, Trim(law), article);
    if Trim(law) == "" {
      forall a | (Trim(law), a) in AllPairs(refFields)
        ensures false
      {
        AllPairsNonEmpty(refFields, (Trim(law), a));
      }
    }
  }

  lemma {:induction false} AllPairsNonEmpty(refFields: seq<string>, p: (string, string))
    requires p in AllPairs(refFields)
    ensures p.0 != "" && p.1 != ""
    decreases |refFields|
  {
    var row := RowPairs(NonEmptyPieces(refFields[0], ','));
    if p !in row {
      AllPairsNonEmpty(refFields[1..], p);
    }
  }
}
