/** The result ordering of both searches (app.py:297-301, 393-397): "latest"
    sorts by the date key newest first, "oldest" oldest first, and any other
    value keeps the filtering order. Python's `list.sort` is stable, also with
    `reverse=True`, so results with the same date keep their order. Each result
    travels with its date key. */
module Sorting {
  import opened Dates

  /** The request's `sortBy`. */
  datatype SortBy = Latest | Oldest | Unsorted

  function SortByOf(name: string): SortBy
  {
    if name == "latest" then Latest else if name == "oldest" then Oldest else Unsorted
  }

  /** A result with its sort key. */
  type Keyed<T> = (Date, T)

  /** `a` must come strictly before `b` in the requested direction. */
  predicate Outranks(newestFirst: bool, a: Date, b: Date)
  {
    if newestFirst then Before(b, a) else Before(a, b)
  }

  /** Inserting `x` after every element it does not outrank: the step of a
      stable insertion sort. */
  function Insert<T>(newestFirst: bool, ys: seq<Keyed<T>>, x: Keyed<T>): seq<Keyed<T>>
  {
    if ys != [] && Outranks(newestFirst, x.0, ys[|ys| - 1].0) then
      Insert(newestFirst, ys[..|ys| - 1], x) + [ys[|ys| - 1]]
    else ys + [x]
  }

  /** The stable sort by date key, in one direction. */
  function SortByDate<T>(newestFirst: bool, xs: seq<Keyed<T>>): seq<Keyed<T>>
  {
    if xs == [] then [] else Insert(newestFirst, SortByDate(newestFirst, xs[..|xs| - 1]), xs[|xs| - 1])
  }

  /** The ordering step of a search handler. */
  function Order<T>(order: SortBy, xs: seq<Keyed<T>>): seq<Keyed<T>>
  {
    match order
    case Latest => SortByDate(true, xs)
    case Oldest => SortByDate(false, xs)
    case Unsorted => xs
  }

  // ---------------------------------------------------------------------------
  // Reference properties

  /** No element is outranked by a later one. */
  predicate Ordered<T>(newestFirst: bool, r: seq<Keyed<T>>)
  {
    forall i, j :: 0 <= i < j < |r| ==> !Outranks(newestFirst, r[j].0, r[i].0)
  }

  /** The elements with key `d`, in order. */
  function WithKey<T>(r: seq<Keyed<T>>, d: Date): seq<Keyed<T>>
  {
    if r == [] then []
    else WithKey(r[..|r| - 1], d) + (if r[|r| - 1].0 == d then [r[|r| - 1]] else [])
  }

  lemma NotOutranksTransitive(newestFirst: bool, a: Date, b: Date, c: Date)
    requires !Outranks(newestFirst, b, a) && !Outranks(newestFirst, c, b)
    ensures !Outranks(newestFirst, c, a)
  {
    BeforeIsStrictTotal(a, b, c);
    BeforeIsStrictTotal(c, b, a);
  }

  lemma {:induction false} InsertElements<T>(newestFirst: bool, ys: seq<Keyed<T>>, x: Keyed<T>)
    ensures multiset(Insert(newestFirst, ys, x)) == multiset(ys) + multiset{x}
  {
    if ys != [] && Outranks(newestFirst, x.0, ys[|ys| - 1].0) {
      InsertElements(newestFirst, ys[..|ys| - 1], x);
      assert ys == ys[..|ys| - 1] + [ys[|ys| - 1]];
    }
  }

  lemma {:induction false} InsertOrdered<T>(newestFirst: bool, ys: seq<Keyed<T>>, x: Keyed<T>)
    requires Ordered(newestFirst, ys)
    ensures Ordered(newestFirst, Insert(newestFirst, ys, x))
    decreases |ys|
  {
    if ys != [] {
      var n := |ys| - 1;
      if Outranks(newestFirst, x.0, ys[n].0) {
        assert Ordered(newestFirst, ys[..n]);
        InsertOrdered(newestFirst, ys[..n], x);
        InsertBefore(newestFirst, ys, x);
      } else {
        AppendOrdered(newestFirst, ys, x);
      }
    }
  }

  /** The step where `x` moves before the last element. */
  lemma InsertBefore<T>(newestFirst: bool, ys: seq<Keyed<T>>, x: Keyed<T>)
    requires ys != [] && Ordered(newestFirst, ys)
    requires Outranks(newestFirst, x.0, ys[|ys| - 1].0)
    requires Ordered(newestFirst, Insert(newestFirst, ys[..|ys| - 1], x))
    ensures Ordered(newestFirst, Insert(newestFirst, ys[..|ys| - 1], x) + [ys[|ys| - 1]])
  {
    var n := |ys| - 1;
    var last := ys[n];
    var init := ys[..n];
    var a := Insert(newestFirst, init, x);
    InsertElements(newestFirst, init, x);
    forall i | 0 <= i < |a| ensures !Outranks(newestFirst, last.0, a[i].0) {
      assert a[i] in multiset(a);
      if a[i] != x {
        assert a[i] in multiset(init);
        var k :| 0 <= k < n && init[k] == a[i];
        assert ys[k] == a[i];
      } else {
        BeforeIsStrictTotal(x.0, last.0, x.0);
      }
    }
    var r := a + [last];
    forall i, j | 0 <= i < j < |r| ensures !Outranks(newestFirst, r[j].0, r[i].0) {
      if j < |a| {
        assert r[i] == a[i] && r[j] == a[j];
      } else {
        assert r[i] == a[i] && r[j] == last;
      }
    }
  }

  /** The step where `x` stays after the last element. */
  lemma AppendOrdered<T>(newestFirst: bool, ys: seq<Keyed<T>>, x: Keyed<T>)
    requires ys != [] && Ordered(newestFirst, ys)
    requires !Outranks(newestFirst, x.0, ys[|ys| - 1].0)
    ensures Ordered(newestFirst, ys + [x])
  {
    var n := |ys| - 1;
    var r := ys + [x];
    forall i | 0 <= i < n ensures !Outranks(newestFirst, x.0, ys[i].0) {
      NotOutranksTransitive(newestFirst, ys[i].0, ys[n].0, x.0);
    }
    forall i, j | 0 <= i < j < |r| ensures !Outranks(newestFirst, r[j].0, r[i].0) {
      if j < |ys| {
        assert r[i] == ys[i] && r[j] == ys[j];
      } else {
        assert r[i] == ys[i] && r[j] == x;
      }
    }
  }

  lemma {:induction false} InsertWithKey<T>(newestFirst: bool, ys: seq<Keyed<T>>, x: Keyed<T>, d: Date)
    ensures WithKey(Insert(newestFirst, ys, x), d) == WithKey(ys, d) + (if x.0 == d then [x] else [])
  {
    if ys != [] && Outranks(newestFirst, x.0, ys[|ys| - 1].0) {
      var n := |ys| - 1;
      InsertWithKey(newestFirst, ys[..n], x, d);
      WithKeyPast(newestFirst, ys, x, d);
    } else {
      assert (ys + [x])[..|ys|] == ys;
    }
  }

  /** The step where `x` moves before the last element, which has another key. */
  lemma WithKeyPast<T>(newestFirst: bool, ys: seq<Keyed<T>>, x: Keyed<T>, d: Date)
    requires ys != [] && Outranks(newestFirst, x.0, ys[|ys| - 1].0)
    requires WithKey(Insert(newestFirst, ys[..|ys| - 1], x), d) ==
      WithKey(ys[..|ys| - 1], d) + (if x.0 == d then [x] else [])
    ensures WithKey(Insert(newestFirst, ys[..|ys| - 1], x) + [ys[|ys| - 1]], d) ==
      WithKey(ys, d) + (if x.0 == d then [x] else [])
  {
    var n := |ys| - 1;
    var last := ys[n];
    var fx: seq<Keyed<T>> := if x.0 == d then [x] else [];
    var fl: seq<Keyed<T>> := if last.0 == d then [last] else [];
    var a := Insert(newestFirst, ys[..n], x);
    assert (a + [last])[..|a|] == a;
    assert WithKey(a + [last], d) == WithKey(a, d) + fl;
    BeforeIsStrictTotal(x.0, last.0, x.0);
    assert fx == [] || fl == [];
    assert fx + fl == fl + fx;
    assert WithKey(ys, d) == WithKey(ys[..n], d) + fl;
  }

  /** The sort is a permutation of its input. */
  lemma {:induction false} SortPermutes<T>(newestFirst: bool, xs: seq<Keyed<T>>)
    ensures multiset(SortByDate(newestFirst, xs)) == multiset(xs)
  {
    if xs != [] {
      SortPermutes(newestFirst, xs[..|xs| - 1]);
      InsertElements(newestFirst, SortByDate(newestFirst, xs[..|xs| - 1]), xs[|xs| - 1]);
      assert xs == xs[..|xs| - 1] + [xs[|xs| - 1]];
    }
  }

  /** The sort orders its output by date in the requested direction. */
  lemma {:induction false} SortOrders<T>(newestFirst: bool, xs: seq<Keyed<T>>)
    ensures Ordered(newestFirst, SortByDate(newestFirst, xs))
  {
    if xs != [] {
      SortOrders(newestFirst, xs[..|xs| - 1]);
      InsertOrdered(newestFirst, SortByDate(newestFirst, xs[..|xs| - 1]), xs[|xs| - 1]);
    }
  }

  /** The sort is stable: results with the same date keep their relative order. */
  lemma {:induction false} SortStable<T>(newestFirst: bool, xs: seq<Keyed<T>>, d: Date)
    ensures WithKey(SortByDate(newestFirst, xs), d) == WithKey(xs, d)
  {
    if xs != [] {
      SortStable(newestFirst, xs[..|xs| - 1], d);
      InsertWithKey(newestFirst, SortByDate(newestFirst, xs[..|xs| - 1]), xs[|xs| - 1], d);
    }
  }

  /** Each ordering keeps the results, and "latest" and "oldest" order them
      stably, newest first and oldest first. */
  lemma OrderMeaning<T>(order: SortBy, xs: seq<Keyed<T>>, d: Date)
    ensures multiset(Order(order, xs)) == multiset(xs)
    ensures order == Latest ==> Ordered(true, Order(order, xs))
    ensures order == Oldest ==> Ordered(false, Order(order, xs))
    ensures WithKey(Order(order, xs), d) == WithKey(xs, d)
    ensures order == Unsorted ==> Order(order, xs) == xs
  {
    if order != Unsorted {
      var nf := order == Latest;
      SortPermutes(nf, xs);
      SortOrders(nf, xs);
      SortStable(nf, xs, d);
    }
  }
}
