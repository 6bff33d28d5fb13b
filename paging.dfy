/** What both search handlers do after ordering their results (app.py:303-315,
    399-404): count them, cut out the requested page with a Python slice and
    answer with the count, the page, the page size and the page's results; and
    the list helpers the handlers' loops are specified by. */
module Paging {
  import opened Wrappers
  import opened Sorting
  import Dates

  // ---------------------------------------------------------------------------
  // Python slices

  /** A slice bound as Python adjusts it: a negative bound counts from the end,
      and the result is clamped to `[0, n]`. */
  function SliceBound(i: int, n: nat): (r: nat)
    ensures r <= n
  {
    if i < 0 then (if i + n < 0 then 0 else i + n) else if i > n then n else i
  }

  /** `xs[start:end]`. */
  function PySlice<T>(xs: seq<T>, start: int, end: int): seq<T>
  {
    var s := SliceBound(start, |xs|);
    var e := SliceBound(end, |xs|);
    if s < e then xs[s..e] else []
  }

  /** `results[(page - 1) * page_size:(page - 1) * page_size + page_size]`. */
  function Paginate<T>(results: seq<T>, page: int, pageSize: int): seq<T>
  {
    var start := (page - 1) * pageSize;
    PySlice(results, start, start + pageSize)
  }

  function Min(a: int, b: int): int { if a <= b then a else b }

  /** From page 1 on, a page is the slice `[(page-1)·size, page·size)` clamped
      to the results: at most `size` results, and none past the end. */
  lemma PaginateMeaning<T>(results: seq<T>, page: int, pageSize: nat)
    requires page >= 1
    ensures var lo := (page - 1) * pageSize;
      var hi := page * pageSize;
      Paginate(results, page, pageSize) == results[Min(lo, |results|)..Min(hi, |results|)] &&
      |Paginate(results, page, pageSize)| <= pageSize &&
      (lo >= |results| ==> Paginate(results, page, pageSize) == [])
  {
    var lo := (page - 1) * pageSize;
    assert lo >= 0;
    assert lo + pageSize == page * pageSize;
  }

  /** A page number below 1 is not rejected: with page 0 the page is empty, but
      with page -1 and size 20 the slice `[-40:-20]` counts from the end. */
  lemma PageBelowOne<T>(results: seq<T>)
    requires |results| >= 40
    ensures Paginate(results, 0, 20) == []
    ensures Paginate(results, -1, 20) == results[|results| - 40..|results| - 20]
  {
  }

  // ---------------------------------------------------------------------------
  // The answer

  /** The JSON object a search answers with. */
  datatype Response<T> = Response(total: nat, page: int, pageSize: int, results: seq<T>)

  /** The results without their sort keys. */
  function Strip<T>(xs: seq<Keyed<T>>): (r: seq<T>)
    ensures |r| == |xs| && forall i :: 0 <= i < |xs| ==> r[i] == xs[i].1
  {
    if xs == [] then [] else Strip(xs[..|xs| - 1]) + [xs[|xs| - 1].1]
  }

  /** Order the collected results, count them, and cut out the page. */
  function Respond<T>(order: SortBy, page: int, pageSize: int, collected: seq<Keyed<T>>): Response<T>
  {
    Response(|collected|, page, pageSize, Paginate(Strip(Order(order, collected)), page, pageSize))
  }

  /** The total counts every collected result, before paging; each result shown
      is one of them. */
  lemma RespondMeaning<T>(order: SortBy, page: int, pageSize: int, collected: seq<Keyed<T>>)
    ensures Respond(order, page, pageSize, collected).total == |collected|
    ensures forall i :: 0 <= i < |Respond(order, page, pageSize, collected).results| ==>
      exists j :: 0 <= j < |collected| && collected[j].1 == Respond(order, page, pageSize, collected).results[i]
  {
    var ordered := Order(order, collected);
    var rs := Respond(order, page, pageSize, collected).results;
    var all := Strip(ordered);
    OrderMeaning(order, collected, Dates.MinDate);
    var s := SliceBound((page - 1) * pageSize, |all|);
    forall i | 0 <= i < |rs|
      ensures exists j :: 0 <= j < |collected| && collected[j].1 == rs[i]
    {
      assert rs[i] == all[s + i];
      assert ordered[s + i] in multiset(ordered);
      var j :| 0 <= j < |collected| && collected[j] == ordered[s + i];
    }
  }

  // ---------------------------------------------------------------------------
  // Filtering and collecting

  /** The elements `keep` admits, in order. */
  function Filter<X>(keep: X -> bool, xs: seq<X>): (r: seq<X>)
    ensures |r| <= |xs|
  {
    if xs == [] then []
    else Filter(keep, xs[..|xs| - 1]) + (if keep(xs[|xs| - 1]) then [xs[|xs| - 1]] else [])
  }

  /** `f` applied to each element, stopping at the first error. */
  function MapAll<X, Y>(f: X -> Result<Y>, xs: seq<X>): Result<seq<Y>>
  {
    if xs == [] then Ok([])
    else
      match MapAll(f, xs[..|xs| - 1])
      case Err(e) => Err(e)
      case Ok(ys) =>
        match f(xs[|xs| - 1])
        case Err(e) => Err(e)
        case Ok(y) => Ok(ys + [y])
  }

  lemma FilterSnoc<X>(keep: X -> bool, xs: seq<X>, x: X)
    ensures Filter(keep, xs + [x]) == Filter(keep, xs) + (if keep(x) then [x] else [])
  {
    assert (xs + [x])[..|xs|] == xs;
  }

  lemma {:induction false} FilterAppend<X>(keep: X -> bool, a: seq<X>, b: seq<X>)
    ensures Filter(keep, a + b) == Filter(keep, a) + Filter(keep, b)
    decreases |b|
  {
    if b == [] {
      assert a + b == a;
    } else {
      var init := b[..|b| - 1];
      var x := b[|b| - 1];
      assert a + b == (a + init) + [x];
      FilterSnoc(keep, a + init, x);
      FilterAppend(keep, a, init);
    }
  }

  lemma MapAllSnoc<X, Y>(f: X -> Result<Y>, xs: seq<X>, x: X)
    ensures MapAll(f, xs + [x]) ==
      match MapAll(f, xs)
      case Err(e) => Err(e)
      case Ok(ys) => (match f(x) case Err(e) => Err(e) case Ok(y) => Ok(ys + [y]))
  {
    assert (xs + [x])[..|xs|] == xs;
  }

  /** An error in a prefix is the error of the whole. */
  lemma {:induction false} MapAllErrPrefix<X, Y>(f: X -> Result<Y>, xs: seq<X>, k: nat)
    requires k <= |xs| && MapAll(f, xs[..k]).Err?
    ensures MapAll(f, xs) == MapAll(f, xs[..k])
  {
    if k < |xs| {
      assert xs[..|xs| - 1][..k] == xs[..k];
      MapAllErrPrefix(f, xs[..|xs| - 1], k);
    } else {
      assert xs[..k] == xs;
    }
  }

  /** Collecting succeeds exactly when every element succeeds, and then gives
      each element's value in order. */
  lemma {:induction false} MapAllMeaning<X, Y>(f: X -> Result<Y>, xs: seq<X>)
    ensures MapAll(f, xs).Ok? <==> forall i :: 0 <= i < |xs| ==> f(xs[i]).Ok?
    ensures MapAll(f, xs).Ok? ==>
      |MapAll(f, xs).value| == |xs| && forall i :: 0 <= i < |xs| ==> MapAll(f, xs).value[i] == f(xs[i]).value
  {
    if xs != [] {
      var init := xs[..|xs| - 1];
      MapAllMeaning(f, init);
      assert forall i :: 0 <= i < |init| ==> init[i] == xs[i];
    }
  }

  /** An element is admitted exactly when `keep` holds for it; the admitted
      elements are those of the input. */
  lemma {:induction false} FilterMeaning<X>(keep: X -> bool, xs: seq<X>)
    ensures forall i :: 0 <= i < |Filter(keep, xs)| ==> keep(Filter(keep, xs)[i])
    ensures multiset(Filter(keep, xs)) <= multiset(xs)
    ensures forall x :: x in xs && keep(x) ==> x in Filter(keep, xs)
  {
    if xs != [] {
      var init := xs[..|xs| - 1];
      FilterMeaning(keep, init);
      assert xs == init + [xs[|xs| - 1]];
    }
  }
}
