/** The body of `criminal_search` (app.py:332-404): the keyword decision, the
    statute and article filter, the decision-date sort key, the grouped and
    highlighted display row, then ordering and the page. */
module CriminalHandler {
  import opened Text
  import opened Records
  import opened Query
  import opened Dates
  import opened Grouping
  import opened Highlight
  import opened Sorting
  import opened Paging

  /** The request body, with `selectedLaw` and `selectedArticle` as sent (a
      missing or null one is ""). A missing `mode` is SINGLE. */
  datatype Request = Request(mode: Mode, keywords: seq<string>, exclude: seq<string>,
                             selectedLaw: string, selectedArticle: string,
                             page: int, pageSize: int, sortBy: SortBy)

  /** The key the handler adds for sorting and removes again. */
  const SortKey: string := "_sort_date"

  /** A row survives: not excluded, the keywords match, and the cited provisions
      contain the selected statute (and the selected "statute article"). */
  predicate Keep(req: Request, r: Row)
  {
    Passes(Criminal, CriminalRowStrings(r), req.mode, req.keywords, req.exclude) &&
    ReferenceFilter(Field(r, ReferencesColumn), Trim(req.selectedLaw), Trim(req.selectedArticle))
  }

  /** A value as shown: the cited provisions grouped first, then highlighted. */
  function ShownValue(key: string, v: string, keywords: seq<string>): string
  {
    HighlightAll(if key == ReferencesColumn then Grouped(v) else v, keywords)
  }

  /** The displayed row: every column shown, the sort key column gone. */
  function ShownRow(r: Row, keywords: seq<string>): Row
  {
    if r == [] then []
    else
      var (k, v) := r[|r| - 1];
      ShownRow(r[..|r| - 1], keywords) + (if k == SortKey then [] else [(k, ShownValue(k, v, keywords))])
  }

  /** A surviving row with its sort key. */
  function Record(req: Request, r: Row): Keyed<Row>
  {
    (ParseKoreanDate(Field(r, DateColumn)), ShownRow(r, req.keywords))
  }

  /** The collected results, in row order. */
  function Collected(req: Request, rows: seq<Row>): (rs: seq<Keyed<Row>>)
    ensures |rs| == |Filter(r => Keep(req, r), rows)|
  {
    var kept := Filter(r => Keep(req, r), rows);
    seq(|kept|, i requires 0 <= i < |kept| => Record(req, kept[i]))
  }

  /** The handler's answer. */
  function Answer(req: Request, rows: seq<Row>): Response<Row>
  {
    Respond(req.sortBy, req.page, req.pageSize, Collected(req, rows))
  }

  lemma CollectedSnoc(req: Request, rows: seq<Row>, r: Row)
    ensures Collected(req, rows + [r]) ==
      Collected(req, rows) + (if Keep(req, r) then [Record(req, r)] else [])
  {
    FilterSnoc(x => Keep(req, x), rows, r);
  }

  /** The displayed columns of one row. */
  method ShowRow(r: Row, keywords: seq<string>) returns (shown: Row)
    ensures shown == ShownRow(r, keywords)
  {
    shown := [];
    for i := 0 to |r|
      invariant shown == ShownRow(r[..i], keywords)
    {
      var (k, v) := r[i];
      assert r[..i + 1][..i] == r[..i];
      if k == SortKey {
        continue;
      }
      var value := v;
      if k == ReferencesColumn {
        value := GroupReferenceArticles(v);
      }
      var marked := CriminalHighlightMatches(value, keywords);
      shown := shown + [(k, marked)];
    }
    assert r[..|r|] == r;
  }

  /** `criminal_search` over the loaded rows. */
  method Search(req: Request, rows: seq<Row>) returns (resp: Response<Row>)
    ensures resp == Answer(req, rows)
  {
    var results: seq<Keyed<Row>> := [];
    for i := 0 to |rows|
      invariant results == Collected(req, rows[..i])
    {
      var r := rows[i];
      CollectedSnoc(req, rows[..i], r);
      assert rows[..i + 1] == rows[..i] + [r];
      if !Keep(req, r) {
        continue;
      }
      var sortDate := ParseKoreanDate(Field(r, DateColumn));
      var shown := ShowRow(r, req.keywords);
      results := results + [(sortDate, shown)];
    }
    assert rows[..|rows|] == rows;
    var ordered := Order(req.sortBy, results);
    var page := Paginate(Strip(ordered), req.page, req.pageSize);
    resp := Response(|results|, req.page, req.pageSize, page);
  }

  // ---------------------------------------------------------------------------
  // What the answer means

  lemma {:induction false} HasColumnAppend(a: Row, b: Row, key: string)
    ensures HasColumn(a + b, key) <==> HasColumn(a, key) || HasColumn(b, key)
  {
    if HasColumn(a + b, key) {
      var i :| 0 <= i < |a + b| && (a + b)[i].0 == key;
      if i >= |a| {
        assert b[i - |a|] == (a + b)[i];
      }
    }
    if HasColumn(a, key) {
      var i :| 0 <= i < |a| && a[i].0 == key;
      assert (a + b)[i] == a[i];
    }
    if HasColumn(b, key) {
      var i :| 0 <= i < |b| && b[i].0 == key;
      assert (a + b)[|a| + i] == b[i];
    }
  }

  lemma {:induction false} FieldOfAppend(a: Row, b: Row, key: string)
    ensures Field(a + b, key) == if HasColumn(a, key) then Field(a, key) else Field(b, key)
  {
    if a == [] {
      assert a + b == b;
    } else {
      assert (a + b)[1..] == a[1..] + b;
      FieldOfAppend(a[1..], b, key);
      if a[0].0 != key {
        assert a == [a[0]] + a[1..];
        HasColumnAppend([a[0]], a[1..], key);
      }
    }
  }

  /** The displayed row has no sort key column, has every other column the row
      has and no more, and shows each value grouped (for the cited provisions)
      and highlighted. */
  lemma {:induction false} ShownRowColumns(r: Row, keywords: seq<string>, key: string)
    ensures key == SortKey ==> !HasColumn(ShownRow(r, keywords), key)
    ensures key != SortKey ==>
      (HasColumn(ShownRow(r, keywords), key) <==> HasColumn(r, key)) &&
      Field(ShownRow(r, keywords), key) == (if HasColumn(r, key) then ShownValue(key, Field(r, key), keywords) else "")
  {
    if r != [] {
      var init := r[..|r| - 1];
      var (k, v) := r[|r| - 1];
      var tail: Row := if k == SortKey then [] else [(k, ShownValue(k, v, keywords))];
      ShownRowColumns(init, keywords, key);
      assert ShownRow(r, keywords) == ShownRow(init, keywords) + tail;
      FieldOfAppend(ShownRow(init, keywords), tail, key);
      HasColumnAppend(ShownRow(init, keywords), tail, key);
      assert r == init + [(k, v)];
      FieldOfAppend(init, [(k, v)], key);
      HasColumnAppend(init, [(k, v)], key);
      assert [(k, v)][1..] == [];
      if tail != [] {
        assert tail[1..] == [];
      }
      if !HasColumn(init, key) {
        FieldMissing(init, key);
      }
    }
  }

  /** The total counts every row that survives the filters, and each result on
      the page is the displayed form of one of them. */
  lemma AnswerMeaning(req: Request, rows: seq<Row>)
    ensures Answer(req, rows).total == |Filter(r => Keep(req, r), rows)|
    ensures forall j :: 0 <= j < |Answer(req, rows).results| ==>
      exists i :: 0 <= i < |rows| && Keep(req, rows[i]) && Answer(req, rows).results[j] == ShownRow(rows[i], req.keywords)
  {
    var keep := r => Keep(req, r);
    var kept := Filter(keep, rows);
    var collected := Collected(req, rows);
    var rs := Answer(req, rows).results;
    RespondMeaning(req.sortBy, req.page, req.pageSize, collected);
    FilterMeaning(keep, rows);
    forall j | 0 <= j < |rs|
      ensures exists i :: 0 <= i < |rows| && Keep(req, rows[i]) && rs[j] == ShownRow(rows[i], req.keywords)
    {
      var m :| 0 <= m < |collected| && collected[m].1 == rs[j];
      assert collected[m] == Record(req, kept[m]);
      assert keep(kept[m]);
      assert kept[m] in multiset(rows);
      var i :| 0 <= i < |rows| && rows[i] == kept[m];
    }
  }

  /** Unsorted, on a first page large enough for everything, the answer is every
      surviving row in file order. */
  lemma OnePageInFileOrder(req: Request, rows: seq<Row>)
    requires req.sortBy == Unsorted && req.page == 1
    requires req.pageSize >= |Filter(r => Keep(req, r), rows)|
    ensures var kept := Filter(r => Keep(req, r), rows);
      |Answer(req, rows).results| == |kept| &&
      forall i :: 0 <= i < |kept| ==> Answer(req, rows).results[i] == ShownRow(kept[i], req.keywords)
  {
    var collected := Collected(req, rows);
    assert Paginate(Strip(collected), 1, req.pageSize) == Strip(collected);
  }
}
