/** The body of `search` (app.py:232-316), the legacy precedent search over the
    JSON file: the statute selection, the keyword decision over every text leaf
    of a case plus its statute name, the date key read from "판례 정보", the
    highlighted copy of each case, then ordering and the page. Highlighting and
    the date key can raise, which ends the request with an error. */
module LegacyHandler {
  import opened Wrappers
  import opened Records
  import opened Query
  import opened Dates
  import opened Highlight
  import opened Sorting
  import opened Paging

  /** A precedent: a JSON object, its entries in file order. */
  type Case = seq<(string, Value)>

  /** The loaded file: each statute name with its precedents, in file order. */
  type Data = seq<(string, seq<Case>)>

  /** The request body. A missing `mode` is `Other`; a missing or null `laws`
      is the empty selection. */
  datatype Request = Request(mode: Mode, keywords: seq<string>, exclude: seq<string>,
                             laws: seq<string>, page: int, pageSize: int, sortBy: SortBy)

  /** The key the handler adds for sorting and removes again. */
  const SortKey: string := "_sort_date"

  /** The entry holding the court, the date and the case number. */
  const InfoKey: string := "판례 정보"

  /** `case.get(key)`. */
  function Lookup(c: Case, key: string): Option<Value>
  {
    if c == [] then None else if c[0].0 == key then Some(c[0].1) else Lookup(c[1..], key)
  }

  /** Every precedent with its statute name, statute by statute. */
  function Pairs(data: Data): seq<(string, Case)>
  {
    if data == [] then [] else Tagged(data[0].0, data[0].1) + Pairs(data[1..])
  }

  function Tagged(law: string, cases: seq<Case>): (r: seq<(string, Case)>)
    ensures |r| == |cases| && forall j :: 0 <= j < |cases| ==> r[j] == (law, cases[j])
  {
    seq(|cases|, j requires 0 <= j < |cases| => (law, cases[j]))
  }

  /** The strings a precedent is matched against: its text leaves, then its
      statute name. */
  function CaseStrings(law: string, c: Case): seq<string>
  {
    Leaves(Dict(c)) + [law]
  }

  /** A precedent survives: its statute is selected, it is not excluded and
      the keywords match. */
  predicate Keep(req: Request, p: (string, Case))
  {
    LawSelected(req.laws, p.0) && Passes(Legacy, CaseStrings(p.0, p.1), req.mode, req.keywords, req.exclude)
  }

  /** `case.get("판례 정보", "")` as `extract_date_from_info` accepts it: a
      string, or "" when missing; any other value makes `re.sub` raise. */
  function InfoText(c: Case): Result<string>
  {
    match Lookup(c, InfoKey)
    case None => Ok("")
    case Some(Str(s)) => Ok(s)
    case Some(_) => Err("expected string or bytes-like object")
  }

  /** One entry of the highlighted copy: a string value goes through
      `highlight_matches`, any other value is kept. */
  function ShownEntry(keywords: seq<string>, e: (string, Value)): Result<(string, Value)>
  {
    match e.1
    case Str(s) => (match LegacyHighlight(s, keywords) case Err(m) => Err(m) case Ok(h) => Ok((e.0, Str(h))))
    case _ => Ok(e)
  }

  /** The entries other than the sort key. */
  function DropSortKey(c: Case): Case
  {
    Filter((e: (string, Value)) => e.0 != SortKey, c)
  }

  /** The displayed precedent: every entry highlighted, the sort key gone. */
  function ShownCase(c: Case, keywords: seq<string>): Result<Case>
  {
    match MapAll(e => ShownEntry(keywords, e), c)
    case Err(m) => Err(m)
    case Ok(es) => Ok(DropSortKey(es))
  }

  /** A surviving precedent with its date key: the key is read first, then the
      copy is highlighted. */
  function Record(req: Request, p: (string, Case)): Result<Keyed<Case>>
  {
    match InfoText(p.1)
    case Err(m) => Err(m)
    case Ok(info) =>
      match ShownCase(p.1, req.keywords)
      case Err(m) => Err(m)
      case Ok(shown) => Ok((ExtractDateFromInfo(info), shown))
  }

  function KeepFor(req: Request): ((string, Case)) -> bool
  {
    p => Keep(req, p)
  }

  function RecordFor(req: Request): ((string, Case)) -> Result<Keyed<Case>>
  {
    p => Record(req, p)
  }

  /** The surviving precedents of `seen`, collected up to the first error. */
  function Collected(req: Request, seen: seq<(string, Case)>): Result<seq<Keyed<Case>>>
  {
    MapAll(RecordFor(req), Filter(KeepFor(req), seen))
  }

  /** The precedents of the file that survive the filters, in file order. */
  function Kept(req: Request, data: Data): seq<(string, Case)>
  {
    Filter(KeepFor(req), Pairs(data))
  }

  /** The handler's answer, or the error that ended the request. */
  function Answer(req: Request, data: Data): Result<Response<Case>>
  {
    match Collected(req, Pairs(data))
    case Err(m) => Err(m)
    case Ok(collected) => Ok(Respond(req.sortBy, req.page, req.pageSize, collected))
  }

  // ---------------------------------------------------------------------------
  // The handler

  /** The dict comprehension of `search` followed by the later `pop` of the
      sort key. */
  method ShowCase(c: Case, keywords: seq<string>) returns (r: Result<Case>)
    ensures r == ShownCase(c, keywords)
  {
    var f := e => ShownEntry(keywords, e);
    var es: seq<(string, Value)> := [];
    for i := 0 to |c|
      invariant MapAll(f, c[..i]) == Ok(es)
    {
      assert c[..i + 1] == c[..i] + [c[i]];
      MapAllSnoc(f, c[..i], c[i]);
      var (k, v) := c[i];
      if v.Str? {
        var h := HighlightMatches(v.s, keywords);
        if h.Err? {
          MapAllErrPrefix(f, c, i + 1);
          return Err(h.error);
        }
        es := es + [(k, Str(h.value))];
      } else {
        es := es + [(k, v)];
      }
    }
    assert c[..|c|] == c;
    r := Ok(DropSortKey(es));
  }

  /** Once collecting has failed, later precedents do not change the error. */
  lemma CollectedErrPrefix(req: Request, a: seq<(string, Case)>, b: seq<(string, Case)>)
    requires Collected(req, a).Err?
    ensures Collected(req, a + b) == Collected(req, a)
  {
    var keep := KeepFor(req);
    var fa := Filter(keep, a);
    FilterAppend(keep, a, b);
    assert (fa + Filter(keep, b))[..|fa|] == fa;
    MapAllErrPrefix(RecordFor(req), fa + Filter(keep, b), |fa|);
  }

  lemma CollectedSnoc(req: Request, seen: seq<(string, Case)>, p: (string, Case))
    ensures Collected(req, seen + [p]) ==
      if !Keep(req, p) then Collected(req, seen)
      else match Collected(req, seen)
        case Err(m) => Err(m)
        case Ok(rs) => (match Record(req, p) case Err(m) => Err(m) case Ok(x) => Ok(rs + [x]))
  {
    var keep, rec := KeepFor(req), RecordFor(req);
    assert keep(p) == Keep(req, p);
    assert rec(p) == Record(req, p);
    FilterSnoc(keep, seen, p);
    if keep(p) {
      assert Filter(keep, seen + [p]) == Filter(keep, seen) + [p];
      MapAllSnoc(rec, Filter(keep, seen), p);
    } else {
      assert Filter(keep, seen + [p]) == Filter(keep, seen);
    }
  }

  lemma PairsFrom(data: Data, i: nat)
    requires i < |data|
    ensures Pairs(data[i..]) == Tagged(data[i].0, data[i].1) + Pairs(data[i + 1..])
  {
    assert data[i..][1..] == data[i + 1..];
  }

  /** A statute outside the selection contributes nothing. */
  lemma {:induction false} UnselectedStatute(req: Request, seen: seq<(string, Case)>, law: string, cases: seq<Case>)
    requires !LawSelected(req.laws, law)
    ensures Collected(req, seen + Tagged(law, cases)) == Collected(req, seen)
    decreases |cases|
  {
    if cases == [] {
      assert seen + Tagged(law, cases) == seen;
    } else {
      var init := cases[..|cases| - 1];
      assert Tagged(law, cases) == Tagged(law, init) + [(law, cases[|cases| - 1])];
      assert seen + Tagged(law, cases) == (seen + Tagged(law, init)) + [(law, cases[|cases| - 1])];
      UnselectedStatute(req, seen, law, init);
      CollectedSnoc(req, seen + Tagged(law, init), (law, cases[|cases| - 1]));
    }
  }

  lemma TaggedSplit(seen: seq<(string, Case)>, law: string, cases: seq<Case>, j: nat)
    requires j < |cases|
    ensures seen + Tagged(law, cases[..j + 1]) == (seen + Tagged(law, cases[..j])) + [(law, cases[j])]
    ensures seen + Tagged(law, cases) == (seen + Tagged(law, cases[..j + 1])) + Tagged(law, cases[j + 1..])
  {
    assert Tagged(law, cases[..j + 1]) == Tagged(law, cases[..j]) + [(law, cases[j])];
    assert Tagged(law, cases) == Tagged(law, cases[..j + 1]) + Tagged(law, cases[j + 1..]);
  }

  /** The inner loop of `search`: the precedents of one statute, collected on
      top of those already seen. */
  method CollectCases(req: Request, law: string, cases: seq<Case>, ghost seen: seq<(string, Case)>,
                      collected: seq<Keyed<Case>>) returns (r: Result<seq<Keyed<Case>>>)
    requires LawSelected(req.laws, law) && Collected(req, seen) == Ok(collected)
    ensures r == Collected(req, seen + Tagged(law, cases))
  {
    var results := collected;
    assert seen + Tagged(law, cases[..0]) == seen;
    for j := 0 to |cases|
      invariant Collected(req, seen + Tagged(law, cases[..j])) == Ok(results)
    {
      var c := cases[j];
      ghost var before := seen + Tagged(law, cases[..j]);
      TaggedSplit(seen, law, cases, j);
      CollectedSnoc(req, before, (law, c));
      var strings := GetAllStrings(Dict(c));
      strings := strings + [law];
      assert strings == CaseStrings(law, c);
      assert Keep(req, (law, c)) == Passes(Legacy, strings, req.mode, req.keywords, req.exclude);
      if !Passes(Legacy, strings, req.mode, req.keywords, req.exclude) {
        continue;
      }
      var info := InfoText(c);
      var shown: Result<Case> := Err("");
      if info.Ok? {
        shown := ShowCase(c, req.keywords);
      }
      if info.Err? || shown.Err? {
        ghost var upto := before + [(law, c)];
        CollectedErrPrefix(req, upto, Tagged(law, cases[j + 1..]));
        return if info.Err? then Err(info.error) else Err(shown.error);
      }
      results := results + [(ExtractDateFromInfo(info.value), shown.value)];
    }
    assert cases[..|cases|] == cases;
    r := Ok(results);
  }

  /** `search` over the loaded file. */
  method Search(req: Request, data: Data) returns (r: Result<Response<Case>>)
    ensures r == Answer(req, data)
  {
    var results: seq<Keyed<Case>> := [];
    ghost var seen: seq<(string, Case)> := [];
    assert data[0..] == data;
    for i := 0 to |data|
      invariant Pairs(data) == seen + Pairs(data[i..])
      invariant Collected(req, seen) == Ok(results)
    {
      var (law, cases) := data[i];
      PairsFrom(data, i);
      assert Pairs(data) == (seen + Tagged(law, cases)) + Pairs(data[i + 1..]);
      if !LawSelected(req.laws, law) {
        UnselectedStatute(req, seen, law, cases);
        seen := seen + Tagged(law, cases);
        continue;
      }
      var step := CollectCases(req, law, cases, seen, results);
      seen := seen + Tagged(law, cases);
      if step.Err? {
        CollectedErrPrefix(req, seen, Pairs(data[i + 1..]));
        return Err(step.error);
      }
      results := step.value;
    }
    assert data[|data|..] == [];
    assert seen + [] == seen;
    var ordered := Order(req.sortBy, results);
    var page := Paginate(Strip(ordered), req.page, req.pageSize);
    r := Ok(Response(|results|, req.page, req.pageSize, page));
  }

  // ---------------------------------------------------------------------------
  // What the answer means

  /** The precedents visited are exactly those of the file, each with the name
      of the statute it is listed under. */
  lemma {:induction false} PairsMembers(data: Data, p: (string, Case))
    ensures p in Pairs(data) <==> exists i, j :: 0 <= i < |data| && 0 <= j < |data[i].1| && p == (data[i].0, data[i].1[j])
  {
    if data != [] {
      PairsMembers(data[1..], p);
      var t := Tagged(data[0].0, data[0].1);
      assert Pairs(data) == t + Pairs(data[1..]);
      if p in Pairs(data[1..]) {
        var i, j :| 0 <= i < |data[1..]| && 0 <= j < |data[1..][i].1| && p == (data[1..][i].0, data[1..][i].1[j]);
        assert data[i + 1] == data[1..][i];
      }
      if p in t {
        var j :| 0 <= j < |t| && t[j] == p;
      }
      if exists i, j :: 0 <= i < |data| && 0 <= j < |data[i].1| && p == (data[i].0, data[i].1[j]) {
        var i, j :| 0 <= i < |data| && 0 <= j < |data[i].1| && p == (data[i].0, data[i].1[j]);
        if i == 0 {
          assert t[j] == p;
        } else {
          assert data[1..][i - 1] == data[i];
        }
      }
    }
  }

  /** A value as `criminal_highlight_matches` would show it. */
  function Marked(v: Value, keywords: seq<string>): Value
  {
    if v.Str? then Str(HighlightAll(v.s, keywords)) else v
  }

  /** Highlighting a precedent fails exactly when it has a string entry and a
      keyword has fewer than two characters. */
  lemma ShownCaseErr(c: Case, keywords: seq<string>)
    ensures ShownCase(c, keywords).Err? <==>
      (exists i :: 0 <= i < |c| && c[i].1.Str?) && exists j :: 0 <= j < |keywords| && |keywords[j]| <= 1
  {
    var f := e => ShownEntry(keywords, e);
    MapAllMeaning(f, c);
    forall i | 0 <= i < |c| && c[i].1.Str? {
      LegacyErrIff(c[i].1.s, keywords);
    }
  }

  /** With every keyword at least two characters long, the precedent is shown
      entry by entry, in order, as the criminal highlighter shows strings,
      without the sort key; no sort key entry remains. */
  lemma ShownCaseAgrees(c: Case, keywords: seq<string>)
    requires forall j :: 0 <= j < |keywords| ==> |keywords[j]| >= 2
    ensures ShownCase(c, keywords).Ok?
    ensures var es := seq(|c|, i requires 0 <= i < |c| => (c[i].0, Marked(c[i].1, keywords)));
      ShownCase(c, keywords).value == DropSortKey(es)
    ensures forall i :: 0 <= i < |ShownCase(c, keywords).value| ==> ShownCase(c, keywords).value[i].0 != SortKey
  {
    var f := e => ShownEntry(keywords, e);
    MapAllMeaning(f, c);
    forall i | 0 <= i < |c|
      ensures f(c[i]) == Ok((c[i].0, Marked(c[i].1, keywords)))
    {
      if c[i].1.Str? {
        LegacyAgrees(c[i].1.s, keywords);
      }
    }
    var es := seq(|c|, i requires 0 <= i < |c| => (c[i].0, Marked(c[i].1, keywords)));
    assert MapAll(f, c).value == es;
    FilterMeaning((e: (string, Value)) => e.0 != SortKey, es);
  }

  /** The request fails exactly when a precedent that survives the filters has
      a non-string "판례 정보" or cannot be highlighted. */
  lemma AnswerErr(req: Request, data: Data)
    ensures Answer(req, data).Err? <==>
      exists i :: 0 <= i < |Kept(req, data)| &&
        (InfoText(Kept(req, data)[i].1).Err? || ShownCase(Kept(req, data)[i].1, req.keywords).Err?)
  {
    var kept := Kept(req, data);
    var rec := RecordFor(req);
    assert Answer(req, data).Err? <==> MapAll(rec, kept).Err?;
    MapAllMeaning(rec, kept);
    forall i | 0 <= i < |kept|
      ensures rec(kept[i]).Err? <==> InfoText(kept[i].1).Err? || ShownCase(kept[i].1, req.keywords).Err?
    {
      assert rec(kept[i]) == Record(req, kept[i]);
    }
    if Answer(req, data).Err? {
      var i :| 0 <= i < |kept| && rec(kept[i]).Err?;
      assert InfoText(kept[i].1).Err? || ShownCase(kept[i].1, req.keywords).Err?;
      assert exists i :: 0 <= i < |kept| && (InfoText(kept[i].1).Err? || ShownCase(kept[i].1, req.keywords).Err?);
    } else {
      assert forall i :: 0 <= i < |kept| ==> rec(kept[i]).Ok?;
      assert !exists i :: 0 <= i < |kept| && (InfoText(kept[i].1).Err? || ShownCase(kept[i].1, req.keywords).Err?);
    }
  }

  /** A one-character keyword fails every request that finds a precedent with
      a string entry. */
  lemma OneCharacterQueryFails(req: Request, data: Data, i: nat, k: nat)
    requires i < |Kept(req, data)| && k < |Kept(req, data)[i].1| && Kept(req, data)[i].1[k].1.Str?
    requires exists j :: 0 <= j < |req.keywords| && |req.keywords[j]| <= 1
    ensures Answer(req, data).Err?
  {
    var kept := Kept(req, data);
    ShownCaseErr(kept[i].1, req.keywords);
    AnswerErr(req, data);
  }

  /** An answer counts every precedent that survives the filters, and each
      result on the page is the displayed form of one of them. */
  lemma AnswerMeaning(req: Request, data: Data)
    requires Answer(req, data).Ok?
    ensures Answer(req, data).value.total == |Kept(req, data)|
    ensures forall m :: 0 <= m < |Answer(req, data).value.results| ==>
      exists i :: 0 <= i < |Kept(req, data)| && Keep(req, Kept(req, data)[i]) &&
        ShownCase(Kept(req, data)[i].1, req.keywords) == Ok(Answer(req, data).value.results[m])
  {
    var kept := Kept(req, data);
    var collected := Collected(req, Pairs(data)).value;
    var rs := Answer(req, data).value.results;
    MapAllMeaning(RecordFor(req), kept);
    FilterMeaning(KeepFor(req), Pairs(data));
    RespondMeaning(req.sortBy, req.page, req.pageSize, collected);
    forall m | 0 <= m < |rs|
      ensures exists i :: 0 <= i < |kept| && Keep(req, kept[i]) && ShownCase(kept[i].1, req.keywords) == Ok(rs[m])
    {
      var i :| 0 <= i < |collected| && collected[i].1 == rs[m];
      assert collected[i] == Record(req, kept[i]).value;
      assert KeepFor(req)(kept[i]);
    }
  }
}
