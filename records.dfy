/** The records the two searches scan: JSON precedents of the legacy search, with
    their text leaves collected by `get_all_strings` (app.py:35-47), and rows of the
    criminal CSV with the five columns `criminal_row_strings` offers to the matcher
    (app.py:206-213). */
module Records {

  /** A JSON value. `Scalar` is a number, a boolean or null, kept as the text that
      Python's `str()` gives for it. A dict keeps its entries in file order. */
  datatype Value =
    | Str(s: string)
    | Dict(entries: seq<(string, Value)>)
    | List(items: seq<Value>)
    | Scalar(text: string)

  /** The text leaves of a value, in document order: what `get_all_strings`
      returns. Dict keys are not leaves. */
  function Leaves(v: Value): seq<string>
  {
    match v
    case Str(s) => [s]
    case Scalar(t) => [t]
    case Dict(es) => EntryLeaves(es)
    case List(xs) => ItemLeaves(xs)
  }

  function EntryLeaves(es: seq<(string, Value)>): seq<string>
  {
    if es == [] then []
    else
      var last := es[|es| - 1];
      assert last.1 < last;
      EntryLeaves(es[..|es| - 1]) + Leaves(last.1)
  }

  function ItemLeaves(xs: seq<Value>): seq<string>
  {
    if xs == [] then [] else ItemLeaves(xs[..|xs| - 1]) + Leaves(xs[|xs| - 1])
  }

  /** `get_all_strings(obj)`: recurse into dict values and list items and extend the
      result with what each returns; a string is appended as it is and any other
      scalar as its `str()` text. */
  method GetAllStrings(v: Value) returns (strings: seq<string>)
    ensures strings == Leaves(v)
    decreases v
  {
    strings := [];
    match v {
      case Dict(es) =>
        for i := 0 to |es|
          invariant strings == EntryLeaves(es[..i])
        {
          assert es[..i + 1][..i] == es[..i];
          var sub := GetAllStrings(es[i].1);
          strings := strings + sub;
        }
        assert es[..|es|] == es;
      case List(xs) =>
        for i := 0 to |xs|
          invariant strings == ItemLeaves(xs[..i])
        {
          assert xs[..i + 1][..i] == xs[..i];
          var sub := GetAllStrings(xs[i]);
          strings := strings + sub;
        }
        assert xs[..|xs|] == xs;
      case Str(s) =>
        strings := strings + [s];
      case Scalar(t) =>
        strings := strings + [t];
    }
  }

  predicate IsLeaf(w: Value) { w.Str? || w.Scalar? }

  function LeafText(w: Value): string
    requires IsLeaf(w)
  {
    if w.Str? then w.s else w.text
  }

  /** `w` is `v` itself or lies somewhere inside it. */
  ghost predicate Reaches(v: Value, w: Value)
    decreases v
  {
    || v == w
    || (v.Dict? && exists i :: 0 <= i < |v.entries| && Reaches(v.entries[i].1, w))
    || (v.List? && exists i :: 0 <= i < |v.items| && Reaches(v.items[i], w))
  }

  lemma {:induction false} EntryLeavesMember(es: seq<(string, Value)>, s: string)
    ensures s in EntryLeaves(es) <==> exists i :: 0 <= i < |es| && s in Leaves(es[i].1)
  {
    if es != [] {
      var init := es[..|es| - 1];
      EntryLeavesMember(init, s);
      if exists i :: 0 <= i < |init| && s in Leaves(init[i].1) {
        var i :| 0 <= i < |init| && s in Leaves(init[i].1);
        assert es[i] == init[i];
      }
      if exists i :: 0 <= i < |es| && s in Leaves(es[i].1) {
        var i :| 0 <= i < |es| && s in Leaves(es[i].1);
        if i < |init| {
          assert init[i] == es[i];
        }
      }
    }
  }

  lemma {:induction false} ItemLeavesMember(xs: seq<Value>, s: string)
    ensures s in ItemLeaves(xs) <==> exists i :: 0 <= i < |xs| && s in Leaves(xs[i])
  {
    if xs != [] {
      var init := xs[..|xs| - 1];
      ItemLeavesMember(init, s);
      if exists i :: 0 <= i < |init| && s in Leaves(init[i]) {
        var i :| 0 <= i < |init| && s in Leaves(init[i]);
        assert xs[i] == init[i];
      }
      if exists i :: 0 <= i < |xs| && s in Leaves(xs[i]) {
        var i :| 0 <= i < |xs| && s in Leaves(xs[i]);
        if i < |init| {
          assert init[i] == xs[i];
        }
      }
    }
  }

  /** Every collected string is the text of a leaf reachable in the value. */
  lemma {:induction false} LeavesSound(v: Value, s: string)
    requires s in Leaves(v)
    ensures exists w :: Reaches(v, w) && IsLeaf(w) && LeafText(w) == s
    decreases v
  {
    match v
    case Str(_) =>
      assert Reaches(v, v);
    case Scalar(_) =>
      assert Reaches(v, v);
    case Dict(es) =>
      EntryLeavesMember(es, s);
      var i :| 0 <= i < |es| && s in Leaves(es[i].1);
      LeavesSound(es[i].1, s);
      var w :| Reaches(es[i].1, w) && IsLeaf(w) && LeafText(w) == s;
      assert Reaches(v, w);
    case List(xs) =>
      ItemLeavesMember(xs, s);
      var i :| 0 <= i < |xs| && s in Leaves(xs[i]);
      LeavesSound(xs[i], s);
      var w :| Reaches(xs[i], w) && IsLeaf(w) && LeafText(w) == s;
      assert Reaches(v, w);
  }

  /** The text of every leaf reachable in the value, at any depth, is collected. */
  lemma {:induction false} LeavesComplete(v: Value, w: Value)
    requires Reaches(v, w) && IsLeaf(w)
    ensures LeafText(w) in Leaves(v)
    decreases v
  {
    if v != w {
      match v
      case Dict(es) =>
        var i :| 0 <= i < |es| && Reaches(es[i].1, w);
        LeavesComplete(es[i].1, w);
        EntryLeavesMember(es, LeafText(w));
      case List(xs) =>
        var i :| 0 <= i < |xs| && Reaches(xs[i], w);
        LeavesComplete(xs[i], w);
        ItemLeavesMember(xs, LeafText(w));
    }
  }

  // ---------------------------------------------------------------------------
  // Criminal CSV rows

  /** A row of the criminal CSV: its columns in header order with their stripped
      values. `csv.DictReader` gives each header name one column. */
  type Row = seq<(string, string)>

  /** `r.get(key, "")`. */
  function Field(r: Row, key: string): string
  {
    if r == [] then "" else if r[0].0 == key then r[0].1 else Field(r[1..], key)
  }

  /** The five columns the criminal search matches against, in order:
      title, case number, decision date, cited provisions, holdings. */
  const SearchColumns: seq<string> := ["제목", "사건번호", "선고일자", "참조조문", "판시사항"]

  const TitleColumn: string := "제목"
  const DateColumn: string := "선고일자"
  const ReferencesColumn: string := "참조조문"

  /** `criminal_row_strings(r)`. */
  function CriminalRowStrings(r: Row): (strings: seq<string>)
    ensures |strings| == |SearchColumns|
    ensures forall i :: 0 <= i < |strings| ==> strings[i] == Field(r, SearchColumns[i])
  {
    [Field(r, "제목"), Field(r, "사건번호"), Field(r, "선고일자"), Field(r, "참조조문"), Field(r, "판시사항")]
  }

  predicate HasColumn(r: Row, key: string)
  {
    exists i :: 0 <= i < |r| && r[i].0 == key
  }

  lemma {:induction false} FieldAppend(r: Row, extra: Row, key: string)
    requires !HasColumn(extra, key)
    ensures Field(r + extra, key) == Field(r, key)
  {
    if r == [] {
      assert r + extra == extra;
      FieldMissing(extra, key);
    } else {
      assert (r + extra)[1..] == r[1..] + extra;
      FieldAppend(r[1..], extra, key);
    }
  }

  lemma {:induction false} FieldMissing(r: Row, key: string)
    requires !HasColumn(r, key)
    ensures Field(r, key) == ""
  {
    if r != [] {
      assert r[0].0 != key;
      assert !HasColumn(r[1..], key) by {
        forall i | 0 <= i < |r[1..]| ensures r[1..][i].0 != key {
          assert r[1..][i] == r[i + 1];
        }
      }
      FieldMissing(r[1..], key);
    }
  }

  /** Columns other than the five searchable ones never influence what the
      criminal search matches. */
  lemma OtherColumnsIgnored(r: Row, extra: Row)
    requires forall i :: 0 <= i < |SearchColumns| ==> !HasColumn(extra, SearchColumns[i])
    ensures CriminalRowStrings(r + extra) == CriminalRowStrings(r)
  {
    forall i | 0 <= i < |SearchColumns| ensures Field(r + extra, SearchColumns[i]) == Field(r, SearchColumns[i]) {
      FieldAppend(r, extra, SearchColumns[i]);
    }
  }
}
