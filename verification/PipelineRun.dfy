/** The stages of a pipeline and `run_stages` (`pipeline.rs`). */
module PipelineRun {
  import opened Bytes
  import opened Values
  import opened ValueOrder
  import opened Pipeline
  import opened PipelineStages
  import opened PipelineGroups
  import Projection

  const ID_FIELD: Str := [105, 100]
  const TIME_FIELD: Str := [95, 116, 105, 109, 101]
  datatype Stage =
    | Match
    | Project(fields: seq<Str>)
    | Sort(field: Str, ascending: bool)
    | Limit(n: nat)
    | Offset(n: nat)
    | Unwind(field: Str)
    | GroupBy(key: Option<Str>, accums: seq<AccumSpec>)

  // ---- Unwind ----

  function Items(doc: HakoDoc, field: Str): seq<Value> {
    match Find(doc.fields, field) case Some(Array(items)) => items case _ => []
  }

  function WithItem(row: Row, field: Str, item: Value): Row {
    Row(row.id, HakoDoc(Put(row.doc.fields, field, item), row.doc.time))
  }

  /** One row per element of the array in `field`; none for other values. */
  function Unwound(rows: seq<Row>, field: Str): seq<Row> {
    if rows == [] then []
    else
      var row := rows[|rows| - 1];
      var items := Items(row.doc, field);
      Unwound(rows[..|rows| - 1], field) + seq(|items|, i requires 0 <= i < |items| => WithItem(row, field, items[i]))
  }

  /** As many rows come out as there are elements. */
  lemma {:induction false} UnwoundSize(rows: seq<Row>, field: Str)
    ensures |Unwound(rows, field)| == Total((d: HakoDoc) => |Items(d, field)|, rows)
  {
    if rows != [] {
      UnwoundSize(rows[..|rows| - 1], field);
    }
  }

  /** An unwound row differs from its source in the one field, which holds the element. */
  lemma WithItemExact(row: Row, field: Str, item: Value, k: Str)
    requires SortedKeys(row.doc.fields)
    ensures WithItem(row, field, item).id == row.id && WithItem(row, field, item).doc.time == row.doc.time
    ensures Find(WithItem(row, field, item).doc.fields, k) == if k == field then Some(item) else Find(row.doc.fields, k)
    ensures SortedKeys(WithItem(row, field, item).doc.fields)
  {
    hide Find, Put;
    PutFind(row.doc.fields, field, item, k);
    PutSorted(row.doc.fields, field, item);
  }

  /** What one more row adds: a copy for each element of the array in the field, or nothing. */
  lemma UnwoundLast(rows: seq<Row>, row: Row, field: Str)
    requires SortedKeys(row.doc.fields)
    ensures var before, all := Unwound(rows, field), Unwound(rows + [row], field);
            && before <= all
            && match Find(row.doc.fields, field)
               case Some(Array(items)) =>
                 && |all| == |before| + |items|
                 && forall i | 0 <= i < |items| :: Copy(row, field, items[i], all[|before| + i])
               case _ => all == before
  {
    assert (rows + [row])[..|rows|] == rows;
    hide Find, Put, SortedKeys;
    var items := Items(row.doc, field);
    forall i | 0 <= i < |items| ensures Copy(row, field, items[i], WithItem(row, field, items[i])) {
      forall k: Str ensures Find(WithItem(row, field, items[i]).doc.fields, k) == if k == field then Some(items[i]) else Find(row.doc.fields, k) {
        WithItemExact(row, field, items[i], k);
      }
    }
  }

  /** The row with another value in the one field. */
  ghost predicate Copy(row: Row, field: Str, item: Value, copy: Row) {
    && copy.id == row.id && copy.doc.time == row.doc.time
    && forall k: Str :: Find(copy.doc.fields, k) == if k == field then Some(item) else Find(row.doc.fields, k)
  }

  method UnwindStage(rows: seq<Row>, field: Str) returns (out: seq<Row>)
    ensures out == Unwound(rows, field)
  {
    hide Find, Put, Items, WithItem;
    out := [];
    for i := 0 to |rows|
      invariant out == Unwound(rows[..i], field)
    {
      assert rows[..i + 1][..i] == rows[..i];
      var items := Items(rows[i].doc, field);
      ghost var all := seq(|items|, j requires 0 <= j < |items| => WithItem(rows[i], field, items[j]));
      ghost var before := out;
      for j := 0 to |items|
        invariant out == before + all[..j]
      {
        out := out + [WithItem(rows[i], field, items[j])];
        assert all[..j + 1] == all[..j] + [all[j]];
      }
      assert all[..|items|] == all;
    }
    assert rows[..|rows|] == rows;
  }

  // ---- Sort ----

  function SortKey(row: Row, field: Str): Key {
    if field == ID_FIELD then Some(String(row.id)) else if field == TIME_FIELD then Some(Int(row.doc.time)) else PathValue(row.doc, field)
  }

  /** Row `a` may stand before row `b`. */
  predicate InOrder(fl: ToFloat, field: Str, ascending: bool, a: Row, b: Row) {
    var o := CmpKey(fl, SortKey(a, field), SortKey(b, field));
    o != if ascending then Greater else Less
  }

  /** Behind every row it may follow: what a stable sort does. */
  function InsertStable(fl: ToFloat, field: Str, ascending: bool, rows: seq<Row>, row: Row): seq<Row> {
    if rows == [] || InOrder(fl, field, ascending, rows[|rows| - 1], row) then rows + [row]
    else InsertStable(fl, field, ascending, rows[..|rows| - 1], row) + [rows[|rows| - 1]]
  }

  function SortStable(fl: ToFloat, field: Str, ascending: bool, rows: seq<Row>): seq<Row> {
    if rows == [] then []
    else InsertStable(fl, field, ascending, SortStable(fl, field, ascending, rows[..|rows| - 1]), rows[|rows| - 1])
  }

  predicate Ordered(fl: ToFloat, field: Str, ascending: bool, rows: seq<Row>) {
    forall i, j | 0 <= i < j < |rows| :: InOrder(fl, field, ascending, rows[i], rows[j])
  }

  function SortKeys(field: Str, rows: seq<Row>): set<Key> { set r | r in rows :: SortKey(r, field) }

  /** The rows whose sort key is alike `k`, in order. */
  function Tied(fl: ToFloat, rows: seq<Row>, field: Str, k: Key): seq<Row> {
    if rows == [] then []
    else Tied(fl, rows[..|rows| - 1], field, k) + if Alike(fl, SortKey(rows[|rows| - 1], field), k) then [rows[|rows| - 1]] else []
  }

  lemma OrderChains(fl: ToFloat, keys: set<Key>, field: Str, ascending: bool, a: Row, b: Row, c: Row)
    requires Orderly(fl, keys) && SortKey(a, field) in keys && SortKey(b, field) in keys && SortKey(c, field) in keys
    ensures InOrder(fl, field, ascending, a, b) && InOrder(fl, field, ascending, b, c) ==> InOrder(fl, field, ascending, a, c)
    ensures InOrder(fl, field, ascending, a, b) || InOrder(fl, field, ascending, b, a)
  {
    hide CmpKey;
    var x, y, z := SortKey(a, field), SortKey(b, field), SortKey(c, field);
    KeyFlip(fl, x, y);
    KeyFlip(fl, y, z);
    KeyFlip(fl, x, z);
    assert Chains(CmpKey(fl, x, y), CmpKey(fl, y, z), CmpKey(fl, x, z));
    assert Chains(CmpKey(fl, z, y), CmpKey(fl, y, x), CmpKey(fl, z, x));
  }

  /** Rows in the wrong order are not both alike one key. */
  lemma NotBothTied(fl: ToFloat, keys: set<Key>, field: Str, ascending: bool, a: Row, b: Row, k: Key)
    requires Orderly(fl, keys) && SortKey(a, field) in keys && SortKey(b, field) in keys && k in keys
    requires !InOrder(fl, field, ascending, a, b)
    ensures !(Alike(fl, SortKey(a, field), k) && Alike(fl, SortKey(b, field), k))
  {
    hide CmpKey, Orderly;
    var x, y := SortKey(a, field), SortKey(b, field);
    if Alike(fl, x, k) && Alike(fl, y, k) {
      KeyFlip(fl, y, k);
      AlikeSame(fl, keys, x, k, y);
    }
  }

  lemma {:induction false} InsertSame(fl: ToFloat, field: Str, ascending: bool, rows: seq<Row>, row: Row)
    ensures multiset(InsertStable(fl, field, ascending, rows, row)) == multiset(rows) + multiset{row}
  {
    hide InOrder;
    if rows != [] && !InOrder(fl, field, ascending, rows[|rows| - 1], row) {
      InsertSame(fl, field, ascending, rows[..|rows| - 1], row);
      assert rows == rows[..|rows| - 1] + [rows[|rows| - 1]];
    }
  }

  lemma InsertedRow(fl: ToFloat, field: Str, ascending: bool, rows: seq<Row>, row: Row, r: Row)
    requires r in InsertStable(fl, field, ascending, rows, row)
    ensures r in rows || r == row
  {
    hide InsertStable;
    InsertSame(fl, field, ascending, rows, row);
    assert r in multiset(InsertStable(fl, field, ascending, rows, row));
  }

  lemma OrderedAppend(fl: ToFloat, field: Str, ascending: bool, rows: seq<Row>, row: Row)
    requires Ordered(fl, field, ascending, rows) && forall r | r in rows :: InOrder(fl, field, ascending, r, row)
    ensures Ordered(fl, field, ascending, rows + [row])
  {
    hide InOrder;
    assert forall i | 0 <= i < |rows| :: rows[i] in rows;
  }

  lemma OrderedLast(fl: ToFloat, field: Str, ascending: bool, rows: seq<Row>, r: Row)
    requires Ordered(fl, field, ascending, rows) && rows != [] && r in rows[..|rows| - 1]
    ensures InOrder(fl, field, ascending, r, rows[|rows| - 1])
  {
    hide InOrder;
    var i :| 0 <= i < |rows| - 1 && rows[i] == r;
  }

  lemma {:induction false} InsertOrdered(fl: ToFloat, keys: set<Key>, field: Str, ascending: bool, rows: seq<Row>, row: Row)
    requires Ordered(fl, field, ascending, rows) && Orderly(fl, keys) && SortKeys(field, rows + [row]) <= keys
    ensures Ordered(fl, field, ascending, InsertStable(fl, field, ascending, rows, row))
  {
    hide SortKey, InOrder, Orderly;
    assert forall r | r in rows + [row] :: SortKey(r, field) in SortKeys(field, rows + [row]);
    if rows == [] {
      return;
    }
    var init, last := rows[..|rows| - 1], rows[|rows| - 1];
    assert rows == init + [last] && last in rows + [row] && row in rows + [row];
    if InOrder(fl, field, ascending, last, row) {
      forall r | r in rows ensures InOrder(fl, field, ascending, r, row) {
        if r in init {
          OrderedLast(fl, field, ascending, rows, r);
          assert r in rows + [row];
          OrderChains(fl, keys, field, ascending, r, last, row);
        }
      }
      OrderedAppend(fl, field, ascending, rows, row);
    } else {
      assert SortKeys(field, init + [row]) <= SortKeys(field, rows + [row]);
      InsertOrdered(fl, keys, field, ascending, init, row);
      var s := InsertStable(fl, field, ascending, init, row);
      assert InsertStable(fl, field, ascending, rows, row) == s + [last];
      forall r | r in s ensures InOrder(fl, field, ascending, r, last) {
        InsertedRow(fl, field, ascending, init, row, r);
        if r in init { OrderedLast(fl, field, ascending, rows, r); } else { OrderChains(fl, keys, field, ascending, last, row, row); }
      }
      hide InsertStable, Ordered;
      OrderedAppend(fl, field, ascending, s, last);
    }
  }

  lemma TiedNext(fl: ToFloat, rows: seq<Row>, row: Row, field: Str, k: Key)
    ensures Tied(fl, rows + [row], field, k) ==
            if Alike(fl, SortKey(row, field), k) then Tied(fl, rows, field, k) + [row] else Tied(fl, rows, field, k)
  {
    hide SortKey, Alike;
    assert (rows + [row])[..|rows|] == rows;
  }

  lemma {:induction false} InsertTied(fl: ToFloat, keys: set<Key>, field: Str, ascending: bool, rows: seq<Row>, row: Row, k: Key)
    requires Orderly(fl, keys) && SortKeys(field, rows + [row]) <= keys && k in keys
    ensures Tied(fl, InsertStable(fl, field, ascending, rows, row), field, k) == Tied(fl, rows + [row], field, k)
  {
    hide SortKey, InOrder, Tied, Orderly, Alike;
    if rows != [] && !InOrder(fl, field, ascending, rows[|rows| - 1], row) {
      var init, last := rows[..|rows| - 1], rows[|rows| - 1];
      assert rows == init + [last] && last in rows + [row] && row in rows + [row];
      assert SortKey(last, field) in SortKeys(field, rows + [row]) && SortKey(row, field) in SortKeys(field, rows + [row]);
      assert SortKeys(field, init + [row]) <= SortKeys(field, rows + [row]);
      InsertTied(fl, keys, field, ascending, init, row, k);
      NotBothTied(fl, keys, field, ascending, last, row, k);
      TiedNext(fl, InsertStable(fl, field, ascending, init, row), last, field, k);
      TiedNext(fl, init, row, field, k);
      TiedNext(fl, init, last, field, k);
      TiedNext(fl, rows, row, field, k);
    }
  }

  /** The sort puts the rows in order and keeps rows with alike keys as they were. */
  lemma {:induction false} SortExact(fl: ToFloat, keys: set<Key>, field: Str, ascending: bool, rows: seq<Row>, k: Key)
    requires Orderly(fl, keys) && SortKeys(field, rows) <= keys && k in keys
    ensures var r := SortStable(fl, field, ascending, rows);
            && Ordered(fl, field, ascending, r) && multiset(r) == multiset(rows) && Tied(fl, r, field, k) == Tied(fl, rows, field, k)
  {
    if rows != [] {
      hide CmpKey, Orderly, SortKey, InOrder, InsertStable, Alike;
      var init, last := rows[..|rows| - 1], rows[|rows| - 1];
      assert rows == init + [last] && last in rows;
      assert SortKeys(field, init) <= SortKeys(field, rows);
      SortExact(fl, keys, field, ascending, init, k);
      var r := SortStable(fl, field, ascending, init);
      forall x | x in r + [last] ensures x in rows {
        assert x in r ==> x in multiset(r);
      }
      assert SortKeys(field, r + [last]) <= SortKeys(field, rows);
      InsertOrdered(fl, keys, field, ascending, r, last);
      InsertSame(fl, field, ascending, r, last);
      hide Tied, Ordered;
      InsertTied(fl, keys, field, ascending, r, last, k);
      TiedNext(fl, r, last, field, k);
      TiedNext(fl, init, last, field, k);
    }
  }

  /** What is compared: the id, the time, or the value of the path, which may be missing. */
  function Criterion(row: Row, field: Str): Key {
    if field == [0x69, 0x64] then Some(String(row.id))
    else if field == [0x5F, 0x74, 0x69, 0x6D, 0x65] then Some(Int(row.doc.time))
    else Lookup(row.doc.fields, Split(field))
  }

  /** The rows with a criterion alike `k`, in order. */
  function Ties(fl: ToFloat, rows: seq<Row>, field: Str, k: Key): seq<Row> {
    if rows == [] then []
    else
      var last := rows[|rows| - 1];
      Ties(fl, rows[..|rows| - 1], field, k) + if CmpKey(fl, Criterion(last, field), k) == Equal then [last] else []
  }

  /** The same rows, in order by the criterion, those with alike criteria as they were. */
  ghost predicate Arranged(fl: ToFloat, field: Str, ascending: bool, rows: seq<Row>, out: seq<Row>) {
    && multiset(out) == multiset(rows)
    && (forall i, j | 0 <= i < j < |out| ::
          CmpKey(fl, Criterion(out[i], field), Criterion(out[j], field)) != if ascending then Greater else Less)
    && (forall r | r in rows :: Ties(fl, out, field, Criterion(r, field)) == Ties(fl, rows, field, Criterion(r, field)))
  }

  lemma {:induction false} TiesAre(fl: ToFloat, rows: seq<Row>, field: Str, k: Key)
    ensures Tied(fl, rows, field, k) == Ties(fl, rows, field, k)
  {
    hide CmpKey, Lookup;
    if rows != [] {
      TiesAre(fl, rows[..|rows| - 1], field, k);
    }
  }

  lemma SortArranged(fl: ToFloat, field: Str, ascending: bool, rows: seq<Row>)
    requires Orderly(fl, SortKeys(field, rows))
    ensures Arranged(fl, field, ascending, rows, SortStable(fl, field, ascending, rows))
  {
    hide CmpKey, Orderly, SortStable, Tied, Ties, Lookup, Split;
    var out := SortStable(fl, field, ascending, rows);
    forall r | r in rows
      ensures Ordered(fl, field, ascending, out) && multiset(out) == multiset(rows)
      ensures Ties(fl, out, field, Criterion(r, field)) == Ties(fl, rows, field, Criterion(r, field))
    {
      SortExact(fl, SortKeys(field, rows), field, ascending, rows, SortKey(r, field));
      TiesAre(fl, out, field, SortKey(r, field));
      TiesAre(fl, rows, field, SortKey(r, field));
    }
    if rows == [] {
      NothingSorted(fl, field, ascending);
    } else {
      assert rows[0] in rows;
    }
    assert forall i, j | 0 <= i < j < |out| :: InOrder(fl, field, ascending, out[i], out[j]);
  }

  lemma NothingSorted(fl: ToFloat, field: Str, ascending: bool)
    ensures SortStable(fl, field, ascending, []) == []
  {
  }

  /** In ascending order rows without the field come first, ids by their bytes and times as numbers. */
  lemma ArrangedIs(fl: ToFloat, field: Str, rows: seq<Row>, out: seq<Row>, i: nat, j: nat)
    requires Arranged(fl, field, true, rows, out) && i < j < |out|
    ensures field == [0x69, 0x64] ==> CompareBytes(out[i].id, out[j].id) != Greater
    ensures field == [0x5F, 0x74, 0x69, 0x6D, 0x65] ==> out[i].doc.time <= out[j].doc.time
    ensures field != [0x69, 0x64] && field != [0x5F, 0x74, 0x69, 0x6D, 0x65] && Lookup(out[j].doc.fields, Split(field)).None? ==>
              Lookup(out[i].doc.fields, Split(field)).None?
  {
    hide Lookup, Split, CompareBytes;
    assert CmpKey(fl, Criterion(out[i], field), Criterion(out[j], field)) != Greater;
  }

  // ---- Running the stages ----

  function Projected(rows: seq<Row>, fields: seq<Str>): seq<Row> {
    seq(|rows|, i requires 0 <= i < |rows| => Row(rows[i].id, HakoDoc(Projection.ProjectFields(rows[i].doc.fields, fields), rows[i].doc.time)))
  }

  /** What a stage may turn the rows into; sorting and grouping by keys that are not orderly is not specified. */
  ghost predicate Stepped(fp: FloatOps, show: Value -> Str, rows: seq<Row>, stage: Stage, out: seq<Row>) {
    match stage
    case Match => false
    case Project(fields) => out == Projected(rows, fields)
    case Sort(field, ascending) => Orderly(fp.ofInt, SortKeys(field, rows)) ==> Arranged(fp.ofInt, field, ascending, rows, out)
    case Limit(n) => out <= rows && |out| == if n < |rows| then n else |rows|
    case Offset(n) => |out| == (if n < |rows| then |rows| - n else 0) && out == rows[|rows| - |out|..]
    case Unwind(field) => out == Unwound(rows, field)
    case GroupBy(key, accums) =>
      Orderly(fp.ofInt, KeySet(rows, key)) ==> exists keys: seq<Key> :: Reported(fp, show, rows, key, accums, keys, out)
  }

  method RunStage(fp: FloatOps, show: Value -> Str, rows: seq<Row>, stage: Stage) returns (out: seq<Row>)
    requires !stage.Match?
    ensures Stepped(fp, show, rows, stage, out)
  {
    hide Reported, Orderly, KeySet, Unwound, SortStable;
    match stage
    case Project(fields) => out := Projected(rows, fields);
    case Sort(field, ascending) =>
      out := SortStable(fp.ofInt, field, ascending, rows);
      if Orderly(fp.ofInt, SortKeys(field, rows)) {
        SortArranged(fp.ofInt, field, ascending, rows);
      }
    case Limit(n) => out := if n < |rows| then rows[..n] else rows;
    case Offset(n) => out := if n < |rows| then rows[n..] else [];
    case Unwind(field) => out := UnwindStage(rows, field);
    case GroupBy(key, accums) =>
      ghost var keys;
      out, keys := GroupStage(fp, show, rows, key, accums);
  }

  /** `run_stages`: one stage after the other; a match stage is refused. */
  method RunStages(fp: FloatOps, show: Value -> Str, rows: seq<Row>, stages: seq<Stage>)
    returns (r: Option<seq<Row>>, ghost trace: seq<seq<Row>>)
    ensures r.None? <==> Match in stages
    ensures r.Some? ==> |trace| == |stages| + 1 && trace[0] == rows && trace[|stages|] == r.value
    ensures r.Some? ==> forall i | 0 <= i < |stages| :: Stepped(fp, show, trace[i], stages[i], trace[i + 1])
  {
    hide Stepped;
    var cur := rows;
    trace := [rows];
    for i := 0 to |stages|
      invariant |trace| == i + 1 && trace[0] == rows && trace[i] == cur && Match !in stages[..i]
      invariant forall j | 0 <= j < i :: Stepped(fp, show, trace[j], stages[j], trace[j + 1])
    {
      assert stages[..i + 1] == stages[..i] + [stages[i]];
      if stages[i].Match? {
        assert stages[i] in stages;
        return None, trace;
      }
      cur := RunStage(fp, show, cur, stages[i]);
      trace := trace + [cur];
    }
    assert stages[..|stages|] == stages;
    r := Some(cur);
  }
}
