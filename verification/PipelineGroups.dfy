/**
 The output rows of a group stage (`pipeline.rs`): what each field of a row says about
 the input rows of its group.
 */
module PipelineGroups {
  import opened Bytes
  import opened Values
  import opened ValueOrder
  import opened Pipeline
  import opened PipelineStages

  const ALL_ROWS: Str := [36, 97, 108, 108]

  datatype AccumSpec = AccumSpec(out: Str, op: Accum)

  // ---- Extremes ----

  /** `a` is no worse than `b` for a minimum (`low`) or a maximum. */
  predicate NoWorse(fl: ToFloat, low: bool, a: Key, b: Key) {
    (if low then CmpKey(fl, a, b) else CmpKey(fl, b, a)) != Greater
  }

  /** One of the values, and no worse than any; none if the field is nowhere. */
  ghost predicate Extreme(fl: ToFloat, low: bool, field: Str, rows: seq<Row>, m: Option<Value>) {
    match m
    case None => forall r | r in rows :: PathValue(r.doc, field).None?
    case Some(v) =>
      && (exists r :: r in rows && PathValue(r.doc, field) == m)
      && forall r | r in rows && PathValue(r.doc, field).Some? :: NoWorse(fl, low, m, PathValue(r.doc, field))
  }

  lemma NoWorseChain(fl: ToFloat, keys: set<Key>, low: bool, a: Key, b: Key, c: Key)
    requires Orderly(fl, keys) && a in keys && b in keys && c in keys && NoWorse(fl, low, a, b) && NoWorse(fl, low, b, c)
    ensures NoWorse(fl, low, a, c)
  {
    hide CmpKey;
    assert Chains(CmpKey(fl, a, b), CmpKey(fl, b, c), CmpKey(fl, a, c));
    assert Chains(CmpKey(fl, c, b), CmpKey(fl, b, a), CmpKey(fl, c, a));
  }

  lemma NoWorseTotal(fl: ToFloat, low: bool, a: Key, b: Key)
    ensures NoWorse(fl, low, a, a)
    ensures CmpKey(fl, a, b) == (if low then Less else Greater) <==> !NoWorse(fl, low, b, a)
    ensures CmpKey(fl, a, b) == (if low then Less else Greater) ==> NoWorse(fl, low, a, b)
  {
    hide CmpKey;
    KeyFlip(fl, a, a);
    KeyFlip(fl, a, b);
  }

  lemma ExtremeNext(fl: ToFloat, keys: set<Key>, low: bool, field: Str, rows: seq<Row>, row: Row, m: Option<Value>)
    requires Extreme(fl, low, field, rows, m) && Orderly(fl, keys) && KeySet(rows + [row], Some(field)) <= keys
    ensures var v := PathValue(row.doc, field);
            Extreme(fl, low, field, rows + [row],
                    if v.Some? && (m.None? || CmpKey(fl, v, m) == (if low then Less else Greater)) then v else m)
  {
    hide NoWorse, PathValue, CmpKey, Orderly;
    var v := PathValue(row.doc, field);
    assert row in rows + [row] && forall r | r in rows :: r in rows + [row];
    forall r | r in rows + [row] ensures PathValue(r.doc, field) in keys {
      assert KeyOf(Some(field), r.doc) in KeySet(rows + [row], Some(field));
    }
    NoWorseTotal(fl, low, v, m);
    NoWorseTotal(fl, low, v, v);
    if v.Some? && m.Some? && CmpKey(fl, v, m) == (if low then Less else Greater) {
      forall r | r in rows && PathValue(r.doc, field).Some? ensures NoWorse(fl, low, v, PathValue(r.doc, field)) {
        NoWorseChain(fl, keys, low, v, m, PathValue(r.doc, field));
      }
    }
  }

  /** `Min` keeps the least value of the field. */
  lemma {:induction false} MinExact(fp: FloatOps, keys: set<Key>, field: Str, rows: seq<Row>)
    requires Orderly(fp.ofInt, keys) && KeySet(rows, Some(field)) <= keys
    ensures Extreme(fp.ofInt, true, field, rows, Fold(fp, Min(field), rows).min)
  {
    hide Orderly;
    if rows != [] {
      var init, last := rows[..|rows| - 1], rows[|rows| - 1];
      assert rows == init + [last];
      MinExact(fp, keys, field, init);
      hide Extreme, PathValue, Cmp;
      ExtremeNext(fp.ofInt, keys, true, field, init, last, Fold(fp, Min(field), init).min);
    }
  }

  /** `Max` keeps the greatest value of the field. */
  lemma {:induction false} MaxExact(fp: FloatOps, keys: set<Key>, field: Str, rows: seq<Row>)
    requires Orderly(fp.ofInt, keys) && KeySet(rows, Some(field)) <= keys
    ensures Extreme(fp.ofInt, false, field, rows, Fold(fp, Max(field), rows).max)
  {
    hide Orderly;
    if rows != [] {
      var init, last := rows[..|rows| - 1], rows[|rows| - 1];
      assert rows == init + [last];
      MaxExact(fp, keys, field, init);
      hide Extreme, PathValue, Cmp;
      ExtremeNext(fp.ofInt, keys, false, field, init, last, Fold(fp, Max(field), init).max);
    }
  }

  // ---- The row of a group ----

  function Ops(accums: seq<AccumSpec>): (r: seq<Accum>)
    ensures |r| == |accums|
  {
    seq(|accums|, i requires 0 <= i < |accums| => accums[i].op)
  }

  function LastSegment(path: Str): Str { Split(path)[|Split(path)| - 1] }

  /** The key field, then one field per accumulator. */
  function GroupFields(fp: FloatOps, key: Option<Str>, accums: seq<AccumSpec>, g: Group): seq<Field>
    requires |accums| <= |g.states|
  {
    if accums == [] then
      if key.None? then [] else Put([], LastSegment(key.value), if g.key.Some? then g.key.value else Null)
    else
      var n := |accums| - 1;
      Put(GroupFields(fp, key, accums[..n], g), accums[n].out, Result(fp, g.states[n], accums[n].op))
  }

  function GroupRow(fp: FloatOps, show: Value -> Str, key: Option<Str>, accums: seq<AccumSpec>, g: Group): Row
    requires |accums| <= |g.states|
  {
    var id := match g.key case None => ALL_ROWS case Some(String(s)) => s case Some(v) => show(v);
    Row(id, HakoDoc(GroupFields(fp, key, accums, g), 0))
  }

  lemma {:induction false} GroupFieldsSorted(fp: FloatOps, key: Option<Str>, accums: seq<AccumSpec>, g: Group)
    requires |accums| <= |g.states|
    ensures SortedKeys(GroupFields(fp, key, accums, g))
  {
    if accums != [] {
      var n := |accums| - 1;
      GroupFieldsSorted(fp, key, accums[..n], g);
      hide Put, Result;
      PutSorted(GroupFields(fp, key, accums[..n], g), accums[n].out, Result(fp, g.states[n], accums[n].op));
    }
  }

  /** A group row holds the result of every accumulator whose output name is not used again behind it. */
  lemma {:induction false} GroupFieldAt(fp: FloatOps, key: Option<Str>, accums: seq<AccumSpec>, g: Group, j: nat)
    requires |accums| <= |g.states| && j < |accums|
    requires forall i | j < i < |accums| :: accums[i].out != accums[j].out
    ensures Find(GroupFields(fp, key, accums, g), accums[j].out) == Some(Result(fp, g.states[j], accums[j].op))
  {
    var n := |accums| - 1;
    hide Put, Find, Result;
    GroupFieldsSorted(fp, key, accums[..n], g);
    PutFind(GroupFields(fp, key, accums[..n], g), accums[n].out, Result(fp, g.states[n], accums[n].op), accums[j].out);
    if j < n {
      GroupFieldAt(fp, key, accums[..n], g, j);
    }
  }

  function GroupRowsOut(fp: FloatOps, show: Value -> Str, key: Option<Str>, accums: seq<AccumSpec>, groups: seq<Group>): seq<Row>
    requires forall g | g in groups :: |accums| <= |g.states|
  {
    seq(|groups|, i requires 0 <= i < |groups| => assert groups[i] in groups; GroupRow(fp, show, key, accums, groups[i]))
  }

  // ---- What the fields say ----

  /** The value of a dotted path, or nothing without a path. */
  function Grouping(key: Option<Str>, doc: HakoDoc): Key {
    if key.None? then None else Lookup(doc.fields, Split(key.value))
  }

  /** The values of a field over the rows that have it. */
  function ValuesAt(field: Str, rows: seq<Row>): set<Value> {
    set r | r in rows && Lookup(r.doc.fields, Split(field)).Some? :: Lookup(r.doc.fields, Split(field)).value
  }

  /** `v` is one of the values and no other is below it, or above it; null if there is none. */
  ghost predicate IsExtreme(fl: ToFloat, low: bool, values: set<Value>, v: Value) {
    if values == {} then v == Null
    else v in values && forall x | x in values :: Cmp(fl, x, v) != if low then Less else Greater
  }

  /** The field of an accumulator answers for the rows of its group. */
  ghost predicate Answers(fp: FloatOps, op: Accum, rows: seq<Row>, field: Option<Value>) {
    match op
    case Count => |rows| <= Pipeline.I64_MAX ==> field == Some(Int(|rows|))
    case Sum(f) =>
      && (NoFloats(Numbers(f, rows)) && Exact(f, rows) ==> field.Some? && field.value.Int? && field.value.i == Total(IntAt(f), rows))
      && (!NoFloats(Numbers(f, rows)) ==> field == Some(Float(FloatTotal(fp, Numbers(f, rows)))))
    case Avg(f) =>
      field == Some(if Numbers(f, rows) == [] then Null else Float(fp.div(FloatTotal(fp, Numbers(f, rows)), |Numbers(f, rows)|)))
    case Min(f) => Orderly(fp.ofInt, KeySet(rows, Some(f))) ==> field.Some? && IsExtreme(fp.ofInt, true, ValuesAt(f, rows), field.value)
    case Max(f) => Orderly(fp.ofInt, KeySet(rows, Some(f))) ==> field.Some? && IsExtreme(fp.ofInt, false, ValuesAt(f, rows), field.value)
  }

  lemma ExtremeIs(fl: ToFloat, low: bool, field: Str, rows: seq<Row>, m: Option<Value>)
    requires Extreme(fl, low, field, rows, m)
    ensures IsExtreme(fl, low, ValuesAt(field, rows), if m.Some? then m.value else Null)
  {
    hide Cmp, Lookup, Split;
    var values := ValuesAt(field, rows);
    if m.Some? {
      forall x | x in values ensures Cmp(fl, x, m.value) != if low then Less else Greater {
        var r :| r in rows && PathValue(r.doc, field) == Some(x);
        assert NoWorse(fl, low, m, PathValue(r.doc, field));
        CmpFlip(fl, x, m.value);
      }
    }
  }

  /** The result of an accumulator over the rows of a group answers for them. */
  lemma ResultAnswers(fp: FloatOps, op: Accum, rows: seq<Row>)
    ensures Answers(fp, op, rows, Some(Result(fp, Fold(fp, op, rows), op)))
  {
    hide Cmp, Lookup, Split, Orderly, Extreme, IsExtreme, Fold, KeySet, Numbers, FloatTotal, Total, Exact, NoFloats;
    match op {
      case Count => FoldRows(fp, op, rows);
      case Sum(f) => SumExact(fp, f, rows);
      case Avg(f) => AvgExact(fp, f, rows);
      case Min(f) =>
        if Orderly(fp.ofInt, KeySet(rows, Some(f))) {
          MinExact(fp, KeySet(rows, Some(f)), f, rows);
          ExtremeIs(fp.ofInt, true, f, rows, Fold(fp, op, rows).min);
        }
      case Max(f) =>
        if Orderly(fp.ofInt, KeySet(rows, Some(f))) {
          MaxExact(fp, KeySet(rows, Some(f)), f, rows);
          ExtremeIs(fp.ofInt, false, f, rows, Fold(fp, op, rows).max);
        }
    }
  }

  /** A minimum is null exactly when no row has the field or some row has null in it. */
  lemma MinNull(fl: ToFloat, values: set<Value>, v: Value)
    requires IsExtreme(fl, true, values, v)
    ensures v == Null <==> values == {} || Null in values
  {
    assert v != Null ==> Cmp(fl, Null, v) == Less;
  }

  /** A maximum is null exactly when no row has anything but null in the field. */
  lemma MaxNull(fl: ToFloat, values: set<Value>, v: Value)
    requires IsExtreme(fl, false, values, v)
    ensures v == Null <==> forall x | x in values :: x == Null
  {
    forall x | x in values && v == Null ensures x == Null {
      assert Cmp(fl, x, v) != Greater;
    }
  }

  /** The rows whose key is alike `k`, in order. */
  function Members(fl: ToFloat, rows: seq<Row>, key: Option<Str>, k: Key): seq<Row> {
    if rows == [] then []
    else
      var last := rows[|rows| - 1];
      Members(fl, rows[..|rows| - 1], key, k) + if CmpKey(fl, Grouping(key, last.doc), k) == Equal then [last] else []
  }

  lemma {:induction false} MembersAre(fl: ToFloat, rows: seq<Row>, key: Option<Str>, k: Key)
    ensures RowsWith(fl, rows, key, k) == Members(fl, rows, key, k)
  {
    hide CmpKey, Lookup;
    if rows != [] {
      MembersAre(fl, rows[..|rows| - 1], key, k);
    }
  }

  predicate LastUse(accums: seq<AccumSpec>, j: nat)
    requires j < |accums|
  {
    forall i | j < i < |accums| :: accums[i].out != accums[j].out
  }

  /** The dotted path without what stands before its last dot. */
  predicate LastName(path: Str, name: Str) {
    0x2E !in name && |name| <= |path| && name == path[|path| - |name|..] && (name == path || path[|path| - |name| - 1] == 0x2E)
  }

  /** The rows of the groups: in key order, each with its key, and every accumulator answering for the members. */
  ghost predicate Reported(fp: FloatOps, show: Value -> Str, rows: seq<Row>, key: Option<Str>, accums: seq<AccumSpec>, keys: seq<Key>, out: seq<Row>) {
    && |out| == |keys|
    && (forall i, j | 0 <= i < j < |keys| :: CmpKey(fp.ofInt, keys[i], keys[j]) == Less)
    && (forall r | r in rows :: exists i :: 0 <= i < |keys| && CmpKey(fp.ofInt, Grouping(key, r.doc), keys[i]) == Equal)
    && (forall i | 0 <= i < |keys| :: Entry(fp, show, key, accums, keys[i], Members(fp.ofInt, rows, key, keys[i]), out[i]))
  }

  /** One output row, for a group with the members. */
  ghost predicate Entry(fp: FloatOps, show: Value -> Str, key: Option<Str>, accums: seq<AccumSpec>, k: Key, members: seq<Row>, row: Row) {
    && members != [] && k == Grouping(key, members[0].doc) && row.doc.time == 0
    && row.id == (match k case None => [0x24, 0x61, 0x6C, 0x6C] case Some(String(s)) => s case Some(v) => show(v))
    && (forall j | 0 <= j < |accums| && LastUse(accums, j) :: Answers(fp, accums[j].op, members, Find(row.doc.fields, accums[j].out)))
    && (forall name | key.Some? && LastName(key.value, name) && (forall j | 0 <= j < |accums| :: accums[j].out != name) ::
          Find(row.doc.fields, name) == Some(if k.Some? then k.value else Null))
  }

  lemma SplitLast(path: Str, name: Str)
    requires LastName(path, name)
    ensures LastSegment(path) == name
  {
    hide Split;
    if name == path {
      SplitWord(name);
    } else {
      var n := |path| - |name| - 1;
      assert path == path[..n] + [0x2E] + name;
      SplitEnd(path[..n], name);
    }
  }

  /** The key field of a group row. */
  lemma {:induction false} KeyFieldAt(fp: FloatOps, key: Str, accums: seq<AccumSpec>, g: Group, name: Str)
    requires |accums| <= |g.states| && LastSegment(key) == name && forall j | 0 <= j < |accums| :: accums[j].out != name
    ensures Find(GroupFields(fp, Some(key), accums, g), name) == Some(if g.key.Some? then g.key.value else Null)
  {
    if accums != [] {
      var n := |accums| - 1;
      hide Put, Find, Result;
      KeyFieldAt(fp, key, accums[..n], g, name);
      GroupFieldsSorted(fp, Some(key), accums[..n], g);
      PutFind(GroupFields(fp, Some(key), accums[..n], g), accums[n].out, Result(fp, g.states[n], accums[n].op), name);
    }
  }

  lemma EntryOf(fp: FloatOps, show: Value -> Str, rows: seq<Row>, key: Option<Str>, accums: seq<AccumSpec>, g: Group)
    requires GroupOf(fp, rows, key, Ops(accums), g) && |accums| <= |g.states|
    ensures Entry(fp, show, key, accums, g.key, Members(fp.ofInt, rows, key, g.key), GroupRow(fp, show, key, accums, g))
  {
    var members := RowsWith(fp.ofInt, rows, key, g.key);
    MembersAre(fp.ofInt, rows, key, g.key);
    assert g.states == States(fp, Ops(accums), members);
    hide RowsWith, Members, GroupFields, Result, Fold, Answers, Split, Lookup, Find, LastSegment, LastName;
    var row := GroupRow(fp, show, key, accums, g);
    forall j | 0 <= j < |accums| && LastUse(accums, j) ensures Answers(fp, accums[j].op, members, Find(row.doc.fields, accums[j].out)) {
      GroupFieldAt(fp, key, accums, g, j);
      ResultAnswers(fp, accums[j].op, members);
    }
    forall name | key.Some? && LastName(key.value, name) && (forall j | 0 <= j < |accums| :: accums[j].out != name)
      ensures Find(row.doc.fields, name) == Some(if g.key.Some? then g.key.value else Null)
    {
      SplitLast(key.value, name);
      KeyFieldAt(fp, key.value, accums, g, name);
    }
  }

  lemma OutReported(fp: FloatOps, show: Value -> Str, rows: seq<Row>, key: Option<Str>, accums: seq<AccumSpec>, groups: seq<Group>)
    requires Grouped(fp, rows, key, Ops(accums), groups) && forall g | g in groups :: |accums| <= |g.states|
    ensures Reported(fp, show, rows, key, accums, KeysOf(groups), GroupRowsOut(fp, show, key, accums, groups))
  {
    hide GroupOf, GroupRow, Entry, CmpKey, Lookup, Members;
    var keys, out := KeysOf(groups), GroupRowsOut(fp, show, key, accums, groups);
    forall i | 0 <= i < |groups| ensures Entry(fp, show, key, accums, keys[i], Members(fp.ofInt, rows, key, keys[i]), out[i]) {
      assert groups[i] in groups;
      EntryOf(fp, show, rows, key, accums, groups[i]);
    }
    forall r | r in rows ensures exists i :: 0 <= i < |keys| && CmpKey(fp.ofInt, Grouping(key, r.doc), keys[i]) == Equal {
      var g :| g in groups && Alike(fp.ofInt, KeyOf(key, r.doc), g.key);
      var i :| 0 <= i < |groups| && groups[i] == g;
      assert keys[i] == g.key;
    }
  }

  // ---- Counts over the output ----

  function IntField(row: Row, name: Str): int { match Find(row.doc.fields, name) case Some(Int(i)) => i case _ => 0 }

  function IntFields(out: seq<Row>, name: Str): seq<int> {
    seq(|out|, i requires 0 <= i < |out| => IntField(out[i], name))
  }

  /** The count fields of the output rows add up to the number of input rows. */
  lemma OutCounts(fp: FloatOps, show: Value -> Str, rows: seq<Row>, key: Option<Str>, accums: seq<AccumSpec>, keys: seq<Key>, out: seq<Row>, j: nat)
    requires Reported(fp, show, rows, key, accums, keys, out) && Orderly(fp.ofInt, KeySet(rows, key)) && |rows| <= Pipeline.I64_MAX
    requires j < |accums| && accums[j].op.Count? && LastUse(accums, j)
    ensures SumSeq(IntFields(out, accums[j].out)) == |rows|
  {
    hide Find, Lookup, Members, Orderly, SumSeq, CmpKey, LastUse;
    var name := accums[j].out;
    forall i | 0 <= i < |out| ensures IntField(out[i], name) == Total(Ones(), RowsWith(fp.ofInt, rows, key, keys[i])) {
      var members := Members(fp.ofInt, rows, key, keys[i]);
      assert Entry(fp, show, key, accums, keys[i], members, out[i]);
      MembersAre(fp.ofInt, rows, key, keys[i]);
      MembersFew(fp.ofInt, rows, key, keys[i]);
      FoldRows(fp, Count, members);
    }
    assert IntFields(out, name) == Totals(fp.ofInt, Ones(), rows, key, keys);
    ReportedKeys(fp, show, rows, key, accums, keys, out);
    TotalsConserved(fp.ofInt, KeySet(rows, key), Ones(), rows, key, keys);
    FoldRows(fp, Count, rows);
  }

  lemma {:induction false} MembersFew(fl: ToFloat, rows: seq<Row>, key: Option<Str>, k: Key)
    ensures |Members(fl, rows, key, k)| <= |rows| && forall r | r in Members(fl, rows, key, k) :: r in rows
  {
    hide CmpKey, Lookup;
    if rows != [] {
      MembersFew(fl, rows[..|rows| - 1], key, k);
    }
  }

  lemma EntryKey(fp: FloatOps, show: Value -> Str, rows: seq<Row>, key: Option<Str>, accums: seq<AccumSpec>, k: Key, members: seq<Row>, row: Row)
    requires Entry(fp, show, key, accums, k, members, row) && forall r | r in members :: r in rows
    ensures k in KeySet(rows, key)
  {
    hide Find, Lookup, LastUse, Answers, LastName, Split;
    assert members[0] in rows && KeyOf(key, members[0].doc) == k;
  }

  lemma ReportedParts(fp: FloatOps, show: Value -> Str, rows: seq<Row>, key: Option<Str>, accums: seq<AccumSpec>, keys: seq<Key>, out: seq<Row>)
    requires Reported(fp, show, rows, key, accums, keys, out)
    ensures |out| == |keys| && PipelineStages.DistinctKeys(fp.ofInt, keys)
    ensures forall i | 0 <= i < |keys| :: Entry(fp, show, key, accums, keys[i], Members(fp.ofInt, rows, key, keys[i]), out[i])
    ensures forall r | r in rows :: exists n :: 0 <= n < |keys| && Alike(fp.ofInt, KeyOf(key, r.doc), keys[n])
  {
    hide Entry, Members, CmpKey, Lookup, Split;
    forall r | r in rows ensures exists n :: 0 <= n < |keys| && Alike(fp.ofInt, KeyOf(key, r.doc), keys[n]) {
      var i :| 0 <= i < |keys| && CmpKey(fp.ofInt, Grouping(key, r.doc), keys[i]) == Equal;
      assert Alike(fp.ofInt, KeyOf(key, r.doc), keys[i]);
    }
  }

  lemma ReportedKeys(fp: FloatOps, show: Value -> Str, rows: seq<Row>, key: Option<Str>, accums: seq<AccumSpec>, keys: seq<Key>, out: seq<Row>)
    requires Reported(fp, show, rows, key, accums, keys, out) && Orderly(fp.ofInt, KeySet(rows, key))
    ensures Comparable(fp.ofInt, KeySet(rows, key), rows, key, keys) && PipelineStages.DistinctKeys(fp.ofInt, keys)
    ensures forall r | r in rows :: exists n :: 0 <= n < |keys| && Alike(fp.ofInt, KeyOf(key, r.doc), keys[n])
  {
    hide Reported, Entry, Members, Orderly, Alike, KeyOf, PipelineStages.DistinctKeys;
    ReportedParts(fp, show, rows, key, accums, keys, out);
    forall i | 0 <= i < |keys| ensures keys[i] in KeySet(rows, key) {
      var members := Members(fp.ofInt, rows, key, keys[i]);
      assert Entry(fp, show, key, accums, keys[i], members, out[i]);
      MembersFew(fp.ofInt, rows, key, keys[i]);
      EntryKey(fp, show, rows, key, accums, keys[i], members, out[i]);
    }
  }

  /** A group stage: the rows of the groups, one for each key. */
  method GroupStage(fp: FloatOps, show: Value -> Str, rows: seq<Row>, key: Option<Str>, accums: seq<AccumSpec>)
    returns (out: seq<Row>, ghost keys: seq<Key>)
    ensures Orderly(fp.ofInt, KeySet(rows, key)) ==> Reported(fp, show, rows, key, accums, keys, out)
  {
    hide Grouped, KeyOf, Orderly, KeySet, Reported;
    var groups := GroupRows(fp, rows, key, Ops(accums));
    keys := KeysOf(groups);
    out := [];
    for i := 0 to |groups|
      invariant out == GroupRowsOut(fp, show, key, accums, groups)[..i]
    {
      hide GroupFields;
      assert groups[i] in groups;
      out := out + [GroupRow(fp, show, key, accums, groups[i])];
    }
    assert GroupRowsOut(fp, show, key, accums, groups)[..|groups|] == GroupRowsOut(fp, show, key, accums, groups);
    if Orderly(fp.ofInt, KeySet(rows, key)) {
      OutReported(fp, show, rows, key, accums, groups);
    }
  }
}
