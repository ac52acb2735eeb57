/**
 The aggregation pipeline (`pipeline.rs`): accumulators, grouping and what grouping
 conserves. Float arithmetic and the rendering of a group id are parameters.
 */
module Pipeline {
  import opened Bytes
  import opened Values
  import opened ValueOrder

  datatype Row = Row(id: Str, doc: HakoDoc)

  datatype Accum = Count | Sum(field: Str) | Min(field: Str) | Max(field: Str) | Avg(field: Str)

  /** Float arithmetic on bit patterns; positive zero is 0. */
  datatype FloatOps = FloatOps(ofInt: ToFloat, add: (u64, u64) -> u64, div: (u64, nat) -> u64)

  datatype AccState =
    AccState(rows: nat, numeric: nat, sumF: u64, sumI: i64, allInt: bool, min: Option<Value>, max: Option<Value>)

  const FRESH := AccState(0, 0, 0, 0, true, None, None)
  const I64_MAX: i64 := 0x7FFF_FFFF_FFFF_FFFF
  const I64_MIN: i64 := -0x8000_0000_0000_0000

  function Saturate(n: int): i64 { if n > I64_MAX then I64_MAX else if n < I64_MIN then I64_MIN else n }

  function PathValue(doc: HakoDoc, path: Str): Option<Value> { Lookup(doc.fields, Split(path)) }

  /** A name is a top-level field; behind a dot the path goes on in the map found there. */
  lemma PathSteps(doc: HakoDoc, name: Str, rest: Str)
    requires 0x2E !in name && name != []
    ensures PathValue(doc, name) == Find(doc.fields, name)
    ensures PathValue(doc, name + [0x2E] + rest) ==
            match Find(doc.fields, name) case Some(Map(fields)) => PathValue(HakoDoc(fields, 0), rest) case _ => None
  {
    hide Split, Find;
    SplitWord(name);
    SplitDot(name, rest);
    var segs := Split(rest);
    assert ([name] + segs)[1..] == segs;
  }

  /** `AccState::push` */
  function Push(fp: FloatOps, s: AccState, op: Accum, doc: HakoDoc): AccState {
    var s := s.(rows := s.rows + 1);
    match op
    case Count => s
    case Sum(f) => PushNumber(fp, s, PathValue(doc, f))
    case Avg(f) => PushNumber(fp, s, PathValue(doc, f))
    case Min(f) =>
      var v := PathValue(doc, f);
      if v.Some? && (s.min.None? || Cmp(fp.ofInt, v.value, s.min.value) == Less) then s.(min := v) else s
    case Max(f) =>
      var v := PathValue(doc, f);
      if v.Some? && (s.max.None? || Cmp(fp.ofInt, v.value, s.max.value) == Greater) then s.(max := v) else s
  }

  function PushNumber(fp: FloatOps, s: AccState, v: Option<Value>): AccState {
    match v
    case Some(Int(i)) => s.(numeric := s.numeric + 1, sumI := Saturate(s.sumI + i), sumF := fp.add(s.sumF, fp.ofInt(i)))
    case Some(Float(f)) => s.(numeric := s.numeric + 1, allInt := false, sumF := fp.add(s.sumF, f))
    case _ => s
  }

  /** `AccState::value` */
  function Result(fp: FloatOps, s: AccState, op: Accum): Value {
    match op
    case Count => Int(AsI64(s.rows % 0x1_0000_0000_0000_0000))
    case Sum(_) => if s.numeric == 0 then Int(0) else if s.allInt then Int(s.sumI) else Float(s.sumF)
    case Avg(_) => if s.numeric == 0 then Null else Float(fp.div(s.sumF, s.numeric))
    case Min(_) => if s.min.Some? then s.min.value else Null
    case Max(_) => if s.max.Some? then s.max.value else Null
  }

  /** The state after all rows, in order. */
  function Fold(fp: FloatOps, op: Accum, rows: seq<Row>): AccState {
    if rows == [] then FRESH else Push(fp, Fold(fp, op, rows[..|rows| - 1]), op, rows[|rows| - 1].doc)
  }

  // ---- Groups ----

  type Key = Option<Value>

  function KeyOf(key: Option<Str>, doc: HakoDoc): Key { if key.Some? then PathValue(doc, key.value) else None }

  function CmpKey(fl: ToFloat, a: Key, b: Key): Ordering {
    if a.None? then (if b.None? then Equal else Less)
    else if b.None? then Greater
    else Cmp(fl, a.value, b.value)
  }

  predicate Alike(fl: ToFloat, a: Key, b: Key) { CmpKey(fl, a, b) == Equal }

  /** The order is transitive on the keys, as a sorted map and a sort demand of it. */
  ghost predicate Orderly(fl: ToFloat, keys: set<Key>) {
    forall a, b, c | a in keys && b in keys && c in keys :: Chains(CmpKey(fl, a, b), CmpKey(fl, b, c), CmpKey(fl, a, c))
  }

  /** Keys put together from coherent leaves are orderly. */
  lemma LeavesOrderly(fl: ToFloat, leaves: iset<Value>, keys: set<Key>)
    requires Monotone(fl, leaves) && Coherent(fl, leaves) && forall k | k in keys && k.Some? :: Built(leaves, k.value)
    ensures Orderly(fl, keys)
  {
    hide Cmp, Monotone, Coherent, Built;
    forall a, b, c | a in keys && b in keys && c in keys ensures Chains(CmpKey(fl, a, b), CmpKey(fl, b, c), CmpKey(fl, a, c)) {
      if a.Some? && b.Some? && c.Some? {
        CmpChains(fl, leaves, a.value, b.value, c.value);
      }
    }
  }

  /** Plain keys are alike only if they are the same. */
  lemma PlainAlike(fl: ToFloat, a: Key, b: Key)
    requires (a.Some? ==> Plain(a.value)) && (b.Some? ==> Plain(b.value))
    ensures Alike(fl, a, b) <==> a == b
  {
    hide Cmp, Plain;
    if a.Some? && b.Some? {
      CmpOrder(fl, a.value, b.value);
    }
  }

  lemma KeyFlip(fl: ToFloat, a: Key, b: Key)
    ensures CmpKey(fl, b, a) == Flip(CmpKey(fl, a, b)) && Alike(fl, a, a)
  {
    hide Cmp;
    if a.Some? {
      CmpSelf(fl, a.value);
      if b.Some? {
        CmpFlip(fl, a.value, b.value);
      }
    }
  }

  /** Alike keys compare in the same way with any third one. */
  lemma AlikeSame(fl: ToFloat, keys: set<Key>, a: Key, b: Key, c: Key)
    requires Orderly(fl, keys) && a in keys && b in keys && c in keys && Alike(fl, a, b)
    ensures CmpKey(fl, a, c) == CmpKey(fl, b, c) && CmpKey(fl, c, a) == CmpKey(fl, c, b)
  {
    hide CmpKey;
    KeyFlip(fl, a, b);
    KeyFlip(fl, a, c);
    KeyFlip(fl, b, c);
    assert Chains(CmpKey(fl, a, b), CmpKey(fl, b, c), CmpKey(fl, a, c));
    assert Chains(CmpKey(fl, b, a), CmpKey(fl, a, c), CmpKey(fl, b, c));
  }

  lemma LessChain(fl: ToFloat, keys: set<Key>, a: Key, b: Key, c: Key)
    requires Orderly(fl, keys) && a in keys && b in keys && c in keys
    requires CmpKey(fl, a, b) != Greater && CmpKey(fl, b, c) == Less
    ensures CmpKey(fl, a, c) == Less
  {
    hide CmpKey;
    assert Chains(CmpKey(fl, a, b), CmpKey(fl, b, c), CmpKey(fl, a, c));
  }

  function KeySet(rows: seq<Row>, key: Option<Str>): set<Key> { set r | r in rows :: KeyOf(key, r.doc) }

  /** The rows whose key is alike `k`, in order. */
  function RowsWith(fl: ToFloat, rows: seq<Row>, key: Option<Str>, k: Key): seq<Row> {
    if rows == [] then []
    else RowsWith(fl, rows[..|rows| - 1], key, k) + if Alike(fl, KeyOf(key, rows[|rows| - 1].doc), k) then [rows[|rows| - 1]] else []
  }

  datatype Group = Group(key: Key, states: seq<AccState>)

  function States(fp: FloatOps, accums: seq<Accum>, rows: seq<Row>): seq<AccState> {
    seq(|accums|, j requires 0 <= j < |accums| => Fold(fp, accums[j], rows))
  }

  predicate Ascending(fl: ToFloat, groups: seq<Group>) {
    forall i, j | 0 <= i < j < |groups| :: CmpKey(fl, groups[i].key, groups[j].key) == Less
  }

  /** The group holds the folds over the rows with its key, which is the key of the first of them. */
  ghost predicate GroupOf(fp: FloatOps, rows: seq<Row>, key: Option<Str>, accums: seq<Accum>, g: Group) {
    var mine := RowsWith(fp.ofInt, rows, key, g.key);
    g.states == States(fp, accums, mine) && mine != [] && g.key == KeyOf(key, mine[0].doc)
  }

  /** One group per key that occurs, up to likeness, in key order, each with the folds over exactly its rows. */
  ghost predicate Grouped(fp: FloatOps, rows: seq<Row>, key: Option<Str>, accums: seq<Accum>, groups: seq<Group>) {
    && Ascending(fp.ofInt, groups)
    && (forall g | g in groups :: GroupOf(fp, rows, key, accums, g))
    && (forall r | r in rows :: exists g :: g in groups && Alike(fp.ofInt, KeyOf(key, r.doc), g.key))
  }

  lemma {:induction false} RowsWithKey(fl: ToFloat, rows: seq<Row>, key: Option<Str>, k: Key, r: Row)
    ensures r in RowsWith(fl, rows, key, k) <==> r in rows && Alike(fl, KeyOf(key, r.doc), k)
  {
    hide Alike;
    if rows != [] {
      RowsWithKey(fl, rows[..|rows| - 1], key, k, r);
      assert rows == rows[..|rows| - 1] + [rows[|rows| - 1]];
    }
  }

  /** The groups are a search structure: orderly keys in ascending order. */
  ghost predicate Searchable(fl: ToFloat, keys: set<Key>, groups: seq<Group>, k: Key) {
    Ascending(fl, groups) && Orderly(fl, keys) && k in keys && forall g | g in groups :: g.key in keys
  }

  /** Where a key stands among the groups, or would have to be inserted. */
  method Locate(fl: ToFloat, groups: seq<Group>, k: Key, ghost keys: set<Key>) returns (pos: nat, found: bool)
    ensures pos <= |groups| && (found ==> pos < |groups|)
    ensures Searchable(fl, keys, groups, k) ==>
              && (found ==> Alike(fl, k, groups[pos].key))
              && (forall i | 0 <= i < pos :: CmpKey(fl, groups[i].key, k) == Less)
              && (forall i | pos <= i < |groups| && !(found && i == pos) :: CmpKey(fl, k, groups[i].key) == Less)
  {
    hide CmpKey, Orderly;
    pos := 0;
    while pos < |groups| && CmpKey(fl, groups[pos].key, k) == Less
      invariant pos <= |groups| && forall i | 0 <= i < pos :: CmpKey(fl, groups[i].key, k) == Less
    {
      pos := pos + 1;
    }
    found := pos < |groups| && CmpKey(fl, groups[pos].key, k) == Equal;
    if pos < |groups| && Searchable(fl, keys, groups, k) {
      KeyFlip(fl, groups[pos].key, k);
      assert groups[pos] in groups;
      forall i | pos < i < |groups| ensures CmpKey(fl, k, groups[i].key) == Less {
        assert groups[i] in groups;
        LessChain(fl, keys, k, groups[pos].key, groups[i].key);
      }
    }
  }

  /** The inner loop of a group stage: each accumulator takes the row. */
  method PushAll(fp: FloatOps, states: seq<AccState>, accums: seq<Accum>, doc: HakoDoc) returns (r: seq<AccState>)
    requires |states| == |accums|
    ensures |r| == |accums| && forall j | 0 <= j < |r| :: r[j] == Push(fp, states[j], accums[j], doc)
  {
    hide Push;
    r := [];
    for j := 0 to |states|
      invariant |r| == j && forall i | 0 <= i < j :: r[i] == Push(fp, states[i], accums[i], doc)
    {
      r := r + [Push(fp, states[j], accums[j], doc)];
    }
  }

  lemma StatesPush(fp: FloatOps, accums: seq<Accum>, rows: seq<Row>, row: Row, r: seq<AccState>)
    requires |r| == |accums|
    requires forall j | 0 <= j < |r| :: r[j] == Push(fp, States(fp, accums, rows)[j], accums[j], row.doc)
    ensures r == States(fp, accums, rows + [row])
  {
    hide Push;
    assert (rows + [row])[..|rows|] == rows;
  }

  lemma RowsWithNext(fl: ToFloat, rows: seq<Row>, row: Row, key: Option<Str>, k: Key)
    ensures RowsWith(fl, rows + [row], key, k) ==
            if Alike(fl, KeyOf(key, row.doc), k) then RowsWith(fl, rows, key, k) + [row] else RowsWith(fl, rows, key, k)
  {
    hide Alike;
    assert (rows + [row])[..|rows|] == rows;
  }

  /** A row that is not of the group leaves it as it is. */
  lemma GroupKept(fp: FloatOps, rows: seq<Row>, row: Row, key: Option<Str>, accums: seq<Accum>, g: Group)
    requires GroupOf(fp, rows, key, accums, g) && !Alike(fp.ofInt, KeyOf(key, row.doc), g.key)
    ensures GroupOf(fp, rows + [row], key, accums, g)
  {
    hide States, Alike, KeyOf, RowsWith;
    RowsWithNext(fp.ofInt, rows, row, key, g.key);
  }

  /** A row of the group is folded in. */
  lemma GroupGrown(fp: FloatOps, rows: seq<Row>, row: Row, key: Option<Str>, accums: seq<Accum>, g: Group, states: seq<AccState>)
    requires GroupOf(fp, rows, key, accums, g) && Alike(fp.ofInt, KeyOf(key, row.doc), g.key)
    requires |states| == |accums| == |g.states|
    requires forall j | 0 <= j < |accums| :: states[j] == Push(fp, g.states[j], accums[j], row.doc)
    ensures GroupOf(fp, rows + [row], key, accums, Group(g.key, states))
  {
    hide Alike, KeyOf, RowsWith, Push, Fold;
    var mine := RowsWith(fp.ofInt, rows, key, g.key);
    RowsWithNext(fp.ofInt, rows, row, key, g.key);
    StatesPush(fp, accums, mine, row, states);
    assert (mine + [row])[0] == mine[0];
  }

  /** A new group holds the one row. */
  lemma GroupFresh(fp: FloatOps, rows: seq<Row>, row: Row, key: Option<Str>, accums: seq<Accum>, states: seq<AccState>)
    requires states == States(fp, accums, [row]) && RowsWith(fp.ofInt, rows, key, KeyOf(key, row.doc)) == []
    ensures GroupOf(fp, rows + [row], key, accums, Group(KeyOf(key, row.doc), states))
  {
    hide Alike, KeyOf, RowsWith, States;
    RowsWithNext(fp.ofInt, rows, row, key, KeyOf(key, row.doc));
    KeyFlip(fp.ofInt, KeyOf(key, row.doc), KeyOf(key, row.doc));
    assert [] + [row] == [row];
  }

  /** A key alike one group is not alike another. */
  lemma OtherKey(fl: ToFloat, keys: set<Key>, groups: seq<Group>, k: Key, i: nat, pos: nat)
    requires Searchable(fl, keys, groups, k) && i < |groups| && pos < |groups| && i != pos && Alike(fl, k, groups[pos].key)
    ensures !Alike(fl, k, groups[i].key)
  {
    hide CmpKey, Orderly;
    assert groups[i] in groups && groups[pos] in groups;
    AlikeSame(fl, keys, k, groups[pos].key, groups[i].key);
    KeyFlip(fl, groups[i].key, groups[pos].key);
  }

  lemma GroupUpdated(fp: FloatOps, keys: set<Key>, rows: seq<Row>, row: Row, key: Option<Str>, accums: seq<Accum>, groups: seq<Group>, pos: nat, states: seq<AccState>)
    requires Grouped(fp, rows, key, accums, groups) && Searchable(fp.ofInt, keys, groups, KeyOf(key, row.doc))
    requires pos < |groups| && Alike(fp.ofInt, KeyOf(key, row.doc), groups[pos].key)
    requires |states| == |accums| == |groups[pos].states|
    requires forall j | 0 <= j < |accums| :: states[j] == Push(fp, groups[pos].states[j], accums[j], row.doc)
    ensures Grouped(fp, rows + [row], key, accums, groups[pos := Group(groups[pos].key, states)])
  {
    hide GroupOf, CmpKey, KeyOf, Alike, Push;
    var after := groups[pos := Group(groups[pos].key, states)];
    forall g | g in after ensures GroupOf(fp, rows + [row], key, accums, g) {
      var i :| 0 <= i < |after| && after[i] == g;
      assert groups[i] in groups;
      if i == pos {
        GroupGrown(fp, rows, row, key, accums, groups[pos], states);
      } else {
        OtherKey(fp.ofInt, keys, groups, KeyOf(key, row.doc), i, pos);
        GroupKept(fp, rows, row, key, accums, g);
      }
    }
    forall r | r in rows + [row] ensures exists g :: g in after && Alike(fp.ofInt, KeyOf(key, r.doc), g.key) {
      if r in rows {
        var g :| g in groups && Alike(fp.ofInt, KeyOf(key, r.doc), g.key);
        var i :| 0 <= i < |groups| && groups[i] == g;
        assert after[i] in after && after[i].key == g.key;
      } else {
        assert after[pos] in after;
      }
    }
  }

  lemma GroupInserted(fp: FloatOps, keys: set<Key>, rows: seq<Row>, row: Row, key: Option<Str>, accums: seq<Accum>, groups: seq<Group>, pos: nat, states: seq<AccState>)
    requires Grouped(fp, rows, key, accums, groups) && Searchable(fp.ofInt, keys, groups, KeyOf(key, row.doc))
    requires pos <= |groups| && states == States(fp, accums, [row]) && KeySet(rows, key) <= keys
    requires var k := KeyOf(key, row.doc);
             && (forall i | 0 <= i < pos :: CmpKey(fp.ofInt, groups[i].key, k) == Less)
             && (forall i | pos <= i < |groups| :: CmpKey(fp.ofInt, k, groups[i].key) == Less)
    ensures Grouped(fp, rows + [row], key, accums, groups[..pos] + [Group(KeyOf(key, row.doc), states)] + groups[pos..])
  {
    hide States, CmpKey, KeyOf, GroupOf, Orderly, RowsWith;
    var k := KeyOf(key, row.doc);
    var mine := Group(k, states);
    var after := groups[..pos] + [mine] + groups[pos..];
    forall g | g in groups ensures !Alike(fp.ofInt, k, g.key) {
      var i :| 0 <= i < |groups| && groups[i] == g;
      KeyFlip(fp.ofInt, g.key, k);
    }
    AscendingInsert(fp.ofInt, groups, pos, mine);
    NewKey(fp.ofInt, keys, rows, key, groups, k);
    GroupFresh(fp, rows, row, key, accums, states);
    KeyFlip(fp.ofInt, k, k);
    hide Ascending, Alike;
    forall g | g in after ensures GroupOf(fp, rows + [row], key, accums, g) {
      if g in groups {
        GroupKept(fp, rows, row, key, accums, g);
      } else {
        assert g == mine;
      }
    }
    assert mine in after && forall g | g in groups :: g in after;
  }

  lemma AscendingInsert(fl: ToFloat, groups: seq<Group>, pos: nat, g: Group)
    requires Ascending(fl, groups) && pos <= |groups|
    requires forall i | 0 <= i < pos :: CmpKey(fl, groups[i].key, g.key) == Less
    requires forall i | pos <= i < |groups| :: CmpKey(fl, g.key, groups[i].key) == Less
    ensures Ascending(fl, groups[..pos] + [g] + groups[pos..])
  {
    hide CmpKey;
  }

  lemma NewKey(fl: ToFloat, keys: set<Key>, rows: seq<Row>, key: Option<Str>, groups: seq<Group>, k: Key)
    requires Orderly(fl, keys) && KeySet(rows, key) <= keys && k in keys && forall g | g in groups :: g.key in keys
    requires forall r | r in rows :: exists g :: g in groups && Alike(fl, KeyOf(key, r.doc), g.key)
    requires forall g | g in groups :: !Alike(fl, k, g.key)
    ensures RowsWith(fl, rows, key, k) == []
  {
    hide KeyOf, CmpKey, Orderly;
    if RowsWith(fl, rows, key, k) != [] {
      var r := RowsWith(fl, rows, key, k)[0];
      RowsWithKey(fl, rows, key, k, r);
      var mine := KeyOf(key, r.doc);
      assert mine in KeySet(rows, key);
      var g :| g in groups && Alike(fl, mine, g.key);
      AlikeSame(fl, keys, mine, k, g.key);
    }
  }

  /** The map built by a group stage; on orderly keys it is the grouping. */
  method GroupRows(fp: FloatOps, rows: seq<Row>, key: Option<Str>, accums: seq<Accum>) returns (groups: seq<Group>)
    ensures forall g | g in groups :: |g.states| == |accums|
    ensures Orderly(fp.ofInt, KeySet(rows, key)) ==> Grouped(fp, rows, key, accums, groups)
  {
    hide States, CmpKey, KeyOf, RowsWith, Grouped, Ascending, Orderly, Alike;
    ghost var keys := KeySet(rows, key);
    ghost var orderly := Orderly(fp.ofInt, keys);
    groups := [];
    NoGroups(fp, key, accums);
    for i := 0 to |rows|
      invariant forall g | g in groups :: |g.states| == |accums| && g.key in keys
      invariant orderly ==> Grouped(fp, rows[..i], key, accums, groups)
    {
      var row := rows[i];
      assert row in rows && rows[..i + 1] == rows[..i] + [row];
      var k := KeyOf(key, row.doc);
      if orderly { GroupedAscending(fp, rows[..i], key, accums, groups); }
      var pos, found := Locate(fp.ofInt, groups, k, keys);
      if found {
        assert groups[pos] in groups;
        var states := PushAll(fp, groups[pos].states, accums, row.doc);
        if orderly { GroupUpdated(fp, keys, rows[..i], row, key, accums, groups, pos, states); }
        groups := groups[pos := Group(groups[pos].key, states)];
      } else {
        var start := seq(|accums|, _ => FRESH);
        var states := PushAll(fp, start, accums, row.doc);
        FreshPushed(fp, row, accums, states);
        if orderly { GroupInserted(fp, keys, rows[..i], row, key, accums, groups, pos, states); }
        groups := groups[..pos] + [Group(k, states)] + groups[pos..];
      }
    }
    assert rows[..|rows|] == rows;
  }

  lemma NoGroups(fp: FloatOps, key: Option<Str>, accums: seq<Accum>)
    ensures Grouped(fp, [], key, accums, [])
  {
  }

  lemma GroupedAscending(fp: FloatOps, rows: seq<Row>, key: Option<Str>, accums: seq<Accum>, groups: seq<Group>)
    requires Grouped(fp, rows, key, accums, groups)
    ensures Ascending(fp.ofInt, groups)
  {
  }

  lemma FreshPushed(fp: FloatOps, row: Row, accums: seq<Accum>, states: seq<AccState>)
    requires |states| == |accums| && forall j | 0 <= j < |accums| :: states[j] == Push(fp, FRESH, accums[j], row.doc)
    ensures states == States(fp, accums, [row])
  {
    assert forall j | 0 <= j < |accums| :: Fold(fp, accums[j], []) == FRESH;
    hide Push;
    StatesPush(fp, accums, [], row, states);
    assert [] + [row] == [row];
  }
}
