/**
 Last-writer-wins replication of one collection (`sync_core.rs`): a table keeps the
 newest entry of each key, and a batch is filtered against the table it finds.
 */
module Lww {
  import opened Bytes
  import opened Values

  datatype Body = Live(doc: HakoDoc) | Gone
  datatype Entry = Entry(stamp: int, body: Body)
  datatype Op = Op(key: Str, entry: Entry)
  type Table = map<Str, Entry>

  function Look(t: Table, k: Str): Option<Entry> { if k in t then Some(t[k]) else None }

  /** Strictly newer than what the table holds. */
  predicate Wins(t: Table, op: Op) { op.key !in t || t[op.key].stamp < op.entry.stamp }

  function Apply(t: Table, op: Op): Table { if Wins(t, op) then t[op.key := op.entry] else t }

  /** The ops one at a time, each against the table the ones before it left. */
  function ApplyAll(t: Table, ops: seq<Op>): Table {
    if ops == [] then t else Apply(ApplyAll(t, ops[..|ops| - 1]), ops[|ops| - 1])
  }

  // ---- A batch, as `apply_replicated_batch` commits it ----

  /** Phase 1: the ops that win against the table before the batch. */
  function Accepted(t: Table, ops: seq<Op>): seq<Op> {
    if ops == [] then []
    else Accepted(t, ops[..|ops| - 1]) + if Wins(t, ops[|ops| - 1]) then [ops[|ops| - 1]] else []
  }

  /** The stamp of the first delete of `k`, which every tombstone of `k` gets. */
  function FirstDelete(ops: seq<Op>, k: Str): int {
    if ops == [] then 0
    else if ops[0].key == k && ops[0].entry.body.Gone? then ops[0].entry.stamp
    else FirstDelete(ops[1..], k)
  }

  function Installed(accepted: seq<Op>, op: Op): Entry {
    if op.entry.body.Gone? then Entry(FirstDelete(accepted, op.key), Gone) else op.entry
  }

  /** Phase 2: index updates in order, whatever the index holds by then. */
  function Install(t: Table, accepted: seq<Op>, ops: seq<Op>): Table
    decreases |ops|
  {
    if ops == [] then t
    else
      var op := ops[|ops| - 1];
      Install(t, accepted, ops[..|ops| - 1])[op.key := Installed(accepted, op)]
  }

  function ApplyBatch(t: Table, ops: seq<Op>): Table {
    Install(t, Accepted(t, ops), Accepted(t, ops))
  }

  // ---- Any batch ----

  function LastOf(ops: seq<Op>, k: Str): (r: Option<Op>)
    ensures r.Some? ==> r.value in ops && r.value.key == k
    ensures r.None? ==> forall op | op in ops :: op.key != k
  {
    if ops == [] then None
    else if ops[|ops| - 1].key == k then Some(ops[|ops| - 1])
    else
      assert forall op | op in ops :: op in ops[..|ops| - 1] || op == ops[|ops| - 1];
      LastOf(ops[..|ops| - 1], k)
  }

  /** The ops in order, over whatever is there. */
  function Overwrite(t: Table, ops: seq<Op>): Table {
    if ops == [] then t else Overwrite(t, ops[..|ops| - 1])[ops[|ops| - 1].key := ops[|ops| - 1].entry]
  }

  lemma {:induction false} OverwriteAt(t: Table, ops: seq<Op>, k: Str)
    ensures Look(Overwrite(t, ops), k) == match LastOf(ops, k) case None => Look(t, k) case Some(op) => Some(op.entry)
  {
    if ops != [] {
      OverwriteAt(t, ops[..|ops| - 1], k);
    }
  }

  lemma {:induction false} InstallAt(t: Table, accepted: seq<Op>, ops: seq<Op>, k: Str)
    ensures Look(Install(t, accepted, ops), k) ==
            match LastOf(ops, k) case None => Look(t, k) case Some(op) => Some(Installed(accepted, op))
  {
    if ops != [] {
      InstallAt(t, accepted, ops[..|ops| - 1], k);
    }
  }

  lemma {:induction false} AcceptedOps(t: Table, ops: seq<Op>, op: Op)
    ensures op in Accepted(t, ops) <==> op in ops && Wins(t, op)
  {
    if ops != [] {
      assert ops == ops[..|ops| - 1] + [ops[|ops| - 1]];
      AcceptedOps(t, ops[..|ops| - 1], op);
    }
  }

  /** The first delete of `k` is one of them. */
  lemma {:induction false} FirstDeleteFound(ops: seq<Op>, k: Str, stamp: int)
    requires Op(k, Entry(stamp, Gone)) in ops
    ensures Op(k, Entry(FirstDelete(ops, k), Gone)) in ops
  {
    if !(ops[0].key == k && ops[0].entry.body.Gone?) {
      assert ops == [ops[0]] + ops[1..];
      FirstDeleteFound(ops[1..], k, stamp);
    }
  }

  /** For every batch: an entry stays or gives way to a strictly newer op of the batch. */
  lemma BatchNeverOlder(t: Table, ops: seq<Op>, k: Str)
    requires k in ApplyBatch(t, ops) || k in t
    ensures k in ApplyBatch(t, ops)
    ensures (k in t && ApplyBatch(t, ops)[k] == t[k]) || (Op(k, ApplyBatch(t, ops)[k]) in ops && Wins(t, Op(k, ApplyBatch(t, ops)[k])))
  {
    var accepted := Accepted(t, ops);
    InstallAt(t, accepted, accepted, k);
    match LastOf(accepted, k)
    case None =>
    case Some(op) =>
      if op.entry.body.Gone? {
        FirstDeleteFound(accepted, k, op.entry.stamp);
      }
      AcceptedOps(t, ops, Op(k, Installed(accepted, op)));
  }

  // ---- Batches that ascend per key, as a tail of the log does ----

  predicate Ascending(ops: seq<Op>) {
    forall i, j | 0 <= i < j < |ops| && ops[i].key == ops[j].key :: ops[i].entry.stamp < ops[j].entry.stamp
  }

  predicate OncePerKey(ops: seq<Op>) {
    forall i, j | 0 <= i < j < |ops| :: ops[i].key != ops[j].key
  }

  lemma {:induction false} LastNewest(ops: seq<Op>, k: Str, op: Op)
    requires Ascending(ops) && op in ops && op.key == k
    ensures LastOf(ops, k).Some? && op.entry.stamp <= LastOf(ops, k).value.entry.stamp
    ensures op == LastOf(ops, k).value || op.entry.stamp < LastOf(ops, k).value.entry.stamp
  {
    var init, last := ops[..|ops| - 1], ops[|ops| - 1];
    assert ops == init + [last];
    if last.key != k {
      LastNewest(init, k, op);
    }
  }

  lemma {:induction false} ApplyAllAt(t: Table, ops: seq<Op>, k: Str)
    requires Ascending(ops)
    ensures Look(ApplyAll(t, ops), k) ==
            match LastOf(ops, k) case None => Look(t, k) case Some(op) => if Wins(t, op) then Some(op.entry) else Look(t, k)
  {
    if ops != [] {
      var init, last := ops[..|ops| - 1], ops[|ops| - 1];
      ApplyAllAt(t, init, k);
      if last.key == k && LastOf(init, k).Some? {
        var i :| 0 <= i < |init| && init[i] == LastOf(init, k).value;
        assert ops[i].key == ops[|ops| - 1].key;
      }
    }
  }

  lemma LastOfAppend(ops: seq<Op>, op: Op, k: Str)
    ensures LastOf(ops + [op], k) == if op.key == k then Some(op) else LastOf(ops, k)
  {
    assert (ops + [op])[..|ops|] == ops;
  }

  lemma {:induction false} LastOfConcat(xs: seq<Op>, ys: seq<Op>, k: Str)
    ensures LastOf(xs + ys, k) == if LastOf(ys, k).Some? then LastOf(ys, k) else LastOf(xs, k)
  {
    if ys == [] {
      assert xs + ys == xs;
    } else {
      LastOfConcat(xs, ys[..|ys| - 1], k);
      assert (xs + ys)[..|xs + ys| - 1] == xs + ys[..|ys| - 1];
    }
  }

  lemma AcceptedAppend(t: Table, ops: seq<Op>, op: Op)
    ensures Accepted(t, ops + [op]) == if Wins(t, op) then Accepted(t, ops) + [op] else Accepted(t, ops)
  {
    hide Wins;
    assert (ops + [op])[..|ops|] == ops;
  }

  lemma NoneAccepted(t: Table, k: Str)
    ensures Accepted(t, []) == [] && LastOf([], k) == None
  {
  }

  lemma {:induction false} AcceptedLast(t: Table, ops: seq<Op>, k: Str)
    requires Ascending(ops)
    ensures LastOf(Accepted(t, ops), k) ==
            match LastOf(ops, k) case None => None case Some(op) => if Wins(t, op) then Some(op) else None
  {
    hide LastOf, Accepted;
    if ops == [] {
      NoneAccepted(t, k);
    } else {
      var init, last := ops[..|ops| - 1], ops[|ops| - 1];
      assert ops == init + [last];
      AcceptedLast(t, init, k);
      AcceptedAppend(t, init, last);
      LastOfAppend(Accepted(t, init), last, k);
      LastOfAppend(init, last, k);
      if last.key == k && LastOf(init, k).Some? {
        LastNewest(ops, k, LastOf(init, k).value);
      }
    }
  }

  /**
   No key ends in a delete that follows another accepted delete of the key: the last
   tombstone would get the stamp of the first.
   */
  ghost predicate TombstonesKept(t: Table, ops: seq<Op>) {
    forall i, j | 0 <= i < j < |ops| && Deletes(ops[i], ops[j].key) && Deletes(ops[j], ops[j].key) && Wins(t, ops[i]) ::
      exists l :: j < l < |ops| && ops[l].key == ops[j].key && ops[l].entry.body.Live?
  }

  predicate Deletes(op: Op, k: Str) { op.key == k && op.entry.body.Gone? }

  lemma {:induction false} FirstDeleteOldest(ops: seq<Op>, op: Op)
    requires Ascending(ops) && op in ops && op.entry.body.Gone?
    ensures FirstDelete(ops, op.key) <= op.entry.stamp
  {
    assert ops == [ops[0]] + ops[1..];
    if Deletes(ops[0], op.key) {
      var j :| 0 <= j < |ops| && ops[j] == op;
      assert j > 0 ==> ops[0].key == ops[j].key;
    } else {
      FirstDeleteOldest(ops[1..], op);
    }
  }

  lemma {:induction false} AcceptedAscending(t: Table, ops: seq<Op>)
    requires Ascending(ops)
    ensures Ascending(Accepted(t, ops))
  {
    if ops != [] {
      var init, last := ops[..|ops| - 1], ops[|ops| - 1];
      AcceptedAscending(t, init);
      var before := Accepted(t, init);
      forall i | 0 <= i < |before| && before[i].key == last.key ensures before[i].entry.stamp < last.entry.stamp {
        AcceptedOps(t, init, before[i]);
        var j :| 0 <= j < |init| && init[j] == before[i];
        assert ops[j].key == ops[|ops| - 1].key;
      }
    }
  }

  /** What a batch does to one key, against what the ops do one at a time. */
  lemma BatchAt(t: Table, ops: seq<Op>, k: Str)
    requires Ascending(ops)
    ensures match LastOf(ops, k)
            case None => Look(ApplyBatch(t, ops), k) == Look(ApplyAll(t, ops), k) == Look(t, k)
            case Some(op) =>
              if !Wins(t, op) then Look(ApplyBatch(t, ops), k) == Look(ApplyAll(t, ops), k) == Look(t, k)
              else Look(ApplyBatch(t, ops), k) == Some(Installed(Accepted(t, ops), op)) && Look(ApplyAll(t, ops), k) == Some(op.entry)
  {
    hide Install, ApplyAll, Accepted, LastOf, Ascending, Installed;
    InstallAt(t, Accepted(t, ops), Accepted(t, ops), k);
    ApplyAllAt(t, ops, k);
    AcceptedLast(t, ops, k);
  }

  lemma KeptAt(t: Table, ops: seq<Op>, k: Str)
    requires Ascending(ops) && TombstonesKept(t, ops)
    ensures Look(ApplyBatch(t, ops), k) == Look(ApplyAll(t, ops), k)
  {
    hide ApplyAll, Accepted, ApplyBatch, LastOf;
    BatchAt(t, ops, k);
    var last := LastOf(ops, k);
    if last.Some? && Wins(t, last.value) && last.value.entry.body.Gone? {
      var op := last.value;
      AcceptedOps(t, ops, op);
      var first := Op(k, Entry(FirstDelete(Accepted(t, ops), k), Gone));
      FirstDeleteFound(Accepted(t, ops), k, op.entry.stamp);
      AcceptedOps(t, ops, first);
      OnlyDelete(t, ops, first, op);
    }
  }

  /** In a kept batch, the last op of a key cannot be its second accepted delete. */
  lemma OnlyDelete(t: Table, ops: seq<Op>, first: Op, last: Op)
    requires Ascending(ops) && TombstonesKept(t, ops) && first in ops && Wins(t, first)
    requires LastOf(ops, first.key) == Some(last) && first.entry.body.Gone? && last.entry.body.Gone?
    ensures first == last
  {
    hide LastOf, Wins;
    var i :| 0 <= i < |ops| && ops[i] == first;
    var j :| 0 <= j < |ops| && ops[j] == last;
    LastNewest(ops, first.key, first);
    if i < j {
      var l :| j < l < |ops| && ops[l].key == ops[j].key && ops[l].entry.body.Live?;
      LastNewest(ops, first.key, ops[l]);
    }
    assert j < i ==> ops[j].key == ops[i].key;
  }

  lemma LostAt(t: Table, ops: seq<Op>, i: nat, j: nat)
    requires Ascending(ops) && i < j < |ops|
    requires Deletes(ops[i], ops[j].key) && Deletes(ops[j], ops[j].key) && Wins(t, ops[i])
    requires forall l | j < l < |ops| && ops[l].key == ops[j].key :: ops[l].entry.body.Gone?
    ensures Look(ApplyBatch(t, ops), ops[j].key) != Look(ApplyAll(t, ops), ops[j].key)
  {
    hide ApplyAll, Accepted, ApplyBatch, LastOf;
    var k := ops[j].key;
    BatchAt(t, ops, k);
    LastNewest(ops, k, ops[i]);
    LastNewest(ops, k, ops[j]);
    var last := LastOf(ops, k).value;
    var l :| 0 <= l < |ops| && ops[l] == last;
    assert l < j ==> ops[l].key == ops[j].key;
    AcceptedAscending(t, ops);
    AcceptedOps(t, ops, ops[i]);
    FirstDeleteOldest(Accepted(t, ops), ops[i]);
  }

  /** An ascending batch is its ops one at a time, exactly when no tombstone is lost. */
  lemma BatchExact(t: Table, ops: seq<Op>)
    requires Ascending(ops)
    ensures ApplyBatch(t, ops) == ApplyAll(t, ops) <==> TombstonesKept(t, ops)
  {
    hide ApplyAll, ApplyBatch, Wins;
    if TombstonesKept(t, ops) {
      SameTables(ApplyBatch(t, ops), ApplyAll(t, ops), t, ops);
    } else {
      var i, j :| 0 <= i < j < |ops| && Deletes(ops[i], ops[j].key) && Deletes(ops[j], ops[j].key) && Wins(t, ops[i])
        && forall l | j < l < |ops| && ops[l].key == ops[j].key :: ops[l].entry.body.Gone?;
      LostAt(t, ops, i, j);
    }
  }

  lemma SameTables(a: Table, b: Table, t: Table, ops: seq<Op>)
    requires Ascending(ops) && TombstonesKept(t, ops) && a == ApplyBatch(t, ops) && b == ApplyAll(t, ops)
    ensures a == b
  {
    hide ApplyAll, ApplyBatch, TombstonesKept, Ascending;
    forall k | k in a.Keys + b.Keys ensures Look(a, k) == Look(b, k) {
      KeptAt(t, ops, k);
    }
    assert forall k | k in a :: k in a.Keys + b.Keys;
    assert forall k | k in b :: k in a.Keys + b.Keys;
  }

  /** A batch with at most one op per key loses nothing. */
  lemma DistinctExact(t: Table, ops: seq<Op>)
    requires OncePerKey(ops)
    ensures ApplyBatch(t, ops) == ApplyAll(t, ops)
  {
    BatchExact(t, ops);
  }

  /** With two deletes of one key, the tombstone keeps the older stamp. */
  lemma TombstoneLost(k: Str)
    ensures ApplyBatch(map[], [Op(k, Entry(5, Gone)), Op(k, Entry(7, Gone))]) == map[k := Entry(5, Gone)]
    ensures ApplyAll(map[], [Op(k, Entry(5, Gone)), Op(k, Entry(7, Gone))]) == map[k := Entry(7, Gone)]
  {
    var a, b := Op(k, Entry(5, Gone)), Op(k, Entry(7, Gone));
    assert [a, b][..1] == [a] && [a][..0] == [];
    assert Accepted(map[], [a]) == [a] && Accepted(map[], [a, b]) == [a, b];
    assert FirstDelete([a, b], k) == 5;
    assert Install(map[], [a, b], [a]) == map[k := Entry(5, Gone)];
    assert ApplyAll(map[], [a]) == map[k := a.entry];
  }
}
