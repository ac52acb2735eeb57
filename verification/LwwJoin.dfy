/**
 Replication as a join: what a batch, a set of batches or a full snapshot exchange
 leaves in the tables (`sync_core.rs`, `socket_sync.rs`).
 */
module LwwJoin {
  import opened Bytes
  import opened Values
  import opened Lww

  /** The newest entry per key; the left one on equal stamps. */
  function Join(a: Table, b: Table): Table {
    map k | k in a.Keys + b.Keys ::
      if k !in b then a[k] else if k !in a || a[k].stamp < b[k].stamp then b[k] else a[k]
  }

  /** For one key, equal stamps mean equal entries. */
  predicate Consistent(a: Table, b: Table) {
    forall k | k in a && k in b && a[k].stamp == b[k].stamp :: a[k] == b[k]
  }

  /** The ops carry exactly the entries of the table, each key once, in any order. */
  predicate IsSnapshot(t: Table, ops: seq<Op>) {
    && OncePerKey(ops)
    && (forall op | op in ops :: op.key in t && t[op.key] == op.entry)
    && (forall k | k in t :: Op(k, t[k]) in ops)
  }

  lemma SnapshotAt(t: Table, ops: seq<Op>, k: Str)
    requires IsSnapshot(t, ops)
    ensures LastOf(ops, k) == match Look(t, k) case None => None case Some(e) => Some(Op(k, e))
  {
  }

  /** A batch with one op per key is the join with the table it carries. */
  lemma BatchIsJoin(t: Table, u: Table, ops: seq<Op>)
    requires IsSnapshot(u, ops)
    ensures ApplyBatch(t, ops) == Join(t, u)
  {
    hide LastOf;
    DistinctExact(t, ops);
    var r := ApplyAll(t, ops);
    hide ApplyAll, ApplyBatch, Accepted, Install;
    forall k | k in r.Keys + t.Keys + u.Keys ensures Look(r, k) == Look(Join(t, u), k) {
      SnapshotAt(u, ops, k);
      ApplyAllAt(t, ops, k);
    }
    SameLooks(r, Join(t, u), r.Keys + t.Keys + u.Keys);
  }

  lemma SameLooks(a: Table, b: Table, keys: set<Str>)
    requires a.Keys <= keys && b.Keys <= keys && forall k | k in keys :: Look(a, k) == Look(b, k)
    ensures a == b
  {
    assert forall k | k in a :: k in keys;
    assert forall k | k in b :: k in keys;
  }

  lemma JoinCommutes(a: Table, b: Table)
    requires Consistent(a, b)
    ensures Join(a, b) == Join(b, a)
  {
  }

  lemma JoinAssociates(a: Table, b: Table, c: Table)
    ensures Join(Join(a, b), c) == Join(a, Join(b, c))
  {
  }

  /** Both sides of a snapshot exchange end with the join. */
  lemma ExchangeConverges(a: Table, b: Table, fromA: seq<Op>, fromB: seq<Op>)
    requires Consistent(a, b) && IsSnapshot(a, fromA) && IsSnapshot(b, fromB)
    ensures ApplyBatch(a, fromB) == ApplyBatch(b, fromA) == Join(a, b)
  {
    BatchIsJoin(a, b, fromB);
    BatchIsJoin(b, a, fromA);
    JoinCommutes(a, b);
  }

  /** A snapshot of an equal table is refused op by op. */
  lemma {:induction false} NothingNew(t: Table, ops: seq<Op>)
    requires forall op | op in ops :: op.key in t && t[op.key] == op.entry
    ensures Accepted(t, ops) == []
  {
    if ops != [] {
      assert ops[|ops| - 1] in ops;
      NothingNew(t, ops[..|ops| - 1]);
    }
  }

  /** A second exchange accepts nothing on either side. */
  lemma SecondExchangeIdle(a: Table, b: Table, fromA: seq<Op>, fromB: seq<Op>, againA: seq<Op>, againB: seq<Op>)
    requires Consistent(a, b) && IsSnapshot(a, fromA) && IsSnapshot(b, fromB)
    requires IsSnapshot(ApplyBatch(a, fromB), againA) && IsSnapshot(ApplyBatch(b, fromA), againB)
    ensures Accepted(ApplyBatch(a, fromB), againB) == [] && Accepted(ApplyBatch(b, fromA), againA) == []
  {
    hide ApplyBatch, Accepted;
    ExchangeConverges(a, b, fromA, fromB);
    NothingNew(ApplyBatch(a, fromB), againB);
    NothingNew(ApplyBatch(b, fromA), againA);
  }

  // ---- Any order, any repetition ----

  predicate ConsistentOps(ops: seq<Op>) {
    forall x, y | x in ops && y in ops && x.key == y.key && x.entry.stamp == y.entry.stamp :: x == y
  }

  /** What the ops leave at a key: the old entry, or a strictly newer op that no op exceeds. */
  ghost predicate Newest(t: Table, ops: seq<Op>, k: Str, r: Option<Entry>) {
    && (r.None? ==> k !in t && forall op | op in ops :: op.key != k)
    && (r.Some? ==> (Op(k, r.value) in ops && Wins(t, Op(k, r.value))) || Look(t, k) == r)
    && (r.Some? ==> forall op | op in ops && op.key == k :: op.entry.stamp <= r.value.stamp)
  }

  lemma {:induction false} ApplyAllNewest(t: Table, ops: seq<Op>, k: Str)
    ensures Newest(t, ops, k, Look(ApplyAll(t, ops), k))
  {
    if ops != [] {
      ApplyAllNewest(t, ops[..|ops| - 1], k);
      assert ops == ops[..|ops| - 1] + [ops[|ops| - 1]];
    }
  }

  lemma NewestUnique(t: Table, xs: seq<Op>, ys: seq<Op>, k: Str, r: Option<Entry>, s: Option<Entry>)
    requires Newest(t, xs, k, r) && Newest(t, ys, k, s)
    requires (forall op :: op in xs <==> op in ys) && ConsistentOps(xs)
    ensures r == s
  {
    if r.Some? && s.Some? {
      var x, y := Op(k, r.value), Op(k, s.value);
      assert x in xs && y in ys ==> x in ys && y in xs && x.entry.stamp == y.entry.stamp;
    }
  }

  /** The same ops in another order, or repeated, leave the same table. */
  lemma OrderIrrelevant(t: Table, xs: seq<Op>, ys: seq<Op>)
    requires (forall op :: op in xs <==> op in ys) && ConsistentOps(xs)
    ensures ApplyAll(t, xs) == ApplyAll(t, ys)
  {
    var a, b := ApplyAll(t, xs), ApplyAll(t, ys);
    hide Newest, ConsistentOps;
    forall k | k in a.Keys + b.Keys ensures Look(a, k) == Look(b, k) {
      ApplyAllNewest(t, xs, k);
      ApplyAllNewest(t, ys, k);
      NewestUnique(t, xs, ys, k, Look(a, k), Look(b, k));
    }
    SameLooks(a, b, a.Keys + b.Keys);
  }

  function ApplyBatches(t: Table, batches: seq<seq<Op>>): Table {
    if batches == [] then t else ApplyBatch(ApplyBatches(t, batches[..|batches| - 1]), batches[|batches| - 1])
  }

  function Concat(batches: seq<seq<Op>>): seq<Op> {
    if batches == [] then [] else Concat(batches[..|batches| - 1]) + batches[|batches| - 1]
  }

  lemma {:induction false} ApplyAllAppend(t: Table, xs: seq<Op>, ys: seq<Op>)
    ensures ApplyAll(ApplyAll(t, xs), ys) == ApplyAll(t, xs + ys)
  {
    if ys == [] {
      assert xs + ys == xs;
    } else {
      ApplyAllAppend(t, xs, ys[..|ys| - 1]);
      assert (xs + ys)[..|xs + ys| - 1] == xs + ys[..|ys| - 1];
    }
  }

  lemma {:induction false} BatchesFlat(t: Table, batches: seq<seq<Op>>)
    requires forall b | b in batches :: OncePerKey(b)
    ensures ApplyBatches(t, batches) == ApplyAll(t, Concat(batches))
  {
    if batches != [] {
      var init, last := batches[..|batches| - 1], batches[|batches| - 1];
      BatchesFlat(t, init);
      assert last in batches;
      hide ApplyAll, ApplyBatch;
      DistinctExact(ApplyBatches(t, init), last);
      ApplyAllAppend(t, Concat(init), last);
    }
  }

  lemma {:induction false} ConcatOps(batches: seq<seq<Op>>, op: Op)
    ensures op in Concat(batches) <==> exists b :: b in batches && op in b
  {
    if batches != [] {
      var init, last := batches[..|batches| - 1], batches[|batches| - 1];
      assert batches == init + [last];
      ConcatOps(init, op);
      if op in last {
        assert last in batches;
      }
    }
  }

  /** Replicas that start equal and receive the same batches end equal, whatever order and repetition. */
  lemma SameBatchesSameTable(t: Table, xs: seq<seq<Op>>, ys: seq<seq<Op>>)
    requires forall b | b in xs :: OncePerKey(b)
    requires forall b :: b in xs <==> b in ys
    requires ConsistentOps(Concat(xs))
    ensures ApplyBatches(t, xs) == ApplyBatches(t, ys)
  {
    BatchesFlat(t, xs);
    BatchesFlat(t, ys);
    hide Concat, ApplyBatches, ApplyAll;
    forall op ensures op in Concat(xs) <==> op in Concat(ys) {
      ConcatOps(xs, op);
      ConcatOps(ys, op);
    }
    OrderIrrelevant(t, Concat(xs), Concat(ys));
  }
}
