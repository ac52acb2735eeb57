/** Every run of the replication state machine: safety, quiescence and convergence. */
module ReplicationRuns {
  import opened Bytes
  import opened Values
  import opened Lww
  import opened LwwJoin
  import opened SyncCore
  import opened Replication

  /** Empty replicas, each with the wall clock it started at. */
  ghost predicate Init(s: System) {
    && (forall i | 0 <= i < |s.replicas| :: s.replicas[i] == Replica(map[], [], [], map[], s.replicas[i].clock))
    && s.tailers == [] && s.network == {} && s.written == {}
  }

  ghost predicate Legal(s: System, steps: seq<Step>)
    decreases |steps|, 0
  {
    steps == [] || (Legal(s, steps[..|steps| - 1]) && Enabled(Exec(s, steps[..|steps| - 1]), steps[|steps| - 1]))
  }

  ghost function Exec(s: System, steps: seq<Step>): System
    requires Legal(s, steps)
    decreases |steps|, 1
  {
    if steps == [] then s else Do(Exec(s, steps[..|steps| - 1]), steps[|steps| - 1])
  }

  // ---- The invariant is kept ----

  lemma ReplicaMore(r: Replica, written: set<Op>, more: set<Op>)
    requires ReplicaOk(r, written) && written <= more
    ensures ReplicaOk(r, more)
  {
    hide LastOf, EchoIngested, Ascending;
  }

  lemma EchoUsed(r: Replica, written: set<Op>, ops: seq<Op>)
    requires ReplicaOk(r, written)
    ensures ReplicaOk(r.(echo := EchoLeft(r.echo, ops)), written)
  {
    hide LastOf, EchoIngested, Ascending, EchoLeft;
    var w := r.(echo := EchoLeft(r.echo, ops));
    forall k | k in w.echo ensures EchoIngested(w, k) {
      EchoLeftOlder(r.echo, ops, k);
      EchoExtends(r, w, k);
    }
  }

  lemma InvWrite(s: System, i: nat, ops: seq<Op>, now: int)
    requires Inv(s) && Enabled(s, Write(i, ops, now))
    ensures Inv(Do(s, Write(i, ops, now)))
  {
    hide ReplicaOk, Ascending, Overwrite, ConsistentSet, OncePerKey;
    var s' := Do(s, Write(i, ops, now));
    forall j | 0 <= j < |s.replicas| ensures ReplicaOk(s'.replicas[j], s'.written) {
      if j == i {
        WrittenOk(s.replicas[i], ops, now, s.written, s'.written);
      } else {
        ReplicaMore(s.replicas[j], s.written, s'.written);
      }
    }
    forall c | 0 <= c < |s.tailers| ensures TailerOk(s', s'.tailers[c]) {
      assert TailerOk(s, s.tailers[c]);
    }
  }

  lemma InvOffer(s: System, i: nat, ops: seq<Op>)
    requires Inv(s) && Enabled(s, Offer(i, ops))
    ensures Inv(Do(s, Offer(i, ops)))
  {
    hide ReplicaOk, ConsistentSet;
    forall op | op in ops ensures op in s.written {
      KnownEntry(s, i, op.key);
    }
    var s' := Do(s, Offer(i, ops));
    forall c | 0 <= c < |s.tailers| ensures TailerOk(s', s'.tailers[c]) {
      assert TailerOk(s, s.tailers[c]);
    }
  }

  /** Every stored entry was written by some replica. */
  lemma KnownEntry(s: System, i: nat, k: Str)
    requires Inv(s) && i < |s.replicas| && k in s.replicas[i].table
    ensures Op(k, s.replicas[i].table[k]) in s.written
  {
    assert ReplicaOk(s.replicas[i], s.written);
    hide LastOf, EchoIngested, Ascending;
    ClockCovers(s.replicas[i], s.written, k);
  }

  lemma SentOk(r: Replica, written: set<Op>, pos: nat, localOnly: set<Str>)
    requires ReplicaOk(r, written) && pos <= |r.log|
    ensures var message := SyncCore.Shared(localOnly, Unechoed(r.echo, r.log[pos..]));
            && Ascending(message) && |message| <= |r.log| - pos
            && forall op | op in message :: op in written
  {
    hide EchoIngested, LastOf, EchoLeft, Unechoed, SyncCore.Shared;
    assert Ascending(r.log[pos..]);
    UnechoedSends(r.echo, localOnly, r.log[pos..]);
  }

  lemma InvSend(s: System, c: nat, localOnly: set<Str>)
    requires Inv(s) && Enabled(s, Send(c, localOnly))
    ensures Inv(Do(s, Send(c, localOnly)))
  {
    hide ReplicaOk, Ascending, EchoLeft, Unechoed, SyncCore.Shared, ConsistentSet;
    var t := s.tailers[c];
    var r := s.replicas[t.owner];
    EchoUsed(r, s.written, Pending(s, c));
    SentOk(r, s.written, t.pos, localOnly);
    var s' := Do(s, Send(c, localOnly));
    forall d | 0 <= d < |s.tailers| ensures TailerOk(s', s'.tailers[d]) {
      assert TailerOk(s, s.tailers[d]);
      assert TailerOk(s, t);
    }
    assert forall j | 0 <= j < |s.replicas| && j != t.owner :: s'.replicas[j] == s.replicas[j];
  }

  lemma InvDeliver(s: System, i: nat, ops: seq<Op>, now: int)
    requires Inv(s) && Enabled(s, Deliver(i, ops, now))
    ensures Inv(Do(s, Deliver(i, ops, now)))
  {
    hide ReplicaOk, Ascending, Accepted, ApplyBatch, EchoAll, ObserveAll, ConsistentSet, TombstonesKept;
    IngestedOk(s.replicas[i], ops, now, s.written);
    var s' := Do(s, Deliver(i, ops, now));
    assert forall j | 0 <= j < |s.replicas| && j != i :: s'.replicas[j] == s.replicas[j];
    forall c | 0 <= c < |s.tailers| ensures TailerOk(s', s'.tailers[c]) {
      assert TailerOk(s, s.tailers[c]);
    }
  }

  /** Every step keeps the invariant. */
  lemma InvStep(s: System, step: Step)
    requires Inv(s) && Enabled(s, step)
    ensures Inv(Do(s, step))
  {
    match step
    case Write(i, ops, now) => InvWrite(s, i, ops, now);
    case Open(i) =>
      hide ReplicaOk, Ascending, ConsistentSet;
      var s' := Do(s, step);
      forall c | 0 <= c < |s'.tailers| ensures TailerOk(s', s'.tailers[c]) {
        if c < |s.tailers| {
          assert TailerOk(s, s.tailers[c]);
        }
      }
    case Offer(i, ops) => InvOffer(s, i, ops);
    case Send(c, localOnly) => InvSend(s, c, localOnly);
    case Deliver(i, ops, now) => InvDeliver(s, i, ops, now);
  }

  lemma InvInit(s: System)
    requires Init(s)
    ensures Inv(s)
  {
  }

  lemma {:induction false} InvRun(s: System, steps: seq<Step>)
    requires Inv(s) && Legal(s, steps)
    ensures Inv(Exec(s, steps))
  {
    if steps != [] {
      hide Inv, Enabled, Do;
      InvRun(s, steps[..|steps| - 1]);
      InvStep(Exec(s, steps[..|steps| - 1]), steps[|steps| - 1]);
    }
  }

  // ---- Stamps never decrease ----

  /** The entry of a key is kept or replaced by a strictly newer one. */
  ghost predicate Newer(a: Table, b: Table) {
    forall k | k in a :: k in b && (b[k] == a[k] || a[k].stamp < b[k].stamp)
  }

  ghost predicate AllNewer(s: System, s': System) {
    |s.replicas| == |s'.replicas| && forall i | 0 <= i < |s.replicas| :: Newer(s.replicas[i].table, s'.replicas[i].table)
  }

  lemma WriteNewer(r: Replica, written: set<Op>, ops: seq<Op>, now: int)
    requires ReplicaOk(r, written) && r.clock < I64_MAX
    requires forall op | op in ops :: op.entry.stamp == NextStamp(r.clock, now)
    ensures Newer(r.table, Overwrite(r.table, ops))
  {
    hide ReplicaOk, Overwrite, LastOf;
    forall k | k in r.table ensures k in Overwrite(r.table, ops) && (Overwrite(r.table, ops)[k] == r.table[k] || r.table[k].stamp < Overwrite(r.table, ops)[k].stamp) {
      OverwriteAt(r.table, ops, k);
      ClockCovers(r, written, k);
    }
  }

  lemma IngestNewer(t: Table, ops: seq<Op>)
    ensures Newer(t, ApplyBatch(t, ops))
  {
    hide ApplyBatch;
    forall k | k in t ensures k in ApplyBatch(t, ops) && (ApplyBatch(t, ops)[k] == t[k] || t[k].stamp < ApplyBatch(t, ops)[k].stamp) {
      BatchNeverOlder(t, ops, k);
    }
  }

  lemma StepNewer(s: System, step: Step)
    requires Inv(s) && Enabled(s, step)
    ensures AllNewer(s, Do(s, step))
  {
    hide ReplicaOk, Ascending, ApplyBatch, Accepted, Overwrite, EchoAll, ObserveAll, EchoLeft, Unechoed, SyncCore.Shared, ConsistentSet, TombstonesKept;
    match step
    case Write(i, ops, now) => WriteNewer(s.replicas[i], s.written, ops, now);
    case Deliver(i, ops, now) => IngestNewer(s.replicas[i].table, ops);
    case _ =>
  }

  lemma NewerTransitive(a: System, b: System, c: System)
    requires AllNewer(a, b) && AllNewer(b, c)
    ensures AllNewer(a, c)
  {
    forall i | 0 <= i < |a.replicas| ensures Newer(a.replicas[i].table, c.replicas[i].table) {
      assert Newer(a.replicas[i].table, b.replicas[i].table) && Newer(b.replicas[i].table, c.replicas[i].table);
    }
  }

  /** Over any run, the stamp of a key never decreases on any replica. */
  lemma {:induction false} RunNewer(s: System, steps: seq<Step>)
    requires Inv(s) && Legal(s, steps)
    ensures AllNewer(s, Exec(s, steps))
  {
    hide Inv, Enabled, Do;
    if steps != [] {
      var init := steps[..|steps| - 1];
      RunNewer(s, init);
      InvRun(s, init);
      StepNewer(Exec(s, init), steps[|steps| - 1]);
      NewerTransitive(s, Exec(s, init), Exec(s, steps));
    }
  }

  // ---- Quiescence ----

  lemma {:induction false} LogDistinct(ops: seq<Op>)
    requires Ascending(ops)
    ensures |Elements(ops)| == |ops|
  {
    if ops != [] {
      var init, last := ops[..|ops| - 1], ops[|ops| - 1];
      LogDistinct(init);
      assert ops == init + [last];
      assert forall i | 0 <= i < |init| :: ops[i] != ops[|ops| - 1];
      assert Elements(ops) == Elements(init) + {last};
    }
  }

  /**
   In every run, a replica logs at most as many records as ops were written anywhere, and a
   connection sends at most that many: when writing stops, so do acceptances and sends.
   */
  lemma RunQuiesces(s: System, steps: seq<Step>, i: nat, c: nat)
    requires Init(s) && Legal(s, steps)
    ensures i < |Exec(s, steps).replicas| ==> |Exec(s, steps).replicas[i].log| <= |Exec(s, steps).written|
    ensures c < |Exec(s, steps).tailers| ==> Exec(s, steps).tailers[c].sent <= |Exec(s, steps).written|
  {
    InvInit(s);
    InvRun(s, steps);
    var e := Exec(s, steps);
    hide Exec, Legal, Init;
    if i < |e.replicas| {
      LogBounded(e, i);
    }
    if c < |e.tailers| {
      assert TailerOk(e, e.tailers[c]);
      LogBounded(e, e.tailers[c].owner);
    }
  }

  lemma LogBounded(s: System, i: nat)
    requires Inv(s) && i < |s.replicas|
    ensures |s.replicas[i].log| <= |s.written|
  {
    assert ReplicaOk(s.replicas[i], s.written);
    hide LastOf, EchoIngested;
    LogDistinct(s.replicas[i].log);
    SubsetSize(Elements(s.replicas[i].log), s.written);
  }

  /** Every run keeps each log strictly ascending per key and stores only what was written. */
  lemma RunSafe(s: System, steps: seq<Step>, i: nat)
    requires Init(s) && Legal(s, steps) && i < |Exec(s, steps).replicas|
    ensures Ascending(Exec(s, steps).replicas[i].log)
    ensures forall k | k in Exec(s, steps).replicas[i].table :: Op(k, Exec(s, steps).replicas[i].table[k]) in Exec(s, steps).written
  {
    InvInit(s);
    InvRun(s, steps);
    var e := Exec(s, steps);
    hide Exec, Legal, Init;
    assert ReplicaOk(e.replicas[i], e.written);
    forall k | k in e.replicas[i].table ensures Op(k, e.replicas[i].table[k]) in e.written {
      KnownEntry(e, i, k);
    }
  }

  // ---- Convergence ----

  /** Replica `i` wrote the op or had it delivered at some step. */
  ghost predicate Reached(steps: seq<Step>, i: nat, op: Op) {
    exists n :: 0 <= n < |steps| && Carries(steps[n], i, op)
  }

  ghost predicate Carries(step: Step, i: nat, op: Op) {
    match step
    case Write(j, ops, _) => i == j && op in ops
    case Deliver(j, ops, _) => i == j && op in ops
    case _ => false
  }

  predicate Holds(t: Table, op: Op) { op.key in t && op.entry.stamp <= t[op.key].stamp }

  lemma CarriedHolds(s: System, step: Step, i: nat, op: Op)
    requires Inv(s) && Enabled(s, step) && Carries(step, i, op)
    ensures i < |Do(s, step).replicas| && Holds(Do(s, step).replicas[i].table, op)
  {
    hide ReplicaOk, ApplyBatch, Accepted, Overwrite, EchoAll, ObserveAll, ConsistentSet, ApplyAll, LastOf;
    match step
    case Write(j, ops, now) =>
      OverwriteAt(s.replicas[i].table, ops, op.key);
    case Deliver(j, ops, now) =>
      var t := s.replicas[i].table;
      KeptAt(t, ops, op.key);
      ApplyAllAt(t, ops, op.key);
      LastNewest(ops, op.key, op);
  }

  lemma {:induction false} ReachedHolds(s: System, steps: seq<Step>, i: nat, op: Op)
    requires Inv(s) && Legal(s, steps) && Reached(steps, i, op)
    ensures i < |Exec(s, steps).replicas| && Holds(Exec(s, steps).replicas[i].table, op)
  {
    hide Inv, Enabled, Do, Carries;
    var init, last := steps[..|steps| - 1], steps[|steps| - 1];
    var n :| 0 <= n < |steps| && Carries(steps[n], i, op);
    InvRun(s, init);
    if n < |steps| - 1 {
      assert Carries(init[n], i, op);
      ReachedHolds(s, init, i, op);
      StepNewer(Exec(s, init), last);
      assert Newer(Exec(s, init).replicas[i].table, Exec(s, steps).replicas[i].table);
    } else {
      CarriedHolds(Exec(s, init), last, i, op);
    }
  }

  /** What a step leaves at a key was there before, or the step carried it. */
  lemma StepEntry(s: System, step: Step, i: nat, k: Str)
    requires Enabled(s, step) && i < |Do(s, step).replicas| && k in Do(s, step).replicas[i].table
    ensures i < |s.replicas|
    ensures var e := Do(s, step).replicas[i].table[k]; Look(s.replicas[i].table, k) == Some(e) || Carries(step, i, Op(k, e))
  {
    hide ApplyBatch, Accepted, Overwrite, EchoAll, ObserveAll, EchoLeft, Unechoed, SyncCore.Shared, ConsistentSet, Sound, LastOf;
    match step
    case Write(j, ops, now) => OverwriteAt(s.replicas[j].table, ops, k);
    case Deliver(j, ops, now) =>
      if i == j {
        BatchNeverOlder(s.replicas[j].table, ops, k);
      }
    case _ =>
  }

  /** Whatever a replica holds has reached it. */
  lemma {:induction false} EntryReached(s: System, steps: seq<Step>, i: nat, k: Str)
    requires Init(s) && Legal(s, steps) && i < |Exec(s, steps).replicas| && k in Exec(s, steps).replicas[i].table
    ensures Reached(steps, i, Op(k, Exec(s, steps).replicas[i].table[k]))
  {
    hide Enabled, Do, Carries;
    if steps != [] {
      var init, last := steps[..|steps| - 1], steps[|steps| - 1];
      var op := Op(k, Exec(s, steps).replicas[i].table[k]);
      StepEntry(Exec(s, init), last, i, k);
      if Carries(last, i, op) {
        assert Carries(steps[|steps| - 1], i, op);
      } else {
        EntryReached(s, init, i, k);
        var n :| 0 <= n < |init| && Carries(init[n], i, op);
        assert Carries(steps[n], i, op);
      }
    }
  }

  /** No written op of the key is newer. */
  ghost predicate Latest(written: set<Op>, op: Op) {
    op in written && forall x | x in written && x.key == op.key :: x.entry.stamp <= op.entry.stamp
  }

  lemma {:induction false} LatestExists(written: set<Op>, op: Op) returns (top: Op)
    requires op in written
    ensures Latest(written, top) && top.key == op.key
    decreases |set x | x in written && x.key == op.key && x.entry.stamp > op.entry.stamp|
  {
    var newer := set x | x in written && x.key == op.key && x.entry.stamp > op.entry.stamp;
    assert forall x | x in written && x.key == op.key :: x.entry.stamp <= op.entry.stamp || x in newer;
    if newer == {} {
      return op;
    }
    var y :| y in newer;
    var left := set x | x in written && x.key == y.key && x.entry.stamp > y.entry.stamp;
    SubsetSize(left, newer - {y});
    top := LatestExists(written, y);
  }

  /** The replica holds the latest write of every key. */
  ghost predicate UpToDate(t: Table, written: set<Op>) {
    forall op | Latest(written, op) :: Look(t, op.key) == Some(op.entry)
  }

  /** A replica is up to date exactly when the latest write of every key has reached it. */
  lemma UpToDateIff(s: System, steps: seq<Step>, i: nat)
    requires Init(s) && Legal(s, steps) && i < |Exec(s, steps).replicas|
    ensures UpToDate(Exec(s, steps).replicas[i].table, Exec(s, steps).written) <==>
            forall op | Latest(Exec(s, steps).written, op) :: Reached(steps, i, op)
  {
    InvInit(s);
    InvRun(s, steps);
    var e := Exec(s, steps);
    var t := e.replicas[i].table;
    hide Reached, Latest, ReplicaOk, Exec, Legal, Init;
    forall op | Latest(e.written, op) ensures Look(t, op.key) == Some(op.entry) <==> Reached(steps, i, op) {
      if Look(t, op.key) == Some(op.entry) {
        EntryReached(s, steps, i, op.key);
      }
      if Reached(steps, i, op) {
        ReachedHolds(s, steps, i, op);
        HeldLatest(e, i, op);
      }
    }
  }

  lemma HeldLatest(s: System, i: nat, op: Op)
    requires Inv(s) && i < |s.replicas| && Latest(s.written, op) && Holds(s.replicas[i].table, op)
    ensures s.replicas[i].table[op.key] == op.entry
  {
    hide ReplicaOk;
    KnownEntry(s, i, op.key);
    assert Op(op.key, s.replicas[i].table[op.key]) == op;
  }

  /** Replicas that are up to date are equal. */
  lemma UpToDateEqual(s: System, i: nat, j: nat)
    requires Inv(s) && i < |s.replicas| && j < |s.replicas|
    requires UpToDate(s.replicas[i].table, s.written) && UpToDate(s.replicas[j].table, s.written)
    ensures s.replicas[i].table == s.replicas[j].table
  {
    var a, b := s.replicas[i].table, s.replicas[j].table;
    hide ReplicaOk, Latest;
    forall k | k in a.Keys + b.Keys ensures Look(a, k) == Look(b, k) {
      var n := if k in a then i else j;
      KnownEntry(s, n, k);
      var top := LatestExists(s.written, Op(k, s.replicas[n].table[k]));
    }
    SameLooks(a, b, a.Keys + b.Keys);
  }

  /**
   Two replicas that the latest write of every key has reached, by whatever route, in whatever
   order and however often, agree; superseded and lost writes do not matter.
   */
  lemma RunConverges(s: System, steps: seq<Step>, i: nat, j: nat)
    requires Init(s) && Legal(s, steps) && i < |Exec(s, steps).replicas| && j < |Exec(s, steps).replicas|
    requires forall op | Latest(Exec(s, steps).written, op) :: Reached(steps, i, op) && Reached(steps, j, op)
    ensures Exec(s, steps).replicas[i].table == Exec(s, steps).replicas[j].table
  {
    hide Inv, Reached, Latest, UpToDate;
    UpToDateIff(s, steps, i);
    UpToDateIff(s, steps, j);
    InvInit(s);
    InvRun(s, steps);
    UpToDateEqual(Exec(s, steps), i, j);
  }

  // ---- Without `Sound` ----

  function Delete(k: Str, stamp: int): Op { Op(k, Entry(stamp, Gone)) }

  /** Two replicas of which the first has logged the ops. */
  function Pair(table: Table, log: seq<Op>, clock: int): System {
    System([Replica(table, log, Flags(|log|, true), map[], clock), Replica(map[], [], [], map[], 0)], [], {}, Elements(log))
  }

  lemma OneStep(s: System, steps: seq<Step>, step: Step)
    requires Legal(s, steps) && Enabled(Exec(s, steps), step)
    ensures Legal(s, steps + [step]) && Exec(s, steps + [step]) == Do(Exec(s, steps), step)
  {
    assert (steps + [step])[..|steps|] == steps;
  }

  lemma WriteOne(table: Table, log: seq<Op>, clock: int, op: Op)
    requires clock < op.entry.stamp && clock < I64_MAX && ConsistentSet(Elements(log) + {op})
    ensures var step, s := Write(0, [op], op.entry.stamp), Pair(table, log, clock);
            Enabled(s, step) && Do(s, step) == Pair(table[op.key := op.entry], log + [op], op.entry.stamp)
  {
    hide ConsistentSet;
    assert [op][..0] == [] && Flags(|log|, true) + Flags(1, true) == Flags(|log + [op]|, true);
    assert Elements([op]) == {op} && Elements(log + [op]) == Elements(log) + {op};
    assert Overwrite(table, [op]) == table[op.key := op.entry];
    var s, t := Pair(table, log, clock), Pair(table[op.key := op.entry], log + [op], op.entry.stamp);
    assert s.replicas[0 := t.replicas[0]] == t.replicas;
  }

  /** A new connection sends the whole log. */
  lemma TailAll(table: Table, log: seq<Op>, clock: int)
    requires log != []
    ensures var s := Pair(table, log, clock);
            && Enabled(s, Open(0)) && Enabled(Do(s, Open(0)), Send(0, {}))
            && var e := Do(Do(s, Open(0)), Send(0, {}));
            && e.network == {log} && e.written == s.written && |e.replicas| == 2
            && e.replicas[0].table == table && e.replicas[1] == s.replicas[1]
  {
    hide Unechoed, EchoLeft, SyncCore.Shared, Flags, Elements;
    assert Pending(Do(Pair(table, log, clock), Open(0)), 0) == log;
    AllSent(log);
  }

  /**
   A local write that is pending for two connections of a listener: the first sends it, and
   the second, which shares the offset, has nothing to send.
   */
  lemma SharedLoses(k: Str) returns (steps: seq<Step>)
    ensures var s, op := Pair(map[], [], 0), Delete(k, 5);
            && Init(s) && Legal(s, steps)
            && var e := Exec(s, steps);
            && Enabled(e, Send(0, {})) && Pending(e, 0) == [op] && Message(e, 0, {}) == [op] && |e.replicas| == 2 && e.replicas[0].local == [true]
            && var sent := Do(e, Send(0, {}));
            && Enabled(sent, Send(0, {})) && Message(sent, 0, {}) == []
  {
    var s, op := Pair(map[], [], 0), Delete(k, 5);
    assert Init(s);
    hide ConsistentSet, Elements, Pair, Do, Enabled, Pending, Message, Legal, Exec, Init;
    DeletesDiffer(k);
    NoSteps(s);
    WriteOne(map[], [], 0, op);
    assert [] + [op] == [op];
    OneStep(s, [], Write(0, [op], 5));
    steps := [] + [Write(0, [op], 5)];
    TailShared(map[k := op.entry], op, 5);
    OneStep(s, steps, Open(0));
    steps := steps + [Open(0)];
  }

  /** Of two connections that share an offset the first sends the log and the second nothing. */
  lemma TailShared(table: Table, op: Op, clock: int)
    ensures var s := Pair(table, [op], clock);
            && Enabled(s, Open(0))
            && var e := Do(s, Open(0));
            && Enabled(e, Send(0, {})) && Pending(e, 0) == [op] && Message(e, 0, {}) == [op] && |e.replicas| == 2 && e.replicas[0].local == [true]
            && var sent := Do(e, Send(0, {}));
            && Enabled(sent, Send(0, {})) && Message(sent, 0, {}) == []
  {
    hide Unechoed, EchoLeft, SyncCore.Shared, Elements;
    var e := Do(Pair(table, [op], clock), Open(0));
    assert Pending(e, 0) == [op] && Flags(1, true) == [true];
    AllSent([op]);
    hide Pair, Do;
    SharedMisses(e, 0, 0, {}, {});
  }

  /** Two deletes of one key on the first of two replicas. */
  lemma TwoDeletes(k: Str) returns (steps: seq<Step>)
    ensures Legal(Pair(map[], [], 0), steps)
    ensures Exec(Pair(map[], [], 0), steps) == Pair(map[k := Entry(7, Gone)], [Delete(k, 5), Delete(k, 7)], 7)
  {
    hide ConsistentSet, Elements, Pair, Do, Enabled, Legal, Exec;
    var s, a, b := Pair(map[], [], 0), Delete(k, 5), Delete(k, 7);
    DeletesDiffer(k);
    assert map[k := a.entry][k := b.entry] == map[k := b.entry];
    assert [] + [a] == [a] && [a] + [b] == [a, b];
    steps := [];
    NoSteps(s);
    WriteOne(map[], [], 0, a);
    OneStep(s, steps, Write(0, [a], 5));
    steps := steps + [Write(0, [a], 5)];
    WriteOne(map[k := a.entry], [a], 5, b);
    OneStep(s, steps, Write(0, [b], 7));
    steps := steps + [Write(0, [b], 7)];
  }

  lemma DeletesDiffer(k: Str)
    ensures ConsistentSet(Elements([]) + {Delete(k, 5)}) && ConsistentSet(Elements([Delete(k, 5)]) + {Delete(k, 7)})
  {
  }

  lemma NoSteps(s: System)
    ensures Legal(s, []) && Exec(s, []) == s
  {
  }

  /**
   A tail of two deletes of a key is not sound: ingested as it is, everything written has
   reached both replicas and they differ.
   */
  lemma UnsoundDiverges(k: Str) returns (steps: seq<Step>)
    ensures var s, ops := Pair(map[], [], 0), [Delete(k, 5), Delete(k, 7)];
            && Init(s) && Legal(s, steps)
            && var e := Exec(s, steps);
            && ops in e.network && e.written == Elements(ops) && |e.replicas| == 2
            && e.replicas[0].table == map[k := Entry(7, Gone)]
            && Ingested(e.replicas[1], ops, 9).table == map[k := Entry(5, Gone)]
  {
    var s, ops := Pair(map[], [], 0), [Delete(k, 5), Delete(k, 7)];
    assert Init(s);
    TombstoneLost(k);
    TailAll(map[k := Entry(7, Gone)], ops, 7);
    hide Legal, Exec, Do, Enabled, ApplyBatch, ApplyAll, Accepted, EchoAll, ObserveAll, Init, Elements;
    steps := TwoDeletes(k);
    OneStep(s, steps, Open(0));
    steps := steps + [Open(0)];
    OneStep(s, steps, Send(0, {}));
    steps := steps + [Send(0, {})];
  }

  lemma {:induction false} AllSent(ops: seq<Op>)
    ensures SyncCore.Shared({}, Unechoed(map[], ops)) == ops && EchoLeft(map[], ops) == map[]
  {
    if ops != [] {
      AllSent(ops[..|ops| - 1]);
      assert ops == ops[..|ops| - 1] + [ops[|ops| - 1]];
      TailStep(map[], {}, ops[..|ops| - 1], ops[|ops| - 1]);
    }
  }
}
