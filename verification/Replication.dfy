/**
 A mesh of replicas of one collection as a state machine (`sync_core.rs`,
 `socket_sync.rs`, the write path of `engine.rs`). The network keeps every message ever
 sent, and delivers any of them to any replica, in any order, any number of times or never.
 */
module Replication {
  import opened Bytes
  import opened Values
  import opened Lww
  import opened LwwJoin
  import opened SyncCore

  /** `local[i]` tells whether record `i` of the log was written here or ingested. */
  datatype Replica = Replica(table: Table, log: seq<Op>, local: seq<bool>, echo: Echo, clock: int)

  /**
   An offset of replica `owner`: how far the tails that share it have read, and how many ops
   they have sent. A dialled connection has its own, all accepted ones share one.
   */
  datatype Tailer = Tailer(owner: nat, pos: nat, sent: nat)

  datatype System = System(replicas: seq<Replica>, tailers: seq<Tailer>, network: set<seq<Op>>, written: set<Op>)

  datatype Step =
    | Write(i: nat, ops: seq<Op>, now: int)
    | Open(i: nat)
    | Offer(i: nat, ops: seq<Op>)
    | Send(c: nat, localOnly: set<Str>)
    | Deliver(i: nat, ops: seq<Op>, now: int)

  predicate ConsistentSet(written: set<Op>) {
    forall x, y | x in written && y in written && x.key == y.key && x.entry.stamp == y.entry.stamp :: x == y
  }

  function Elements(ops: seq<Op>): set<Op> { set op | op in ops }

  function Flags(n: nat, b: bool): seq<bool> { seq(n, _ => b) }

  // ---- What each step does ----

  function Written(r: Replica, ops: seq<Op>, now: int): Replica {
    Replica(Overwrite(r.table, ops), r.log + ops, r.local + Flags(|ops|, true), r.echo, NextStamp(r.clock, now))
  }

  function Ingested(r: Replica, ops: seq<Op>, now: int): Replica {
    var accepted := Accepted(r.table, ops);
    Replica(ApplyBatch(r.table, ops), r.log + accepted, r.local + Flags(|accepted|, false),
            EchoAll(r.echo, accepted), ObserveAll(r.clock, accepted, now))
  }

  function Pending(s: System, c: nat): seq<Op>
    requires c < |s.tailers| && s.tailers[c].owner < |s.replicas| && s.tailers[c].pos <= |s.replicas[s.tailers[c].owner].log|
  {
    s.replicas[s.tailers[c].owner].log[s.tailers[c].pos..]
  }

  function Message(s: System, c: nat, localOnly: set<Str>): seq<Op>
    requires c < |s.tailers| && s.tailers[c].owner < |s.replicas| && s.tailers[c].pos <= |s.replicas[s.tailers[c].owner].log|
  {
    SyncCore.Shared(localOnly, Unechoed(s.replicas[s.tailers[c].owner].echo, Pending(s, c)))
  }

  /** No tombstone of the batch is lost, and the clock can follow the stamps that win. */
  ghost predicate Sound(r: Replica, ops: seq<Op>, now: int) {
    && TombstonesKept(r.table, ops)
    && (forall op | op in ops && Wins(r.table, op) :: op.entry.stamp <= Max(r.clock, now + SKEW_CEILING))
  }

  /**
   When a step can happen. A local batch has one op per key, all with the next stamp of the
   clock; no other op of the key has that stamp. A delivered batch is `Sound`.
   */
  ghost predicate Enabled(s: System, step: Step) {
    match step
    case Write(i, ops, now) =>
      && i < |s.replicas| && s.replicas[i].clock < I64_MAX && OncePerKey(ops)
      && (forall op | op in ops :: op.entry.stamp == NextStamp(s.replicas[i].clock, now))
      && ConsistentSet(s.written + Elements(ops))
    case Open(i) => i < |s.replicas|
    case Offer(i, ops) => i < |s.replicas| && IsSnapshot(s.replicas[i].table, ops)
    case Send(c, _) => c < |s.tailers| && s.tailers[c].owner < |s.replicas| && s.tailers[c].pos <= |s.replicas[s.tailers[c].owner].log|
    case Deliver(i, ops, now) =>
      i < |s.replicas| && ops in s.network && Sound(s.replicas[i], ops, now)
  }

  ghost function Do(s: System, step: Step): System
    requires Enabled(s, step)
  {
    match step
    case Write(i, ops, now) =>
      s.(replicas := s.replicas[i := Written(s.replicas[i], ops, now)], written := s.written + Elements(ops))
    case Open(i) => s.(tailers := s.tailers + [Tailer(i, 0, 0)])
    case Offer(i, ops) => s.(network := s.network + {ops})
    case Send(c, localOnly) =>
      var t := s.tailers[c];
      var r := s.replicas[t.owner];
      var message := Message(s, c, localOnly);
      s.(replicas := s.replicas[t.owner := r.(echo := EchoLeft(r.echo, Pending(s, c)))],
         tailers := s.tailers[c := Tailer(t.owner, |r.log|, t.sent + |message|)],
         network := if message == [] then s.network else s.network + {message})
    case Deliver(i, ops, now) => s.(replicas := s.replicas[i := Ingested(s.replicas[i], ops, now)])
  }

  // ---- The invariant ----

  /** The table holds the last record of each key; the log ascends per key, is known and below the clock. */
  ghost predicate ReplicaOk(r: Replica, written: set<Op>) {
    && Ascending(r.log) && |r.local| == |r.log|
    && (forall k :: Look(r.table, k) == match LastOf(r.log, k) case None => None case Some(op) => Some(op.entry))
    && (forall op | op in r.log :: op in written && op.entry.stamp <= r.clock)
    && (forall k | k in r.echo :: EchoIngested(r, k))
  }

  /** An echo mark points to an ingested record. */
  ghost predicate EchoIngested(r: Replica, k: Str)
    requires |r.local| == |r.log| && k in r.echo
  {
    exists j :: 0 <= j < |r.log| && r.log[j].key == k && r.log[j].entry.stamp == r.echo[k] && !r.local[j]
  }

  ghost predicate Inv(s: System) {
    && ConsistentSet(s.written)
    && (forall i | 0 <= i < |s.replicas| :: ReplicaOk(s.replicas[i], s.written))
    && (forall c | 0 <= c < |s.tailers| :: TailerOk(s, s.tailers[c]))
    && (forall ops | ops in s.network :: Ascending(ops) && forall op | op in ops :: op in s.written)
  }

  ghost predicate TailerOk(s: System, t: Tailer) {
    t.owner < |s.replicas| && t.sent <= t.pos <= |s.replicas[t.owner].log|
  }

  // ---- Logs ----

  /** Ops that all win against the table of an ascending log extend it to one. */
  lemma ConcatAscending(r: Replica, written: set<Op>, ys: seq<Op>)
    requires ReplicaOk(r, written) && Ascending(ys) && forall op | op in ys :: Wins(r.table, op)
    ensures Ascending(r.log + ys)
  {
    hide LastOf, EchoIngested;
    var all := r.log + ys;
    forall i, j | 0 <= i < j < |all| && all[i].key == all[j].key ensures all[i].entry.stamp < all[j].entry.stamp {
      if i < |r.log| <= j {
        assert all[j] in ys;
        LastNewest(r.log, all[i].key, all[i]);
        assert Look(r.table, all[i].key).Some?;
      }
    }
  }

  /** The clock follows the stamps up to the ceiling, and no further. */
  lemma {:induction false} ObserveAllCovers(clock: int, ops: seq<Op>, now: int)
    ensures clock <= ObserveAll(clock, ops, now) <= Max(clock, now + SKEW_CEILING)
    ensures forall op | op in ops && op.entry.stamp <= Max(clock, now + SKEW_CEILING) :: op.entry.stamp <= ObserveAll(clock, ops, now)
  {
    if ops != [] {
      ObserveAllCovers(clock, ops[..|ops| - 1], now);
      assert ops == ops[..|ops| - 1] + [ops[|ops| - 1]];
    }
  }

  lemma {:induction false} EchoAllAt(echo: Echo, ops: seq<Op>, k: Str)
    ensures k in EchoAll(echo, ops) <==> k in echo || LastOf(ops, k).Some?
    ensures k in EchoAll(echo, ops) ==>
              EchoAll(echo, ops)[k] == if LastOf(ops, k).Some? then LastOf(ops, k).value.entry.stamp else echo[k]
  {
    if ops != [] {
      EchoAllAt(echo, ops[..|ops| - 1], k);
    }
  }

  lemma {:induction false} EchoLeftOlder(echo: Echo, ops: seq<Op>, k: Str)
    requires k in EchoLeft(echo, ops)
    ensures k in echo && EchoLeft(echo, ops)[k] == echo[k]
  {
    if ops != [] {
      EchoLeftOlder(echo, ops[..|ops| - 1], k);
    }
  }

  // ---- One replica, one step ----

  /** Every stamp a replica knows is at most its clock. */
  lemma ClockCovers(r: Replica, written: set<Op>, k: Str)
    requires ReplicaOk(r, written) && k in r.table
    ensures Op(k, r.table[k]) in r.log && r.table[k].stamp <= r.clock
  {
    assert Look(r.table, k).Some?;
  }

  lemma WrittenOk(r: Replica, ops: seq<Op>, now: int, written: set<Op>, more: set<Op>)
    requires ReplicaOk(r, written) && r.clock < I64_MAX && OncePerKey(ops)
    requires forall op | op in ops :: op.entry.stamp == NextStamp(r.clock, now)
    requires written <= more && forall op | op in ops :: op in more
    ensures ReplicaOk(Written(r, ops, now), more)
  {
    hide LastOf, Overwrite, EchoIngested;
    var w := Written(r, ops, now);
    forall op | op in ops ensures Wins(r.table, op) {
      if op.key in r.table {
        ClockCovers(r, written, op.key);
      }
    }
    ConcatAscending(r, written, ops);
    forall k ensures Look(w.table, k) == match LastOf(w.log, k) case None => None case Some(op) => Some(op.entry) {
      OverwriteAt(r.table, ops, k);
      LastOfConcat(r.log, ops, k);
    }
    forall k | k in w.echo ensures EchoIngested(w, k) {
      EchoExtends(r, w, k);
    }
  }

  lemma EchoExtends(r: Replica, w: Replica, k: Str)
    requires |r.local| == |r.log| && |w.local| == |w.log| && k in r.echo && k in w.echo && r.echo[k] == w.echo[k]
    requires EchoIngested(r, k) && r.log <= w.log && r.local <= w.local
    ensures EchoIngested(w, k)
  {
    var j :| 0 <= j < |r.log| && r.log[j].key == k && r.log[j].entry.stamp == r.echo[k] && !r.local[j];
    assert w.log[j] == r.log[j] && w.local[j] == r.local[j];
  }

  lemma IngestedTable(r: Replica, ops: seq<Op>, now: int, written: set<Op>, k: Str)
    requires ReplicaOk(r, written) && Ascending(ops) && TombstonesKept(r.table, ops)
    ensures Look(Ingested(r, ops, now).table, k) ==
            match LastOf(Ingested(r, ops, now).log, k) case None => None case Some(op) => Some(op.entry)
  {
    assert Look(r.table, k) == match LastOf(r.log, k) case None => None case Some(op) => Some(op.entry);
    hide LastOf, EchoIngested, Accepted, ApplyBatch, ApplyAll, EchoAll, ObserveAll, ReplicaOk;
    KeptAt(r.table, ops, k);
    ApplyAllAt(r.table, ops, k);
    AcceptedLast(r.table, ops, k);
    LastOfConcat(r.log, Accepted(r.table, ops), k);
  }

  lemma IngestedEcho(r: Replica, ops: seq<Op>, now: int, written: set<Op>, k: Str)
    requires ReplicaOk(r, written) && k in Ingested(r, ops, now).echo
    ensures |Ingested(r, ops, now).local| == |Ingested(r, ops, now).log| && EchoIngested(Ingested(r, ops, now), k)
  {
    hide LastOf, Accepted, ApplyBatch, EchoAll, ObserveAll;
    var w, accepted := Ingested(r, ops, now), Accepted(r.table, ops);
    EchoAllAt(r.echo, accepted, k);
    if LastOf(accepted, k).Some? {
      var j :| 0 <= j < |accepted| && accepted[j] == LastOf(accepted, k).value;
      assert w.log[|r.log| + j] == accepted[j] && !w.local[|r.log| + j];
    } else {
      EchoExtends(r, w, k);
    }
  }

  /** The log of a batch that is not sound is not the state of the table, or ahead of the clock. */
  lemma UnsoundBreaks(r: Replica, ops: seq<Op>, now: int, written: set<Op>)
    requires ReplicaOk(r, written) && Ascending(ops) && ReplicaOk(Ingested(r, ops, now), written)
    ensures Sound(r, ops, now)
  {
    var w, accepted := Ingested(r, ops, now), Accepted(r.table, ops);
    hide LastOf, EchoIngested, Accepted, ApplyBatch, ApplyAll, EchoAll, ObserveAll, TombstonesKept, Ascending;
    forall op | op in ops && Wins(r.table, op) ensures op.entry.stamp <= Max(r.clock, now + SKEW_CEILING) {
      AcceptedOps(r.table, ops, op);
      assert op in w.log;
      ObserveAllCovers(r.clock, accepted, now);
    }
    forall k ensures Look(w.table, k) == Look(ApplyAll(r.table, ops), k) {
      assert Look(r.table, k) == match LastOf(r.log, k) case None => None case Some(op) => Some(op.entry);
      assert Look(w.table, k) == match LastOf(w.log, k) case None => None case Some(op) => Some(op.entry);
      ApplyAllAt(r.table, ops, k);
      AcceptedLast(r.table, ops, k);
      LastOfConcat(r.log, accepted, k);
    }
    SameLooks(w.table, ApplyAll(r.table, ops), w.table.Keys + ApplyAll(r.table, ops).Keys);
    BatchExact(r.table, ops);
  }

  lemma SoundKeeps(r: Replica, ops: seq<Op>, now: int, written: set<Op>)
    requires ReplicaOk(r, written) && Ascending(ops) && Sound(r, ops, now) && forall op | op in ops :: op in written
    ensures ReplicaOk(Ingested(r, ops, now), written)
  {
    hide LastOf, EchoIngested, Accepted, ApplyBatch, EchoAll, ObserveAll, TombstonesKept;
    var w, accepted := Ingested(r, ops, now), Accepted(r.table, ops);
    forall op | op in accepted ensures op in ops && Wins(r.table, op) {
      AcceptedOps(r.table, ops, op);
    }
    AcceptedAscending(r.table, ops);
    ConcatAscending(r, written, accepted);
    ObserveAllCovers(r.clock, accepted, now);
    forall k ensures Look(w.table, k) == match LastOf(w.log, k) case None => None case Some(op) => Some(op.entry) {
      IngestedTable(r, ops, now, written, k);
    }
    forall k | k in w.echo ensures EchoIngested(w, k) {
      IngestedEcho(r, ops, now, written, k);
    }
  }

  /** Ingesting an ascending batch keeps a replica in order exactly when the batch is sound. */
  lemma IngestedOk(r: Replica, ops: seq<Op>, now: int, written: set<Op>)
    requires ReplicaOk(r, written) && Ascending(ops) && forall op | op in ops :: op in written
    ensures ReplicaOk(Ingested(r, ops, now), written) <==> Sound(r, ops, now)
  {
    hide ReplicaOk, Ascending, Ingested, Sound;
    if Sound(r, ops, now) {
      SoundKeeps(r, ops, now, written);
    } else if ReplicaOk(Ingested(r, ops, now), written) {
      UnsoundBreaks(r, ops, now, written);
    }
  }

  // ---- What a tail sends ----

  lemma AscendingAppend(sent: seq<Op>, ops: seq<Op>, op: Op)
    requires Ascending(ops + [op]) && Ascending(sent) && forall x | x in sent :: x in ops
    ensures Ascending(sent + [op])
  {
    forall i | 0 <= i < |sent| && sent[i].key == op.key ensures sent[i].entry.stamp < op.entry.stamp {
      assert sent[i] in sent;
      var j :| 0 <= j < |ops| && ops[j] == sent[i];
      assert (ops + [op])[j].key == (ops + [op])[|ops|].key;
    }
  }

  lemma UnechoedNone(echo: Echo, localOnly: set<Str>)
    ensures SyncCore.Shared(localOnly, Unechoed(echo, [])) == []
  {
  }

  lemma {:induction false} UnechoedSends(echo: Echo, localOnly: set<Str>, ops: seq<Op>)
    requires Ascending(ops)
    ensures Ascending(SyncCore.Shared(localOnly, Unechoed(echo, ops)))
    ensures forall op | op in SyncCore.Shared(localOnly, Unechoed(echo, ops)) :: op in ops
    ensures |SyncCore.Shared(localOnly, Unechoed(echo, ops))| <= |ops|
  {
    hide Unechoed, SyncCore.Shared, EchoLeft, Echoed;
    if ops == [] {
      UnechoedNone(echo, localOnly);
    } else {
      var init, last := ops[..|ops| - 1], ops[|ops| - 1];
      assert ops == init + [last];
      UnechoedSends(echo, localOnly, init);
      TailStep(echo, localOnly, init, last);
      hide Ascending;
      var sent := SyncCore.Shared(localOnly, Unechoed(echo, init));
      AscendingAppend(sent, init, last);
      assert sent + [] == sent;
    }
  }

  lemma {:induction false} UnmarkedPasses(echo: Echo, ops: seq<Op>, op: Op)
    requires op in ops && !Echoed(echo, op)
    ensures op in Unechoed(echo, ops)
  {
    var init, last := ops[..|ops| - 1], ops[|ops| - 1];
    assert ops == init + [last];
    if op in init {
      UnmarkedPasses(echo, init, op);
    } else if Echoed(EchoLeft(echo, init), op) {
      EchoLeftOlder(echo, init, op.key);
    }
  }

  lemma {:induction false} SharedIn(localOnly: set<Str>, ops: seq<Op>, op: Op)
    ensures op in SyncCore.Shared(localOnly, ops) <==> op in ops && op.key !in localOnly
  {
    if ops != [] {
      SharedIn(localOnly, ops[..|ops| - 1], op);
      assert ops == ops[..|ops| - 1] + [ops[|ops| - 1]];
    }
  }

  /** An op without an echo mark is sent, unless its key is local only. */
  lemma UnmarkedSent(echo: Echo, localOnly: set<Str>, ops: seq<Op>, op: Op)
    requires op in ops && !Echoed(echo, op) && op.key !in localOnly
    ensures op in SyncCore.Shared(localOnly, Unechoed(echo, ops))
  {
    UnmarkedPasses(echo, ops, op);
    SharedIn(localOnly, Unechoed(echo, ops), op);
  }

  lemma LocalUnmarked(r: Replica, written: set<Op>, j: nat)
    requires ReplicaOk(r, written) && j < |r.log| && r.local[j]
    ensures !Echoed(r.echo, r.log[j])
  {
    hide LastOf;
    assert r.log[j].key in r.echo ==> EchoIngested(r, r.log[j].key);
  }

  /** A send changes what another connection has to send exactly when they share the offset and there was something. */
  lemma SharedMisses(s: System, c: nat, d: nat, first: set<Str>, second: set<Str>)
    requires Enabled(s, Send(c, first)) && Enabled(s, Send(d, second))
    ensures var e := Do(s, Send(c, first));
            && Enabled(e, Send(d, second)) && (Pending(e, d) == Pending(s, d) <==> c != d || Pending(s, d) == [])
            && (c == d ==> Message(e, d, second) == [])
  {
    var e := Do(s, Send(c, first));
    hide Unechoed, SyncCore.Shared, EchoLeft;
    if c == d {
      assert Pending(e, d) == [];
      UnechoedNone(e.replicas[e.tailers[d].owner].echo, second);
    }
  }

  /** Echo suppression never drops a local write. */
  lemma LocalWriteSent(s: System, c: nat, localOnly: set<Str>, j: nat)
    requires Inv(s) && c < |s.tailers| && TailerOk(s, s.tailers[c])
    requires var r := s.replicas[s.tailers[c].owner];
             s.tailers[c].pos <= j < |r.log| && |r.local| == |r.log| && r.local[j] && r.log[j].key !in localOnly
    ensures s.replicas[s.tailers[c].owner].log[j] in Message(s, c, localOnly)
  {
    var t := s.tailers[c];
    var r := s.replicas[t.owner];
    hide ReplicaOk, SyncCore.Shared, Unechoed;
    LocalUnmarked(r, s.written, j);
    assert Pending(s, c)[j - t.pos] == r.log[j];
    UnmarkedSent(r.echo, localOnly, Pending(s, c), r.log[j]);
  }

  /** A mark survives ops with another key or stamp. */
  lemma {:induction false} EchoStays(echo: Echo, ops: seq<Op>, op: Op)
    requires Echoed(echo, op) && forall x | x in ops :: x.key != op.key || x.entry.stamp != op.entry.stamp
    ensures Echoed(EchoLeft(echo, ops), op)
  {
    if ops != [] {
      var init, last := ops[..|ops| - 1], ops[|ops| - 1];
      assert last in ops && forall x | x in init :: x in ops;
      EchoStays(echo, init, op);
    }
  }

  lemma {:induction false} UnechoedFrom(echo: Echo, ops: seq<Op>, op: Op)
    requires op in Unechoed(echo, ops)
    ensures op in ops
  {
    hide Echoed, EchoLeft;
    var init, last := ops[..|ops| - 1], ops[|ops| - 1];
    assert ops == init + [last];
    if op in Unechoed(echo, init) {
      UnechoedFrom(echo, init, op);
    }
  }

  lemma UnechoedLast(echo: Echo, ops: seq<Op>)
    requires ops != []
    ensures var init, last := ops[..|ops| - 1], ops[|ops| - 1];
            Unechoed(echo, ops) == Unechoed(echo, init) + if Echoed(EchoLeft(echo, init), last) then [] else [last]
  {
    hide Echoed, EchoLeft;
  }

  lemma LastApart(ops: seq<Op>, x: Op)
    requires Ascending(ops) && ops != [] && x in ops[..|ops| - 1]
    ensures x.key != ops[|ops| - 1].key || x.entry.stamp < ops[|ops| - 1].entry.stamp
  {
    var i :| 0 <= i < |ops| - 1 && ops[i] == x;
  }

  /** A marked op of an ascending log is held back. */
  lemma {:induction false} MarkedHeldBack(echo: Echo, ops: seq<Op>, op: Op)
    requires Ascending(ops) && op in ops && Echoed(echo, op)
    ensures op !in Unechoed(echo, ops)
  {
    var init, last := ops[..|ops| - 1], ops[|ops| - 1];
    assert ops == init + [last] && Ascending(init);
    UnechoedLast(echo, ops);
    hide Echoed, EchoLeft, Unechoed, Ascending;
    if op in init {
      MarkedHeldBack(echo, init, op);
      LastApart(ops, op);
    } else {
      forall x | x in init ensures x.key != op.key || x.entry.stamp != op.entry.stamp {
        LastApart(ops, x);
      }
      EchoStays(echo, init, op);
      if op in Unechoed(echo, init) {
        UnechoedFrom(echo, init, op);
      }
    }
  }

  // ---- When an op bounces ----

  /** An op of an ascending log is held back exactly when it is marked. */
  lemma HeldBackIff(echo: Echo, ops: seq<Op>, op: Op)
    requires Ascending(ops) && op in ops
    ensures op !in Unechoed(echo, ops) <==> Echoed(echo, op)
  {
    if Echoed(echo, op) {
      MarkedHeldBack(echo, ops, op);
    } else {
      UnmarkedPasses(echo, ops, op);
    }
  }

  /** Ingesting marks an accepted op exactly when no later accepted op has its key. */
  lemma MarkedIff(echo: Echo, accepted: seq<Op>, i: nat)
    requires Ascending(accepted) && i < |accepted|
    ensures Echoed(EchoAll(echo, accepted), accepted[i]) <==> forall j | i < j < |accepted| :: accepted[j].key != accepted[i].key
  {
    hide EchoAll, LastOf;
    var op := accepted[i];
    EchoAllAt(echo, accepted, op.key);
    LastNewest(accepted, op.key, op);
    if j :| i < j < |accepted| && accepted[j].key == op.key {
      LastNewest(accepted, op.key, accepted[j]);
      assert op.entry.stamp < accepted[j].entry.stamp;
    }
  }

  /** What was just ingested is held back exactly when it is the last accepted op of its key. */
  lemma IngestedHeldBackIff(echo: Echo, log: seq<Op>, accepted: seq<Op>, i: nat)
    requires Ascending(log + accepted) && i < |accepted|
    ensures accepted[i] !in Unechoed(EchoAll(echo, accepted), log + accepted) <==>
            forall j | i < j < |accepted| :: accepted[j].key != accepted[i].key
  {
    var all := log + accepted;
    assert Ascending(accepted) by {
      assert forall j | 0 <= j < |accepted| :: all[|log| + j] == accepted[j];
    }
    assert all[|log| + i] == accepted[i];
    hide Unechoed, EchoAll, Ascending;
    HeldBackIff(EchoAll(echo, accepted), all, accepted[i]);
    MarkedIff(echo, accepted, i);
  }

  lemma IngestedAscending(r: Replica, ops: seq<Op>, now: int, written: set<Op>, pos: nat)
    requires ReplicaOk(Ingested(r, ops, now), written) && pos <= |r.log|
    ensures Ascending(r.log[pos..] + Accepted(r.table, ops))
  {
    hide Accepted, EchoAll, ObserveAll, ApplyBatch, EchoIngested, LastOf;
    var log, tail := Ingested(r, ops, now).log, r.log[pos..] + Accepted(r.table, ops);
    assert forall j | 0 <= j < |tail| :: tail[j] == log[pos + j];
  }

  /** What a tail from `pos` sends of a batch just ingested. */
  lemma ReplicaBounce(r: Replica, ops: seq<Op>, now: int, written: set<Op>, pos: nat, localOnly: set<Str>, n: nat)
    requires ReplicaOk(Ingested(r, ops, now), written) && pos <= |r.log|
    requires var accepted := Accepted(r.table, ops); n < |accepted| && accepted[n].key !in localOnly
    ensures var accepted, w := Accepted(r.table, ops), Ingested(r, ops, now);
            accepted[n] in SyncCore.Shared(localOnly, Unechoed(w.echo, w.log[pos..])) <==>
            exists j :: n < j < |accepted| && accepted[j].key == accepted[n].key
  {
    var accepted, w := Accepted(r.table, ops), Ingested(r, ops, now);
    IngestedAscending(r, ops, now, written, pos);
    hide Accepted, EchoAll, Unechoed, SyncCore.Shared, ReplicaOk, Ascending, ObserveAll, ApplyBatch;
    assert w.log[pos..] == r.log[pos..] + accepted;
    IngestedHeldBackIff(r.echo, r.log[pos..], accepted, n);
    SharedIn(localOnly, Unechoed(w.echo, w.log[pos..]), accepted[n]);
  }

  /** In the whole system: right after a delivery, a tail sends an accepted op on exactly when a later one has its key. */
  lemma BounceIff(s: System, i: nat, ops: seq<Op>, now: int, c: nat, localOnly: set<Str>, n: nat)
    requires Inv(s) && Enabled(s, Deliver(i, ops, now)) && c < |s.tailers| && s.tailers[c].owner == i
    requires var accepted := Accepted(s.replicas[i].table, ops); n < |accepted| && accepted[n].key !in localOnly
    ensures var accepted, e := Accepted(s.replicas[i].table, ops), Do(s, Deliver(i, ops, now));
            && Enabled(e, Send(c, localOnly))
            && (accepted[n] in Message(e, c, localOnly) <==> exists j :: n < j < |accepted| && accepted[j].key == accepted[n].key)
  {
    hide Accepted, Unechoed, SyncCore.Shared, ReplicaOk, Ascending, Sound, ConsistentSet;
    assert TailerOk(s, s.tailers[c]);
    IngestedOk(s.replicas[i], ops, now, s.written);
    ReplicaBounce(s.replicas[i], ops, now, s.written, s.tailers[c].pos, localOnly, n);
    hide Ingested;
    assert Do(s, Deliver(i, ops, now)).replicas[i] == Ingested(s.replicas[i], ops, now);
  }

  /** Two puts of a key in one batch: both win, none is lost, and the first goes back out. */
  lemma OlderBounces(k: Str, x: HakoDoc, y: HakoDoc)
    ensures var a, b := Op(k, Entry(1, Live(x))), Op(k, Entry(2, Live(y)));
            && Accepted(map[], [a, b]) == [a, b] && TombstonesKept(map[], [a, b])
            && Unechoed(EchoAll(map[], [a, b]), [a, b]) == [a]
  {
    var a, b := Op(k, Entry(1, Live(x))), Op(k, Entry(2, Live(y)));
    assert [] + [a] == [a] && [a] + [b] == [a, b] && [a, b][..1] == [a] && [a][..0] == [];
    AcceptedAppend(map[], [], a);
    AcceptedAppend(map[], [a], b);
    MarksStep(map[], 0, [], a, 0);
    MarksStep(map[], 0, [a], b, 0);
    assert EchoAll(map[], []) == map[];
    hide EchoAll, Unechoed, EchoLeft;
    var echo := EchoAll(map[], [a, b]);
    assert echo[k] == 2;
    NothingPassed(echo);
    TailStep(echo, {}, [], a);
    UnechoedLast(echo, [a]);
    UnechoedLast(echo, [a, b]);
  }

  lemma NothingPassed(echo: Echo)
    ensures Unechoed(echo, []) == [] && EchoLeft(echo, []) == echo
  {
  }

  lemma {:induction false} TakenGone(echo: Echo, ops: seq<Op>, op: Op)
    requires op in ops
    ensures !Echoed(EchoLeft(echo, ops), op)
  {
    var init, last := ops[..|ops| - 1], ops[|ops| - 1];
    assert ops == init + [last];
    if op != last {
      TakenGone(echo, init, op);
    }
  }

  /** Whatever one tail has passed, marked or not, another one of the replica sends. */
  lemma SecondTailSends(s: System, c: nat, d: nat, first: set<Str>, second: set<Str>, op: Op)
    requires Enabled(s, Send(c, first)) && Enabled(s, Send(d, second)) && c != d && s.tailers[c].owner == s.tailers[d].owner
    requires op in Pending(s, c) && op in Pending(s, d) && op.key !in second
    ensures var e := Do(s, Send(c, first)); Enabled(e, Send(d, second)) && op in Message(e, d, second)
  {
    hide Unechoed, SyncCore.Shared, EchoLeft;
    var e := Do(s, Send(c, first));
    var echo := s.replicas[s.tailers[c].owner].echo;
    TakenGone(echo, Pending(s, c), op);
    assert Pending(e, d) == Pending(s, d);
    UnmarkedSent(EchoLeft(echo, Pending(s, c)), second, Pending(s, d), op);
  }

  /** Ops of an ascending log with one key and stamp are one op. */
  lemma SameOp(ops: seq<Op>, x: Op, y: Op)
    requires Ascending(ops) && x in ops && y in ops && x.key == y.key && x.entry.stamp == y.entry.stamp
    ensures x == y
  {
    var i :| 0 <= i < |ops| && ops[i] == x;
    var j :| 0 <= j < |ops| && ops[j] == y;
    assert i < j ==> ops[i].entry.stamp < ops[j].entry.stamp;
    assert j < i ==> ops[j].entry.stamp < ops[i].entry.stamp;
  }

  /** The mark of an op is left by a tail exactly when the op was not in it. */
  lemma MarkLeftIff(echo: Echo, log: seq<Op>, passed: seq<Op>, op: Op)
    requires Ascending(log) && op in log && forall x | x in passed :: x in log
    ensures Echoed(EchoLeft(echo, passed), op) <==> Echoed(echo, op) && op !in passed
  {
    hide EchoLeft;
    if op in passed {
      TakenGone(echo, passed, op);
    } else if Echoed(echo, op) {
      forall x | x in passed ensures x.key != op.key || x.entry.stamp != op.entry.stamp {
        if x.key == op.key && x.entry.stamp == op.entry.stamp {
          SameOp(log, x, op);
        }
      }
      EchoStays(echo, passed, op);
    } else if op.key in EchoLeft(echo, passed) {
      EchoLeftOlder(echo, passed, op.key);
    }
  }

  /** Behind another tail of the replica, one sends an op exactly when that tail has passed it or it was not marked. */
  lemma SecondTailIff(s: System, c: nat, d: nat, first: set<Str>, second: set<Str>, op: Op)
    requires Inv(s) && Enabled(s, Send(c, first)) && Enabled(s, Send(d, second)) && c != d && s.tailers[c].owner == s.tailers[d].owner
    requires op in Pending(s, d) && op.key !in second
    ensures var e := Do(s, Send(c, first));
            && Enabled(e, Send(d, second))
            && (op in Message(e, d, second) <==> op in Pending(s, c) || !Echoed(s.replicas[s.tailers[d].owner].echo, op))
  {
    hide Unechoed, SyncCore.Shared, EchoLeft, Echoed;
    var r, e := s.replicas[s.tailers[d].owner], Do(s, Send(c, first));
    assert Pending(e, d) == Pending(s, d);
    TailAscending(r, s.written, s.tailers[d].pos);
    hide ReplicaOk, Ascending;
    var echo := EchoLeft(r.echo, Pending(s, c));
    MarkLeftIff(r.echo, r.log, Pending(s, c), op);
    HeldBackIff(echo, Pending(s, d), op);
    SharedIn(second, Unechoed(echo, Pending(s, d)), op);
  }

  lemma TailAscending(r: Replica, written: set<Op>, pos: nat)
    requires ReplicaOk(r, written) && pos <= |r.log|
    ensures Ascending(r.log) && Ascending(r.log[pos..])
  {
    hide LastOf, EchoIngested;
  }
}
