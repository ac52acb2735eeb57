/**
 The shards carry out the steps of the replication state machine: what `sync_core.rs` and
 `socket_sync.rs` do to stored bytes is what the steps say of tables and logs.
 */
module ReplicationShards {
  import opened Bytes
  import opened Values
  import opened Lww
  import opened LwwJoin
  import opened SyncCore
  import opened EchoMarks
  import opened Replication

  /** The bytes of the shard stand for the replica. */
  ghost predicate Represents(shard: Shard, r: Replica)
    reads shard
  {
    && Readable(shard.index) && TableOf(shard.index) == r.table && DecodedAll(shard.wal) == r.log
    && shard.echo == r.echo && shard.watermark == r.clock
  }

  /** Ingesting a frame is the `Deliver` step of the ops in it. */
  method DeliverTo(shard: Shard, ops: seq<WalOp>, now: int, ghost s: System, ghost i: nat)
    requires Enabled(s, Deliver(i, DecodedAll(ops), now)) && Represents(shard, s.replicas[i])
    modifies shard
    ensures Represents(shard, Do(s, Deliver(i, DecodedAll(ops), now)).replicas[i])
  {
    hide Accepted, ApplyBatch, EchoAll, ObserveAll, Sound, DecodedAll, TableOf, Readable;
    shard.ApplyReplicatedBatch(false, ops, now);
  }

  /** A snapshot of a shard is an `Offer` of its replica. */
  method OfferOf(shard: Shard, ghost s: System, ghost i: nat) returns (ops: seq<WalOp>)
    requires i < |s.replicas| && Represents(shard, s.replicas[i])
    ensures Enabled(s, Offer(i, DecodedAll(ops)))
  {
    hide IsSnapshot, DecodedAll, TableOf, Readable;
    ops := shard.Snapshot();
    assert Visible(shard.index) == shard.index;
  }

  /**
   A tail round from offset `start` is the `Send` step of a tailer that has read as many ops,
   where records without an op leave the marks of the others alone.
   */
  method TailOf(shard: Shard, start: nat, localOnly: set<Str>, resolve: Resolve, ghost s: System, ghost c: nat)
    returns (logical: seq<WalOp>, pos: nat)
    requires Enabled(s, Send(c, localOnly)) && Represents(shard, s.replicas[s.tailers[c].owner])
    requires start <= |shard.wal| && DecodedAll(shard.wal[start..]) == Pending(s, c)
    requires Straight(shard.echo, localOnly, shard.wal[start..]) && forall r | r in shard.wal[start..] :: Inline(resolve, r)
    modifies shard`echo
    ensures DecodedAll(logical) == Message(s, c, localOnly)
    ensures pos == |shard.wal| && DecodedAll(shard.wal[pos..]) == []
    ensures Represents(shard, Do(s, Send(c, localOnly)).replicas[s.tailers[c].owner])
  {
    hide Unechoed, EchoLeft, Passed, Sent, Straight, Inline, TableOf, Readable, Decoded;
    SentExact(shard.echo, localOnly, resolve, shard.wal[start..]);
    ghost var records := shard.wal[start..];
    logical, pos := shard.Tail(start, localOnly, resolve);
    assert shard.wal[pos..] == [];
  }
}
