/**
 The shared replication primitives (`sync_core.rs`) and the snapshot and tail steps of
 a peering (`socket_sync.rs`) over stored bytes, proved against the tables of `Lww`.
 One collection without blobs; the wall clock is a parameter.
 */
module SyncCore {
  import opened Bytes
  import opened Values
  import opened Codec
  import opened CodecProofs
  import opened Lww
  import opened LwwJoin

  const MAX_FRAME := 256 * 1024 * 1024
  const I64_MAX := 0x7FFF_FFFF_FFFF_FFFF
  const SKEW_CEILING := 100 * 365 * 24 * 60 * 60 * 1_000_000

  /** A record of the log; `PutPointer` stands for the puts that point to a segment or blob. */
  datatype WalOp = PutInlined(key: Str, value: seq<byte>) | Delete(key: Str, timestamp: int) | PutPointer(key: Str) | TxMark

  datatype Pointer = Inlined(bytes: seq<byte>) | Deleted(timestamp: int)

  /** `op_logical_time` */
  function OpTime(op: WalOp): int {
    match op
    case PutInlined(_, value) => if |value| >= 10 then AsI64(ReadU64(value, 2)) else 0
    case Delete(_, timestamp) => timestamp
    case _ => 0
  }

  /** What an ingested record means; undecodable values and markers are skipped. */
  function Decoded(op: WalOp): Option<Op> {
    match op
    case PutInlined(key, value) =>
      var doc :- DecodeDoc(value);
      Some(Op(key, Entry(doc.time, Live(doc))))
    case Delete(key, timestamp) => Some(Op(key, Entry(timestamp, Gone)))
    case _ => None
  }

  function DecodedAll(ops: seq<WalOp>): seq<Op> {
    if ops == [] then []
    else
      var last := Decoded(ops[|ops| - 1]);
      DecodedAll(ops[..|ops| - 1]) + if last.Some? then [last.value] else []
  }

  /** The record written for an accepted op. */
  function Wire(op: Op): WalOp {
    match op.entry.body
    case Live(doc) => PutInlined(op.key, EncodeDoc(doc))
    case Gone => Delete(op.key, op.entry.stamp)
  }

  ghost predicate Genuine(op: Op) {
    op.entry.body.Live? ==> op.entry.stamp == op.entry.body.doc.time && EncodableDoc(op.entry.body.doc)
  }

  lemma TimeStored(value: seq<byte>)
    requires DecodeDoc(value).Some?
    ensures |value| >= 10 && AsI64(ReadU64(value, 2)) == DecodeDoc(value).value.time
  {
    hide Scan, DecodeRaws, FromLE;
  }

  /** The stamp read off the bytes is the stamp of the decoded op. */
  lemma OpTimeExact(op: WalOp)
    requires Decoded(op).Some?
    ensures !op.TxMark? && op.key == Decoded(op).value.key && OpTime(op) == Decoded(op).value.entry.stamp
    ensures Genuine(Decoded(op).value)
  {
    hide DecodeDoc, ReadU64, EncodableDoc;
    match op
    case PutInlined(_, value) => TimeStored(value); DecodedDocFits(value);
    case _ =>
  }

  /** What is logged for an op is ingested as that op. */
  lemma WireExact(op: Op)
    requires Genuine(op)
    ensures Decoded(Wire(op)) == Some(op)
  {
    hide DecodeDoc, EncodeDoc, EncodableDoc;
    if op.entry.body.Live? {
      RoundTripIff(op.entry.body.doc);
    }
  }

  /** `frame_bytes` */
  function FrameBytes(data: seq<byte>): (r: Option<seq<byte>>)
    ensures r.None? <==> data == [] || |data| > MAX_FRAME
    ensures r.Some? ==> |r.value| == 4 + |data| && ReadU32(r.value, 0) == |data| && r.value[4..] == data
  {
    if data == [] || |data| > MAX_FRAME then None
    else
      var frame := LE(|data|, 4) + data;
      FrameLength(data);
      Some(frame)
  }

  lemma FrameLength(data: seq<byte>)
    requires |data| <= MAX_FRAME
    ensures |LE(|data|, 4)| == 4 && ReadU32(LE(|data|, 4) + data, 0) == |data|
  {
    assert At(LE(|data|, 4) + data, 0, LE(|data|, 4));
    ReadU32At(LE(|data|, 4) + data, 0, |data|);
  }

  // ---- The hybrid clock ----

  function Max(a: int, b: int): int { if a < b then b else a }

  /** `observe_remote_ts`: the watermark follows, up to the skew ceiling. */
  function Observe(watermark: int, ts: int, now: int): int {
    Max(watermark, if ts < now + SKEW_CEILING then ts else now + SKEW_CEILING)
  }

  /** The stamp of the next local batch. */
  function NextStamp(watermark: int, now: int): int {
    if now > watermark then now else if watermark < I64_MAX then watermark + 1 else watermark
  }

  /** A local write after an accepted remote stamp is newer, unless the stamp was beyond the ceiling. */
  lemma NextStampNewer(watermark: int, ts: int, now: int, later: int)
    requires watermark <= 0x7FFF_FFFF_FFFF_FFFF && later <= 0x7FFF_FFFF_FFFF_FFFF && ts <= 0x7FFF_FFFF_FFFF_FFFF && now + SKEW_CEILING <= 0x7FFF_FFFF_FFFF_FFFF
    ensures NextStamp(Observe(watermark, ts, now), later) > ts <==>
            ts < 0x7FFF_FFFF_FFFF_FFFF && (ts <= Max(watermark, now + SKEW_CEILING) || ts < later)
  {
  }

  /** A remote stamp beyond the ceiling: the next local write is older. */
  lemma StampBehind()
    ensures NextStamp(Observe(0, SKEW_CEILING + 2, 0), 1) == SKEW_CEILING + 1 < SKEW_CEILING + 2
  {
  }

  function ObserveAll(watermark: int, ops: seq<Op>, now: int): int {
    if ops == [] then watermark
    else Observe(ObserveAll(watermark, ops[..|ops| - 1], now), ops[|ops| - 1].entry.stamp, now)
  }

  // ---- The echo cache ----

  type Echo = map<Str, int>

  function EchoAll(echo: Echo, ops: seq<Op>): Echo {
    if ops == [] then echo else EchoAll(echo, ops[..|ops| - 1])[ops[|ops| - 1].key := ops[|ops| - 1].entry.stamp]
  }

  predicate Echoed(echo: Echo, op: Op) { op.key in echo && echo[op.key] == op.entry.stamp }

  /** The cache after a tail has passed the ops: each hit is used up. */
  function EchoLeft(echo: Echo, ops: seq<Op>): Echo {
    if ops == [] then echo
    else
      var before := EchoLeft(echo, ops[..|ops| - 1]);
      if Echoed(before, ops[|ops| - 1]) then before - {ops[|ops| - 1].key} else before
  }

  /** What a tail sends: the ops the cache does not hold back. */
  function Unechoed(echo: Echo, ops: seq<Op>): seq<Op> {
    if ops == [] then []
    else Unechoed(echo, ops[..|ops| - 1]) + if Echoed(EchoLeft(echo, ops[..|ops| - 1]), ops[|ops| - 1]) then [] else [ops[|ops| - 1]]
  }

  // ---- The cache over the records of the log ----

  /** Transaction marks have the empty key. */
  function KeyOf(r: WalOp): Str { if r.TxMark? then [] else r.key }

  predicate Hits(echo: Echo, r: WalOp) { KeyOf(r) in echo && echo[KeyOf(r)] == OpTime(r) }

  /** The cache after the records: every record takes a mark under its key and time, whatever it is. */
  function Passed(echo: Echo, records: seq<WalOp>): Echo {
    if records == [] then echo
    else
      var before := Passed(echo, records[..|records| - 1]);
      if Hits(before, records[|records| - 1]) then before - {KeyOf(records[|records| - 1])} else before
  }

  /** What goes out for a record: a put with its bytes, or a delete. */
  function Outgoing(resolve: WalOp -> Option<seq<byte>>, r: WalOp): Option<WalOp> {
    match r
    case PutPointer(key) => (match resolve(r) case None => None case Some(bytes) => Some(PutInlined(key, bytes)))
    case TxMark => None
    case _ => Some(r)
  }

  function Sent(echo: Echo, localOnly: set<Str>, resolve: WalOp -> Option<seq<byte>>, records: seq<WalOp>): seq<WalOp> {
    if records == [] then []
    else
      var init, last := records[..|records| - 1], records[|records| - 1];
      var out := Outgoing(resolve, last);
      Sent(echo, localOnly, resolve, init) +
      if Hits(Passed(echo, init), last) || KeyOf(last) in localOnly || out.None? then [] else [out.value]
  }

  function Shared(localOnly: set<Str>, ops: seq<Op>): seq<Op> {
    if ops == [] then []
    else Shared(localOnly, ops[..|ops| - 1]) + if ops[|ops| - 1].key in localOnly then [] else [ops[|ops| - 1]]
  }

  // ---- The index of a shard ----

  /** Every inlined document decodes. */
  ghost predicate Readable(index: map<Str, Pointer>) {
    forall k | k in index && index[k].Inlined? :: DecodeDoc(index[k].bytes).Some?
  }

  ghost function EntryOf(p: Pointer): Entry
    requires p.Inlined? ==> DecodeDoc(p.bytes).Some?
  {
    match p
    case Inlined(bytes) => Entry(DecodeDoc(bytes).value.time, Live(DecodeDoc(bytes).value))
    case Deleted(timestamp) => Entry(timestamp, Gone)
  }

  ghost function TableOf(index: map<Str, Pointer>): Table
    requires Readable(index)
  {
    map k | k in index :: EntryOf(index[k])
  }

  /** The entries a snapshot can read. */
  ghost function Visible(index: map<Str, Pointer>): (r: map<Str, Pointer>)
    ensures Readable(r) && (Readable(index) ==> r == index)
  {
    map k | k in index && (index[k].Inlined? ==> DecodeDoc(index[k].bytes).Some?) :: index[k]
  }

  /** The stamp of an index entry, read without decoding. */
  function LocalStamp(p: Pointer): int
    requires p.Inlined? ==> |p.bytes| >= 10
  {
    match p
    case Inlined(bytes) => AsI64(ReadU64(bytes, 2))
    case Deleted(timestamp) => timestamp
  }

  lemma LocalStampExact(index: map<Str, Pointer>, k: Str)
    requires Readable(index) && k in index
    ensures index[k].Inlined? ==> |index[k].bytes| >= 10
    ensures k in TableOf(index)
    ensures LocalStamp(index[k]) == TableOf(index)[k].stamp
  {
    hide DecodeDoc, ReadU64;
    if index[k].Inlined? {
      TimeStored(index[k].bytes);
    }
  }

  lemma IndexPut(index: map<Str, Pointer>, k: Str, p: Pointer)
    requires Readable(index) && (p.Inlined? ==> DecodeDoc(p.bytes).Some?)
    ensures Readable(index[k := p]) && TableOf(index[k := p]) == TableOf(index)[k := EntryOf(p)]
  {
    hide DecodeDoc;
  }

  function Wires(ops: seq<Op>): (r: seq<WalOp>)
    ensures |r| == |ops|
  {
    if ops == [] then [] else Wires(ops[..|ops| - 1]) + [Wire(ops[|ops| - 1])]
  }

  lemma {:induction false} WiresAt(ops: seq<Op>, i: nat)
    requires i < |ops|
    ensures Wires(ops)[i] == Wire(ops[i])
  {
    if i < |ops| - 1 {
      WiresAt(ops[..|ops| - 1], i);
    }
  }

  lemma DecodedLast(records: seq<WalOp>, op: WalOp)
    ensures DecodedAll(records + [op]) == DecodedAll(records) + if Decoded(op).Some? then [Decoded(op).value] else []
  {
    hide DecodeDoc;
    assert (records + [op])[..|records|] == records;
  }

  lemma {:induction false} WiresDecode(ops: seq<Op>)
    requires forall op | op in ops :: Genuine(op)
    ensures DecodedAll(Wires(ops)) == ops
  {
    if ops != [] {
      var init, last := ops[..|ops| - 1], ops[|ops| - 1];
      assert Wires(ops) == Wires(init) + [Wire(last)];
      assert ops == init + [last] && last in ops;
      hide Wire, Decoded, DecodedAll, Wires, Genuine;
      WiresDecode(init);
      WireExact(last);
      DecodedLast(Wires(init), Wire(last));
    }
  }

  lemma {:induction false} DecodedAppend(xs: seq<WalOp>, ys: seq<WalOp>)
    ensures DecodedAll(xs + ys) == DecodedAll(xs) + DecodedAll(ys)
  {
    if ys == [] {
      assert xs + ys == xs;
    } else {
      DecodedAppend(xs, ys[..|ys| - 1]);
      assert (xs + ys)[..|xs + ys| - 1] == xs + ys[..|ys| - 1];
    }
  }

  lemma {:induction false} FirstDeleteAt(ops: seq<Op>, k: Str, i: nat)
    requires i < |ops| && Deletes(ops[i], k) && forall j | 0 <= j < i :: !Deletes(ops[j], k)
    ensures FirstDelete(ops, k) == ops[i].entry.stamp
  {
    if i > 0 {
      FirstDeleteAt(ops[1..], k, i - 1);
    }
  }

  class Shard {
    var index: map<Str, Pointer>
    var wal: seq<WalOp>
    var echo: Echo
    var watermark: int

    /** `echo_take`: check, and remove on a hit. */
    method EchoTake(key: Str, ts: int) returns (hit: bool)
      modifies this`echo
      ensures hit <==> key in old(echo) && old(echo)[key] == ts
      ensures echo == if hit then old(echo) - {key} else old(echo)
    {
      hit := key in echo && echo[key] == ts;
      if hit {
        echo := echo - {key};
      }
    }

    /** `snapshot_collection`: every readable document and tombstone, in whatever order the map gives. */
    method Snapshot() returns (ops: seq<WalOp>)
      ensures forall op | op in ops :: Decoded(op).Some?
      ensures IsSnapshot(TableOf(Visible(index)), DecodedAll(ops))
    {
      hide DecodeDoc, EncodeDoc, IsSnapshot;
      ops := [];
      var keys := index.Keys;
      ghost var t := TableOf(Visible(index));
      assert IsSnapshot(t - keys, DecodedAll(ops)) by { SnapshotNone(t - keys); }
      while keys != {}
        invariant keys <= index.Keys && forall op | op in ops :: Decoded(op).Some?
        invariant IsSnapshot(t - keys, DecodedAll(ops))
        decreases keys
      {
        var k :| k in keys;
        var op := match index[k] case Inlined(bytes) => PutInlined(k, bytes) case Deleted(ts) => Delete(k, ts);
        DecodedLast(ops, op);
        if Decoded(op).Some? {
          SnapshotMore(t - keys, DecodedAll(ops), k, t[k]);
          assert t - (keys - {k}) == (t - keys)[k := t[k]];
          ops := ops + [op];
        } else {
          assert t - (keys - {k}) == t - keys;
        }
        keys := keys - {k};
      }
      assert t - {} == t;
    }

    /**
     One round of the tail loop from `start`: what is sent, and the new offset. An offset
     beyond the log, left from before a reset, starts over. `resolve` reads what a put points to.
     */
    method Tail(start: nat, localOnly: set<Str>, resolve: WalOp -> Option<seq<byte>>) returns (logical: seq<WalOp>, pos: nat)
      modifies this`echo
      ensures pos == |wal|
      ensures var records := if start > |wal| then wal else wal[start..];
              && logical == Sent(old(echo), localOnly, resolve, records)
              && echo == Passed(old(echo), records)
    {
      hide ReadU64;
      logical := [];
      var ops := if start > |wal| then wal else wal[start..];
      for i := 0 to |ops|
        invariant logical == Sent(old(echo), localOnly, resolve, ops[..i])
        invariant echo == Passed(old(echo), ops[..i])
      {
        assert ops[..i + 1][..i] == ops[..i];
        var hit := EchoTake(KeyOf(ops[i]), OpTime(ops[i]));
        if hit || KeyOf(ops[i]) in localOnly {
          continue;
        }
        var out := Outgoing(resolve, ops[i]);
        if out.Some? {
          logical := logical + [out.value];
        }
      }
      assert ops[..|ops|] == ops;
      pos := |wal|;
    }

    /** Phase 1: which ops win, with their echo marks and clock observations. */
    method Filter(ops: seq<WalOp>, now: int) returns (accepted: seq<Op>)
      requires Readable(index)
      modifies this`echo, this`watermark
      ensures accepted == Accepted(TableOf(index), DecodedAll(ops))
      ensures echo == EchoAll(old(echo), accepted) && watermark == ObserveAll(old(watermark), accepted, now)
      ensures forall op | op in accepted :: Genuine(op)
    {
      hide DecodeDoc, Genuine, ReadU64, Observe;
      accepted := [];
      for i := 0 to |ops|
        invariant accepted == Accepted(TableOf(index), DecodedAll(ops[..i]))
        invariant echo == EchoAll(old(echo), accepted) && watermark == ObserveAll(old(watermark), accepted, now)
        invariant forall op | op in accepted :: Genuine(op)
      {
        hide Accepted, DecodedAll, EchoAll, ObserveAll, TableOf;
        var decoded := Decoded(ops[i]);
        FilterStep(TableOf(index), ops, i);
        if decoded.None? {
          continue;
        }
        var op := decoded.value;
        OpTimeExact(ops[i]);
        if op.key in index {
          LocalStampExact(index, op.key);
          if op.entry.stamp <= LocalStamp(index[op.key]) {
            continue;
          }
        }
        MarksStep(old(echo), old(watermark), accepted, op, now);
        echo := echo[op.key := op.entry.stamp];
        watermark := Observe(watermark, op.entry.stamp, now);
        accepted := accepted + [op];
      }
      assert ops[..|ops|] == ops;
    }

    /** The tombstone stamp: the first delete of the key among the accepted records. */
    method TombstoneStamp(ghost accepted: seq<Op>, records: seq<WalOp>, i: nat) returns (ts: int)
      requires records == Wires(accepted) && i < |accepted| && accepted[i].entry.body.Gone?
      ensures ts == FirstDelete(accepted, accepted[i].key)
    {
      hide Wires, EncodeDoc;
      WiresAt(accepted, i);
      var key, j := records[i].key, 0;
      while !(records[j].Delete? && records[j].key == key)
        invariant j <= i && key == accepted[i].key && records[i].Delete?
        invariant forall l | 0 <= l < j :: !Deletes(accepted[l], key)
        decreases i - j
      {
        WiresAt(accepted, j);
        j := j + 1;
      }
      WiresAt(accepted, j);
      FirstDeleteAt(accepted, key, j);
      ts := records[j].timestamp;
    }

    /** `apply_replicated_batch` on a collection, unless it is local. */
    method ApplyReplicatedBatch(local: bool, ops: seq<WalOp>, now: int)
      requires Readable(index)
      modifies this
      ensures Readable(index)
      ensures local ==> unchanged(this)
      ensures !local ==>
                var batch := DecodedAll(ops);
                var accepted := Accepted(old(TableOf(index)), batch);
                && TableOf(index) == ApplyBatch(old(TableOf(index)), batch)
                && DecodedAll(wal) == old(DecodedAll(wal)) + accepted
                && echo == EchoAll(old(echo), accepted)
                && watermark == ObserveAll(old(watermark), accepted, now)
    {
      hide DecodeDoc, EncodeDoc, Accepted, EchoAll, ObserveAll, Wires, DecodedAll;
      if local {
        return;
      }
      ghost var t := TableOf(index);
      var accepted := Filter(ops, now);
      if accepted == [] {
        NothingAccepted(t, wal);
        return;
      }
      var records := Wires(accepted);
      WiresDecode(accepted);
      MarkedAppend(wal, records);
      wal := wal + [TxMark] + records + [TxMark];
      for i := 0 to |accepted|
        modifies this`index
        invariant Readable(index) && TableOf(index) == Install(t, accepted, accepted[..i])
      {
        assert accepted[..i + 1][..i] == accepted[..i];
        assert accepted[i] in accepted;
        match accepted[i].entry.body
        case Live(doc) =>
          RoundTripIff(doc);
          IndexPut(index, accepted[i].key, Inlined(EncodeDoc(doc)));
          index := index[accepted[i].key := Inlined(EncodeDoc(doc))];
        case Gone =>
          var ts := TombstoneStamp(accepted, records, i);
          IndexPut(index, accepted[i].key, Deleted(ts));
          index := index[accepted[i].key := Deleted(ts)];
      }
      assert accepted[..|accepted|] == accepted;
    }
  }

  lemma NothingAccepted(t: Table, records: seq<WalOp>)
    ensures Install(t, [], []) == t && DecodedAll(records) + [] == DecodedAll(records)
  {
  }

  /** A batch in the log stands between transaction marks. */
  lemma MarkedAppend(log: seq<WalOp>, records: seq<WalOp>)
    ensures DecodedAll(log + [TxMark] + records + [TxMark]) == DecodedAll(log) + DecodedAll(records)
  {
    hide DecodedAll;
    DecodedLast(log, TxMark);
    DecodedAppend(log + [TxMark], records);
    DecodedLast(log + [TxMark] + records, TxMark);
    assert DecodedAll(log) + [] == DecodedAll(log);
    assert DecodedAll(log) + DecodedAll(records) + [] == DecodedAll(log) + DecodedAll(records);
  }

  lemma MarksStep(echo: Echo, watermark: int, ops: seq<Op>, op: Op, now: int)
    ensures EchoAll(echo, ops + [op]) == EchoAll(echo, ops)[op.key := op.entry.stamp]
    ensures ObserveAll(watermark, ops + [op], now) == Observe(ObserveAll(watermark, ops, now), op.entry.stamp, now)
  {
    assert (ops + [op])[..|ops|] == ops;
  }

  lemma SnapshotMore(t: Table, ops: seq<Op>, k: Str, e: Entry)
    requires IsSnapshot(t, ops) && k !in t
    ensures IsSnapshot(t[k := e], ops + [Op(k, e)])
  {
  }

  lemma TailStep(echo: Echo, localOnly: set<Str>, ops: seq<Op>, op: Op)
    ensures EchoLeft(echo, ops + [op]) == if Echoed(EchoLeft(echo, ops), op) then EchoLeft(echo, ops) - {op.key} else EchoLeft(echo, ops)
    ensures Shared(localOnly, Unechoed(echo, ops + [op])) ==
            Shared(localOnly, Unechoed(echo, ops)) +
            if Echoed(EchoLeft(echo, ops), op) || op.key in localOnly then [] else [op]
  {
    hide Echoed;
    assert (ops + [op])[..|ops|] == ops;
    var sent := Unechoed(echo, ops);
    assert sent + [] == sent && (sent + [op])[..|sent|] == sent;
  }

  lemma SnapshotNone(t: Table)
    requires t == map[]
    ensures IsSnapshot(t, DecodedAll([]))
  {
  }

  lemma FilterStep(t: Table, ops: seq<WalOp>, i: nat)
    requires i < |ops|
    ensures Accepted(t, DecodedAll(ops[..i + 1])) ==
            Accepted(t, DecodedAll(ops[..i])) +
            match Decoded(ops[i]) case None => [] case Some(op) => if Wins(t, op) then [op] else []
  {
    hide DecodeDoc, Wins;
    var before := DecodedAll(ops[..i]);
    assert ops[..i + 1][..i] == ops[..i];
    match Decoded(ops[i])
    case None => assert before + [] == before;
    case Some(op) => assert (before + [op])[..|before|] == before;
  }
}
