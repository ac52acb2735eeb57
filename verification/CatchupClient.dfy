/** The ingest of the cloud plane (`cloud_sync.rs`) as it updates a shard, and a whole catch-up. */
module CatchupClient {
  import opened Bytes
  import opened Values
  import opened Codec
  import opened Lww
  import opened SyncCore
  import opened Catchup

  /** The last-writer check on stored bytes: undecodable and stamp-0 puts go, tombstones do not hold back. */
  predicate Admits(index: map<Str, Pointer>, item: WalOp)
    requires forall k | k in index && index[k].Inlined? :: |index[k].bytes| >= 10
  {
    && Decoded(item).Some?
    && !(item.PutInlined? && OpTime(item) == 0)
    && !(item.key in index && index[item.key].Inlined? && LocalStamp(index[item.key]) >= OpTime(item))
  }

  lemma ReadableLong(index: map<Str, Pointer>)
    requires Readable(index)
    ensures forall k | k in index && index[k].Inlined? :: |index[k].bytes| >= 10
  {
    hide DecodeDoc;
    forall k | k in index && index[k].Inlined? ensures |index[k].bytes| >= 10 {
      TimeStored(index[k].bytes);
    }
  }

  lemma AdmitsExact(index: map<Str, Pointer>, item: WalOp)
    requires Readable(index)
    ensures forall k | k in index && index[k].Inlined? :: |index[k].bytes| >= 10
    ensures Admits(index, item) <==> Decoded(item).Some? && CloudAccepts(TableOf(index), Decoded(item).value)
  {
    hide DecodeDoc, ReadU64;
    ReadableLong(index);
    if Decoded(item).Some? {
      OpTimeExact(item);
      var k := Decoded(item).value.key;
      if k in index {
        LocalStampExact(index, k);
        PointerKind(index, k);
      }
    }
  }

  class CloudShard {
    var index: map<Str, Pointer>
    var wal: seq<WalOp>
    var echo: Echo
    var watermark: int

    /** The put and delete arms of `flush_ingest_buffer`: which items are applied. */
    method Admit(items: seq<WalOp>, now: int) returns (applied: seq<WalOp>)
      requires Readable(index)
      modifies this`echo, this`watermark
      ensures DecodedAll(applied) == CloudAccepted(TableOf(index), DecodedAll(items))
      ensures forall op | op in applied :: Decoded(op).Some?
      ensures echo == EchoAll(old(echo), DecodedAll(applied))
      ensures watermark == ObserveAll(old(watermark), DecodedAll(applied), now)
    {
      hide CloudAccepted, CloudAccepts, Decoded, OpTime, Admits, DecodedAll, EchoAll, ObserveAll, TableOf, Observe, Genuine;
      applied := [];
      AdmitNone(TableOf(index), echo, watermark, now);
      for i := 0 to |items|
        invariant DecodedAll(applied) == CloudAccepted(TableOf(index), DecodedAll(items[..i]))
        invariant forall op | op in applied :: Decoded(op).Some?
        invariant echo == EchoAll(old(echo), DecodedAll(applied)) && watermark == ObserveAll(old(watermark), DecodedAll(applied), now)
      {
        var item := items[i];
        AdmitStep(TableOf(index), items, i);
        AdmitsExact(index, item);
        if !Admits(index, item) {
          continue;
        }
        OpTimeExact(item);
        MarksStep(old(echo), old(watermark), DecodedAll(applied), Decoded(item).value, now);
        DecodedLast(applied, item);
        echo := echo[item.key := OpTime(item)];
        watermark := Observe(watermark, OpTime(item), now);
        applied := applied + [item];
      }
      assert items[..|items|] == items;
    }

    /** `apply_timestamped`: log the ops, then point the index at them, stamps preserved. */
    method ApplyTimestamped(ops: seq<WalOp>)
      requires Readable(index) && forall op | op in ops :: Decoded(op).Some?
      modifies this`index, this`wal
      ensures Readable(index) && TableOf(index) == Overwrite(old(TableOf(index)), DecodedAll(ops))
      ensures DecodedAll(wal) == old(DecodedAll(wal)) + DecodedAll(ops)
      ensures wal == old(wal) + [TxMark] + ops + [TxMark]
    {
      hide DecodeDoc;
      ghost var t := TableOf(index);
      MarkedAppend(wal, ops);
      wal := wal + [TxMark] + ops + [TxMark];
      for i := 0 to |ops|
        modifies this`index
        invariant Readable(index) && TableOf(index) == Overwrite(t, DecodedAll(ops[..i]))
      {
        var op := ops[i];
        assert op in ops;
        OverwriteStep(t, ops, i);
        hide DecodedAll, Overwrite, TableOf;
        var p := match op case PutInlined(_, value) => Inlined(value) case Delete(_, ts) => Deleted(ts);
        IndexPut(index, op.key, p);
        index := index[op.key := p];
      }
      assert ops[..|ops|] == ops;
    }

    /** One drain of the ingest buffer. */
    method FlushIngest(local: bool, items: seq<WalOp>, now: int)
      requires Readable(index)
      modifies this
      ensures Readable(index)
      ensures local ==> unchanged(this)
      ensures !local ==> TableOf(index) == Flush(old(TableOf(index)), DecodedAll(items))
      ensures !local ==> DecodedAll(wal) == old(DecodedAll(wal)) + CloudAccepted(old(TableOf(index)), DecodedAll(items))
      ensures !local ==> echo == EchoAll(old(echo), CloudAccepted(old(TableOf(index)), DecodedAll(items)))
      ensures !local ==> watermark == ObserveAll(old(watermark), CloudAccepted(old(TableOf(index)), DecodedAll(items)), now)
    {
      hide DecodedAll, CloudAccepted, EchoAll, ObserveAll, Overwrite;
      if local {
        return;
      }
      var applied := Admit(items, now);
      ApplyTimestamped(applied);
    }
  }

  lemma PointerKind(index: map<Str, Pointer>, k: Str)
    requires Readable(index) && k in index
    ensures k in TableOf(index) && (TableOf(index)[k].body.Live? <==> index[k].Inlined?)
  {
    hide DecodeDoc;
  }

  lemma AdmitNone(t: Table, echo: Echo, watermark: int, now: int)
    ensures DecodedAll([]) == [] && CloudAccepted(t, []) == [] && EchoAll(echo, []) == echo && ObserveAll(watermark, [], now) == watermark
  {
  }

  lemma AdmitStep(t: Table, items: seq<WalOp>, i: nat)
    requires i < |items|
    ensures CloudAccepted(t, DecodedAll(items[..i + 1])) ==
            CloudAccepted(t, DecodedAll(items[..i])) +
            match Decoded(items[i]) case None => [] case Some(op) => if CloudAccepts(t, op) then [op] else []
  {
    hide DecodeDoc, CloudAccepts;
    assert items[..i + 1] == items[..i] + [items[i]];
    DecodedLast(items[..i], items[i]);
    var before := DecodedAll(items[..i]);
    match Decoded(items[i])
    case None => assert before + [] == before;
    case Some(op) => assert (before + [op])[..|before|] == before;
  }

  lemma OverwriteStep(t: Table, ops: seq<WalOp>, i: nat)
    requires i < |ops| && Decoded(ops[i]).Some?
    ensures Overwrite(t, DecodedAll(ops[..i + 1])) ==
            Overwrite(t, DecodedAll(ops[..i]))[Decoded(ops[i]).value.key := Decoded(ops[i]).value.entry]
  {
    hide DecodeDoc;
    assert ops[..i + 1] == ops[..i] + [ops[i]];
    DecodedLast(ops[..i], ops[i]);
    var before := DecodedAll(ops[..i]);
    assert (before + [Decoded(ops[i]).value])[..|before|] == before;
  }

  ghost function DecodedPages(pages: seq<seq<WalOp>>): seq<seq<Op>> {
    if pages == [] then [] else DecodedPages(pages[..|pages| - 1]) + [DecodedAll(pages[|pages| - 1])]
  }

  lemma {:induction false} PagesFlatten(pages: seq<seq<WalOp>>)
    ensures Flatten(DecodedPages(pages)) == DecodedAll(Flatten(pages))
  {
    if pages != [] {
      var init, last := pages[..|pages| - 1], pages[|pages| - 1];
      assert Flatten(pages) == Flatten(init) + last;
      assert DecodedPages(pages) == DecodedPages(init) + [DecodedAll(last)];
      hide DecodedAll, Flatten, DecodedPages;
      PagesFlatten(init);
      DecodedAppend(Flatten(init), last);
      FlattenAppend(DecodedPages(init), DecodedAll(last));
    }
  }

  lemma FlushPage(t: Table, pages: seq<seq<WalOp>>, i: nat)
    requires i < |pages|
    ensures FlushAll(t, DecodedPages(pages[..i + 1])) == Flush(FlushAll(t, DecodedPages(pages[..i])), DecodedAll(pages[i]))
  {
    hide DecodedAll, Flush;
    assert pages[..i + 1][..i] == pages[..i];
    var before := DecodedPages(pages[..i]);
    assert (before + [DecodedAll(pages[i])])[..|before|] == before;
  }

  /** A whole catch-up: a client that agreed up to `since` ends equal to the server. */
  method CatchUp(server: map<Str, Catchup.Slot>, localOnly: set<Str>, since: int, client: CloudShard, now: int)
    requires Readable(Pointers(server)) && Readable(client.index)
    requires Agrees(TableOf(Pointers(server)), TableOf(client.index), localOnly, since)
    requires NoStampZero(TableOf(Pointers(server)), localOnly, since)
    modifies client
    ensures Readable(client.index)
    ensures forall k | k !in localOnly :: Look(TableOf(client.index), k) == Look(TableOf(Pointers(server)), k)
  {
    hide TableOf, Agrees, CatchesUp, Flush, DecodedAll, Flatten, Packed, Look, NoStampZero;
    var ops := CollectOps(server, localOnly, since);
    var pages := PageOut(ops);
    ghost var t := TableOf(client.index);
    for i := 0 to |pages|
      invariant Readable(client.index) && TableOf(client.index) == FlushAll(t, DecodedPages(pages[..i]))
    {
      hide FlushAll;
      FlushPage(t, pages, i);
      client.FlushIngest(false, pages[i], now);
    }
    assert pages[..|pages|] == pages;
    PagesFlatten(pages);
    CatchUpComplete(TableOf(Pointers(server)), t, localOnly, since, DecodedPages(pages));
  }
}
