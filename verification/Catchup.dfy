/**
 Catch-up over the cloud plane (`cloud_sync.rs`): the server collects what is newer than
 the client's stamp, pages it, and the client ingests whatever chunks arrive.
 */
module Catchup {
  import opened Bytes
  import opened Values
  import opened Codec
  import opened Lww
  import opened SyncCore

  const PAGE_MAX_OPS := 1000
  const PAGE_MAX_BYTES := 6 * 1024 * 1024

  // ---- Paging ----

  function WireLen(op: WalOp): nat {
    match op
    case PutInlined(key, value) => |key| + |value| + 128
    case PutPointer(key) => |key| + 96
    case Delete(key, _) => |key| + 64
    case TxMark => 48
  }

  function PageBytes(page: seq<WalOp>): nat {
    if page == [] then 0 else PageBytes(page[..|page| - 1]) + WireLen(page[|page| - 1])
  }

  function Flatten<T>(pages: seq<seq<T>>): seq<T> {
    if pages == [] then [] else Flatten(pages[..|pages| - 1]) + pages[|pages| - 1]
  }

  predicate FitsWire(page: seq<WalOp>) {
    0 < |page| <= PAGE_MAX_OPS && (PageBytes(page) <= PAGE_MAX_BYTES || |page| == 1)
  }

  /** The next op would not have fitted on the page. */
  predicate Full(page: seq<WalOp>, next: WalOp) {
    |page| == PAGE_MAX_OPS || PageBytes(page) + WireLen(next) > PAGE_MAX_BYTES
  }

  /** Pages that fit the wire, none cut early. */
  predicate Packed(pages: seq<seq<WalOp>>) {
    pages == [] ||
    var init, last := pages[..|pages| - 1], pages[|pages| - 1];
    Packed(init) && FitsWire(last) && (init != [] ==> Full(init[|init| - 1], last[0]))
  }

  /** The bytes of keys and values on a page. */
  function Content(page: seq<WalOp>): nat {
    if page == [] then 0
    else
      var op := page[|page| - 1];
      Content(page[..|page| - 1]) + (match op case PutInlined(key, value) => |key| + |value| case PutPointer(key) => |key| case Delete(key, _) => |key| case TxMark => 0)
  }

  lemma {:induction false} ContentCounted(page: seq<WalOp>)
    ensures Content(page) + 48 * |page| <= PageBytes(page) <= Content(page) + 128 * |page|
  {
    if page != [] {
      ContentCounted(page[..|page| - 1]);
    }
  }

  /** A page has 1 to 1000 ops, and if it has more than one, at most 6 MiB of keys and values. */
  lemma PageHolds(page: seq<WalOp>)
    requires FitsWire(page)
    ensures 1 <= |page| <= 1000 && (|page| > 1 ==> Content(page) <= 6 * 1024 * 1024)
  {
    ContentCounted(page);
  }

  lemma StartPage(pages: seq<seq<WalOp>>, op: WalOp)
    requires Packed(pages) && (pages != [] ==> Full(pages[|pages| - 1], op))
    ensures Packed(pages + [[op]])
  {
    hide PageBytes, Full;
    assert (pages + [[op]])[..|pages|] == pages;
  }

  lemma GrowPage(pages: seq<seq<WalOp>>, cur: seq<WalOp>, op: WalOp)
    requires Packed(pages + [cur]) && !(|cur| >= PAGE_MAX_OPS || PageBytes(cur) + WireLen(op) > PAGE_MAX_BYTES)
    ensures Packed(pages + [cur + [op]])
  {
    hide Full, PageBytes;
    assert (pages + [cur])[..|pages|] == pages == (pages + [cur + [op]])[..|pages|];
    GrowFits(cur, op);
  }

  /** Each page fits, and the one before it had no room for its first op. */
  lemma {:induction false} PackedAt(pages: seq<seq<WalOp>>, i: nat)
    requires Packed(pages) && i < |pages|
    ensures FitsWire(pages[i])
    ensures i > 0 ==> |pages[i - 1]| == 1000 || PageBytes(pages[i - 1]) + WireLen(pages[i][0]) > 6 * 1024 * 1024
  {
    hide PageBytes, WireLen;
    if i < |pages| - 1 {
      PackedAt(pages[..|pages| - 1], i);
    }
  }

  lemma GrowFits(cur: seq<WalOp>, op: WalOp)
    requires FitsWire(cur) && !(|cur| >= PAGE_MAX_OPS || PageBytes(cur) + WireLen(op) > PAGE_MAX_BYTES)
    ensures FitsWire(cur + [op]) && (cur + [op])[0] == cur[0]
  {
    assert (cur + [op])[..|cur|] == cur;
  }

  lemma FlattenAppend<T>(pages: seq<seq<T>>, page: seq<T>)
    ensures Flatten(pages + [page]) == Flatten(pages) + page
  {
    assert (pages + [page])[..|pages|] == pages;
  }

  /** `page_out_ops`: the ops in order, on packed pages. */
  method PageOut(ops: seq<WalOp>) returns (pages: seq<seq<WalOp>>)
    ensures Flatten(pages) == ops && Packed(pages)
  {
    hide Flatten, FitsWire, Full;
    pages := [];
    var cur: seq<WalOp>, bytes := [], 0;
    assert Flatten(pages) == [] by { FlattenNone<WalOp>(); }
    for i := 0 to |ops|
      invariant Flatten(pages) + cur == ops[..i] && bytes == PageBytes(cur)
      invariant if i == 0 then cur == [] && pages == [] else cur != [] && Packed(pages + [cur])
    {
      var op := ops[i];
      assert ops[..i + 1] == ops[..i] + [op];
      if cur != [] && (|cur| >= PAGE_MAX_OPS || bytes + WireLen(op) > PAGE_MAX_BYTES) {
        ClosePage(pages, cur, op);
        pages := pages + [cur];
        cur, bytes := [], 0;
      } else if cur != [] {
        GrowPage(pages, cur, op);
      } else {
        StartPage(pages, op);
      }
      assert (cur + [op])[..|cur|] == cur;
      bytes := bytes + WireLen(op);
      cur := cur + [op];
    }
    assert ops[..|ops|] == ops;
    if cur != [] {
      FlattenAppend(pages, cur);
      pages := pages + [cur];
    }
  }

  lemma FlattenNone<T>()
    ensures Flatten<T>([]) == []
  {
  }

  lemma ClosePage(pages: seq<seq<WalOp>>, cur: seq<WalOp>, op: WalOp)
    requires Packed(pages + [cur]) && (|cur| >= PAGE_MAX_OPS || PageBytes(cur) + WireLen(op) > PAGE_MAX_BYTES)
    ensures Packed(pages + [cur] + [[op]]) && Flatten(pages + [cur]) == Flatten(pages) + cur
  {
    hide PageBytes;
    assert FitsWire((pages + [cur])[|pages|]);
    StartPage(pages + [cur], op);
    FlattenAppend(pages, cur);
  }

  // ---- The server side ----

  /** An index slot of the server: in memory, or bytes on disk without a stamp beside them. */
  datatype Slot = InMemory(p: Pointer) | OnDisk(bytes: seq<byte>)

  function PointerOf(s: Slot): Pointer {
    match s case InMemory(p) => p case OnDisk(bytes) => Inlined(bytes)
  }

  function Pointers(index: map<Str, Slot>): map<Str, Pointer> { map k | k in index :: PointerOf(index[k]) }

  /** The stamp the scan compares: a fresh joiner takes everything on disk unread. */
  function ScanStamp(s: Slot, since: int): int
    requires PointerOf(s).Inlined? ==> |PointerOf(s).bytes| >= 10
  {
    if s.OnDisk? && since <= 0 then 1 else LocalStamp(PointerOf(s))
  }

  /** The ops cover what is newer than `since` and not local only, each key once, and invent nothing. */
  predicate CatchesUp(server: Table, localOnly: set<Str>, since: int, ops: seq<Op>) {
    && OncePerKey(ops)
    && (forall op | op in ops :: op.key !in localOnly && op.key in server && server[op.key] == op.entry)
    && (forall k | k in server && k !in localOnly && server[k].stamp > since :: Op(k, server[k]) in ops)
  }

  /** Of the keys scanned, what is newer than `since` goes out, and from disk everything if the client has no stamp. */
  predicate Picked(index: map<Str, Slot>, scanned: set<Str>, localOnly: set<Str>, since: int, ops: seq<Op>) {
    && (forall op | op in ops :: op.entry.stamp > since || (since <= 0 && op.key in index && index[op.key].OnDisk?))
    && (since <= 0 ==> forall k | k in scanned && k in index && index[k].OnDisk? && k !in localOnly :: exists op :: op in ops && op.key == k)
  }

  lemma NothingYet(index: map<Str, Slot>, localOnly: set<Str>, since: int)
    ensures Picked(index, {}, localOnly, since, []) && CatchesUp(map[], localOnly, since, [])
  {
  }

  lemma PickStep(index: map<Str, Slot>, scanned: set<Str>, localOnly: set<Str>, since: int, ops: seq<Op>, k: Str, e: Entry)
    requires Picked(index, scanned, localOnly, since, ops) && k in index
    ensures e.stamp > since || (since <= 0 && index[k].OnDisk?) ==> Picked(index, scanned + {k}, localOnly, since, ops + [Op(k, e)])
    ensures k in localOnly || since > 0 || !index[k].OnDisk? ==> Picked(index, scanned + {k}, localOnly, since, ops)
  {
    assert Op(k, e) in ops + [Op(k, e)] && forall op | op in ops :: op in ops + [Op(k, e)];
  }

  /** `collect_catchup_ops` */
  method CollectOps(index: map<Str, Slot>, localOnly: set<Str>, since: int) returns (ops: seq<WalOp>)
    requires Readable(Pointers(index))
    ensures CatchesUp(TableOf(Pointers(index)), localOnly, since, DecodedAll(ops))
    ensures Picked(index, index.Keys, localOnly, since, DecodedAll(ops))
  {
    hide DecodeDoc, EncodeDoc, LocalStamp, Picked, CatchesUp;
    ops := [];
    ghost var server := TableOf(Pointers(index));
    var keys := index.Keys;
    NothingYet(index, localOnly, since);
    assert server - keys == map[] && index.Keys - keys == {};
    while keys != {}
      invariant keys <= index.Keys
      invariant CatchesUp(server - keys, localOnly, since, DecodedAll(ops))
      invariant Picked(index, index.Keys - keys, localOnly, since, DecodedAll(ops))
      decreases keys
    {
      var k :| k in keys;
      LocalStampExact(Pointers(index), k);
      var p := PointerOf(index[k]);
      var op := match p case Inlined(bytes) => PutInlined(k, bytes) case Deleted(ts) => Delete(k, ts);
      assert server - (keys - {k}) == (server - keys)[k := server[k]];
      assert (ops + [op])[..|ops|] == ops && Decoded(op) == Some(Op(k, server[k]));
      CollectStep(server - keys, localOnly, since, DecodedAll(ops), k, server[k]);
      PickStep(index, index.Keys - keys, localOnly, since, DecodedAll(ops), k, server[k]);
      assert index.Keys - (keys - {k}) == index.Keys - keys + {k};
      if ScanStamp(index[k], since) > since && k !in localOnly {
        ops := ops + [op];
      }
      keys := keys - {k};
    }
    assert server - {} == server && index.Keys - {} == index.Keys;
  }

  lemma CollectStep(server: Table, localOnly: set<Str>, since: int, ops: seq<Op>, k: Str, e: Entry)
    requires CatchesUp(server, localOnly, since, ops) && k !in server
    ensures k !in localOnly ==> CatchesUp(server[k := e], localOnly, since, ops + [Op(k, e)])
    ensures k in localOnly || e.stamp <= since ==> CatchesUp(server[k := e], localOnly, since, ops)
  {
  }

  // ---- The client side ----

  /** The ingest test: stamp 0 is refused, and only a live document can hold an op back. */
  predicate CloudAccepts(t: Table, op: Op) {
    && (op.entry.body.Live? ==> op.entry.stamp != 0)
    && !(op.key in t && t[op.key].body.Live? && t[op.key].stamp >= op.entry.stamp)
  }

  function CloudAccepted(t: Table, ops: seq<Op>): seq<Op> {
    if ops == [] then []
    else CloudAccepted(t, ops[..|ops| - 1]) + if CloudAccepts(t, ops[|ops| - 1]) then [ops[|ops| - 1]] else []
  }

  /** One flush of the ingest buffer. */
  function Flush(t: Table, ops: seq<Op>): Table { Overwrite(t, CloudAccepted(t, ops)) }

  function FlushAll(t: Table, chunks: seq<seq<Op>>): Table {
    if chunks == [] then t else Flush(FlushAll(t, chunks[..|chunks| - 1]), chunks[|chunks| - 1])
  }

  /** The client has nothing newer than `since`, and agrees with the server on the rest. */
  ghost predicate Agrees(server: Table, client: Table, localOnly: set<Str>, since: int) {
    && (forall k | k in client && k !in localOnly :: client[k].stamp <= since)
    && (forall k | k !in localOnly && !(k in server && server[k].stamp > since) :: Look(client, k) == Look(server, k))
  }

  /** A live document with stamp 0 would be refused by the ingest test. */
  predicate NoStampZero(server: Table, localOnly: set<Str>, since: int) {
    since >= 0 || forall k | k in server && k !in localOnly && server[k].body.Live? :: server[k].stamp != 0
  }

  lemma {:induction false} CloudAcceptedLast(t: Table, ops: seq<Op>, k: Str)
    requires OncePerKey(ops)
    ensures LastOf(CloudAccepted(t, ops), k) ==
            match LastOf(ops, k) case None => None case Some(op) => if CloudAccepts(t, op) then Some(op) else None
  {
    if ops != [] {
      var init, last := ops[..|ops| - 1], ops[|ops| - 1];
      CloudAcceptedLast(t, init, k);
      var before := CloudAccepted(t, init);
      assert CloudAccepted(t, ops) == if CloudAccepts(t, last) then before + [last] else before;
      assert forall op | op in init :: op.key != last.key;
      hide LastOf, CloudAccepted;
      assert ops == init + [last];
      LastOfAppend(before, last, k);
      LastOfAppend(init, last, k);
    }
  }

  lemma FlushAt(t: Table, ops: seq<Op>, k: Str)
    requires OncePerKey(ops)
    ensures Look(Flush(t, ops), k) ==
            match LastOf(ops, k) case None => Look(t, k) case Some(op) => if CloudAccepts(t, op) then Some(op.entry) else Look(t, k)
  {
    hide LastOf, CloudAccepted, Overwrite, OncePerKey;
    CloudAcceptedLast(t, ops, k);
    OverwriteAt(t, CloudAccepted(t, ops), k);
  }

  /** However the ops are cut into chunks, each key sees its one op against the table at the start. */
  lemma {:induction false} FlushAllAt(t: Table, chunks: seq<seq<Op>>, k: Str)
    requires OncePerKey(Flatten(chunks))
    ensures Look(FlushAll(t, chunks), k) ==
            match LastOf(Flatten(chunks), k) case None => Look(t, k) case Some(op) => if CloudAccepts(t, op) then Some(op.entry) else Look(t, k)
  {
    if chunks != [] {
      var init, last := chunks[..|chunks| - 1], chunks[|chunks| - 1];
      var xs := Flatten(init);
      assert Flatten(chunks) == xs + last;
      OnceParts(xs, last, k);
      FlushAllAt(t, init, k);
      hide LastOf, Flush, Flatten, OncePerKey;
      FlushAt(FlushAll(t, init), last, k);
    }
  }

  lemma OnceParts(xs: seq<Op>, ys: seq<Op>, k: Str)
    requires OncePerKey(xs + ys)
    ensures OncePerKey(xs) && OncePerKey(ys)
    ensures LastOf(xs + ys, k) == if LastOf(ys, k).Some? then LastOf(ys, k) else LastOf(xs, k)
    ensures LastOf(ys, k).Some? ==> LastOf(xs, k).None?
  {
    LastOfConcat(xs, ys, k);
    forall i, j | 0 <= i < j < |xs| ensures xs[i].key != xs[j].key { assert (xs + ys)[i].key != (xs + ys)[j].key; }
    forall i, j | 0 <= i < j < |ys| ensures ys[i].key != ys[j].key { assert (xs + ys)[|xs| + i].key != (xs + ys)[|xs| + j].key; }
    hide LastOf;
    forall x, y | x in xs && y in ys ensures x.key != y.key {
      var i :| 0 <= i < |xs| && xs[i] == x;
      var j :| 0 <= j < |ys| && ys[j] == y;
      assert (xs + ys)[i].key != (xs + ys)[|xs| + j].key;
    }
  }

  lemma CaughtUpAt(server: Table, client: Table, localOnly: set<Str>, since: int, chunks: seq<seq<Op>>, k: Str)
    requires Agrees(server, client, localOnly, since) && CatchesUp(server, localOnly, since, Flatten(chunks)) && k !in localOnly
    ensures Look(FlushAll(client, chunks), k) == Look(server, k) <==>
            !(since < 0 && k in server && server[k].body.Live? && server[k].stamp == 0)
  {
    hide LastOf, FlushAll, Flatten;
    FlushAllAt(client, chunks, k);
    if k in server && server[k].stamp > since {
      assert Op(k, server[k]) in Flatten(chunks);
    }
  }

  /** Catch-up is complete, unless the server holds a live document with stamp 0 and `since` is negative. */
  lemma CatchUpComplete(server: Table, client: Table, localOnly: set<Str>, since: int, chunks: seq<seq<Op>>)
    requires Agrees(server, client, localOnly, since) && CatchesUp(server, localOnly, since, Flatten(chunks))
    ensures (forall k | k !in localOnly :: Look(FlushAll(client, chunks), k) == Look(server, k)) <==>
            NoStampZero(server, localOnly, since)
  {
    hide FlushAll, Flatten, Agrees, CatchesUp, Look;
    forall k | k !in localOnly
      ensures Look(FlushAll(client, chunks), k) == Look(server, k) <==>
              !(since < 0 && k in server && server[k].body.Live? && server[k].stamp == 0)
    {
      CaughtUpAt(server, client, localOnly, since, chunks, k);
    }
  }

  /** One live document with stamp 0, and an empty client that has seen nothing: it is sent and refused. */
  lemma StampZeroMissed(k: Str, doc: HakoDoc)
    ensures var server := map[k := Entry(0, Live(doc))];
            var chunks := [[Op(k, server[k])]];
            && Agrees(server, map[], {}, -1) && CatchesUp(server, {}, -1, Flatten(chunks))
            && FlushAll(map[], chunks) == map[]
  {
    var op := Op(k, Entry(0, Live(doc)));
    var chunks := [[op]];
    assert chunks[..0] == [] && [op][..0] == [] && [] + [op] == [op];
    assert Flatten(chunks) == [op];
    assert CloudAccepted(map[], [op]) == [];
  }
}
