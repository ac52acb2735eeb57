/**
 Restorable deletes (`softdel.rs`): a soft delete leaves a tombstone and a retention
 record, a restore puts the retained document back. Stamps come from the hybrid clock;
 `trace` is the history of writes and deletes the claims are about.
 */
module SoftDelete {
  import opened Bytes
  import opened Values
  import opened Codec
  import opened CodecProofs
  import SyncCore

  const I64_MAX: i64 := 0x7FFF_FFFF_FFFF_FFFF
  const SLASH: byte := 47
  const COL: Str := [99, 111, 108]
  const ID: Str := [105, 100]
  const DELETED_AT: Str := [100, 101, 108, 101, 116, 101, 100, 95, 97, 116]
  const SCHEDULED_AT: Str := [115, 99, 104, 101, 100, 117, 108, 101, 100, 95, 97, 116]
  const PAYLOAD: Str := [112, 97, 121, 108, 111, 97, 100]

  datatype Key = Key(col: Str, id: Str)

  predicate NoSlash(s: Str) { 0x2F !in s }

  /** `record_id` */
  function RecordId(k: Key): Str { k.col + [SLASH] + k.id }

  /** Collection names carry no slash, so the first one splits the pair. */
  lemma RecordIdInjective(a: Key, b: Key)
    requires NoSlash(a.col) && NoSlash(b.col) && RecordId(a) == RecordId(b)
    ensures a == b
  {
    var r := RecordId(a);
    assert r[|a.col|] == SLASH && r[|b.col|] == SLASH;
    assert forall j | 0 <= j < |a.col| :: r[j] == a.col[j] && r[j] != SLASH;
    assert forall j | 0 <= j < |b.col| :: r[j] == b.col[j] && r[j] != SLASH;
    assert r[..|a.col|] == a.col && r[..|b.col|] == b.col;
    assert r[|a.col| + 1..] == a.id && r[|b.col| + 1..] == b.id;
  }

  datatype SoftDelEntry = SoftDelEntry(key: Key, deletedAt: i64, scheduledAt: i64, bytes: nat)

  /** `build_record` */
  function BuildRecord(k: Key, deletedAt: i64, scheduledAt: i64, payload: seq<byte>): HakoDoc {
    HakoDoc(Put(Put(Put(Put(Put([], COL, String(k.col)), ID, String(k.id)), DELETED_AT, Int(deletedAt)),
                    SCHEDULED_AT, Int(scheduledAt)), PAYLOAD, Binary(payload)), deletedAt)
  }

  function GetString(doc: HakoDoc, key: Str): Option<Str> {
    match Find(doc.fields, key) case Some(String(s)) => Some(s) case _ => None
  }

  function GetInt(doc: HakoDoc, key: Str): Option<i64> {
    match Find(doc.fields, key) case Some(Int(i)) => Some(i) case _ => None
  }

  function GetBinary(doc: HakoDoc, key: Str): Option<seq<byte>> {
    match Find(doc.fields, key) case Some(Binary(b)) => Some(b) case _ => None
  }

  /** `decode_record` on a live record document. */
  function DecodeRecord(doc: HakoDoc): Option<SoftDelEntry> {
    var col :- GetString(doc, COL);
    var id :- GetString(doc, ID);
    var deletedAt :- GetInt(doc, DELETED_AT);
    var scheduledAt :- GetInt(doc, SCHEDULED_AT);
    var payload :- GetBinary(doc, PAYLOAD);
    Some(SoftDelEntry(Key(col, id), deletedAt, scheduledAt, |payload|))
  }

  /** A retention record carries what it was built from. */
  lemma RecordExact(k: Key, deletedAt: i64, scheduledAt: i64, payload: seq<byte>)
    ensures var doc := BuildRecord(k, deletedAt, scheduledAt, payload);
            && DecodeRecord(doc) == Some(SoftDelEntry(k, deletedAt, scheduledAt, |payload|))
            && GetBinary(doc, PAYLOAD) == Some(payload) && GetInt(doc, DELETED_AT) == Some(deletedAt)
  {
    var a := Put([], COL, String(k.col));
    var b := Put(a, ID, String(k.id));
    var c := Put(b, DELETED_AT, Int(deletedAt));
    var d := Put(c, SCHEDULED_AT, Int(scheduledAt));
    assert SortedKeys(a);
    hide Put, Find, SortedKeys;
    PutSorted(a, ID, String(k.id));
    PutSorted(b, DELETED_AT, Int(deletedAt));
    PutSorted(c, SCHEDULED_AT, Int(scheduledAt));
    forall key: Str ensures Find(Put(d, PAYLOAD, Binary(payload)), key) ==
              if key == PAYLOAD then Some(Binary(payload)) else if key == SCHEDULED_AT then Some(Int(scheduledAt))
              else if key == DELETED_AT then Some(Int(deletedAt)) else if key == ID then Some(String(k.id)) else Find(a, key)
    {
      PutFind(d, PAYLOAD, Binary(payload), key);
      PutFind(c, SCHEDULED_AT, Int(scheduledAt), key);
      PutFind(b, DELETED_AT, Int(deletedAt), key);
      PutFind(a, ID, String(k.id), key);
    }
    FirstField(COL, String(k.col));
    FiveNames();
  }

  lemma FirstField(key: Str, value: Value)
    ensures Find(Put([], key, value), key) == Some(value)
  {
  }

  lemma FiveNames()
    ensures |{COL, ID, DELETED_AT, SCHEDULED_AT, PAYLOAD}| == 5
    ensures COL != ID && COL != DELETED_AT && COL != SCHEDULED_AT && COL != PAYLOAD && ID != DELETED_AT && ID != SCHEDULED_AT
    ensures ID != PAYLOAD && DELETED_AT != SCHEDULED_AT && DELETED_AT != PAYLOAD && SCHEDULED_AT != PAYLOAD
  {
    assert |COL| == 3 && |ID| == 2 && |DELETED_AT| == 10 && |SCHEDULED_AT| == 12 && |PAYLOAD| == 7;
  }

  // ---- History ----

  datatype Event = Wrote(key: Key, fields: seq<Field>) | Erased(key: Key)

  /** The fields of a document that is live after the events. */
  function LiveNow(trace: seq<Event>, k: Key): Option<seq<Field>> {
    if trace == [] then None
    else
      var last := trace[|trace| - 1];
      if last.key != k then LiveNow(trace[..|trace| - 1], k) else if last.Wrote? then Some(last.fields) else None
  }

  /** The fields that were live just before the last delete. */
  function BeforeDelete(trace: seq<Event>, k: Key): Option<seq<Field>> {
    if trace == [] then None
    else if trace[|trace| - 1] == Erased(k) then LiveNow(trace[..|trace| - 1], k)
    else BeforeDelete(trace[..|trace| - 1], k)
  }

  datatype Cell = Live(bytes: seq<byte>) | Tomb(stamp: i64)
  datatype RecordCell = Held(doc: HakoDoc) | Dropped(stamp: i64)

  /** The index agrees with the history at `k`. */
  ghost predicate CellOk(docs: map<Key, Cell>, clock: i64, trace: seq<Event>, k: Key) {
    if k !in docs then LiveNow(trace, k).None?
    else match docs[k]
      case Live(bytes) => DecodeDoc(bytes).Some? && LiveNow(trace, k) == Some(DecodeDoc(bytes).value.fields)
      case Tomb(stamp) => LiveNow(trace, k).None? && stamp <= clock
  }

  ghost predicate DocsOk(docs: map<Key, Cell>, clock: i64, trace: seq<Event>) {
    forall k :: CellOk(docs, clock, trace, k)
  }

  /** A record stands under its key; while its tombstone is current, it holds the fields before the last delete. */
  ghost predicate RecordOk(recordKey: Str, doc: HakoDoc, docs: map<Key, Cell>, clock: i64, trace: seq<Event>) {
    && DecodeRecord(doc).Some? && GetBinary(doc, PAYLOAD).Some?
    && var e, payload := DecodeRecord(doc).value, GetBinary(doc, PAYLOAD).value;
    && NoSlash(e.key.col) && recordKey == RecordId(e.key) && e.deletedAt <= clock && GetInt(doc, DELETED_AT) == Some(e.deletedAt)
    && (e.key in docs && docs[e.key] == Tomb(e.deletedAt) ==>
          DecodeDoc(payload).Some? && BeforeDelete(trace, e.key) == Some(DecodeDoc(payload).value.fields))
  }

  ghost predicate RecordsOk(records: map<Str, RecordCell>, docs: map<Key, Cell>, clock: i64, trace: seq<Event>) {
    forall r | r in records && records[r].Held? :: RecordOk(r, records[r].doc, docs, clock, trace)
  }

  lemma Appended(trace: seq<Event>, e: Event, k: Key)
    ensures LiveNow(trace + [e], k) == if e.key != k then LiveNow(trace, k) else if e.Wrote? then Some(e.fields) else None
    ensures BeforeDelete(trace + [e], k) == if e == Erased(k) then LiveNow(trace, k) else BeforeDelete(trace, k)
  {
    assert (trace + [e])[..|trace|] == trace;
  }

  lemma CellsStep(docs: map<Key, Cell>, clock: i64, trace: seq<Event>, e: Event, cell: Cell, later: i64)
    requires DocsOk(docs, clock, trace)
    requires clock <= later && CellOk(map[e.key := cell], later, [e], e.key)
    ensures DocsOk(docs[e.key := cell], later, trace + [e])
  {
    hide DecodeDoc;
    var docs', trace' := docs[e.key := cell], trace + [e];
    forall k ensures CellOk(docs', later, trace', k) {
      assert CellOk(docs, clock, trace, k);
      Appended(trace, e, k);
      Appended([], e, k);
      assert [] + [e] == [e];
      hide LiveNow;
    }
  }

  /** A new write or a new tombstone retires the records of the key, and no other. */
  lemma RecordsStep(records: map<Str, RecordCell>, docs: map<Key, Cell>, clock: i64, trace: seq<Event>, e: Event, cell: Cell, later: i64)
    requires RecordsOk(records, docs, clock, trace) && clock <= later
    requires cell.Tomb? ==> clock < cell.stamp
    ensures RecordsOk(records, docs[e.key := cell], later, trace + [e])
  {
    hide DecodeDoc, DecodeRecord, GetBinary, GetInt, RecordId, LiveNow, BeforeDelete;
    forall r | r in records && records[r].Held? ensures RecordOk(r, records[r].doc, docs[e.key := cell], later, trace + [e]) {
      assert RecordOk(r, records[r].doc, docs, clock, trace);
      Appended(trace, e, DecodeRecord(records[r].doc).value.key);
    }
  }

  datatype Error = NoRecord | NoPayload | NoStamp | Undecodable | NotRestorable
  datatype Result = Ok | Err(error: Error)

  class Store {
    const retentionSecs: nat
    var docs: map<Key, Cell>
    var records: map<Str, RecordCell>
    var clock: i64
    ghost var trace: seq<Event>

    ghost predicate Valid()
      reads this
    {
      DocsOk(docs, clock, trace) && RecordsOk(records, docs, clock, trace)
    }

    constructor (retentionSecs: nat, now: i64)
      ensures Valid() && docs == map[] && records == map[] && trace == [] && this.retentionSecs == retentionSecs
    {
      this.retentionSecs := retentionSecs;
      docs, records, clock, trace := map[], map[], now, [];
    }

    /** The stamp of a write: above every stamp so far. */
    function Stamp(now: i64): (s: i64)
      reads this
      requires clock < I64_MAX
      ensures s > clock && s == SyncCore.NextStamp(clock, now)
    {
      if now > clock then now else clock + 1
    }

    method Write(k: Key, doc: HakoDoc, now: i64)
      requires Valid() && clock < I64_MAX && EncodableDoc(doc)
      modifies this
      ensures Valid() && clock == old(Stamp(now)) && trace == old(trace) + [Wrote(k, doc.fields)]
      ensures docs == old(docs)[k := Live(EncodeDoc(HakoDoc(doc.fields, clock)))] && records == old(records)
    {
      hide DecodeDoc, EncodeDoc, EncodableDoc, RecordsOk;
      var s := Stamp(now);
      var stored := HakoDoc(doc.fields, s);
      var cell := Live(EncodeDoc(stored));
      StoredDecodes(doc, s);
      Appended([], Wrote(k, doc.fields), k);
      assert [] + [Wrote(k, doc.fields)] == [Wrote(k, doc.fields)];
      CellsStep(docs, clock, trace, Wrote(k, doc.fields), cell, s);
      RecordsStep(records, docs, clock, trace, Wrote(k, doc.fields), cell, s);
      docs, clock, trace := docs[k := cell], s, trace + [Wrote(k, doc.fields)];
    }

    /** A delete without retention. */
    method ForceDelete(k: Key, now: i64)
      requires Valid() && clock < I64_MAX
      modifies this
      ensures Valid() && clock == old(Stamp(now)) && trace == old(trace) + [Erased(k)]
      ensures docs == old(docs)[k := Tomb(clock)] && records == old(records)
    {
      hide RecordsOk;
      var s := Stamp(now);
      Appended([], Erased(k), k);
      assert [] + [Erased(k)] == [Erased(k)];
      CellsStep(docs, clock, trace, Erased(k), Tomb(s), s);
      RecordsStep(records, docs, clock, trace, Erased(k), Tomb(s), s);
      docs, clock, trace := docs[k := Tomb(s)], s, trace + [Erased(k)];
    }

    /** A delete that retains the document, when there is one to retain. */
    method SoftDelete(k: Key, now: i64)
      requires Valid() && clock < I64_MAX && NoSlash(k.col)
      requires Stamp(now) + retentionSecs * 1_000_000 <= I64_MAX
      modifies this
      ensures Valid() && clock == old(Stamp(now)) && trace == old(trace) + [Erased(k)]
      ensures docs == old(docs)[k := Tomb(clock)]
      ensures records == if retentionSecs == 0 || k !in old(docs) || old(docs)[k].Tomb? then old(records)
                         else old(records)[RecordId(k) := Held(BuildRecord(k, clock, clock + retentionSecs * 1_000_000, old(docs)[k].bytes))]
    {
      hide RecordsOk, DecodeDoc, BuildRecord, RecordId;
      var s := Stamp(now);
      ghost var before := docs;
      Appended([], Erased(k), k);
      assert [] + [Erased(k)] == [Erased(k)];
      CellsStep(docs, clock, trace, Erased(k), Tomb(s), s);
      RecordsStep(records, docs, clock, trace, Erased(k), Tomb(s), s);
      if retentionSecs != 0 && k in docs && docs[k].Live? {
        var doc := BuildRecord(k, s, s + retentionSecs * 1_000_000, docs[k].bytes);
        assert CellOk(docs, clock, trace, k);
        Appended(trace, Erased(k), k);
        RecordHeld(k, s, s + retentionSecs * 1_000_000, docs[k].bytes, docs[k := Tomb(s)], s, trace + [Erased(k)]);
        RecordsPut(records, docs[k := Tomb(s)], s, trace + [Erased(k)], RecordId(k), Held(doc));
        records := records[RecordId(k) := Held(doc)];
      }
      docs, clock, trace := docs[k := Tomb(s)], s, trace + [Erased(k)];
    }

    /** `restore`: the retained document as a fresh version, then the record goes. */
    method Restore(k: Key, now: i64, later: i64) returns (r: Result)
      requires Valid() && clock < I64_MAX - 1 && NoSlash(k.col) && now < I64_MAX
      modifies this
      ensures Valid()
      ensures r.Err? ==> unchanged(this)
      ensures r.Ok? <==>
                var id := RecordId(k);
                && id in old(records) && old(records)[id].Held?
                && k in old(docs) && old(docs)[k].Tomb? && GetInt(old(records)[id].doc, DELETED_AT) == Some(old(docs)[k].stamp)
      ensures r.Ok? ==>
                && BeforeDelete(old(trace), k).Some?
                && trace == old(trace) + [Wrote(k, BeforeDelete(old(trace), k).value)]
                && docs == old(docs)[k := Live(EncodeDoc(HakoDoc(BeforeDelete(old(trace), k).value, old(Stamp(now)))))]
                && records == old(records)[RecordId(k) := Dropped(clock)]
                && clock == SyncCore.NextStamp(old(Stamp(now)), later)
    {
      hide RecordsOk, DecodeDoc, EncodeDoc, EncodableDoc, RecordId, DecodeRecord, GetBinary, GetInt, DocsOk;
      var id := RecordId(k);
      if id !in records || records[id].Dropped? {
        return Err(NoRecord);
      }
      var rec := records[id].doc;
      RecordHolds(records, docs, clock, trace, id, k);
      var payload := GetBinary(rec, PAYLOAD);
      if payload.None? {
        return Err(NoPayload);
      }
      var deletedAt := GetInt(rec, DELETED_AT);
      if deletedAt.None? {
        return Err(NoStamp);
      }
      var doc := DecodeDoc(payload.value);
      if doc.None? {
        return Err(Undecodable);
      }
      if !(k in docs && docs[k] == Tomb(deletedAt.value)) {
        return Err(NotRestorable);
      }
      DecodedDocFits(payload.value);
      Write(k, doc.value, now);
      var s := Stamp(later);
      ClockMoves(records, docs, clock, trace, s);
      RecordsPut(records, docs, s, trace, id, Dropped(s));
      records, clock := records[id := Dropped(s)], s;
      r := Ok;
    }
  }

  lemma StoredDecodes(doc: HakoDoc, s: i64)
    requires EncodableDoc(doc)
    ensures DecodeDoc(EncodeDoc(HakoDoc(doc.fields, s))) == Some(HakoDoc(doc.fields, s))
  {
    hide DecodeDoc, EncodeDoc;
    assert EncodableDoc(HakoDoc(doc.fields, s));
    RoundTripIff(HakoDoc(doc.fields, s));
  }

  lemma RecordHeld(k: Key, s: i64, scheduled: i64, payload: seq<byte>, docs: map<Key, Cell>, clock: i64, trace: seq<Event>)
    requires NoSlash(k.col) && s <= clock && DecodeDoc(payload).Some?
    requires BeforeDelete(trace, k) == Some(DecodeDoc(payload).value.fields)
    ensures RecordOk(RecordId(k), BuildRecord(k, s, scheduled, payload), docs, clock, trace)
  {
    hide DecodeDoc, BuildRecord, DecodeRecord, GetBinary, GetInt, BeforeDelete;
    RecordExact(k, s, scheduled, payload);
  }

  lemma RecordsPut(records: map<Str, RecordCell>, docs: map<Key, Cell>, clock: i64, trace: seq<Event>, id: Str, cell: RecordCell)
    requires RecordsOk(records, docs, clock, trace) && (cell.Held? ==> RecordOk(id, cell.doc, docs, clock, trace))
    ensures RecordsOk(records[id := cell], docs, clock, trace)
  {
    hide RecordOk;
  }

  lemma ClockMoves(records: map<Str, RecordCell>, docs: map<Key, Cell>, clock: i64, trace: seq<Event>, later: i64)
    requires RecordsOk(records, docs, clock, trace) && DocsOk(docs, clock, trace) && clock <= later
    ensures RecordsOk(records, docs, later, trace) && DocsOk(docs, later, trace)
  {
    hide DecodeDoc, LiveNow, BeforeDelete, DecodeRecord, GetBinary, GetInt;
    forall r | r in records && records[r].Held? ensures RecordOk(r, records[r].doc, docs, later, trace) {
      assert RecordOk(r, records[r].doc, docs, clock, trace);
    }
    forall k ensures CellOk(docs, later, trace, k) {
      assert CellOk(docs, clock, trace, k);
    }
  }

  /** What the record under `k` holds. */
  lemma RecordHolds(records: map<Str, RecordCell>, docs: map<Key, Cell>, clock: i64, trace: seq<Event>, id: Str, k: Key)
    requires RecordsOk(records, docs, clock, trace) && id == RecordId(k) && NoSlash(k.col) && id in records && records[id].Held?
    ensures var rec := records[id].doc;
            && GetBinary(rec, PAYLOAD).Some? && GetInt(rec, DELETED_AT).Some?
            && (k in docs && docs[k] == Tomb(GetInt(rec, DELETED_AT).value) ==>
                  && DecodeDoc(GetBinary(rec, PAYLOAD).value).Some?
                  && BeforeDelete(trace, k) == Some(DecodeDoc(GetBinary(rec, PAYLOAD).value).value.fields))
  {
    hide DecodeDoc, BeforeDelete, DecodeRecord, GetBinary, GetInt, RecordId;
    assert RecordOk(id, records[id].doc, docs, clock, trace);
    RecordIdInjective(DecodeRecord(records[id].doc).value.key, k);
  }
}
