/**
 Whole histories of the retention store: writes, deletes of both kinds, restores and
 sweeps (`softdel.rs`). What is live and what can be restored follow from the acts alone.
 */
module SoftDeleteRuns {
  import opened Bytes
  import opened Values
  import opened Codec
  import opened SoftDelete
  import opened SoftDeleteSweep

  datatype Act =
    | Save(key: Key, doc: HakoDoc, now: i64)
    | Soft(key: Key, now: i64)
    | Force(key: Key, now: i64)
    | Undo(key: Key, now: i64, later: i64)
    | Sweep(at: int, maxBytes: nat, maxCount: nat, chunk: nat, fails: nat -> bool)

  datatype Outcome = Done | Undone(ok: bool) | Swept(gone: set<Str>)

  /** The events so far, until when each document can be restored, and the last stamp. */
  datatype History = History(trace: seq<Event>, deadlines: map<Key, int>, clock: int)

  /** The stamp of a write. */
  function Tick(clock: int, now: int): int { if now > clock then now else clock + 1 }

  function After(h: History, retentionSecs: nat, act: Act, out: Outcome): History {
    match act
    case Save(k, doc, now) => History(h.trace + [Wrote(k, doc.fields)], h.deadlines - {k}, Tick(h.clock, now))
    case Force(k, now) => History(h.trace + [Erased(k)], h.deadlines - {k}, Tick(h.clock, now))
    case Soft(k, now) =>
      var s := Tick(h.clock, now);
      History(h.trace + [Erased(k)],
              if retentionSecs != 0 && LiveNow(h.trace, k).Some? then h.deadlines[k := s + retentionSecs * 1_000_000] else h.deadlines - {k}, s)
    case Undo(k, now, later) =>
      if k in h.deadlines && BeforeDelete(h.trace, k).Some?
      then History(h.trace + [Wrote(k, BeforeDelete(h.trace, k).value)], h.deadlines - {k}, Tick(Tick(h.clock, now), later))
      else h
    case Sweep(_, _, _, _, _) =>
      if out.Swept? then h.(deadlines := map k | k in h.deadlines && RecordId(k) !in out.gone :: h.deadlines[k]) else h
  }

  function AfterAll(h: History, retentionSecs: nat, acts: seq<Act>, outs: seq<Outcome>): History
    requires |acts| == |outs|
    decreases |acts|
  {
    if acts == [] then h
    else After(AfterAll(h, retentionSecs, acts[..|acts| - 1], outs[..|outs| - 1]), retentionSecs, acts[|acts| - 1], outs[|outs| - 1])
  }

  /**
   A restore succeeds exactly on what can be restored. A sweep with room for all records ends
   no retention before its time, and one without a failure ends every retention that is over.
   */
  ghost predicate Answers(h: History, act: Act, out: Outcome, roomy: bool) {
    match act
    case Undo(k, _, _) => out == Undone(k in h.deadlines)
    case Sweep(at, _, _, _, fails) =>
      && out.Swept?
      && (roomy ==> forall k | k in h.deadlines && RecordId(k) in out.gone :: h.deadlines[k] <= at)
      && ((forall c :: !fails(c)) ==> forall k | k in h.deadlines && h.deadlines[k] <= at :: RecordId(k) in out.gone)
    case _ => true
  }

  // ---- What can be restored ----

  predicate Matches(docs: map<Key, Cell>, records: map<Str, RecordCell>, k: Key) {
    && k in docs && docs[k].Tomb? && NoSlash(k.col) && RecordId(k) in records && records[RecordId(k)].Held?
    && GetInt(records[RecordId(k)].doc, DELETED_AT) == Some(docs[k].stamp)
  }

  /** The time written into the record of `k`. */
  function Deadline(records: map<Str, RecordCell>, k: Key): int {
    if RecordId(k) in records && records[RecordId(k)].Held? && GetInt(records[RecordId(k)].doc, SCHEDULED_AT).Some?
    then GetInt(records[RecordId(k)].doc, SCHEDULED_AT).value else 0
  }

  ghost function Deadlines(docs: map<Key, Cell>, records: map<Str, RecordCell>): map<Key, int> {
    map k | k in docs && Matches(docs, records, k) :: Deadline(records, k)
  }

  lemma MatchSaved(docs: map<Key, Cell>, records: map<Str, RecordCell>, k: Key, bytes: seq<byte>)
    ensures Deadlines(docs[k := Live(bytes)], records) == Deadlines(docs, records) - {k}
  {
    hide GetInt, RecordId, NoSlash, Deadline;
  }

  lemma MatchErased(docs: map<Key, Cell>, records: map<Str, RecordCell>, clock: i64, trace: seq<Event>, k: Key, s: i64)
    requires RecordsOk(records, docs, clock, trace) && clock < s
    ensures Deadlines(docs[k := Tomb(s)], records) == Deadlines(docs, records) - {k}
  {
    hide GetInt, GetBinary, DecodeRecord, DecodeDoc, BeforeDelete, RecordId, NoSlash, Deadline;
    var id := RecordId(k);
    assert id in records && records[id].Held? ==> RecordOk(id, records[id].doc, docs, clock, trace);
  }

  lemma MatchRetained(docs: map<Key, Cell>, records: map<Str, RecordCell>, k: Key, s: i64, scheduled: i64, payload: seq<byte>)
    requires NoSlash(k.col)
    ensures Deadlines(docs[k := Tomb(s)], records[RecordId(k) := Held(BuildRecord(k, s, scheduled, payload))]) ==
            Deadlines(docs, records)[k := scheduled]
  {
    hide GetInt, BuildRecord, GetBinary;
    RecordExact(k, s, scheduled, payload);
    assert GetInt(BuildRecord(k, s, scheduled, payload), SCHEDULED_AT) == Some(scheduled);
    hide DecodeRecord;
    OtherIds(k);
    hide RecordId, NoSlash;
  }

  lemma MatchRestored(docs: map<Key, Cell>, records: map<Str, RecordCell>, k: Key, bytes: seq<byte>, s: i64)
    requires NoSlash(k.col)
    ensures Deadlines(docs[k := Live(bytes)], records[RecordId(k) := Dropped(s)]) == Deadlines(docs, records) - {k}
  {
    hide GetInt;
    OtherIds(k);
    hide RecordId, NoSlash;
  }

  lemma MatchSwept(docs: map<Key, Cell>, records: map<Str, RecordCell>, gone: set<Str>)
    ensures Deadlines(docs, records - gone) ==
            map k | k in Deadlines(docs, records) && RecordId(k) !in gone :: Deadlines(docs, records)[k]
  {
    hide GetInt, RecordId, NoSlash;
  }

  lemma OtherIds(k: Key)
    requires NoSlash(k.col)
    ensures forall j: Key | NoSlash(j.col) && RecordId(j) == RecordId(k) :: j == k
  {
    forall j: Key | NoSlash(j.col) && RecordId(j) == RecordId(k) ensures j == k {
      RecordIdInjective(j, k);
    }
  }

  /** What matches was deleted, and its fields are known. */
  lemma MatchKnown(records: map<Str, RecordCell>, docs: map<Key, Cell>, clock: i64, trace: seq<Event>, k: Key)
    requires RecordsOk(records, docs, clock, trace) && Matches(docs, records, k)
    ensures BeforeDelete(trace, k).Some?
  {
    hide GetInt, GetBinary, RecordsOk, BeforeDelete, DecodeDoc, RecordId;
    RecordHolds(records, docs, clock, trace, RecordId(k), k);
  }

  lemma MatchIs(docs: map<Key, Cell>, records: map<Str, RecordCell>, k: Key)
    ensures k in Deadlines(docs, records) <==> Matches(docs, records, k)
  {
  }

  // ---- Sweeps ----

  /** All records fit both budgets. */
  ghost predicate WithinBudgets(records: map<Str, RecordCell>, maxBytes: nat, maxCount: nat) {
    forall rows: seq<Row> | Lists(records, rows) :: Size(rows) <= maxBytes && |rows| <= maxCount
  }

  /** The row of a document that can be restored carries its deadline. */
  lemma MatchRow(records: map<Str, RecordCell>, docs: map<Key, Cell>, clock: i64, trace: seq<Event>, rows: seq<Row>, k: Key) returns (i: nat)
    requires Lists(records, rows) && RecordsOk(records, docs, clock, trace) && Matches(docs, records, k)
    ensures i < |rows| && rows[i].key == RecordId(k) && rows[i].entry.scheduledAt == Deadline(records, k)
  {
    hide GetString, GetInt, GetBinary, BeforeDelete, DecodeDoc, RecordId, NoSlash;
    var id := RecordId(k);
    assert RecordOk(id, records[id].doc, docs, clock, trace);
    var r := Row(id, DecodeRecord(records[id].doc).value);
    assert r in rows;
    i :| 0 <= i < |rows| && rows[i] == r;
  }

  lemma SweepAnswers(records: map<Str, RecordCell>, after: map<Str, RecordCell>, docs: map<Key, Cell>, clock: i64, trace: seq<Event>,
                     rows: seq<Row>, cut: nat, at: int, maxBytes: nat, maxCount: nat, failing: bool)
    requires Lists(records, rows) && RecordsOk(records, docs, clock, trace) && IsCut(rows, cut, maxBytes, maxCount)
    requires after.Keys <= records.Keys
    requires forall i | 0 <= i < cut && at < rows[i].entry.scheduledAt :: rows[i].key in after
    requires !failing ==> forall i | 0 <= i < |rows| :: rows[i].key in after <==> i < cut && at < rows[i].entry.scheduledAt
    ensures var gone, deadlines := records.Keys - after.Keys, Deadlines(docs, records);
            && (WithinBudgets(records, maxBytes, maxCount) ==> forall k | k in deadlines && RecordId(k) in gone :: deadlines[k] <= at)
            && (!failing ==> forall k | k in deadlines && deadlines[k] <= at :: RecordId(k) in gone)
  {
    var gone, deadlines := records.Keys - after.Keys, Deadlines(docs, records);
    if WithinBudgets(records, maxBytes, maxCount) {
      CutAll(rows, cut, maxBytes, maxCount);
    }
    hide Lists, RecordsOk, IsCut, RecordId, Deadline, Size, GetInt, NoSlash;
    forall k | k in deadlines
      ensures WithinBudgets(records, maxBytes, maxCount) && RecordId(k) in gone ==> deadlines[k] <= at
      ensures !failing && deadlines[k] <= at ==> RecordId(k) in gone
    {
      var i := MatchRow(records, docs, clock, trace, rows, k);
    }
  }

  // ---- Runs ----

  ghost function HistoryOf(store: Store): History
    reads store
  {
    History(store.trace, Deadlines(store.docs, store.records), store.clock)
  }

  /** The keys are valid, the documents fit the format and the clock has room. */
  ghost predicate Fits(act: Act, top: i64) {
    match act
    case Save(_, doc, now) => EncodableDoc(doc) && now <= top
    case Soft(k, now) => NoSlash(k.col) && now <= top
    case Force(_, now) => now <= top
    case Undo(k, now, later) => NoSlash(k.col) && now <= top && later <= top
    case Sweep(_, _, _, _, _) => true
  }

  method Step(store: Store, act: Act, ghost top: i64) returns (out: Outcome, ghost roomy: bool)
    requires store.Valid() && Fits(act, top) && store.clock <= top && top + 2 + store.retentionSecs * 1_000_000 <= I64_MAX
    modifies store
    ensures store.Valid() && store.clock <= top + 2
    ensures act.Sweep? ==> roomy == WithinBudgets(old(store.records), act.maxBytes, act.maxCount)
    ensures HistoryOf(store) == After(old(HistoryOf(store)), store.retentionSecs, act, out)
    ensures Answers(old(HistoryOf(store)), act, out, roomy)
  {
    hide DocsOk, RecordsOk, EncodeDoc, EncodableDoc, BuildRecord, RecordId, NoSlash, Deadlines, LiveNow, BeforeDelete, GetInt,
      Lists, IsCut, Doomed, NotDue, Size, WithinBudgets;
    ghost var docs, records, clock, trace := store.docs, store.records, store.clock, store.trace;
    out, roomy := Done, false;
    match act {
      case Save(k, doc, now) =>
        store.Write(k, doc, now);
        MatchSaved(docs, records, k, EncodeDoc(HakoDoc(doc.fields, store.clock)));
      case Force(k, now) =>
        store.ForceDelete(k, now);
        MatchErased(docs, records, clock, trace, k, store.clock);
      case Soft(k, now) =>
        LiveCell(docs, clock, trace, k);
        store.SoftDelete(k, now);
        MatchErased(docs, records, clock, trace, k, store.clock);
        if k in docs && docs[k].Live? {
          MatchRetained(docs, records, k, store.clock, store.clock + store.retentionSecs * 1_000_000, docs[k].bytes);
        }
      case Undo(k, now, later) =>
        var r := store.Restore(k, now, later);
        MatchIs(docs, records, k);
        if r.Ok? {
          MatchKnown(records, docs, clock, trace, k);
          MatchRestored(docs, records, k, store.docs[k].bytes, store.clock);
        }
        out := Undone(r.Ok?);
      case Sweep(at, maxBytes, maxCount, chunk, fails) =>
        out, roomy := SweepStep(store, at, maxBytes, maxCount, chunk, fails);
    }
  }

  method SweepStep(store: Store, at: int, maxBytes: nat, maxCount: nat, chunk: nat, fails: nat -> bool) returns (out: Outcome, ghost roomy: bool)
    requires store.Valid()
    modifies store`records
    ensures store.Valid() && roomy == WithinBudgets(old(store.records), maxBytes, maxCount)
    ensures HistoryOf(store) == After(old(HistoryOf(store)), store.retentionSecs, Sweep(at, maxBytes, maxCount, chunk, fails), out)
    ensures Answers(old(HistoryOf(store)), Sweep(at, maxBytes, maxCount, chunk, fails), out, roomy)
  {
    hide DocsOk, RecordsOk, RecordId, Deadlines, Lists, IsCut, Doomed, NotDue, Size, WithinBudgets, Keys, ByAge;
    var before := store.records;
    roomy := WithinBudgets(before, maxBytes, maxCount);
    var _, rows, cut := SweepPass(store, at, maxBytes, maxCount, chunk, fails);
    out := Swept(before.Keys - store.records.Keys);
    assert store.records == before - out.gone;
    MatchSwept(store.docs, before, out.gone);
    SweepAnswers(before, store.records, store.docs, store.clock, store.trace, rows, cut, at, maxBytes, maxCount, !forall c :: !fails(c));
  }

  lemma LiveCell(docs: map<Key, Cell>, clock: i64, trace: seq<Event>, k: Key)
    requires DocsOk(docs, clock, trace)
    ensures LiveNow(trace, k).Some? <==> k in docs && docs[k].Live?
  {
    hide DecodeDoc, LiveNow;
    assert CellOk(docs, clock, trace, k);
  }

  /**
   After any sequence of acts the live documents and the retentions are those of the history,
   and each restore and sweep along the way answered as the history demands.
   */
  method Run(store: Store, acts: seq<Act>, ghost top: i64) returns (outs: seq<Outcome>, ghost roomy: seq<bool>)
    requires store.Valid() && store.clock <= top
    requires top + 2 * |acts| + 2 + store.retentionSecs * 1_000_000 <= I64_MAX
    requires forall act | act in acts :: Fits(act, top)
    modifies store
    ensures store.Valid() && |outs| == |acts| == |roomy|
    ensures HistoryOf(store) == AfterAll(old(HistoryOf(store)), store.retentionSecs, acts, outs)
    ensures AllAnswer(old(HistoryOf(store)), store.retentionSecs, acts, outs, roomy)
  {
    hide After, Answers, HistoryOf;
    outs, roomy := [], [];
    ghost var h := HistoryOf(store);
    for i := 0 to |acts|
      invariant store.Valid() && |outs| == |roomy| == i && store.clock <= top + 2 * i
      invariant HistoryOf(store) == AfterAll(h, store.retentionSecs, acts[..i], outs)
      invariant AllAnswer(h, store.retentionSecs, acts[..i], outs, roomy)
    {
      FitsLater(acts[i], top, top + 2 * i);
      ghost var before, room := outs, roomy;
      var out, some := Step(store, acts[i], top + 2 * i);
      outs, roomy := outs + [out], roomy + [some];
      assert acts[..i + 1][..i] == acts[..i] && outs[..i] == before && roomy[..i] == room;
    }
    assert acts[..|acts|] == acts;
  }

  ghost predicate AllAnswer(h: History, retentionSecs: nat, acts: seq<Act>, outs: seq<Outcome>, roomy: seq<bool>)
    requires |acts| == |outs| == |roomy|
    decreases |acts|
  {
    acts == [] ||
    var n := |acts| - 1;
    && AllAnswer(h, retentionSecs, acts[..n], outs[..n], roomy[..n])
    && Answers(AfterAll(h, retentionSecs, acts[..n], outs[..n]), acts[n], outs[n], roomy[n])
  }

  lemma FitsLater(act: Act, top: i64, later: i64)
    requires Fits(act, top) && top <= later
    ensures Fits(act, later)
  {
    hide EncodableDoc;
  }

  // ---- How long a document is retained ----

  /** The act is about other documents, or a sweep. */
  predicate Apart(act: Act, k: Key) { act.Sweep? || act.key != k }

  /** Until its time, no sweep with room for all records takes a document away. */
  lemma {:induction false} Retained(h: History, retentionSecs: nat, acts: seq<Act>, outs: seq<Outcome>, roomy: seq<bool>, k: Key)
    requires |acts| == |outs| == |roomy| && AllAnswer(h, retentionSecs, acts, outs, roomy) && k in h.deadlines
    requires forall i | 0 <= i < |acts| :: Apart(acts[i], k) && (acts[i].Sweep? ==> roomy[i] && acts[i].at < h.deadlines[k])
    ensures var after := AfterAll(h, retentionSecs, acts, outs).deadlines; k in after && after[k] == h.deadlines[k]
  {
    if acts != [] {
      var n := |acts| - 1;
      hide RecordId, LiveNow, BeforeDelete;
      Retained(h, retentionSecs, acts[..n], outs[..n], roomy[..n], k);
    }
  }

  lemma {:induction false} NotLonger(h: History, retentionSecs: nat, acts: seq<Act>, outs: seq<Outcome>, k: Key)
    requires |acts| == |outs| && forall i | 0 <= i < |acts| :: Apart(acts[i], k)
    ensures var after := AfterAll(h, retentionSecs, acts, outs).deadlines; k in after ==> k in h.deadlines && after[k] == h.deadlines[k]
  {
    if acts != [] {
      var n := |acts| - 1;
      hide RecordId, LiveNow, BeforeDelete;
      NotLonger(h, retentionSecs, acts[..n], outs[..n], k);
    }
  }

  /** A sweep without a failure at or after its time ends the retention for good. */
  lemma {:induction false} Expired(h: History, retentionSecs: nat, acts: seq<Act>, outs: seq<Outcome>, roomy: seq<bool>, k: Key, n: nat)
    requires |acts| == |outs| == |roomy| && AllAnswer(h, retentionSecs, acts, outs, roomy) && k in h.deadlines
    requires forall i | 0 <= i < |acts| :: Apart(acts[i], k)
    requires n < |acts| && acts[n].Sweep? && h.deadlines[k] <= acts[n].at && forall c :: !acts[n].fails(c)
    ensures k !in AfterAll(h, retentionSecs, acts, outs).deadlines
  {
    var m := |acts| - 1;
    hide RecordId, LiveNow, BeforeDelete;
    NotLonger(h, retentionSecs, acts[..m], outs[..m], k);
    if n < m {
      hide Answers;
      Expired(h, retentionSecs, acts[..m], outs[..m], roomy[..m], k, n);
    }
  }

  lemma {:induction false} AfterSplit(h: History, retentionSecs: nat, acts: seq<Act>, outs: seq<Outcome>, roomy: seq<bool>, a: nat)
    requires |acts| == |outs| == |roomy| && AllAnswer(h, retentionSecs, acts, outs, roomy) && a <= |acts|
    ensures var mid := AfterAll(h, retentionSecs, acts[..a], outs[..a]);
            && AfterAll(mid, retentionSecs, acts[a..], outs[a..]) == AfterAll(h, retentionSecs, acts, outs)
            && AllAnswer(mid, retentionSecs, acts[a..], outs[a..], roomy[a..])
    decreases |acts|
  {
    hide After, Answers;
    if a == |acts| {
      assert acts[..a] == acts && outs[..a] == outs;
    } else {
      var n := |acts| - 1;
      AfterSplit(h, retentionSecs, acts[..n], outs[..n], roomy[..n], a);
      assert acts[..n][..a] == acts[..a] && outs[..n][..a] == outs[..a];
      assert acts[a..][..n - a] == acts[..n][a..] && outs[a..][..n - a] == outs[..n][a..] && roomy[a..][..n - a] == roomy[..n][a..];
    }
  }

  /** The soft delete of a live document starts its retention at the stamp of the delete. */
  lemma RetentionStarts(h: History, retentionSecs: nat, acts: seq<Act>, outs: seq<Outcome>, a: nat)
    requires |acts| == |outs| && retentionSecs > 0 && a < |acts| && acts[a].Soft?
    requires LiveNow(AfterAll(h, retentionSecs, acts[..a], outs[..a]).trace, acts[a].key).Some?
    ensures var clock, now := AfterAll(h, retentionSecs, acts[..a], outs[..a]).clock, acts[a].now;
            var deadlines := AfterAll(h, retentionSecs, acts[..a + 1], outs[..a + 1]).deadlines;
            acts[a].key in deadlines && deadlines[acts[a].key] == (if now > clock then now else clock + 1) + retentionSecs * 1_000_000
  {
    hide LiveNow, BeforeDelete, RecordId;
    assert acts[..a + 1][..a] == acts[..a] && outs[..a + 1][..a] == outs[..a];
  }

  /**
   In every run, with a soft delete of a live document at place `a` under stamp `s` and no later act
   on that document: as long as the sweeps have room for all records and come before
   `s` plus the retention period, it can be restored; after a sweep without a failure at or
   after that time it cannot.
   */
  lemma RetentionSpan(h: History, retentionSecs: nat, acts: seq<Act>, outs: seq<Outcome>, roomy: seq<bool>, a: nat)
    requires |acts| == |outs| == |roomy| && AllAnswer(h, retentionSecs, acts, outs, roomy) && retentionSecs > 0
    requires a < |acts| && acts[a].Soft? && LiveNow(AfterAll(h, retentionSecs, acts[..a], outs[..a]).trace, acts[a].key).Some?
    requires forall i | a < i < |acts| :: Apart(acts[i], acts[a].key)
    ensures var clock, now := AfterAll(h, retentionSecs, acts[..a], outs[..a]).clock, acts[a].now;
            var end := (if now > clock then now else clock + 1) + retentionSecs * 1_000_000;
            && ((forall i | a < i < |acts| && acts[i].Sweep? :: roomy[i] && acts[i].at < end) ==>
                  acts[a].key in AfterAll(h, retentionSecs, acts, outs).deadlines)
            && ((exists i :: a < i < |acts| && acts[i].Sweep? && end <= acts[i].at && forall c :: !acts[i].fails(c)) ==>
                  acts[a].key !in AfterAll(h, retentionSecs, acts, outs).deadlines)
  {
    hide AfterAll, AllAnswer, LiveNow, Apart;
    var k, h1 := acts[a].key, AfterAll(h, retentionSecs, acts[..a + 1], outs[..a + 1]);
    RetentionStarts(h, retentionSecs, acts, outs, a);
    AfterSplit(h, retentionSecs, acts, outs, roomy, a + 1);
    var end := h1.deadlines[k];
    if forall i | a < i < |acts| && acts[i].Sweep? :: roomy[i] && acts[i].at < end {
      Retained(h1, retentionSecs, acts[a + 1..], outs[a + 1..], roomy[a + 1..], k);
    }
    if i :| a < i < |acts| && acts[i].Sweep? && end <= acts[i].at && forall c :: !acts[i].fails(c) {
      Expired(h1, retentionSecs, acts[a + 1..], outs[a + 1..], roomy[a + 1..], k, i - a - 1);
    }
  }
}
