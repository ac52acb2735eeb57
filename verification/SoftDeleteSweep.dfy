/**
 The sweep over the retention records (`softdel.rs`): records past the byte or count
 budget and records that are due are removed, in chunks that may fail.
 */
module SoftDeleteSweep {
  import opened Bytes
  import opened Values
  import opened SoftDelete

  const REC_OVERHEAD := 96

  datatype Row = Row(key: Str, entry: SoftDelEntry)

  function Weight(r: Row): nat { r.entry.bytes + REC_OVERHEAD }

  function Size(rows: seq<Row>): nat {
    if rows == [] then 0 else Size(rows[..|rows| - 1]) + Weight(rows[|rows| - 1])
  }

  predicate DistinctRows(rows: seq<Row>) {
    forall i, j | 0 <= i < j < |rows| :: rows[i].key != rows[j].key
  }

  predicate ByAge(rows: seq<Row>) {
    forall i, j | 0 <= i < j < |rows| :: rows[i].entry.deletedAt <= rows[j].entry.deletedAt
  }

  predicate IsRow(records: map<Str, RecordCell>, r: Row) {
    r.key in records && records[r.key].Held? && DecodeRecord(records[r.key].doc) == Some(r.entry)
  }

  /** The rows are the decodable live records, each once. */
  predicate Lists(records: map<Str, RecordCell>, rows: seq<Row>) {
    && DistinctRows(rows)
    && (forall r | r in rows :: IsRow(records, r))
    && (forall k | k in records && records[k].Held? && DecodeRecord(records[k].doc).Some? :: Row(k, DecodeRecord(records[k].doc).value) in rows)
  }

  /** The record at `i` in age order no longer fits the budgets. */
  predicate Over(rows: seq<Row>, i: nat, maxBytes: nat, maxCount: nat)
    requires i < |rows|
  {
    Size(rows[..i + 1]) > maxBytes || i + 1 > maxCount
  }

  predicate Due(r: Row, now: int) { r.entry.scheduledAt <= now }

  // ---- Collecting and sorting ----

  method Collect(records: map<Str, RecordCell>) returns (rows: seq<Row>)
    ensures Lists(records, rows)
  {
    hide DecodeRecord;
    rows := [];
    var keys := records.Keys;
    while keys != {}
      invariant keys <= records.Keys && Lists(records - keys, rows)
      decreases keys
    {
      var k :| k in keys;
      ListsMore(records - keys, rows, k, records[k]);
      assert records - (keys - {k}) == (records - keys)[k := records[k]];
      if records[k].Held? && DecodeRecord(records[k].doc).Some? {
        rows := rows + [Row(k, DecodeRecord(records[k].doc).value)];
      }
      keys := keys - {k};
    }
    assert records - {} == records;
  }

  lemma ListsMore(records: map<Str, RecordCell>, rows: seq<Row>, k: Str, cell: RecordCell)
    requires Lists(records, rows) && k !in records
    ensures Lists(records[k := cell],
                  if cell.Held? && DecodeRecord(cell.doc).Some? then rows + [Row(k, DecodeRecord(cell.doc).value)] else rows)
  {
    hide DecodeRecord;
    var more := records[k := cell];
    forall r | r in rows ensures IsRow(more, r) && r.key != k {
      assert IsRow(records, r);
    }
    if cell.Held? && DecodeRecord(cell.doc).Some? {
      var row := Row(k, DecodeRecord(cell.doc).value);
      assert IsRow(more, row);
      forall i | 0 <= i < |rows| ensures (rows + [row])[i].key != k {
        assert rows[i] in rows;
      }
    }
  }

  /** Insertion behind the rows of equal age, as a stable sort does. */
  function InsertRow(rows: seq<Row>, r: Row): (s: seq<Row>)
    requires ByAge(rows)
    ensures ByAge(s) && |s| == |rows| + 1 && forall x :: x in s <==> x in rows || x == r
  {
    if rows == [] || rows[|rows| - 1].entry.deletedAt <= r.entry.deletedAt then rows + [r]
    else
      var init, last := rows[..|rows| - 1], rows[|rows| - 1];
      var s := InsertRow(init, r);
      assert rows == init + [last];
      assert forall x | x in init :: x.entry.deletedAt <= last.entry.deletedAt;
      assert forall i | 0 <= i < |s| :: s[i] in s;
      s + [last]
  }

  function SortRows(rows: seq<Row>): (s: seq<Row>)
    ensures ByAge(s) && |s| == |rows| && forall x :: x in s <==> x in rows
  {
    if rows == [] then []
    else
      assert rows == rows[..|rows| - 1] + [rows[|rows| - 1]];
      InsertRow(SortRows(rows[..|rows| - 1]), rows[|rows| - 1])
  }

  lemma {:induction false} InsertDistinct(rows: seq<Row>, r: Row)
    requires ByAge(rows) && DistinctRows(rows) && forall x | x in rows :: x.key != r.key
    ensures DistinctRows(InsertRow(rows, r))
  {
    if rows != [] && rows[|rows| - 1].entry.deletedAt > r.entry.deletedAt {
      var init, last := rows[..|rows| - 1], rows[|rows| - 1];
      InsertDistinct(init, r);
      var s := InsertRow(init, r);
      forall x | x in init ensures x.key != last.key {
        var i :| 0 <= i < |init| && init[i] == x;
        assert rows[i].key != rows[|rows| - 1].key;
      }
      assert last in rows && forall i | 0 <= i < |s| :: s[i] in s && s[i].key != last.key;
    }
  }

  lemma {:induction false} SortDistinct(rows: seq<Row>)
    requires DistinctRows(rows)
    ensures DistinctRows(SortRows(rows))
  {
    if rows != [] {
      SortDistinct(rows[..|rows| - 1]);
      InsertDistinct(SortRows(rows[..|rows| - 1]), rows[|rows| - 1]);
    }
  }

  // ---- The budgets ----

  lemma {:induction false} SizePrefix(rows: seq<Row>, i: nat, j: nat)
    requires i <= j <= |rows|
    ensures Size(rows[..i]) <= Size(rows[..j])
    decreases j
  {
    if i < j {
      assert rows[..j][..j - 1] == rows[..j - 1];
      SizePrefix(rows, i, j - 1);
    }
  }

  lemma SizeNext(rows: seq<Row>, i: nat)
    requires i < |rows|
    ensures Size(rows[..i + 1]) == Size(rows[..i]) + Weight(rows[i])
  {
    assert rows[..i + 1][..i] == rows[..i];
  }

  /** Once a record is over budget, so are all younger ones. */
  lemma OverStays(rows: seq<Row>, i: nat, j: nat, maxBytes: nat, maxCount: nat)
    requires i <= j < |rows| && Over(rows, i, maxBytes, maxCount)
    ensures Over(rows, j, maxBytes, maxCount)
  {
    SizePrefix(rows, i + 1, j + 1);
  }

  function Keys(rows: seq<Row>): set<Str> { set r | r in rows :: r.key }

  /** What a sweep removes: the rows from `cut` on, and the due ones before it. */
  function Doomed(rows: seq<Row>, cut: nat, now: int): seq<Row>
    requires cut <= |rows|
  {
    rows[cut..] + DueOnly(rows[..cut], now)
  }

  function DueOnly(rows: seq<Row>, now: int): seq<Row> {
    if rows == [] then []
    else DueOnly(rows[..|rows| - 1], now) + if Due(rows[|rows| - 1], now) then [rows[|rows| - 1]] else []
  }

  function NotDue(rows: seq<Row>, now: int): seq<Row> {
    if rows == [] then []
    else NotDue(rows[..|rows| - 1], now) + if Due(rows[|rows| - 1], now) then [] else [rows[|rows| - 1]]
  }

  lemma {:induction false} DueRows(rows: seq<Row>, now: int, r: Row)
    ensures r in DueOnly(rows, now) <==> r in rows && Due(r, now)
    ensures r in NotDue(rows, now) <==> r in rows && !Due(r, now)
  {
    if rows != [] {
      var init, last := rows[..|rows| - 1], rows[|rows| - 1];
      DueRows(init, now, r);
      assert rows == init + [last];
    }
  }

  lemma {:induction false} NotDueSize(rows: seq<Row>, now: int)
    ensures Size(NotDue(rows, now)) <= Size(rows) && |NotDue(rows, now)| <= |rows|
  {
    if rows != [] {
      var init, last := rows[..|rows| - 1], rows[|rows| - 1];
      NotDueSize(init, now);
      var kept := NotDue(init, now);
      assert (kept + [last])[..|kept|] == kept && kept + [] == kept;
    }
  }

  /** The cut of the budgets: everything before it fits, everything from it on does not. */
  ghost predicate IsCut(rows: seq<Row>, cut: nat, maxBytes: nat, maxCount: nat) {
    && cut <= |rows| && cut <= maxCount && Size(rows[..cut]) <= maxBytes
    && forall i | cut <= i < |rows| :: Over(rows, i, maxBytes, maxCount)
  }

  // ---- Which end goes ----

  /** What the sweep announces: no evicted record is younger than one that stays. */
  predicate OldestFirst(rows: seq<Row>, cut: nat) {
    forall k, e | 0 <= k < cut <= e < |rows| :: rows[e].entry.deletedAt <= rows[k].entry.deletedAt
  }

  predicate AllFit(rows: seq<Row>, maxBytes: nat, maxCount: nat) {
    Size(rows) <= maxBytes && |rows| <= maxCount
  }

  predicate NoneFits(rows: seq<Row>, maxBytes: nat, maxCount: nat) {
    rows == [] || Weight(rows[0]) > maxBytes || maxCount == 0
  }

  lemma CutAll(rows: seq<Row>, cut: nat, maxBytes: nat, maxCount: nat)
    requires IsCut(rows, cut, maxBytes, maxCount)
    ensures cut == |rows| <==> AllFit(rows, maxBytes, maxCount)
  {
    assert rows[..|rows|] == rows;
    if cut < |rows| {
      assert Over(rows, |rows| - 1, maxBytes, maxCount);
    }
  }

  lemma CutNone(rows: seq<Row>, cut: nat, maxBytes: nat, maxCount: nat)
    requires IsCut(rows, cut, maxBytes, maxCount)
    ensures cut == 0 <==> NoneFits(rows, maxBytes, maxCount)
  {
    if rows != [] {
      assert rows[..1] == [rows[0]] && [rows[0]][..0] == [];
      assert cut == 0 ==> Over(rows, 0, maxBytes, maxCount);
      if cut > 0 {
        SizePrefix(rows, 1, cut);
      }
    }
  }

  /**
   The sweep evicts oldest-first exactly when it evicts nothing, keeps nothing, or all
   records are of one age; in every other case it keeps the old and evicts the young.
   */
  lemma OldestFirstIff(rows: seq<Row>, cut: nat, maxBytes: nat, maxCount: nat)
    requires ByAge(rows) && IsCut(rows, cut, maxBytes, maxCount)
    ensures OldestFirst(rows, cut) <==>
            || AllFit(rows, maxBytes, maxCount) || NoneFits(rows, maxBytes, maxCount)
            || rows[0].entry.deletedAt == rows[|rows| - 1].entry.deletedAt
  {
    CutAll(rows, cut, maxBytes, maxCount);
    CutNone(rows, cut, maxBytes, maxCount);
    hide IsCut, AllFit, Size;
    if OldestFirst(rows, cut) && 0 < cut < |rows| {
      assert rows[|rows| - 1].entry.deletedAt <= rows[0].entry.deletedAt;
    }
  }

  /** Two records and room for one: the younger goes. */
  lemma YoungerEvicted(k: Key)
    ensures var rows := [Row([1], SoftDelEntry(k, 1, 9, 0)), Row([2], SoftDelEntry(k, 2, 9, 0))];
            && ByAge(rows) && DistinctRows(rows)
            && rows[CutOf(rows, 2, 1000, 1)..] == [rows[1]] && !OldestFirst(rows, CutOf(rows, 2, 1000, 1))
  {
    var rows := [Row([1], SoftDelEntry(k, 1, 9, 0)), Row([2], SoftDelEntry(k, 2, 9, 0))];
    assert rows[..1] == [rows[0]] && rows[..1][..0] == [] && rows[..2] == rows;
    assert Size(rows[..1]) == 96 by { SizeNext(rows, 0); }
    assert !Over(rows, 0, 1000, 1) && Over(rows, 1, 1000, 1);
    assert CutOf(rows, 1, 1000, 1) == 1 && CutOf(rows, 2, 1000, 1) == 1;
    assert rows[1].entry.deletedAt > rows[0].entry.deletedAt;
  }

  /** After a whole sweep the records left fit both budgets and none is due. */
  lemma SweptFits(records: map<Str, RecordCell>, rows: seq<Row>, cut: nat, now: int, maxBytes: nat, maxCount: nat)
    requires Lists(records, rows) && IsCut(rows, cut, maxBytes, maxCount)
    ensures Lists(records - Keys(Doomed(rows, cut, now)), NotDue(rows[..cut], now))
    ensures Size(NotDue(rows[..cut], now)) <= maxBytes && |NotDue(rows[..cut], now)| <= maxCount
    ensures forall r | r in NotDue(rows[..cut], now) :: now < r.entry.scheduledAt
  {
    hide DecodeRecord, NotDue, DueOnly, Over;
    var left, head, doomed := NotDue(rows[..cut], now), rows[..cut], Doomed(rows, cut, now);
    var after := records - Keys(doomed);
    forall r ensures (r in left <==> r in head && !Due(r, now)) && (r in DueOnly(head, now) <==> r in head && Due(r, now)) {
      DueRows(head, now, r);
    }
    assert rows == head + rows[cut..];
    forall r | r in left ensures IsRow(after, r) {
      LeftStays(rows, cut, now, r);
      assert IsRow(records, r);
    }
    forall k | k in after && after[k].Held? && DecodeRecord(after[k].doc).Some? ensures Row(k, DecodeRecord(after[k].doc).value) in left {
      var r := Row(k, DecodeRecord(after[k].doc).value);
      assert r in rows;
      assert r in doomed ==> r.key in Keys(doomed);
    }
    NotDueDistinct(head, now);
    NotDueSize(head, now);
  }

  lemma LeftStays(rows: seq<Row>, cut: nat, now: int, r: Row)
    requires DistinctRows(rows) && cut <= |rows| && r in rows[..cut] && !Due(r, now)
    ensures r.key !in Keys(Doomed(rows, cut, now))
  {
    hide DueOnly;
    forall d | d in Doomed(rows, cut, now) ensures d.key != r.key {
      DueRows(rows[..cut], now, d);
      var i :| 0 <= i < cut && rows[i] == r;
      var j :| 0 <= j < |rows| && rows[j] == d;
      assert i != j;
    }
  }

  lemma {:induction false} NotDueDistinct(rows: seq<Row>, now: int)
    requires DistinctRows(rows)
    ensures DistinctRows(NotDue(rows, now))
  {
    if rows != [] {
      var init, last := rows[..|rows| - 1], rows[|rows| - 1];
      NotDueDistinct(init, now);
      var kept := NotDue(init, now);
      forall i | 0 <= i < |kept| ensures kept[i].key != last.key {
        DueRows(init, now, kept[i]);
        var j :| 0 <= j < |init| && init[j] == kept[i];
        assert rows[j].key != rows[|rows| - 1].key;
      }
    }
  }

  // ---- The pass ----

  /** How many of the first `i` records fit the budgets. */
  function CutOf(rows: seq<Row>, i: nat, maxBytes: nat, maxCount: nat): (cut: nat)
    requires i <= |rows|
    ensures cut <= i
  {
    if i == 0 then 0
    else if Over(rows, i - 1, maxBytes, maxCount) then CutOf(rows, i - 1, maxBytes, maxCount)
    else i
  }

  lemma {:induction false} CutFits(rows: seq<Row>, i: nat, maxBytes: nat, maxCount: nat)
    requires i <= |rows|
    ensures CutOf(rows, i, maxBytes, maxCount) <= maxCount && Size(rows[..CutOf(rows, i, maxBytes, maxCount)]) <= maxBytes
    ensures forall j | CutOf(rows, i, maxBytes, maxCount) <= j < i :: Over(rows, j, maxBytes, maxCount)
  {
    if i > 0 {
      CutFits(rows, i - 1, maxBytes, maxCount);
    }
  }

  lemma CutMoves(rows: seq<Row>, i: nat, maxBytes: nat, maxCount: nat)
    requires i < |rows| && !Over(rows, i, maxBytes, maxCount)
    ensures CutOf(rows, i, maxBytes, maxCount) == i
  {
    hide Over;
    CutFits(rows, i, maxBytes, maxCount);
    if CutOf(rows, i, maxBytes, maxCount) < i {
      OverStays(rows, i - 1, i, maxBytes, maxCount);
    }
  }

  /** The first loop of the pass: which records are evicted for the budgets. */
  method Evict(rows: seq<Row>, maxBytes: nat, maxCount: nat) returns (evict: seq<Row>)
    ensures IsCut(rows, CutOf(rows, |rows|, maxBytes, maxCount), maxBytes, maxCount)
    ensures evict == rows[CutOf(rows, |rows|, maxBytes, maxCount)..]
  {
    evict := [];
    var total, count := 0, 0;
    for i := 0 to |rows|
      invariant total == Size(rows[..i]) && count == i
      invariant evict == rows[CutOf(rows, i, maxBytes, maxCount)..i]
    {
      ghost var cut := CutOf(rows, i, maxBytes, maxCount);
      hide Size;
      SizeNext(rows, i);
      total := total + rows[i].entry.bytes + REC_OVERHEAD;
      count := count + 1;
      if total > maxBytes || count > maxCount {
        assert rows[cut..i + 1] == rows[cut..i] + [rows[i]];
        evict := evict + [rows[i]];
      } else {
        CutMoves(rows, i, maxBytes, maxCount);
      }
    }
    CutFits(rows, |rows|, maxBytes, maxCount);
  }

  /** The second loop: everything due that is not evicted already. */
  method Forget(rows: seq<Row>, evict: seq<Row>, now: int, ghost cut: nat) returns (forget: seq<Row>)
    requires DistinctRows(rows) && cut <= |rows| && evict == rows[cut..]
    ensures forget == Doomed(rows, cut, now)
  {
    forget := evict;
    for i := 0 to |rows|
      invariant forget == evict + DueOnly(rows[..if i < cut then i else cut], now)
    {
      assert i < cut ==> rows[..i + 1][..i] == rows[..i];
      var evicted := rows[i] in evict;
      assert evicted <==> cut <= i by {
        if cut <= i { assert evict[i - cut] == rows[i]; }
      }
      if !Due(rows[i], now) || evicted {
        continue;
      }
      forget := forget + [rows[i]];
    }
  }

  /**
   `sweep_pass`. `fails(c)` tells whether deleting chunk `c` fails, which ends the pass.
   What goes are the first `purged` doomed records; without a failure all of them go, and
   what stays is not due and within both budgets.
   */
  method SweepPass(store: Store, now: int, maxBytes: nat, maxCount: nat, chunk: nat, fails: nat -> bool)
    returns (purged: nat, ghost rows: seq<Row>, ghost cut: nat)
    requires store.Valid()
    modifies store`records
    ensures store.Valid()
    ensures Lists(old(store.records), rows) && ByAge(rows) && IsCut(rows, cut, maxBytes, maxCount)
    ensures purged <= |Doomed(rows, cut, now)|
    ensures store.records == old(store.records) - Keys(Doomed(rows, cut, now)[..purged])
    ensures (forall c :: !fails(c)) ==>
              var left := NotDue(rows[..cut], now);
              && purged == |Doomed(rows, cut, now)| && Lists(store.records, left)
              && Size(left) <= maxBytes && |left| <= maxCount && forall r | r in left :: now < r.entry.scheduledAt
    ensures forall i | 0 <= i < cut && now < rows[i].entry.scheduledAt :: rows[i].key in store.records
    ensures (forall c :: !fails(c)) ==>
              forall i | 0 <= i < |rows| :: rows[i].key in store.records <==> i < cut && now < rows[i].entry.scheduledAt
  {
    hide Lists, IsCut, Size, Doomed, NotDue, DistinctRows;
    var found := Collect(store.records);
    var sorted := SortRows(found);
    SortedLists(store.records, found);
    var evict := Evict(sorted, maxBytes, maxCount);
    cut := CutOf(sorted, |sorted|, maxBytes, maxCount);
    assert DistinctRows(sorted) by { ListsDistinct(store.records, sorted); }
    CutBound(sorted, cut, maxBytes, maxCount);
    var forget := Forget(sorted, evict, now, cut);
    rows := sorted;
    var size := if chunk > 1 then chunk else 1;
    var c := 0;
    purged := 0;
    while purged < |forget|
      invariant purged <= |forget|
      invariant store.records == old(store.records) - Keys(forget[..purged])
      invariant RecordsOk(store.records, store.docs, store.clock, store.trace)
    {
      if fails(c) {
        break;
      }
      var next := if |forget| - purged < size then |forget| else purged + size;
      KeysMore(forget, purged, next);
      RecordsFewer(store.records, Keys(forget[purged..next]), store.docs, store.clock, store.trace);
      store.records := store.records - Keys(forget[purged..next]);
      purged := next;
      c := c + 1;
    }
    SweptFits(old(store.records), rows, cut, now, maxBytes, maxCount);
    assert forget[..|forget|] == forget;
    SweptRows(old(store.records), rows, cut, now, purged);
  }

  /** Which rows a sweep removes: of those within the budgets only what is past its time, and in the end all the rest. */
  lemma SweptRows(records: map<Str, RecordCell>, rows: seq<Row>, cut: nat, now: int, purged: nat)
    requires Lists(records, rows) && cut <= |rows| && purged <= |Doomed(rows, cut, now)|
    ensures var after := records - Keys(Doomed(rows, cut, now)[..purged]);
            && (forall i | 0 <= i < cut && now < rows[i].entry.scheduledAt :: rows[i].key in after)
            && (purged == |Doomed(rows, cut, now)| ==>
                  forall i | 0 <= i < |rows| :: rows[i].key in after <==> i < cut && now < rows[i].entry.scheduledAt)
  {
    var doomed := Doomed(rows, cut, now);
    var after := records - Keys(doomed[..purged]);
    assert forall i | 0 <= i < |rows| :: rows[i] in rows && IsRow(records, rows[i]);
    hide Lists, DueOnly, Doomed, DecodeRecord;
    ListsDistinct(records, rows);
    forall i | 0 <= i < |rows| ensures rows[i].key in Keys(doomed) <==> !(i < cut && now < rows[i].entry.scheduledAt) {
      DoomedAt(rows, cut, now, i);
    }
    assert Keys(doomed[..purged]) <= Keys(doomed);
    assert purged == |doomed| ==> doomed[..purged] == doomed;
  }

  lemma DoomedAt(rows: seq<Row>, cut: nat, now: int, i: nat)
    requires DistinctRows(rows) && cut <= |rows| && i < |rows|
    ensures rows[i].key in Keys(Doomed(rows, cut, now)) <==> i >= cut || rows[i].entry.scheduledAt <= now
  {
    hide DueOnly;
    var r, doomed := rows[i], Doomed(rows, cut, now);
    DueRows(rows[..cut], now, r);
    if i >= cut {
      assert rows[cut..][i - cut] == r && r in doomed;
    } else {
      assert rows[..cut][i] == r;
      if Due(r, now) {
        assert r in doomed;
      } else {
        LeftStays(rows, cut, now, r);
      }
    }
  }

  lemma SortedLists(records: map<Str, RecordCell>, rows: seq<Row>)
    requires Lists(records, rows)
    ensures Lists(records, SortRows(rows))
  {
    hide DecodeRecord, SortRows;
    SortDistinct(rows);
  }

  lemma ListsDistinct(records: map<Str, RecordCell>, rows: seq<Row>)
    requires Lists(records, rows)
    ensures DistinctRows(rows)
  {
  }

  lemma CutBound(rows: seq<Row>, cut: nat, maxBytes: nat, maxCount: nat)
    requires IsCut(rows, cut, maxBytes, maxCount)
    ensures cut <= |rows|
  {
  }

  lemma KeysMore(rows: seq<Row>, i: nat, j: nat)
    requires i <= j <= |rows|
    ensures Keys(rows[..j]) == Keys(rows[..i]) + Keys(rows[i..j])
  {
    assert rows[..j] == rows[..i] + rows[i..j];
  }

  lemma RecordsFewer(records: map<Str, RecordCell>, gone: set<Str>, docs: map<Key, Cell>, clock: i64, trace: seq<Event>)
    requires RecordsOk(records, docs, clock, trace)
    ensures RecordsOk(records - gone, docs, clock, trace)
  {
    hide RecordOk;
  }
}
