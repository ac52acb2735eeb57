/**
 Which records of the log take echo marks, and when a tail over records sends what a tail
 over their ops should (`sync_core.rs`, `socket_sync.rs`).
 */
module EchoMarks {
  import opened Bytes
  import opened Values
  import opened Codec
  import opened Lww
  import opened SyncCore

  type Resolve = WalOp -> Option<seq<byte>>

  predicate SameMark(a: WalOp, b: WalOp) { KeyOf(a) == KeyOf(b) && OpTime(a) == OpTime(b) }

  /** A mark is left exactly while no record has matched it. */
  lemma {:induction false} PassedAt(echo: Echo, records: seq<WalOp>, k: Str)
    ensures k in Passed(echo, records) <==> k in echo && forall r | r in records :: KeyOf(r) == k ==> OpTime(r) != echo[k]
    ensures k in Passed(echo, records) ==> Passed(echo, records)[k] == echo[k]
  {
    hide OpTime, KeyOf;
    if records != [] {
      PassedAt(echo, records[..|records| - 1], k);
      assert records == records[..|records| - 1] + [records[|records| - 1]];
    }
  }

  predicate Takes(echo: Echo, records: seq<WalOp>, i: nat)
    requires i < |records|
  {
    Hits(Passed(echo, records[..i]), records[i])
  }

  /** A record takes a mark exactly when it is the first to match it. */
  lemma TakesIff(echo: Echo, records: seq<WalOp>, i: nat)
    requires i < |records|
    ensures Takes(echo, records, i) <==> Hits(echo, records[i]) && forall j | 0 <= j < i :: !SameMark(records[j], records[i])
  {
    hide OpTime, KeyOf, Passed;
    PassedAt(echo, records[..i], KeyOf(records[i]));
    assert forall j | 0 <= j < i :: records[..i][j] == records[j] && records[j] in records[..i];
  }

  /** The first record with the mark of a matching one takes it. */
  lemma FirstMatch(echo: Echo, records: seq<WalOp>, i: nat) returns (j: nat)
    requires i < |records| && Hits(echo, records[i])
    ensures j <= i && SameMark(records[j], records[i]) && Takes(echo, records, j)
  {
    hide OpTime, KeyOf, Takes;
    TakesIff(echo, records, i);
    j := i;
    if !Takes(echo, records, i) {
      j :| 0 <= j < i && SameMark(records[j], records[i]);
      j := FirstMatch(echo, records, j);
    }
  }

  // ---- Records without a logical time ----

  predicate Timeless(r: WalOp) { r.TxMark? || r.PutPointer? || (r.PutInlined? && |r.value| < 10) }

  /** Some record before `i` has the same key, time 0 and a logical time of its own. */
  predicate TimedBefore(records: seq<WalOp>, i: nat)
    requires i < |records|
  {
    exists j :: 0 <= j < i && KeyOf(records[j]) == KeyOf(records[i]) && OpTime(records[j]) == 0 && !Timeless(records[j])
  }

  /**
   No record without a logical time matches an echo mark, exactly when each one whose key is
   marked with 0 comes behind a record of that key whose own time is 0.
   */
  lemma TimelessIff(echo: Echo, records: seq<WalOp>)
    ensures (forall i | 0 <= i < |records| && Timeless(records[i]) :: !Takes(echo, records, i)) <==>
            (forall i | 0 <= i < |records| && Timeless(records[i]) && KeyOf(records[i]) in echo && echo[KeyOf(records[i])] == 0 ::
               TimedBefore(records, i))
  {
    hide Takes, KeyOf;
    var quiet := forall i | 0 <= i < |records| && Timeless(records[i]) :: !Takes(echo, records, i);
    if quiet {
      forall i | 0 <= i < |records| && Timeless(records[i]) && KeyOf(records[i]) in echo && echo[KeyOf(records[i])] == 0
        ensures TimedBefore(records, i)
      {
        var j := FirstMatch(echo, records, i);
      }
    } else {
      var i :| 0 <= i < |records| && Timeless(records[i]) && Takes(echo, records, i);
      TakesIff(echo, records, i);
    }
  }

  /** A transaction mark takes the mark of an op with the empty key and stamp 0, which then bounces. */
  lemma MarkTaken(resolve: Resolve)
    ensures var records, echo := [TxMark, Delete([], 0)], map[[] := 0];
            Sent(echo, {}, resolve, records) == [Delete([], 0)] && Unechoed(echo, DecodedAll(records)) == []
  {
    var records, echo, op := [TxMark, Delete([], 0)], map[[] := 0], Op([], Entry(0, Gone));
    assert records[..1] == [TxMark] && [TxMark][..0] == [] && [op][..0] == [];
    assert Passed(echo, [TxMark]) == map[];
    assert Sent(echo, {}, resolve, [TxMark]) == [];
    assert DecodedAll([TxMark]) == [] && DecodedAll(records) == [op];
  }

  // ---- A tail over records against a tail over ops ----

  lemma {:induction false} EchoLeftAt(echo: Echo, ops: seq<Op>, k: Str)
    ensures k in EchoLeft(echo, ops) <==> k in echo && forall op | op in ops :: op.key == k ==> op.entry.stamp != echo[k]
    ensures k in EchoLeft(echo, ops) ==> EchoLeft(echo, ops)[k] == echo[k]
  {
    if ops != [] {
      EchoLeftAt(echo, ops[..|ops| - 1], k);
      assert ops == ops[..|ops| - 1] + [ops[|ops| - 1]];
    }
  }

  lemma {:induction false} DecodedIn(records: seq<WalOp>, op: Op)
    ensures op in DecodedAll(records) <==> exists r :: r in records && Decoded(r) == Some(op)
  {
    hide Decoded;
    if records != [] {
      var init, last := records[..|records| - 1], records[|records| - 1];
      DecodedIn(init, op);
      assert records == init + [last];
      if Decoded(last) == Some(op) {
        assert last in records;
      }
    }
  }

  /** A mark survives the ops of the log exactly while no record that carries an op has matched it. */
  lemma LeftAt(echo: Echo, records: seq<WalOp>, k: Str)
    ensures k in EchoLeft(echo, DecodedAll(records)) <==>
            k in echo && forall r | r in records && Decoded(r).Some? :: KeyOf(r) == k ==> OpTime(r) != echo[k]
  {
    var ops := DecodedAll(records);
    EchoLeftAt(echo, ops, k);
    forall r | r in records && Decoded(r).Some?
      ensures Decoded(r).value in ops && KeyOf(r) == Decoded(r).value.key && OpTime(r) == Decoded(r).value.entry.stamp
    {
      OpTimeExact(r);
      DecodedIn(records, Decoded(r).value);
    }
    forall op | op in ops ensures exists r :: r in records && Decoded(r) == Some(op) {
      DecodedIn(records, op);
    }
    hide OpTime, KeyOf, Decoded, EchoLeft, DecodedAll;
  }

  /** No put points to a document that can be read: the log holds its documents itself. */
  predicate Inline(resolve: Resolve, r: WalOp) {
    r.PutPointer? ==> Outgoing(resolve, r).None? || Decoded(Outgoing(resolve, r).value).None?
  }

  function SentOps(echo: Echo, localOnly: set<Str>, resolve: Resolve, records: seq<WalOp>): seq<Op> {
    DecodedAll(Sent(echo, localOnly, resolve, records))
  }

  function DueOps(echo: Echo, localOnly: set<Str>, records: seq<WalOp>): seq<Op> {
    SyncCore.Shared(localOnly, Unechoed(echo, DecodedAll(records)))
  }

  /** What one more record adds to either. */
  lemma RoundStep(echo: Echo, localOnly: set<Str>, resolve: Resolve, init: seq<WalOp>, r: WalOp)
    requires Inline(resolve, r)
    ensures SentOps(echo, localOnly, resolve, init + [r]) == SentOps(echo, localOnly, resolve, init) +
            if Decoded(r).None? || Hits(Passed(echo, init), r) || KeyOf(r) in localOnly then [] else [Decoded(r).value]
    ensures DueOps(echo, localOnly, init + [r]) == DueOps(echo, localOnly, init) +
            if Decoded(r).None? || Hits(EchoLeft(echo, DecodedAll(init)), r) || KeyOf(r) in localOnly then [] else [Decoded(r).value]
  {
    hide DecodeDoc, ReadU64, Genuine, SyncCore.Shared, Unechoed, EchoLeft, DecodedAll;
    assert (init + [r])[..|init|] == init;
    DecodedLast(init, r);
    var sent, out := Sent(echo, localOnly, resolve, init), Outgoing(resolve, r);
    if out.Some? {
      DecodedLast(sent, out.value);
    }
    assert sent + [] == sent && DecodedAll(sent) + [] == DecodedAll(sent);
    var due := DueOps(echo, localOnly, init);
    assert due + [] == due && DecodedAll(init) + [] == DecodedAll(init);
    if Decoded(r).Some? {
      OpTimeExact(r);
      TailStep(echo, localOnly, DecodedAll(init), Decoded(r).value);
    }
  }

  /** Marks left by the records are left by their ops. */
  lemma PassedLeft(echo: Echo, records: seq<WalOp>, k: Str)
    requires k in Passed(echo, records)
    ensures k in EchoLeft(echo, DecodedAll(records))
  {
    hide OpTime, KeyOf, Decoded, EchoLeft, DecodedAll, Passed;
    PassedAt(echo, records, k);
    LeftAt(echo, records, k);
  }

  lemma SameValue(echo: Echo, records: seq<WalOp>, r: WalOp)
    ensures Hits(Passed(echo, records), r) ==> Hits(echo, r) && Hits(EchoLeft(echo, DecodedAll(records)), r)
    ensures Hits(EchoLeft(echo, DecodedAll(records)), r) ==>
              Hits(echo, r) && (KeyOf(r) in Passed(echo, records) ==> Hits(Passed(echo, records), r))
  {
    hide OpTime, KeyOf, DecodedAll, EchoLeft, Passed;
    PassedAt(echo, records, KeyOf(r));
    EchoLeftAt(echo, DecodedAll(records), KeyOf(r));
    if KeyOf(r) in Passed(echo, records) {
      PassedLeft(echo, records, KeyOf(r));
    }
  }

  // ---- Enough ----

  /** A record without an op that matches a mark comes behind one with an op, or is local only and there is one. */
  predicate Excused(localOnly: set<Str>, records: seq<WalOp>, i: nat)
    requires i < |records|
  {
    exists j :: 0 <= j < |records| && Decoded(records[j]).Some? && SameMark(records[j], records[i])
                && (j < i || KeyOf(records[i]) in localOnly)
  }

  predicate Straight(echo: Echo, localOnly: set<Str>, records: seq<WalOp>) {
    forall i | 0 <= i < |records| && Decoded(records[i]).None? && Hits(echo, records[i]) :: Excused(localOnly, records, i)
  }

  lemma StraightMarks(echo: Echo, localOnly: set<Str>, records: seq<WalOp>)
    requires Straight(echo, localOnly, records)
    ensures Passed(echo, records) == EchoLeft(echo, DecodedAll(records))
  {
    hide OpTime, KeyOf, Decoded, EchoLeft, DecodedAll, Passed;
    var a, b := Passed(echo, records), EchoLeft(echo, DecodedAll(records));
    forall k ensures (k in a <==> k in b) && (k in a ==> a[k] == b[k]) {
      PassedAt(echo, records, k);
      LeftAt(echo, records, k);
      EchoLeftAt(echo, DecodedAll(records), k);
    }
  }

  /** Up to `n`, a key that is not local only has the same mark left in both. */
  lemma StraightKey(echo: Echo, localOnly: set<Str>, records: seq<WalOp>, n: nat, k: Str)
    requires Straight(echo, localOnly, records) && n <= |records| && k !in localOnly
    ensures k in EchoLeft(echo, DecodedAll(records[..n])) ==> k in Passed(echo, records[..n])
  {
    hide OpTime, KeyOf, Decoded, EchoLeft, DecodedAll, Passed;
    PassedAt(echo, records[..n], k);
    LeftAt(echo, records[..n], k);
  }

  lemma {:induction false} StraightSent(echo: Echo, localOnly: set<Str>, resolve: Resolve, records: seq<WalOp>, n: nat)
    requires Straight(echo, localOnly, records) && n <= |records| && forall r | r in records :: Inline(resolve, r)
    ensures SentOps(echo, localOnly, resolve, records[..n]) == DueOps(echo, localOnly, records[..n])
  {
    hide OpTime, KeyOf, Decoded, EchoLeft, DecodedAll, Passed, SentOps, DueOps, Straight, Inline;
    if n == 0 {
      NothingYet(echo, localOnly, resolve);
    } else {
      var init, r := records[..n - 1], records[n - 1];
      assert records[..n] == init + [r] && r in records;
      StraightSent(echo, localOnly, resolve, records, n - 1);
      RoundStep(echo, localOnly, resolve, init, r);
      SameValue(echo, init, r);
      if KeyOf(r) !in localOnly {
        StraightKey(echo, localOnly, records, n - 1, KeyOf(r));
      }
    }
  }

  lemma NothingYet(echo: Echo, localOnly: set<Str>, resolve: Resolve)
    ensures SentOps(echo, localOnly, resolve, []) == [] && DueOps(echo, localOnly, []) == []
  {
  }

  // ---- Needed ----

  /** How many ops too many are sent. */
  function Excess(echo: Echo, localOnly: set<Str>, resolve: Resolve, records: seq<WalOp>): int {
    |SentOps(echo, localOnly, resolve, records)| - |DueOps(echo, localOnly, records)|
  }

  lemma ExcessStep(echo: Echo, localOnly: set<Str>, resolve: Resolve, init: seq<WalOp>, r: WalOp)
    requires Inline(resolve, r)
    ensures Excess(echo, localOnly, resolve, init) <= Excess(echo, localOnly, resolve, init + [r])
    ensures Decoded(r).Some? && KeyOf(r) !in localOnly && Hits(EchoLeft(echo, DecodedAll(init)), r) && !Hits(Passed(echo, init), r) ==>
              Excess(echo, localOnly, resolve, init) < Excess(echo, localOnly, resolve, init + [r])
  {
    hide OpTime, KeyOf, Decoded, EchoLeft, DecodedAll, Passed, SentOps, DueOps, Inline;
    RoundStep(echo, localOnly, resolve, init, r);
    SameValue(echo, init, r);
  }

  /** The excess only grows along the log. */
  lemma {:induction false} ExcessGrows(echo: Echo, localOnly: set<Str>, resolve: Resolve, records: seq<WalOp>, n: nat)
    requires n <= |records| && forall r | r in records :: Inline(resolve, r)
    ensures Excess(echo, localOnly, resolve, records[..n]) <= Excess(echo, localOnly, resolve, records)
    decreases |records| - n
  {
    hide Excess, Inline, Decoded;
    if n == |records| {
      assert records[..n] == records;
    } else {
      assert records[..n + 1] == records[..n] + [records[n]] && records[n] in records;
      ExcessStep(echo, localOnly, resolve, records[..n], records[n]);
      ExcessGrows(echo, localOnly, resolve, records, n + 1);
    }
  }

  /** The first record with an op that matches like `i`. */
  lemma FirstOp(records: seq<WalOp>, i: nat, j: nat) returns (f: nat)
    requires i < |records| && j < |records| && Decoded(records[j]).Some? && SameMark(records[j], records[i])
    ensures f <= j && Decoded(records[f]).Some? && SameMark(records[f], records[i])
    ensures forall l | 0 <= l < f && Decoded(records[l]).Some? :: !SameMark(records[l], records[i])
  {
    hide Decoded, SameMark;
    f := j;
    if l :| 0 <= l < j && Decoded(records[l]).Some? && SameMark(records[l], records[i]) {
      f := FirstOp(records, i, l);
    }
  }

  /** A matching record without an op ahead of the first with one makes that op go out in excess. */
  lemma StrayCosts(echo: Echo, localOnly: set<Str>, resolve: Resolve, records: seq<WalOp>, i: nat, f: nat)
    requires i < f < |records| && Hits(echo, records[i]) && KeyOf(records[i]) !in localOnly
    requires Decoded(records[f]).Some? && SameMark(records[f], records[i])
    requires forall l | 0 <= l < f && Decoded(records[l]).Some? :: !SameMark(records[l], records[i])
    requires forall r | r in records :: Inline(resolve, r)
    ensures 0 < Excess(echo, localOnly, resolve, records)
  {
    hide OpTime, KeyOf, Decoded, EchoLeft, DecodedAll, Passed, Excess, Inline;
    var k, before := KeyOf(records[i]), records[..f];
    assert before[i] == records[i] && before[i] in before;
    PassedAt(echo, before, k);
    LeftAt(echo, before, k);
    EchoLeftAt(echo, DecodedAll(before), k);
    assert records[..f + 1] == before + [records[f]] && records[f] in records;
    ExcessStep(echo, localOnly, resolve, before, records[f]);
    ExcessGrows(echo, localOnly, resolve, records, f + 1);
    ExcessGrows(echo, localOnly, resolve, before, 0);
    assert before[..0] == [];
    NoExcess(echo, localOnly, resolve);
  }

  lemma NoExcess(echo: Echo, localOnly: set<Str>, resolve: Resolve)
    ensures Excess(echo, localOnly, resolve, []) == 0
  {
    NothingYet(echo, localOnly, resolve);
  }

  lemma StraightNeeded(echo: Echo, localOnly: set<Str>, resolve: Resolve, records: seq<WalOp>, i: nat)
    requires i < |records| && Decoded(records[i]).None? && Hits(echo, records[i]) && forall r | r in records :: Inline(resolve, r)
    requires SentOps(echo, localOnly, resolve, records) == DueOps(echo, localOnly, records)
    requires Passed(echo, records) == EchoLeft(echo, DecodedAll(records))
    ensures Excused(localOnly, records, i)
  {
    hide OpTime, KeyOf, Decoded, EchoLeft, DecodedAll, Passed, SentOps, DueOps, Inline;
    var k := KeyOf(records[i]);
    PassedAt(echo, records, k);
    LeftAt(echo, records, k);
    var r :| r in records && Decoded(r).Some? && KeyOf(r) == k && OpTime(r) == echo[k];
    var j :| 0 <= j < |records| && records[j] == r;
    var f := FirstOp(records, i, j);
    if k !in localOnly && i < f {
      StrayCosts(echo, localOnly, resolve, records, i, f);
    }
  }

  /**
   A tail sends the ops it should and leaves the marks it should, exactly when every record
   without an op that matches a mark is behind a record with an op that does, or is local only
   and there is such a record anywhere.
   */
  lemma SentExact(echo: Echo, localOnly: set<Str>, resolve: Resolve, records: seq<WalOp>)
    requires forall r | r in records :: Inline(resolve, r)
    ensures SentOps(echo, localOnly, resolve, records) == DueOps(echo, localOnly, records)
            && Passed(echo, records) == EchoLeft(echo, DecodedAll(records))
            <==> Straight(echo, localOnly, records)
  {
    hide Decoded, EchoLeft, DecodedAll, Passed, SentOps, DueOps, Inline, Hits, Excused;
    if Straight(echo, localOnly, records) {
      assert records[..|records|] == records;
      StraightSent(echo, localOnly, resolve, records, |records|);
      StraightMarks(echo, localOnly, records);
    } else if SentOps(echo, localOnly, resolve, records) == DueOps(echo, localOnly, records)
              && Passed(echo, records) == EchoLeft(echo, DecodedAll(records)) {
      var i :| 0 <= i < |records| && Decoded(records[i]).None? && Hits(echo, records[i]) && !Excused(localOnly, records, i);
      StraightNeeded(echo, localOnly, resolve, records, i);
    }
  }
}
