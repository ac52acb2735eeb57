/** What grouping conserves, and the stages of a pipeline over rows (`pipeline.rs`). */
module PipelineStages {
  import opened Bytes
  import opened Values
  import opened ValueOrder
  import opened Pipeline

  // ---- Conservation ----

  function SumSeq(xs: seq<int>): int { if xs == [] then 0 else SumSeq(xs[..|xs| - 1]) + xs[|xs| - 1] }

  lemma {:induction false} SumSeqUpdate(xs: seq<int>, i: nat, d: int)
    requires i < |xs|
    ensures SumSeq(xs[i := xs[i] + d]) == SumSeq(xs) + d
  {
    var ys := xs[i := xs[i] + d];
    if i < |xs| - 1 {
      SumSeqUpdate(xs[..|xs| - 1], i, d);
      assert ys[..|xs| - 1] == xs[..|xs| - 1][i := xs[i] + d];
    } else {
      assert ys[..|xs| - 1] == xs[..|xs| - 1];
    }
  }

  lemma {:induction false} SumSeqZero(xs: seq<int>)
    requires forall i | 0 <= i < |xs| :: xs[i] == 0
    ensures SumSeq(xs) == 0
  {
    if xs != [] {
      SumSeqZero(xs[..|xs| - 1]);
    }
  }

  type Weight = HakoDoc -> int

  function Total(w: Weight, rows: seq<Row>): int {
    if rows == [] then 0 else Total(w, rows[..|rows| - 1]) + w(rows[|rows| - 1].doc)
  }

  /** The total of each group. */
  function Totals(fl: ToFloat, w: Weight, rows: seq<Row>, key: Option<Str>, keys: seq<Key>): (r: seq<int>)
    ensures |r| == |keys|
  {
    seq(|keys|, i requires 0 <= i < |keys| => Total(w, RowsWith(fl, rows, key, keys[i])))
  }

  /** No two keys are alike. */
  predicate DistinctKeys(fl: ToFloat, keys: seq<Key>) { forall i, j | 0 <= i < j < |keys| :: !Alike(fl, keys[i], keys[j]) }

  /** All the keys in question can be compared. */
  ghost predicate Comparable(fl: ToFloat, all: set<Key>, rows: seq<Row>, key: Option<Str>, keys: seq<Key>) {
    Orderly(fl, all) && KeySet(rows, key) <= all && forall k | k in keys :: k in all
  }

  lemma OneKey(fl: ToFloat, all: set<Key>, k: Key, keys: seq<Key>, i: nat, n: nat)
    requires Orderly(fl, all) && k in all && (forall x | x in keys :: x in all) && DistinctKeys(fl, keys)
    requires i < |keys| && n < |keys| && i != n && Alike(fl, k, keys[n])
    ensures !Alike(fl, k, keys[i])
  {
    hide CmpKey, Orderly;
    assert keys[i] in keys && keys[n] in keys;
    AlikeSame(fl, all, k, keys[n], keys[i]);
    KeyFlip(fl, keys[i], keys[n]);
  }

  lemma TotalsNext(fl: ToFloat, w: Weight, rows: seq<Row>, row: Row, key: Option<Str>, keys: seq<Key>, n: nat)
    requires n < |keys| && forall i | 0 <= i < |keys| :: Alike(fl, KeyOf(key, row.doc), keys[i]) <==> i == n
    ensures Totals(fl, w, rows + [row], key, keys) ==
            Totals(fl, w, rows, key, keys)[n := Totals(fl, w, rows, key, keys)[n] + w(row.doc)]
  {
    hide KeyOf, RowsWith, Alike;
    forall i | 0 <= i < |keys|
      ensures Total(w, RowsWith(fl, rows + [row], key, keys[i])) == Total(w, RowsWith(fl, rows, key, keys[i])) + if i == n then w(row.doc) else 0
    {
      RowsWithNext(fl, rows, row, key, keys[i]);
      var before := RowsWith(fl, rows, key, keys[i]);
      assert (before + [row])[..|before|] == before;
    }
  }

  /** What distinct keys that cover the rows add up to is the total over all rows. */
  lemma {:induction false} TotalsConserved(fl: ToFloat, all: set<Key>, w: Weight, rows: seq<Row>, key: Option<Str>, keys: seq<Key>)
    requires Comparable(fl, all, rows, key, keys) && DistinctKeys(fl, keys)
    requires forall r | r in rows :: exists n :: 0 <= n < |keys| && Alike(fl, KeyOf(key, r.doc), keys[n])
    ensures SumSeq(Totals(fl, w, rows, key, keys)) == Total(w, rows)
  {
    hide KeyOf, SumSeq, Totals, DistinctKeys, RowsWith, Alike, Orderly;
    if rows == [] {
      NoTotals(fl, w, key, keys);
    } else {
      var init, row := rows[..|rows| - 1], rows[|rows| - 1];
      assert Total(w, rows) == Total(w, init) + w(row.doc);
      hide Total;
      assert row in rows && rows == init + [row];
      assert KeySet(init, key) <= KeySet(rows, key);
      TotalsConserved(fl, all, w, init, key, keys);
      var n :| 0 <= n < |keys| && Alike(fl, KeyOf(key, row.doc), keys[n]);
      forall i | 0 <= i < |keys| ensures Alike(fl, KeyOf(key, row.doc), keys[i]) <==> i == n {
        if i != n {
          OneKey(fl, all, KeyOf(key, row.doc), keys, i, n);
        }
      }
      TotalsNext(fl, w, init, row, key, keys, n);
      SumSeqUpdate(Totals(fl, w, init, key, keys), n, w(row.doc));
    }
  }

  lemma NoTotals(fl: ToFloat, w: Weight, key: Option<Str>, keys: seq<Key>)
    ensures SumSeq(Totals(fl, w, [], key, keys)) == 0
  {
    SumSeqZero(Totals(fl, w, [], key, keys));
  }

  function KeysOf(groups: seq<Group>): (r: seq<Key>)
    ensures |r| == |groups|
  {
    seq(|groups|, i requires 0 <= i < |groups| => groups[i].key)
  }

  /** No two groups have alike keys, every group has a key that occurs, and every row has a group. */
  lemma GroupKeys(fp: FloatOps, rows: seq<Row>, key: Option<Str>, accums: seq<Accum>, groups: seq<Group>)
    requires Grouped(fp, rows, key, accums, groups)
    ensures DistinctKeys(fp.ofInt, KeysOf(groups))
    ensures forall k | k in KeysOf(groups) :: k in KeySet(rows, key)
    ensures forall r | r in rows :: exists n :: 0 <= n < |groups| && Alike(fp.ofInt, KeyOf(key, r.doc), KeysOf(groups)[n])
  {
    hide GroupOf, CmpKey, KeyOf, KeySet;
    var keys := KeysOf(groups);
    forall i | 0 <= i < |groups| ensures groups[i].key in KeySet(rows, key) {
      GroupOccurs(fp, rows, key, accums, groups[i]);
    }
    forall r | r in rows ensures exists n :: 0 <= n < |groups| && Alike(fp.ofInt, KeyOf(key, r.doc), keys[n]) {
      var g :| g in groups && Alike(fp.ofInt, KeyOf(key, r.doc), g.key);
      var i :| 0 <= i < |groups| && groups[i] == g;
      assert keys[i] == g.key;
    }
  }

  lemma GroupOccurs(fp: FloatOps, rows: seq<Row>, key: Option<Str>, accums: seq<Accum>, g: Group)
    requires GroupOf(fp, rows, key, accums, g)
    ensures g.key in KeySet(rows, key)
  {
    hide States, Alike, KeyOf, RowsWith;
    RowsWithKey(fp.ofInt, rows, key, g.key, RowsWith(fp.ofInt, rows, key, g.key)[0]);
  }

  function Ones(): Weight { (d: HakoDoc) => 1 }

  lemma {:induction false} FoldRows(fp: FloatOps, op: Accum, rows: seq<Row>)
    ensures Fold(fp, op, rows).rows == |rows|
    ensures Total(Ones(), rows) == |rows|
  {
    if rows != [] {
      FoldRows(fp, op, rows[..|rows| - 1]);
    }
  }

  function CountsAt(groups: seq<Group>, j: nat): seq<int>
    requires forall g | g in groups :: j < |g.states|
  {
    seq(|groups|, i requires 0 <= i < |groups| => assert groups[i] in groups; groups[i].states[j].rows)
  }

  function SumsAt(groups: seq<Group>, j: nat): seq<int>
    requires forall g | g in groups :: j < |g.states|
  {
    seq(|groups|, i requires 0 <= i < |groups| => assert groups[i] in groups; groups[i].states[j].sumI)
  }

  /** What the groups weigh adds up to what the rows weigh. */
  lemma GroupTotals(fp: FloatOps, w: Weight, rows: seq<Row>, key: Option<Str>, accums: seq<Accum>, groups: seq<Group>)
    requires Grouped(fp, rows, key, accums, groups) && Orderly(fp.ofInt, KeySet(rows, key))
    ensures SumSeq(Totals(fp.ofInt, w, rows, key, KeysOf(groups))) == Total(w, rows)
  {
    hide Grouped, KeyOf, RowsWith, SumSeq, Total, Totals, Orderly, Alike, KeySet, DistinctKeys, KeysOf;
    GroupKeys(fp, rows, key, accums, groups);
    TotalsConserved(fp.ofInt, KeySet(rows, key), w, rows, key, KeysOf(groups));
  }

  /** A state of a group is the fold over its rows. */
  lemma StateAt(fp: FloatOps, rows: seq<Row>, key: Option<Str>, accums: seq<Accum>, groups: seq<Group>, i: nat, j: nat)
    requires Grouped(fp, rows, key, accums, groups) && i < |groups| && j < |accums|
    ensures j < |groups[i].states| && groups[i].states[j] == Fold(fp, accums[j], RowsWith(fp.ofInt, rows, key, groups[i].key))
  {
    hide CmpKey, KeyOf, RowsWith, Fold, Alike, Ascending;
    assert GroupOf(fp, rows, key, accums, groups[i]);
  }

  /** The counts of the groups add up to the number of rows. */
  lemma CountsConserved(fp: FloatOps, rows: seq<Row>, key: Option<Str>, accums: seq<Accum>, groups: seq<Group>, j: nat)
    requires Grouped(fp, rows, key, accums, groups) && Orderly(fp.ofInt, KeySet(rows, key)) && j < |accums|
    ensures forall g | g in groups :: j < |g.states|
    ensures SumSeq(CountsAt(groups, j)) == |rows|
  {
    var keys := KeysOf(groups);
    GroupTotals(fp, Ones(), rows, key, accums, groups);
    hide Grouped, KeyOf, RowsWith, SumSeq, Fold, Total, Orderly, Alike, KeySet, Ones;
    forall i | 0 <= i < |groups| ensures j < |groups[i].states| && groups[i].states[j].rows == Total(Ones(), RowsWith(fp.ofInt, rows, key, keys[i])) {
      StateAt(fp, rows, key, accums, groups, i, j);
      FoldRows(fp, accums[j], RowsWith(fp.ofInt, rows, key, keys[i]));
    }
    assert CountsAt(groups, j) == Totals(fp.ofInt, Ones(), rows, key, keys);
    FoldRows(fp, accums[j], rows);
  }

  /** What a row adds to an integer sum. */
  function IntAt(field: Str): Weight {
    (d: HakoDoc) => match PathValue(d, field) case Some(Int(i)) => i case _ => 0
  }

  /** No partial sum leaves the range of a 64-bit integer. */
  predicate Exact(field: Str, rows: seq<Row>) {
    forall n | 0 <= n <= |rows| :: Pipeline.I64_MIN <= Total(IntAt(field), rows[..n]) <= Pipeline.I64_MAX
  }

  lemma {:induction false} FoldSum(fp: FloatOps, field: Str, rows: seq<Row>)
    requires Exact(field, rows)
    ensures Fold(fp, Sum(field), rows).sumI == Total(IntAt(field), rows)
  {
    if rows != [] {
      var init := rows[..|rows| - 1];
      forall n | 0 <= n <= |init| ensures Pipeline.I64_MIN <= Total(IntAt(field), init[..n]) <= Pipeline.I64_MAX {
        assert init[..n] == rows[..n];
      }
      FoldSum(fp, field, init);
      assert rows[..|rows|] == rows;
    }
  }

  /** Over numbers that are not negative the sum is exact, or the greatest integer if it exceeds that. */
  lemma {:induction false} FoldSumClamped(fp: FloatOps, field: Str, rows: seq<Row>)
    requires forall r | r in rows :: IntAt(field)(r.doc) >= 0
    ensures 0 <= Total(IntAt(field), rows) && Fold(fp, Sum(field), rows).sumI == Saturate(Total(IntAt(field), rows))
  {
    if rows != [] {
      FoldSumClamped(fp, field, rows[..|rows| - 1]);
      assert rows[|rows| - 1] in rows;
    }
  }

  /** Each number, clamped. */
  function Clamped(xs: seq<int>): seq<int> { seq(|xs|, i requires 0 <= i < |xs| => Saturate(xs[i])) }

  predicate NotNegative(xs: seq<int>) { forall i | 0 <= i < |xs| :: 0 <= xs[i] }

  lemma ClampedLast(xs: seq<int>)
    requires xs != []
    ensures SumSeq(Clamped(xs)) == SumSeq(Clamped(xs[..|xs| - 1])) + Saturate(xs[|xs| - 1])
  {
    hide Saturate;
    assert Clamped(xs)[..|xs| - 1] == Clamped(xs[..|xs| - 1]);
  }

  lemma {:induction false} ClampedPositive(xs: seq<int>)
    requires NotNegative(xs)
    ensures 0 <= SumSeq(Clamped(xs)) && 0 <= SumSeq(xs) && (SumSeq(Clamped(xs)) == 0 <==> SumSeq(xs) == 0)
  {
    if xs != [] {
      ClampedPositive(xs[..|xs| - 1]);
      ClampedLast(xs);
      hide Clamped;
    }
  }

  /** One number against the clamped sum: it is all of it exactly when it is all of the sum. */
  lemma {:induction false} ClampedPart(xs: seq<int>, i: nat)
    requires NotNegative(xs) && i < |xs|
    ensures xs[i] <= SumSeq(xs) && Saturate(xs[i]) <= SumSeq(Clamped(xs))
    ensures Saturate(xs[i]) == SumSeq(Clamped(xs)) <==> xs[i] == SumSeq(xs)
  {
    var init := xs[..|xs| - 1];
    ClampedLast(xs);
    hide Clamped;
    if i < |xs| - 1 {
      ClampedPart(init, i);
    } else {
      ClampedPositive(init);
    }
  }

  lemma {:induction false} ClampedSame(xs: seq<int>)
    requires NotNegative(xs) && forall i | 0 <= i < |xs| :: xs[i] <= Pipeline.I64_MAX
    ensures SumSeq(Clamped(xs)) == SumSeq(xs)
  {
    if xs != [] {
      ClampedSame(xs[..|xs| - 1]);
      ClampedLast(xs);
    }
  }

  /** The clamped numbers add up to the clamped sum exactly when nothing is clamped or one number is all of it. */
  lemma ClampedIff(xs: seq<int>)
    requires NotNegative(xs)
    ensures SumSeq(Clamped(xs)) == Saturate(SumSeq(xs)) <==>
            SumSeq(xs) <= Pipeline.I64_MAX || exists i :: 0 <= i < |xs| && xs[i] == SumSeq(xs)
  {
    hide SumSeq, Clamped;
    ClampedPositive(xs);
    forall i | 0 <= i < |xs|
      ensures xs[i] <= SumSeq(xs) && (Saturate(xs[i]) == SumSeq(Clamped(xs)) <==> xs[i] == SumSeq(xs))
    {
      ClampedPart(xs, i);
    }
    if forall i | 0 <= i < |xs| :: xs[i] <= Pipeline.I64_MAX {
      ClampedSame(xs);
    }
  }

  /** Two rows that hold the greatest integer: the sum stays there. */
  lemma SumSaturates(fp: FloatOps, field: Str, row: Row)
    requires PathValue(row.doc, field) == Some(Int(Pipeline.I64_MAX))
    ensures Fold(fp, Sum(field), [row, row]).sumI == Pipeline.I64_MAX < Total(IntAt(field), [row, row])
  {
    hide PathValue;
    assert [row, row][..1] == [row] && [row][..0] == [];
    assert Total(IntAt(field), [row]) == Pipeline.I64_MAX;
    assert Fold(fp, Sum(field), [row]).sumI == Pipeline.I64_MAX;
  }

  /** Without saturation the integer sums of the groups add up to the ungrouped sum. */
  lemma SumsConserved(fp: FloatOps, rows: seq<Row>, key: Option<Str>, accums: seq<Accum>, groups: seq<Group>, j: nat)
    requires Grouped(fp, rows, key, accums, groups) && Orderly(fp.ofInt, KeySet(rows, key))
    requires j < |accums| && accums[j].Sum? && Exact(accums[j].field, rows)
    requires forall g | g in groups :: Exact(accums[j].field, RowsWith(fp.ofInt, rows, key, g.key))
    ensures forall g | g in groups :: j < |g.states|
    ensures SumSeq(SumsAt(groups, j)) == Fold(fp, accums[j], rows).sumI
  {
    var keys, f := KeysOf(groups), accums[j].field;
    GroupTotals(fp, IntAt(f), rows, key, accums, groups);
    hide Grouped, KeyOf, RowsWith, SumSeq, Fold, Total, Exact, Orderly, Alike, KeySet;
    forall i | 0 <= i < |groups| ensures j < |groups[i].states| && groups[i].states[j].sumI == Total(IntAt(f), RowsWith(fp.ofInt, rows, key, keys[i])) {
      StateAt(fp, rows, key, accums, groups, i, j);
      FoldSum(fp, f, RowsWith(fp.ofInt, rows, key, keys[i]));
    }
    assert SumsAt(groups, j) == Totals(fp.ofInt, IntAt(f), rows, key, keys);
    FoldSum(fp, f, rows);
  }

  /**
   Over numbers that are not negative the sums of the groups add up to the ungrouped sum
   exactly when that does not saturate, or one group has all of it.
   */
  lemma SumsConservedIff(fp: FloatOps, rows: seq<Row>, key: Option<Str>, accums: seq<Accum>, groups: seq<Group>, j: nat)
    requires Grouped(fp, rows, key, accums, groups) && Orderly(fp.ofInt, KeySet(rows, key))
    requires j < |accums| && accums[j].Sum? && forall r | r in rows :: IntAt(accums[j].field)(r.doc) >= 0
    ensures forall g | g in groups :: j < |g.states|
    ensures var w := IntAt(accums[j].field);
            SumSeq(SumsAt(groups, j)) == Fold(fp, accums[j], rows).sumI <==>
            || Total(w, rows) <= Pipeline.I64_MAX
            || exists i :: 0 <= i < |groups| && Total(w, RowsWith(fp.ofInt, rows, key, groups[i].key)) == Total(w, rows)
  {
    var keys, w := KeysOf(groups), IntAt(accums[j].field);
    var totals := Totals(fp.ofInt, w, rows, key, keys);
    GroupTotals(fp, w, rows, key, accums, groups);
    hide Grouped, KeyOf, RowsWith, SumSeq, Fold, Total, Orderly, Alike, KeySet, IntAt, Saturate;
    forall i | 0 <= i < |groups| ensures j < |groups[i].states| && groups[i].states[j].sumI == Saturate(totals[i]) && 0 <= totals[i] {
      StateAt(fp, rows, key, accums, groups, i, j);
      PartNotNegative(fp.ofInt, w, rows, key, keys[i]);
      FoldSumClamped(fp, accums[j].field, RowsWith(fp.ofInt, rows, key, keys[i]));
    }
    assert SumsAt(groups, j) == Clamped(totals);
    FoldSumClamped(fp, accums[j].field, rows);
    ClampedIff(totals);
    assert forall i | 0 <= i < |groups| :: totals[i] == Total(w, RowsWith(fp.ofInt, rows, key, groups[i].key));
  }

  lemma PartNotNegative(fl: ToFloat, w: Weight, rows: seq<Row>, key: Option<Str>, k: Key)
    requires forall r | r in rows :: w(r.doc) >= 0
    ensures forall r | r in RowsWith(fl, rows, key, k) :: w(r.doc) >= 0
  {
    hide RowsWith;
    forall r | r in RowsWith(fl, rows, key, k) ensures w(r.doc) >= 0 {
      RowsWithKey(fl, rows, key, k, r);
    }
  }

  /** The numbers a field takes over the rows, in order. */
  function Numbers(field: Str, rows: seq<Row>): seq<Value> {
    if rows == [] then []
    else Numbers(field, rows[..|rows| - 1]) +
         match PathValue(rows[|rows| - 1].doc, field) case Some(Int(i)) => [Int(i)] case Some(Float(f)) => [Float(f)] case _ => []
  }

  /** Float addition in row order, from zero. */
  function FloatTotal(fp: FloatOps, numbers: seq<Value>): u64 {
    if numbers == [] then 0
    else
      var rest := FloatTotal(fp, numbers[..|numbers| - 1]);
      match numbers[|numbers| - 1] case Int(i) => fp.add(rest, fp.ofInt(i)) case Float(f) => fp.add(rest, f) case _ => rest
  }

  predicate NoFloats(numbers: seq<Value>) { forall v | v in numbers :: !v.Float? }

  /** What one more number does to the float sum. */
  lemma FloatTotalNext(fp: FloatOps, ns: seq<Value>, v: Value)
    requires v.Int? || v.Float?
    ensures FloatTotal(fp, ns + [v]) == fp.add(FloatTotal(fp, ns), if v.Int? then fp.ofInt(v.i) else v.bits)
    ensures NoFloats(ns + [v]) <==> NoFloats(ns) && !v.Float?
  {
    assert (ns + [v])[..|ns|] == ns && v in ns + [v];
  }

  lemma NumbersNone(fp: FloatOps, op: Accum, field: Str)
    ensures Fold(fp, op, []) == FRESH && Numbers(field, []) == [] && FloatTotal(fp, []) == 0
  {
  }

  lemma {:induction false} FoldNumbers(fp: FloatOps, op: Accum, rows: seq<Row>)
    requires op.Sum? || op.Avg?
    ensures var s, ns := Fold(fp, op, rows), Numbers(op.field, rows);
            s.numeric == |ns| && s.sumF == FloatTotal(fp, ns) && (s.allInt <==> NoFloats(ns))
  {
    hide PathValue, FloatTotal;
    if rows == [] {
      NumbersNone(fp, op, op.field);
    } else {
      var init, last := rows[..|rows| - 1], rows[|rows| - 1];
      FoldNumbers(fp, op, init);
      var before, v := Numbers(op.field, init), PathValue(last.doc, op.field);
      assert before + [] == before;
      if v.Some? && (v.value.Int? || v.value.Float?) {
        assert Numbers(op.field, rows) == before + [v.value];
        hide NoFloats;
        FloatTotalNext(fp, before, v.value);
      }
    }
  }

  /** A sum over integers is their sum; as soon as a float takes part it is the float sum of all. */
  lemma SumExact(fp: FloatOps, field: Str, rows: seq<Row>)
    ensures NoFloats(Numbers(field, rows)) && Exact(field, rows) ==>
              var r := Result(fp, Fold(fp, Sum(field), rows), Sum(field)); r.Int? && r.i == Total(IntAt(field), rows)
    ensures !NoFloats(Numbers(field, rows)) ==>
              Result(fp, Fold(fp, Sum(field), rows), Sum(field)) == Float(FloatTotal(fp, Numbers(field, rows)))
  {
    FoldNumbers(fp, Sum(field), rows);
    hide Fold, Total, Exact;
    if Exact(field, rows) {
      FoldSum(fp, field, rows);
      if Numbers(field, rows) == [] {
        NoNumbers(field, rows);
      }
    }
  }

  lemma {:induction false} NoNumbers(field: Str, rows: seq<Row>)
    requires Numbers(field, rows) == []
    ensures Total(IntAt(field), rows) == 0
  {
    hide PathValue;
    if rows != [] {
      NoNumbers(field, rows[..|rows| - 1]);
    }
  }

  /** An average divides the float sum of the numbers by how many there are. */
  lemma AvgExact(fp: FloatOps, field: Str, rows: seq<Row>)
    ensures var ns := Numbers(field, rows);
            Result(fp, Fold(fp, Avg(field), rows), Avg(field)) == if ns == [] then Null else Float(fp.div(FloatTotal(fp, ns), |ns|))
  {
    FoldNumbers(fp, Avg(field), rows);
    hide Fold;
  }
}
