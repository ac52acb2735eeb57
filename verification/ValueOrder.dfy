/**
 The order of values (`Ord for Value` in `value.rs`): by type, then by content, maps and
 arrays by length first. Floats compare by the total order of their bits; the conversion
 of an integer to a float is a parameter.
 */
module ValueOrder {
  import opened Bytes
  import opened Values

  type ToFloat = i64 -> u64

  function TypeWeight(v: Value): nat {
    match v
    case Null => 0
    case Bool(_) => 1
    case Int(_) => 2
    case Float(_) => 2
    case Timestamp(_) => 3
    case String(_) => 4
    case Binary(_) => 5
    case BlobLink(_, _) => 5
    case Reference(_, _) => 6
    case Array(_) => 7
    case Map(_) => 8
    case ServerTimestamp => 9
  }

  /** `f64::total_cmp`: negative floats in reverse order of their magnitude bits. */
  function TotalKey(bits: u64): int {
    if bits < 0x8000_0000_0000_0000 then bits else 0x7FFF_FFFF_FFFF_FFFF - bits
  }

  function Then(first: Ordering, second: Ordering): Ordering { if first == Equal then second else first }

  function CompareBool(a: bool, b: bool): Ordering { if a == b then Equal else if b then Less else Greater }

  function Cmp(fl: ToFloat, a: Value, b: Value): Ordering
    decreases a, 1
  {
    if TypeWeight(a) != TypeWeight(b) then CompareInt(TypeWeight(a), TypeWeight(b))
    else match a
      case Bool(x) => CompareBool(x, b.b)
      case Int(x) => if b.Int? then CompareInt(x, b.i) else CompareInt(TotalKey(fl(x)), TotalKey(b.bits))
      case Float(x) => if b.Float? then CompareInt(TotalKey(x), TotalKey(b.bits)) else CompareInt(TotalKey(x), TotalKey(fl(b.i)))
      case Timestamp(x) => CompareInt(x, b.micros)
      case String(x) => CompareBytes(x, b.s)
      case Binary(x) => if b.Binary? then CompareBytes(x, b.bytes) else Equal
      case Reference(c, d) => Then(CompareBytes(c, b.collection), CompareBytes(d, b.docId))
      case Array(xs) => if |xs| != |b.items| then CompareInt(|xs|, |b.items|) else CmpItems(fl, xs, b.items)
      case Map(xs) => if |xs| != |b.fields| then CompareInt(|xs|, |b.fields|) else CmpFields(fl, xs, b.fields)
      case _ => Equal
  }

  function CmpItems(fl: ToFloat, a: seq<Value>, b: seq<Value>): Ordering
    requires |a| == |b|
    decreases a, 0
  {
    if a == [] then Equal else Then(Cmp(fl, a[0], b[0]), CmpItems(fl, a[1..], b[1..]))
  }

  function CmpFields(fl: ToFloat, a: seq<Field>, b: seq<Field>): Ordering
    requires |a| == |b|
    decreases a, 0
  {
    if a == [] then Equal
    else Then(CompareBytes(a[0].key, b[0].key), Then(Cmp(fl, a[0].value, b[0].value), CmpFields(fl, a[1..], b[1..])))
  }

  // ---- What comes first ----

  /** The kinds in order: null, booleans, numbers, timestamps, strings, binaries, references, arrays, maps. */
  lemma KindsInOrder(fl: ToFloat, a: Value, b: Value)
    ensures a.Null? && !b.Null? ==> Cmp(fl, a, b) == Less
    ensures a.Bool? && !(b.Null? || b.Bool?) ==> Cmp(fl, a, b) == Less
    ensures (a.Int? || a.Float?) && !(b.Null? || b.Bool? || b.Int? || b.Float?) ==> Cmp(fl, a, b) == Less
    ensures a.Timestamp? && (b.String? || b.Binary? || b.BlobLink? || b.Reference? || b.Array? || b.Map? || b.ServerTimestamp?) ==> Cmp(fl, a, b) == Less
    ensures a.String? && (b.Binary? || b.BlobLink? || b.Reference? || b.Array? || b.Map? || b.ServerTimestamp?) ==> Cmp(fl, a, b) == Less
    ensures (a.Binary? || a.BlobLink?) && (b.Reference? || b.Array? || b.Map? || b.ServerTimestamp?) ==> Cmp(fl, a, b) == Less
    ensures a.Reference? && (b.Array? || b.Map? || b.ServerTimestamp?) ==> Cmp(fl, a, b) == Less
    ensures a.Array? && (b.Map? || b.ServerTimestamp?) ==> Cmp(fl, a, b) == Less
    ensures a.Map? && b.ServerTimestamp? ==> Cmp(fl, a, b) == Less
  {
  }

  /** Scalars of one kind: false first, numbers and times as numbers, texts at their first difference. */
  lemma ScalarsInOrder(fl: ToFloat, a: Value, b: Value)
    ensures a.Bool? && b.Bool? ==> (Cmp(fl, a, b) == Less <==> !a.b && b.b)
    ensures a.Int? && b.Int? ==> (Cmp(fl, a, b) == Less <==> a.i < b.i)
    ensures a.Timestamp? && b.Timestamp? ==> (Cmp(fl, a, b) == Less <==> a.micros < b.micros)
    ensures a.String? && b.String? ==> (Cmp(fl, a, b) == Less <==> FirstSmaller(a.s, b.s))
    ensures a.Binary? && b.Binary? ==> (Cmp(fl, a, b) == Less <==> FirstSmaller(a.bytes, b.bytes))
    ensures a.Reference? && b.Reference? ==>
              (Cmp(fl, a, b) == Less <==>
               FirstSmaller(a.collection, b.collection) || (a.collection == b.collection && FirstSmaller(a.docId, b.docId)))
    ensures a.Int? && b.Float? ==> Cmp(fl, a, b) == Cmp(fl, Float(fl(a.i)), b)
  {
    hide FirstSmaller, CompareBytes;
    if a.String? && b.String? { CompareBytesIs(a.s, b.s); }
    if a.Binary? && b.Binary? { CompareBytesIs(a.bytes, b.bytes); }
    if a.Reference? && b.Reference? {
      CompareBytesIs(a.collection, b.collection);
      CompareBytesIs(a.docId, b.docId);
      CompareBytesOrder(a.collection, b.collection);
    }
  }

  /** Floats by their bits: with the sign bit clear the greater pattern is greater, with it set the smaller one is. */
  lemma FloatsInOrder(fl: ToFloat, x: u64, y: u64)
    ensures Cmp(fl, Float(x), Float(y)) == Less <==>
            if x < 0x8000_0000_0000_0000 then y < 0x8000_0000_0000_0000 && x < y
            else y < 0x8000_0000_0000_0000 || y < x
  {
  }

  /** The shorter array first; of one length, the first elements that differ decide. */
  lemma {:induction false} ItemsInOrder(fl: ToFloat, a: seq<Value>, b: seq<Value>)
    requires |a| == |b|
    ensures CmpItems(fl, a, b) == Less <==>
            exists i :: 0 <= i < |a| && Cmp(fl, a[i], b[i]) == Less && forall j | 0 <= j < i :: Cmp(fl, a[j], b[j]) == Equal
    decreases |a|
  {
    hide Cmp;
    if a != [] {
      var x, y := a[1..], b[1..];
      ItemsInOrder(fl, x, y);
      if i :| 0 <= i < |a| && Cmp(fl, a[i], b[i]) == Less && forall j | 0 <= j < i :: Cmp(fl, a[j], b[j]) == Equal {
        if i > 0 {
          assert x[i - 1] == a[i] && y[i - 1] == b[i] && forall j | 0 <= j < i - 1 :: x[j] == a[j + 1] && y[j] == b[j + 1];
        }
      }
      if i :| Cmp(fl, a[0], b[0]) == Equal && 0 <= i < |x| && Cmp(fl, x[i], y[i]) == Less && forall j | 0 <= j < i :: Cmp(fl, x[j], y[j]) == Equal {
        assert a[i + 1] == x[i] && b[i + 1] == y[i];
        forall j | 0 <= j < i + 1 ensures Cmp(fl, a[j], b[j]) == Equal {
          assert j > 0 ==> a[j] == x[j - 1] && b[j] == y[j - 1];
        }
      }
    }
  }

  /** Likewise for maps, where a field compares by its key and then by its value. */
  lemma {:induction false} FieldsInOrder(fl: ToFloat, a: seq<Field>, b: seq<Field>)
    requires |a| == |b|
    ensures CmpFields(fl, a, b) == Less <==>
            exists i :: 0 <= i < |a| && FieldLess(fl, a[i], b[i]) && forall j | 0 <= j < i :: FieldSame(fl, a[j], b[j])
    decreases |a|
  {
    hide Cmp;
    if a != [] {
      hide FirstSmaller, CompareBytes;
      var x, y := a[1..], b[1..];
      FieldsInOrder(fl, x, y);
      CompareBytesIs(a[0].key, b[0].key);
      CompareBytesOrder(a[0].key, b[0].key);
      hide FieldLess, FieldSame;
      FieldStep(fl, a, b);
      if i :| 0 <= i < |a| && FieldLess(fl, a[i], b[i]) && forall j | 0 <= j < i :: FieldSame(fl, a[j], b[j]) {
        if i > 0 {
          assert x[i - 1] == a[i] && y[i - 1] == b[i] && forall j | 0 <= j < i - 1 :: x[j] == a[j + 1] && y[j] == b[j + 1];
        }
      }
      if i :| FieldSame(fl, a[0], b[0]) && 0 <= i < |x| && FieldLess(fl, x[i], y[i]) && forall j | 0 <= j < i :: FieldSame(fl, x[j], y[j]) {
        assert a[i + 1] == x[i] && b[i + 1] == y[i];
        forall j | 0 <= j < i + 1 ensures FieldSame(fl, a[j], b[j]) {
          assert j > 0 ==> a[j] == x[j - 1] && b[j] == y[j - 1];
        }
      }
    }
  }

  ghost predicate FieldLess(fl: ToFloat, f: Field, g: Field) {
    FirstSmaller(f.key, g.key) || (f.key == g.key && Cmp(fl, f.value, g.value) == Less)
  }

  predicate FieldSame(fl: ToFloat, f: Field, g: Field) { f.key == g.key && Cmp(fl, f.value, g.value) == Equal }

  lemma FieldStep(fl: ToFloat, a: seq<Field>, b: seq<Field>)
    requires |a| == |b| > 0
    ensures CmpFields(fl, a, b) == Less <==>
            FieldLess(fl, a[0], b[0]) || (FieldSame(fl, a[0], b[0]) && CmpFields(fl, a[1..], b[1..]) == Less)
  {
    hide Cmp, FirstSmaller, CompareBytes;
    CompareBytesIs(a[0].key, b[0].key);
    CompareBytesOrder(a[0].key, b[0].key);
  }

  /** Arrays and maps: the shorter first, then their contents. */
  lemma CompoundsInOrder(fl: ToFloat, a: Value, b: Value)
    ensures a.Array? && b.Array? ==>
              (Cmp(fl, a, b) == Less <==> |a.items| < |b.items| || (|a.items| == |b.items| && CmpItems(fl, a.items, b.items) == Less))
    ensures a.Map? && b.Map? ==>
              (Cmp(fl, a, b) == Less <==> |a.fields| < |b.fields| || (|a.fields| == |b.fields| && CmpFields(fl, a.fields, b.fields) == Less))
  {
    hide CmpItems, CmpFields;
  }

  // ---- Reversal ----

  /** For all values, comparing the other way round reverses the result. */
  lemma {:induction false} CmpFlip(fl: ToFloat, a: Value, b: Value)
    ensures Cmp(fl, b, a) == Flip(Cmp(fl, a, b))
    decreases a, 1
  {
    hide CompareBytes, CmpItems, CmpFields;
    if TypeWeight(a) == TypeWeight(b) {
      match a
      case String(x) => CompareBytesOrder(x, b.s);
      case Binary(x) => if b.Binary? { CompareBytesOrder(x, b.bytes); }
      case Reference(c, d) => CompareBytesOrder(c, b.collection); CompareBytesOrder(d, b.docId);
      case Array(xs) => if |xs| == |b.items| { ItemsFlip(fl, xs, b.items); }
      case Map(xs) => if |xs| == |b.fields| { FieldsFlip(fl, xs, b.fields); }
      case _ =>
    }
  }

  lemma {:induction false} ItemsFlip(fl: ToFloat, a: seq<Value>, b: seq<Value>)
    requires |a| == |b|
    ensures CmpItems(fl, b, a) == Flip(CmpItems(fl, a, b))
    decreases a, 0
  {
    if a != [] {
      hide Cmp;
      CmpFlip(fl, a[0], b[0]);
      ItemsFlip(fl, a[1..], b[1..]);
    }
  }

  lemma {:induction false} FieldsFlip(fl: ToFloat, a: seq<Field>, b: seq<Field>)
    requires |a| == |b|
    ensures CmpFields(fl, b, a) == Flip(CmpFields(fl, a, b))
    decreases a, 0
  {
    if a != [] {
      hide Cmp, CompareBytes;
      CompareBytesOrder(a[0].key, b[0].key);
      CmpFlip(fl, a[0].value, b[0].value);
      FieldsFlip(fl, a[1..], b[1..]);
    }
  }

  /** Hence a value is equal to itself. */
  lemma CmpSelf(fl: ToFloat, a: Value)
    ensures Cmp(fl, a, a) == Equal
  {
    hide Cmp;
    CmpFlip(fl, a, a);
  }

  // ---- Equality ----

  /** No float and no blob link anywhere in the value. */
  predicate Plain(v: Value) {
    match v
    case Float(_) => false
    case BlobLink(_, _) => false
    case Array(items) => forall x | x in items :: Plain(x)
    case Map(fields) => forall f | f in fields :: Plain(f.value)
    case _ => true
  }

  /** Values without floats and blob links are equal in the order exactly when they are the same. */
  lemma {:induction false} CmpOrder(fl: ToFloat, a: Value, b: Value)
    requires Plain(a) && Plain(b)
    ensures Cmp(fl, a, b) == Equal <==> a == b
    decreases a, 1
  {
    if TypeWeight(a) == TypeWeight(b) {
      match a
      case String(x) => CompareBytesOrder(x, b.s);
      case Binary(x) => CompareBytesOrder(x, b.bytes);
      case Reference(c, d) => CompareBytesOrder(c, b.collection); CompareBytesOrder(d, b.docId);
      case Array(xs) => if |xs| == |b.items| { ItemsOrder(fl, xs, b.items); }
      case Map(xs) => if |xs| == |b.fields| { FieldsOrder(fl, xs, b.fields); }
      case _ =>
    }
  }

  lemma {:induction false} ItemsOrder(fl: ToFloat, a: seq<Value>, b: seq<Value>)
    requires |a| == |b| && (forall x | x in a :: Plain(x)) && (forall x | x in b :: Plain(x))
    ensures CmpItems(fl, a, b) == Equal <==> a == b
    decreases a, 0
  {
    if a != [] {
      hide Cmp, Plain;
      CmpOrder(fl, a[0], b[0]);
      ItemsOrder(fl, a[1..], b[1..]);
      assert a == [a[0]] + a[1..] && b == [b[0]] + b[1..];
    }
  }

  lemma {:induction false} FieldsOrder(fl: ToFloat, a: seq<Field>, b: seq<Field>)
    requires |a| == |b| && (forall f | f in a :: Plain(f.value)) && (forall f | f in b :: Plain(f.value))
    ensures CmpFields(fl, a, b) == Equal <==> a == b
    decreases a, 0
  {
    if a != [] {
      hide Cmp, CompareBytes, Plain;
      CompareBytesOrder(a[0].key, b[0].key);
      CmpOrder(fl, a[0].value, b[0].value);
      FieldsOrder(fl, a[1..], b[1..]);
      assert a == [a[0]] + a[1..] && b == [b[0]] + b[1..];
    }
  }

  // ---- Chains of comparisons ----

  predicate Chains(ab: Ordering, bc: Ordering, ac: Ordering) {
    ab != Greater && bc != Greater ==> ac != Greater && (ab == Less || bc == Less ==> ac == Less)
  }

  lemma ChainThen(ab: Ordering, bc: Ordering, ac: Ordering, ab': Ordering, bc': Ordering, ac': Ordering)
    requires Chains(ab, bc, ac) && Chains(ab', bc', ac')
    ensures Chains(Then(ab, ab'), Then(bc, bc'), Then(ac, ac'))
  {
  }

  lemma ChainBytes(a: seq<byte>, b: seq<byte>, c: seq<byte>)
    ensures Chains(CompareBytes(a, b), CompareBytes(b, c), CompareBytes(a, c))
  {
    if CompareBytes(a, b) != Greater && CompareBytes(b, c) != Greater {
      CompareBytesTransitive(a, b, c);
    }
  }

  /** The order is transitive on the values. */
  ghost predicate Transitive(fl: ToFloat, values: iset<Value>) {
    forall a, b, c | a in values && b in values && c in values :: Chains(Cmp(fl, a, b), Cmp(fl, b, c), Cmp(fl, a, c))
  }

  // ---- Numbers ----

  predicate Number(v: Value) { v.Int? || v.Float? }

  /** Where floats take part, a greater integer does not convert to a smaller float. */
  ghost predicate Monotone(fl: ToFloat, values: iset<Value>) {
    || (forall v | v in values :: !v.Float?)
    || forall a: i64, b: i64 | Int(a) in values && Int(b) in values && a < b :: TotalKey(fl(a)) <= TotalKey(fl(b))
  }

  /** Two integers round to the float `f`. */
  ghost predicate Clash(fl: ToFloat, values: iset<Value>, a: i64, b: i64, f: u64) {
    a < b && fl(a) == fl(b) == f && Int(a) in values && Int(b) in values && Float(f) in values
  }

  ghost predicate NoClash(fl: ToFloat, values: iset<Value>) { forall a, b, f :: !Clash(fl, values, a, b, f) }

  lemma KeyInjective(x: u64, y: u64)
    requires TotalKey(x) == TotalKey(y)
    ensures x == y
  {
  }

  lemma NumbersChain(fl: ToFloat, values: iset<Value>, a: Value, b: Value, c: Value)
    requires Monotone(fl, values) && a in values && b in values && c in values && Number(a) && Number(b) && Number(c)
    requires NoClash(fl, values)
    ensures Chains(Cmp(fl, a, b), Cmp(fl, b, c), Cmp(fl, a, c))
  {
    if !(a.Int? && b.Int? && c.Int?) {
      Apart(fl, values, a, b, c);
      Apart(fl, values, b, c, a);
      Apart(fl, values, a, c, b);
      hide TotalKey, Clash;
    }
  }

  /** Without a clash, two integers around a float in the set keep apart from it. */
  lemma Apart(fl: ToFloat, values: iset<Value>, a: Value, b: Value, f: Value)
    requires Monotone(fl, values) && a in values && b in values && f in values && NoClash(fl, values)
    ensures a.Int? && b.Int? && f.Float? ==>
              && (a.i != b.i ==> !(TotalKey(fl(a.i)) == TotalKey(fl(b.i)) == TotalKey(f.bits)))
              && (a.i < b.i ==> TotalKey(fl(a.i)) <= TotalKey(fl(b.i))) && (b.i < a.i ==> TotalKey(fl(b.i)) <= TotalKey(fl(a.i)))
  {
    if a.Int? && b.Int? && a.i != b.i && f.Float? && TotalKey(fl(a.i)) == TotalKey(fl(b.i)) == TotalKey(f.bits) {
      KeyInjective(fl(a.i), fl(b.i));
      KeyInjective(fl(a.i), f.bits);
      assert Clash(fl, values, if a.i < b.i then a.i else b.i, if a.i < b.i then b.i else a.i, f.bits);
    }
  }

  /** Two integers that round to one float are both equal to it, and not to each other. */
  lemma MixedNotTotal(fl: ToFloat, a: i64, b: i64)
    requires a < b && fl(a) == fl(b)
    ensures Cmp(fl, Int(a), Float(fl(a))) == Equal && Cmp(fl, Float(fl(a)), Int(b)) == Equal && Cmp(fl, Int(a), Int(b)) == Less
    ensures Cmp(fl, Int(b), Float(fl(a))) == Equal && Cmp(fl, Float(fl(a)), Int(a)) == Equal && Cmp(fl, Int(b), Int(a)) == Greater
  {
  }

  /** On numbers the order is transitive exactly when no two of the integers round to one of the floats. */
  lemma NumbersTotalIff(fl: ToFloat, values: iset<Value>)
    requires Monotone(fl, values) && forall v | v in values :: Number(v)
    ensures Transitive(fl, values) <==> NoClash(fl, values)
  {
    hide Cmp;
    if a, b, f :| Clash(fl, values, a, b, f) {
      MixedNotTotal(fl, a, b);
      assert !Chains(Cmp(fl, Int(b), Float(f)), Cmp(fl, Float(f), Int(a)), Cmp(fl, Int(b), Int(a)));
    } else {
      forall a, b, c | a in values && b in values && c in values ensures Chains(Cmp(fl, a, b), Cmp(fl, b, c), Cmp(fl, a, c)) {
        NumbersChain(fl, values, a, b, c);
      }
    }
  }

  // ---- Binaries and blob links ----

  /** All blob links compare equal, to each other and to every binary. */
  lemma BlobsEqual(fl: ToFloat, a: Value, b: Value)
    requires a.BlobLink? && (b.BlobLink? || b.Binary?)
    ensures Cmp(fl, a, b) == Cmp(fl, b, a) == Equal
  {
  }

  /** There is no blob link beside two different binaries. */
  ghost predicate NoMix(values: iset<Value>) {
    forall l, x, y | l in values && x in values && y in values && l.BlobLink? && x.Binary? && y.Binary? :: x == y
  }

  predicate Raw(v: Value) { v.Binary? || v.BlobLink? }

  lemma BinariesChain(fl: ToFloat, values: iset<Value>, a: Value, b: Value, c: Value)
    requires NoMix(values) && a in values && b in values && c in values && Raw(a) && Raw(b) && Raw(c)
    ensures Chains(Cmp(fl, a, b), Cmp(fl, b, c), Cmp(fl, a, c))
  {
    if a.Binary? && b.Binary? && c.Binary? {
      ChainBytes(a.bytes, b.bytes, c.bytes);
    } else if a.Binary? && b.Binary? {
      CompareBytesOrder(a.bytes, b.bytes);
    } else if b.Binary? && c.Binary? {
      CompareBytesOrder(b.bytes, c.bytes);
    } else if a.Binary? && c.Binary? {
      CompareBytesOrder(a.bytes, c.bytes);
    }
  }

  /** A blob link beside two different binaries breaks a chain. */
  lemma MixBreaks(fl: ToFloat, l: Value, x: Value, y: Value) returns (lo: Value, hi: Value)
    requires l.BlobLink? && x.Binary? && y.Binary? && x != y
    ensures (lo == x && hi == y) || (lo == y && hi == x)
    ensures !Chains(Cmp(fl, hi, l), Cmp(fl, l, lo), Cmp(fl, hi, lo))
  {
    CompareBytesOrder(x.bytes, y.bytes);
    lo, hi := if Cmp(fl, x, y) == Less then x else y, if Cmp(fl, x, y) == Less then y else x;
  }

  /** On binaries and blob links the order is transitive exactly when there is no link or at most one binary. */
  lemma BinariesTotalIff(fl: ToFloat, values: iset<Value>)
    requires forall v | v in values :: Raw(v)
    ensures Transitive(fl, values) <==> NoMix(values)
  {
    hide Cmp;
    if l, x, y :| l in values && x in values && y in values && l.BlobLink? && x.Binary? && y.Binary? && x != y {
      var lo, hi := MixBreaks(fl, l, x, y);
    } else {
      forall a, b, c | a in values && b in values && c in values ensures Chains(Cmp(fl, a, b), Cmp(fl, b, c), Cmp(fl, a, c)) {
        BinariesChain(fl, values, a, b, c);
      }
    }
  }

  // ---- All values ----

  predicate Scalar(v: Value) { !v.Array? && !v.Map? }

  /** The value is put together from the leaves by arrays and maps. */
  ghost predicate Built(leaves: iset<Value>, v: Value) {
    match v
    case Array(items) => forall x | x in items :: Built(leaves, x)
    case Map(fields) => forall f | f in fields :: Built(leaves, f.value)
    case _ => v in leaves
  }

  /** Nothing among the leaves breaks a chain. */
  ghost predicate Coherent(fl: ToFloat, leaves: iset<Value>) { NoClash(fl, leaves) && NoMix(leaves) }

  lemma {:induction false} CmpChains(fl: ToFloat, leaves: iset<Value>, a: Value, b: Value, c: Value)
    requires Monotone(fl, leaves) && Coherent(fl, leaves) && Built(leaves, a) && Built(leaves, b) && Built(leaves, c)
    ensures Chains(Cmp(fl, a, b), Cmp(fl, b, c), Cmp(fl, a, c))
    decreases a, 1
  {
    if TypeWeight(a) == TypeWeight(b) == TypeWeight(c) {
      hide CompareBytes, CmpItems, CmpFields, Monotone, NoClash, NoMix;
      match a
      case Int(_) => NumbersChain(fl, leaves, a, b, c);
      case Float(_) => NumbersChain(fl, leaves, a, b, c);
      case String(x) => ChainBytes(x, b.s, c.s);
      case Binary(x) => BinariesChain(fl, leaves, a, b, c);
      case BlobLink(_, _) => BinariesChain(fl, leaves, a, b, c);
      case Reference(p, q) =>
        ChainBytes(p, b.collection, c.collection);
        ChainBytes(q, b.docId, c.docId);
        ChainThen(CompareBytes(p, b.collection), CompareBytes(b.collection, c.collection), CompareBytes(p, c.collection),
                  CompareBytes(q, b.docId), CompareBytes(b.docId, c.docId), CompareBytes(q, c.docId));
      case Array(xs) => if |xs| == |b.items| == |c.items| { ItemsChain(fl, leaves, xs, b.items, c.items); }
      case Map(xs) => if |xs| == |b.fields| == |c.fields| { FieldsChain(fl, leaves, xs, b.fields, c.fields); }
      case _ =>
    }
  }

  lemma {:induction false} ItemsChain(fl: ToFloat, leaves: iset<Value>, a: seq<Value>, b: seq<Value>, c: seq<Value>)
    requires Monotone(fl, leaves) && Coherent(fl, leaves) && |a| == |b| == |c|
    requires (forall x | x in a :: Built(leaves, x)) && (forall x | x in b :: Built(leaves, x)) && (forall x | x in c :: Built(leaves, x))
    ensures Chains(CmpItems(fl, a, b), CmpItems(fl, b, c), CmpItems(fl, a, c))
    decreases a, 0
  {
    hide Monotone, Coherent, Built;
    if a != [] {
      hide Cmp, Chains;
      CmpChains(fl, leaves, a[0], b[0], c[0]);
      ItemsChain(fl, leaves, a[1..], b[1..], c[1..]);
      ChainThen(Cmp(fl, a[0], b[0]), Cmp(fl, b[0], c[0]), Cmp(fl, a[0], c[0]),
                CmpItems(fl, a[1..], b[1..]), CmpItems(fl, b[1..], c[1..]), CmpItems(fl, a[1..], c[1..]));
    } else {
      assert CmpItems(fl, a, c) == Equal;
    }
  }

  lemma {:induction false} FieldsChain(fl: ToFloat, leaves: iset<Value>, a: seq<Field>, b: seq<Field>, c: seq<Field>)
    requires Monotone(fl, leaves) && Coherent(fl, leaves) && |a| == |b| == |c|
    requires forall f | f in a + b + c :: Built(leaves, f.value)
    ensures Chains(CmpFields(fl, a, b), CmpFields(fl, b, c), CmpFields(fl, a, c))
    decreases a, 0
  {
    hide Monotone, Coherent, Built;
    if a != [] {
      hide Cmp, Chains, CompareBytes;
      assert a[0] in a + b + c && b[0] in a + b + c && c[0] in a + b + c;
      CmpChains(fl, leaves, a[0].value, b[0].value, c[0].value);
      FieldsChain(fl, leaves, a[1..], b[1..], c[1..]);
      ChainBytes(a[0].key, b[0].key, c[0].key);
      var ab, bc, ac := Cmp(fl, a[0].value, b[0].value), Cmp(fl, b[0].value, c[0].value), Cmp(fl, a[0].value, c[0].value);
      var ab', bc', ac' := CmpFields(fl, a[1..], b[1..]), CmpFields(fl, b[1..], c[1..]), CmpFields(fl, a[1..], c[1..]);
      ChainThen(ab, bc, ac, ab', bc', ac');
      ChainThen(CompareBytes(a[0].key, b[0].key), CompareBytes(b[0].key, c[0].key), CompareBytes(a[0].key, c[0].key),
                Then(ab, ab'), Then(bc, bc'), Then(ac, ac'));
    }
  }

  /** Everything put together from the leaves. */
  ghost function All(leaves: iset<Value>): iset<Value> { iset v: Value | Built(leaves, v) }

  /**
   On everything arrays and maps make of the leaves, at any depth, the order is transitive
   exactly when no two integer leaves round to a float leaf and no blob link stands beside
   two different binaries.
   */
  lemma LeavesTotalIff(fl: ToFloat, leaves: iset<Value>)
    requires Monotone(fl, leaves) && forall v | v in leaves :: Scalar(v)
    ensures Transitive(fl, All(leaves)) <==> Coherent(fl, leaves)
  {
    hide Cmp, Monotone;
    if Coherent(fl, leaves) {
      forall a, b, c | a in All(leaves) && b in All(leaves) && c in All(leaves)
        ensures Chains(Cmp(fl, a, b), Cmp(fl, b, c), Cmp(fl, a, c))
      {
        CmpChains(fl, leaves, a, b, c);
      }
    } else {
      assert forall v | v in leaves :: v in All(leaves);
      if a, b, f :| Clash(fl, leaves, a, b, f) {
        MixedNotTotal(fl, a, b);
        assert !Chains(Cmp(fl, Int(b), Float(f)), Cmp(fl, Float(f), Int(a)), Cmp(fl, Int(b), Int(a)));
      } else {
        var l, x, y :| l in leaves && x in leaves && y in leaves && l.BlobLink? && x.Binary? && y.Binary? && x != y;
        var lo, hi := MixBreaks(fl, l, x, y);
      }
    }
  }

  ghost function PlainLeaves(): iset<Value> { iset v: Value | Scalar(v) && Plain(v) }

  lemma {:induction false} PlainBuilt(v: Value)
    requires Plain(v)
    ensures Built(PlainLeaves(), v)
  {
    match v
    case Array(items) => forall x | x in items ensures Built(PlainLeaves(), x) { PlainBuilt(x); }
    case Map(fields) => forall f | f in fields ensures Built(PlainLeaves(), f.value) { PlainBuilt(f.value); }
    case _ =>
  }

  lemma PlainCoherent(fl: ToFloat)
    ensures Monotone(fl, PlainLeaves()) && Coherent(fl, PlainLeaves())
  {
  }

  /** On plain values the order is total: exactly one of less, equal and greater, and transitive. */
  lemma PlainTotal(fl: ToFloat, a: Value, b: Value, c: Value)
    requires Plain(a) && Plain(b) && Plain(c)
    ensures Cmp(fl, a, b) == Equal <==> a == b
    ensures Cmp(fl, a, b) == Less <==> Cmp(fl, b, a) == Greater
    ensures Cmp(fl, a, b) == Less && Cmp(fl, b, c) == Less ==> Cmp(fl, a, c) == Less
  {
    hide Cmp, Plain, PlainLeaves, Built, Coherent, Monotone;
    CmpOrder(fl, a, b);
    CmpFlip(fl, a, b);
    PlainBuilt(a);
    PlainBuilt(b);
    PlainBuilt(c);
    PlainCoherent(fl);
    CmpChains(fl, PlainLeaves(), a, b, c);
  }
}
