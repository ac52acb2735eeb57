/**
 Keys of the secondary indexes (`index_key.rs`): from a value, and straight from
 the stored bytes of a value without decoding it.
 */
module IndexKey {
  import opened Bytes
  import opened Values
  import opened Codec

  function StrScalar(s: Str): seq<byte> {
    [4] + BE(|s|, 4) + s
  }

  /** `encode_scalar`: the key of a value. */
  function ScalarKey(v: Value): seq<byte> {
    match v
    case Null => [0]
    case ServerTimestamp => [0]
    case Bool(b) => [1, if b then 1 else 0]
    case Int(i) => [2] + BE(AsU64(i), 8)
    case Float(bits) => [3] + BE(bits, 8)
    case String(s) => StrScalar(s)
    case Binary(b) => [5] + BE(|b|, 4) + b
    case Timestamp(t) => [6] + BE(AsU64(t), 8)
    case Map(_) => [8]
    case Array(_) => [9]
    case Reference(c, d) => [10] + (Prefixed(c) + Prefixed(d))
    case BlobLink(offset, len) => [11] + BE(offset, 8) + BE(len, 4)
  }

  /**
   `encode_raw_scalar`: appends the key of a stored value. It succeeds exactly on
   the scalars that decode, with the key of the decoded value.
   */
  method EncodeRawScalar(tag: byte, data: seq<byte>, out: seq<byte>) returns (ok: bool, r: seq<byte>)
    ensures ok <==> tag != 8 && tag != 9 && DecodeValue(tag, data).Some?
    ensures r == if ok then out + ScalarKey(DecodeValue(tag, data).value) else out
  {
    hide Utf8, ReadVarint, ReadU32, ReadU64, BE, Scan, DecodeRaws, FramedBody, ShortString, Prefixed;
    if tag == 0xC0 || tag == 0xC1 {
      return true, out + [0];
    } else if tag == 0xC2 {
      return true, out + [1, 1];
    } else if tag == 0xC3 {
      return true, out + [1, 0];
    } else if tag / 0x10 == 1 {
      return true, out + ([2] + BE(AsU64(tag % 0x10), 8));
    } else if tag / 8 == 8 {
      var len := tag % 8;
      if len > |data| || !Utf8(data[..len]) {
        return false, out;
      }
      return true, out + ([4] + BE(len, 4) + data[..len]);
    } else if tag == 3 || tag == 7 {
      var raw := ReadVarint(data, 4);
      if raw.None? {
        return false, out;
      }
      return true, out + ([if tag == 3 then 2 else 6] + BE(AsU64(Unzigzag(raw.value.0)), 8));
    } else if tag == 4 {
      if |data| < 12 {
        return false, out;
      }
      return true, out + ([3] + BE(ReadU64(data, 4), 8));
    } else if tag == 5 || tag == 6 {
      var body := FramedBody(data);
      if body.None? || (tag == 5 && !Utf8(body.value)) {
        return false, out;
      }
      return true, out + ([if tag == 5 then 4 else 5] + BE(|body.value|, 4) + body.value);
    } else if tag == 8 || tag == 9 {
      return false, out;
    } else if tag == 10 {
      var col := ShortString(data, 4);
      if col.None? {
        return false, out;
      }
      var doc := ShortString(data, col.value.1);
      if doc.None? {
        return false, out;
      }
      return true, out + ([10] + (Prefixed(col.value.0) + Prefixed(doc.value.0)));
    } else if tag == 11 {
      if |data| < 16 {
        return false, out;
      }
      return true, out + ([11] + BE(ReadU64(data, 4), 8) + BE(ReadU32(data, 12), 4));
    } else {
      return true, out + [0];
    }
  }

  // ---- Equal keys, equal values ----

  lemma {:induction false} ReverseInjective(a: seq<byte>, b: seq<byte>)
    requires Reverse(a) == Reverse(b)
    ensures a == b
  {
    if a != [] {
      var ra, rb := Reverse(a), Reverse(b);
      assert ra[..|ra| - 1] == Reverse(a[1..]) && rb[..|rb| - 1] == Reverse(b[1..]);
      assert ra[|ra| - 1] == a[0] && rb[|rb| - 1] == b[0];
      ReverseInjective(a[1..], b[1..]);
      assert [a[0]] + a[1..] == a && [b[0]] + b[1..] == b;
    }
  }

  lemma BEInjective(m: nat, n: nat, width: nat)
    requires m < Pow256(width) && n < Pow256(width) && BE(m, width) == BE(n, width)
    ensures m == n
  {
    ReverseInjective(LE(m, width), LE(n, width));
    LERoundTrip(m, width);
    LERoundTrip(n, width);
  }

  lemma SplitEqual(a: seq<byte>, b: seq<byte>, c: seq<byte>, d: seq<byte>)
    requires a + b == c + d && |a| == |c|
    ensures a == c && b == d
  {
    assert (a + b)[..|a|] == a && (c + d)[..|c|] == c;
    assert (a + b)[|a|..] == b && (c + d)[|c|..] == d;
  }

  lemma PrefixedEqual(a: Str, b: Str, c: Str, d: Str)
    requires |a| <= 0xFF && |c| <= 0xFF && Prefixed(a) + b == Prefixed(c) + d
    ensures a == c && b == d
  {
    assert (Prefixed(a) + b)[0] == |a| && (Prefixed(c) + d)[0] == |c|;
    SplitEqual(Prefixed(a), b, Prefixed(c), d);
    assert Prefixed(a)[1..] == a && Prefixed(c)[1..] == c;
  }

  /** Every value is a key of its own, apart from the ones the encoder merges. */
  predicate Collapsed(v: Value) {
    v.Null? || v.ServerTimestamp? || v.Map? || v.Array?
  }

  /** The first byte of a key tells the kinds apart that the encoder keeps apart. */
  function Kind(v: Value): byte {
    match v
    case Null => 0
    case ServerTimestamp => 0
    case Bool(_) => 1
    case Int(_) => 2
    case Float(_) => 3
    case String(_) => 4
    case Binary(_) => 5
    case Timestamp(_) => 6
    case Map(_) => 8
    case Array(_) => 9
    case Reference(_, _) => 10
    case BlobLink(_, _) => 11
  }

  lemma KeyKind(v: Value)
    ensures ScalarKey(v) != [] && ScalarKey(v)[0] == Kind(v)
  {
    hide BE;
  }

  lemma TextKeyEqual(v: Value, w: Value)
    requires (v.String? && w.String?) || (v.Binary? && w.Binary?)
    requires Encodable(v) && Encodable(w) && ScalarKey(v) == ScalarKey(w)
    ensures v == w
  {
    hide Utf8, BE;
    PowWidths();
    var a, b := if v.String? then v.s else v.bytes, if w.String? then w.s else w.bytes;
    SplitEqual([Kind(v)] + BE(|a|, 4), a, [Kind(w)] + BE(|b|, 4), b);
  }

  lemma NumberKeyEqual(v: Value, w: Value)
    requires (v.Int? && w.Int?) || (v.Timestamp? && w.Timestamp?) || (v.Float? && w.Float?)
    requires ScalarKey(v) == ScalarKey(w)
    ensures v == w
  {
    hide BE;
    PowWidths();
    var a := match v case Int(i) => AsU64(i) case Timestamp(t) => AsU64(t) case Float(bits) => bits;
    var b := match w case Int(i) => AsU64(i) case Timestamp(t) => AsU64(t) case Float(bits) => bits;
    SplitEqual([Kind(v)], BE(a, 8), [Kind(w)], BE(b, 8));
    BEInjective(a, b, 8);
  }

  lemma BlobKeyEqual(v: Value, w: Value)
    requires v.BlobLink? && w.BlobLink? && ScalarKey(v) == ScalarKey(w)
    ensures v == w
  {
    hide BE;
    PowWidths();
    SplitEqual([11] + BE(v.offset, 8), BE(v.len, 4), [11] + BE(w.offset, 8), BE(w.len, 4));
    SplitEqual([11], BE(v.offset, 8), [11], BE(w.offset, 8));
    BEInjective(v.offset, w.offset, 8);
    BEInjective(v.len, w.len, 4);
  }

  lemma ReferenceKeyEqual(v: Value, w: Value)
    requires v.Reference? && w.Reference? && Encodable(v) && Encodable(w) && ScalarKey(v) == ScalarKey(w)
    ensures v == w
  {
    hide Utf8;
    SplitEqual([10], Prefixed(v.collection) + Prefixed(v.docId), [10], Prefixed(w.collection) + Prefixed(w.docId));
    PrefixedEqual(v.collection, Prefixed(v.docId), w.collection, Prefixed(w.docId));
    assert Prefixed(v.docId) + [] == Prefixed(w.docId) + [];
    PrefixedEqual(v.docId, [], w.docId, []);
  }

  /** Two values share a key only if they are equal, unless the encoder collapses them. */
  lemma KeyInjective(v: Value, w: Value)
    requires Encodable(v) && Encodable(w) && !Collapsed(v)
    ensures ScalarKey(v) == ScalarKey(w) <==> v == w
  {
    hide ScalarKey, Encodable;
    KeyKind(v);
    KeyKind(w);
    if ScalarKey(v) == ScalarKey(w) {
      match v
      case Bool(b) => BoolKeyEqual(v, w);
      case Int(_) => NumberKeyEqual(v, w);
      case Timestamp(_) => NumberKeyEqual(v, w);
      case Float(_) => NumberKeyEqual(v, w);
      case String(_) => TextKeyEqual(v, w);
      case Binary(_) => TextKeyEqual(v, w);
      case Reference(_, _) => ReferenceKeyEqual(v, w);
      case BlobLink(_, _) => BlobKeyEqual(v, w);
    }
  }

  /** Equal, or of the kinds the encoder gives one key: the nulls, the maps, the arrays. */
  predicate SharesKey(v: Value, w: Value) {
    v == w || ((v.Null? || v.ServerTimestamp?) && (w.Null? || w.ServerTimestamp?)) || (v.Map? && w.Map?) || (v.Array? && w.Array?)
  }

  /** Two values have one key exactly when they share it. */
  lemma KeyShared(v: Value, w: Value)
    requires Encodable(v) && Encodable(w)
    ensures ScalarKey(v) == ScalarKey(w) <==> SharesKey(v, w)
  {
    hide ScalarKey, Encodable;
    KeyKind(v);
    KeyKind(w);
    if !Collapsed(v) {
      KeyInjective(v, w);
    } else if SharesKey(v, w) {
      CollapsedKey(v);
      CollapsedKey(w);
    }
  }

  lemma CollapsedKey(v: Value)
    requires Collapsed(v)
    ensures ScalarKey(v) == [Kind(v)]
  {
  }

  lemma BoolKeyEqual(v: Value, w: Value)
    requires v.Bool? && w.Bool? && ScalarKey(v) == ScalarKey(w)
    ensures v == w
  {
    assert ScalarKey(v)[1] == ScalarKey(w)[1];
  }

  // ---- The order of keys ----

  lemma BELast(n: nat, width: nat)
    requires width > 0
    ensures BE(n, width) == BE(n / 0x100, width - 1) + [n % 0x100]
  {
    assert LE(n, width)[1..] == LE(n / 0x100, width - 1);
  }

  lemma {:induction false} CompareEnds(a: seq<byte>, x: byte, b: seq<byte>, y: byte)
    requires |a| == |b|
    ensures CompareBytes(a + [x], b + [y]) == if CompareBytes(a, b) == Equal then CompareInt(x, y) else CompareBytes(a, b)
  {
    if a == [] {
      assert a + [x] == [x] && b + [y] == [y] && [x][1..] == [] && [y][1..] == [];
    } else {
      assert (a + [x])[1..] == a[1..] + [x] && (b + [y])[1..] == b[1..] + [y];
      CompareEnds(a[1..], x, b[1..], y);
    }
  }

  /** Big-endian bytes of one width compare as the numbers do. */
  lemma {:induction false} CompareBE(m: nat, n: nat, width: nat)
    requires m < Pow256(width) && n < Pow256(width)
    ensures CompareBytes(BE(m, width), BE(n, width)) == CompareInt(m, n)
  {
    if width > 0 {
      hide CompareBytes, BE;
      CompareBE(m / 0x100, n / 0x100, width - 1);
      BELast(m, width);
      BELast(n, width);
      CompareEnds(BE(m / 0x100, width - 1), m % 0x100, BE(n / 0x100, width - 1), n % 0x100);
    }
  }

  lemma CompareTagged(tag: byte, a: seq<byte>, b: seq<byte>)
    ensures CompareBytes([tag] + a, [tag] + b) == CompareBytes(a, b)
  {
    assert ([tag] + a)[1..] == a && ([tag] + b)[1..] == b;
  }

  /** The keys of integers, and of timestamps, are in numeric order exactly when the two have the same sign. */
  lemma KeyOrder(i: i64, j: i64)
    ensures CompareBytes(ScalarKey(Int(i)), ScalarKey(Int(j))) == CompareInt(i, j) <==> (i < 0 <==> j < 0)
    ensures CompareBytes(ScalarKey(Timestamp(i)), ScalarKey(Timestamp(j))) == CompareInt(i, j) <==> (i < 0 <==> j < 0)
  {
    hide CompareBytes, BE;
    PowWidths();
    CompareBE(AsU64(i), AsU64(j), 8);
    CompareTagged(2, BE(AsU64(i), 8), BE(AsU64(j), 8));
    CompareTagged(6, BE(AsU64(i), 8), BE(AsU64(j), 8));
  }
}
