/**
 Bytes, fixed-width little- and big-endian integers, LEB128 varints, zigzag and
 UTF-8 validity: the primitives under the document codec.
 Bit masks on a single byte are written with `/` and `%`, shifts as products.
 */
module Bytes {

  type byte = b: int | 0 <= b < 0x100
  type u32 = n: int | 0 <= n < 0x1_0000_0000
  type u64 = n: int | 0 <= n < 0x1_0000_0000_0000_0000
  type i64 = n: int | -0x8000_0000_0000_0000 <= n < 0x8000_0000_0000_0000

  datatype Option<+T> = None | Some(value: T) {
    predicate IsFailure() { None? }
    function PropagateFailure<U>(): Option<U> requires None? { None }
    function Extract(): T requires Some? { value }
  }

  datatype Ordering = Less | Equal | Greater

  function CompareInt(a: int, b: int): Ordering {
    if a < b then Less else if a == b then Equal else Greater
  }

  /** Lexicographic byte order: `Ord for [u8]`, hence also `Ord for str`. */
  function CompareBytes(a: seq<byte>, b: seq<byte>): Ordering {
    if a == [] then (if b == [] then Equal else Less)
    else if b == [] then Greater
    else if a[0] != b[0] then CompareInt(a[0], b[0])
    else CompareBytes(a[1..], b[1..])
  }

  function Flip(o: Ordering): Ordering {
    match o case Less => Greater case Equal => Equal case Greater => Less
  }

  lemma {:induction false} CompareBytesOrder(a: seq<byte>, b: seq<byte>)
    ensures CompareBytes(a, b) == Equal <==> a == b
    ensures CompareBytes(b, a) == Flip(CompareBytes(a, b))
  {
    if a != [] && b != [] && a[0] == b[0] {
      CompareBytesOrder(a[1..], b[1..]);
      assert a == [a[0]] + a[1..] && b == [b[0]] + b[1..];
    }
  }

  /** Smaller at position `i`, and equal before it. */
  predicate SmallerAt(a: seq<byte>, b: seq<byte>, i: nat) {
    i < |a| && i < |b| && a[i] < b[i] && forall j | 0 <= j < i :: a[j] == b[j]
  }

  /** Before the other: a proper prefix of it, or smaller where they first differ. */
  ghost predicate FirstSmaller(a: seq<byte>, b: seq<byte>) { a < b || exists i: nat :: SmallerAt(a, b, i) }

  lemma {:induction false} CompareBytesIs(a: seq<byte>, b: seq<byte>)
    ensures CompareBytes(a, b) == Less <==> FirstSmaller(a, b)
  {
    if a != [] && b != [] {
      FirstSmallerStep(a, b);
      hide FirstSmaller;
      if a[0] == b[0] {
        CompareBytesIs(a[1..], b[1..]);
      }
    }
  }

  lemma FirstSmallerStep(a: seq<byte>, b: seq<byte>)
    requires a != [] && b != []
    ensures FirstSmaller(a, b) <==> a[0] < b[0] || (a[0] == b[0] && FirstSmaller(a[1..], b[1..]))
  {
    var x, y := a[1..], b[1..];
    assert a == [a[0]] + x && b == [b[0]] + y;
    assert a[0] == b[0] ==> (a < b <==> x < y);
    assert a[0] < b[0] ==> SmallerAt(a, b, 0);
    if i: nat :| SmallerAt(a, b, i) {
      assert i > 0 ==> SmallerAt(x, y, i - 1);
    }
    if i: nat :| a[0] == b[0] && SmallerAt(x, y, i) {
      assert SmallerAt(a, b, i + 1);
    }
  }

  lemma {:induction false} CompareBytesTransitive(a: seq<byte>, b: seq<byte>, c: seq<byte>)
    requires CompareBytes(a, b) != Greater && CompareBytes(b, c) != Greater
    ensures CompareBytes(a, c) != Greater
    ensures CompareBytes(a, b) == Less || CompareBytes(b, c) == Less ==> CompareBytes(a, c) == Less
  {
    if a != [] && b != [] && c != [] && a[0] == b[0] == c[0] {
      CompareBytesTransitive(a[1..], b[1..], c[1..]);
    }
  }

  lemma SubsetSize<T>(a: set<T>, b: set<T>)
    requires a <= b
    ensures |a| <= |b|
  {
    assert b == a + (b - a);
  }

  lemma Assoc<T>(x: seq<T>, y: seq<T>, z: seq<T>)
    ensures x + (y + z) == x + y + z
  {
  }

  // ---- A piece of a buffer ----

  /** `piece` stands in `buffer` at offset `pos`. */
  predicate At(buffer: seq<byte>, pos: nat, piece: seq<byte>) {
    pos + |piece| <= |buffer| && buffer[pos..pos + |piece|] == piece
  }

  /** `buffer` breaks off inside `piece`, which starts at `pos`. */
  predicate CutAt(buffer: seq<byte>, pos: nat, piece: seq<byte>) {
    pos <= |buffer| < pos + |piece| && buffer[pos..] == piece[..|buffer| - pos]
  }

  lemma AtSplit(buffer: seq<byte>, pos: nat, a: seq<byte>, b: seq<byte>)
    requires At(buffer, pos, a + b)
    ensures At(buffer, pos, a) && At(buffer, pos + |a|, b)
  {
    var whole := buffer[pos..pos + |a + b|];
    assert buffer[pos..pos + |a|] == whole[..|a|] == a;
    assert buffer[pos + |a|..pos + |a| + |b|] == whole[|a|..] == b;
  }

  lemma CutSplit(buffer: seq<byte>, pos: nat, a: seq<byte>, b: seq<byte>)
    requires CutAt(buffer, pos, a + b)
    ensures CutAt(buffer, pos, a) || (At(buffer, pos, a) && CutAt(buffer, pos + |a|, b))
  {
    var rest := buffer[pos..];
    if |rest| < |a| {
      assert (a + b)[..|rest|] == a[..|rest|];
    } else {
      assert rest[..|a|] == (a + b)[..|rest|][..|a|] == a;
      assert buffer[pos..pos + |a|] == rest[..|a|];
      assert buffer[pos + |a|..] == rest[|a|..] == (a + b)[..|rest|][|a|..] == b[..|rest| - |a|];
    }
  }

  // ---- Fixed-width integers ----

  function Pow256(width: nat): nat {
    if width == 0 then 1 else 0x100 * Pow256(width - 1)
  }

  /** `n as uW` followed by `to_le_bytes`: the low `width` bytes, least first. */
  function LE(n: nat, width: nat): (r: seq<byte>)
    ensures |r| == width
  {
    if width == 0 then [] else [n % 0x100] + LE(n / 0x100, width - 1)
  }

  function FromLE(s: seq<byte>): (n: nat)
    ensures n < Pow256(|s|)
  {
    if s == [] then 0 else s[0] + 0x100 * FromLE(s[1..])
  }

  function Reverse(s: seq<byte>): (r: seq<byte>)
    ensures |r| == |s|
  {
    if s == [] then [] else Reverse(s[1..]) + [s[0]]
  }

  function BE(n: nat, width: nat): (r: seq<byte>)
    ensures |r| == width
  {
    Reverse(LE(n, width))
  }

  lemma {:induction false} LERoundTrip(n: nat, width: nat)
    requires n < Pow256(width)
    ensures FromLE(LE(n, width)) == n
  {
    if width != 0 {
      LERoundTrip(n / 0x100, width - 1);
      assert LE(n, width)[1..] == LE(n / 0x100, width - 1);
    }
  }

  lemma PowWidths()
    ensures Pow256(2) == 0x1_0000
    ensures Pow256(4) == 0x1_0000_0000
    ensures Pow256(8) == 0x1_0000_0000_0000_0000
  {
    assert Pow256(2) == 0x100 * Pow256(1);
    assert Pow256(4) == 0x1_0000 * Pow256(2);
    assert Pow256(6) == 0x1_0000 * Pow256(4);
    assert Pow256(8) == 0x1_0000 * Pow256(6);
  }

  /** Two's complement: an `i64` reinterpreted as `u64`, and back. */
  function AsU64(i: i64): u64 {
    if i < 0 then i + 0x1_0000_0000_0000_0000 else i
  }

  function AsI64(n: u64): i64 {
    if n >= 0x8000_0000_0000_0000 then n - 0x1_0000_0000_0000_0000 else n
  }

  function ReadU16(s: seq<byte>, pos: nat): (n: nat)
    requires pos + 2 <= |s|
    ensures n < 0x1_0000
  {
    PowWidths();
    FromLE(s[pos..pos + 2])
  }

  function ReadU32(s: seq<byte>, pos: nat): u32
    requires pos + 4 <= |s|
  {
    PowWidths();
    FromLE(s[pos..pos + 4])
  }

  function ReadU64(s: seq<byte>, pos: nat): u64
    requires pos + 8 <= |s|
  {
    PowWidths();
    FromLE(s[pos..pos + 8])
  }

  lemma ReadU16At(s: seq<byte>, pos: nat, n: nat)
    requires At(s, pos, LE(n, 2)) && n < 0x1_0000
    ensures ReadU16(s, pos) == n
  {
    PowWidths();
    LERoundTrip(n, 2);
  }

  lemma ReadU32At(s: seq<byte>, pos: nat, n: nat)
    requires At(s, pos, LE(n, 4)) && n < 0x1_0000_0000
    ensures ReadU32(s, pos) == n
  {
    PowWidths();
    LERoundTrip(n, 4);
  }

  lemma ReadU64At(s: seq<byte>, pos: nat, n: u64)
    requires At(s, pos, LE(n, 8))
    ensures ReadU64(s, pos) == n
  {
    PowWidths();
    LERoundTrip(n, 8);
  }

  // ---- Varint and zigzag ----

  function Zigzag(i: i64): u64 {
    if i >= 0 then 2 * i else -2 * i - 1
  }

  function Unzigzag(n: u64): i64 {
    if n % 2 == 0 then n / 2 else -(n / 2) - 1
  }

  function Varint(n: nat): (r: seq<byte>)
    ensures |r| > 0
  {
    if n < 0x80 then [n] else [n % 0x80 + 0x80] + Varint(n / 0x80)
  }

  /** Seven-bit groups still readable when `group` have been read: 2^(64 - 7 * group). */
  function VarintRoom(group: nat): nat
    requires group < 10
  {
    if group == 0 then 0x1_0000_0000_0000_0000 else VarintRoom(group - 1) / 0x80
  }

  lemma VarintRooms()
    ensures VarintRoom(9) == 2
    ensures forall g: nat | g < 9 :: VarintRoom(g) == 0x80 * VarintRoom(g + 1)
  {
    assert VarintRoom(1) == 0x200_0000_0000_0000;
    assert VarintRoom(3) == 0x800_0000_0000;
    assert VarintRoom(5) == 0x2000_0000;
    assert VarintRoom(7) == 0x8000;
  }

  /** The value and the offset after it, when `group` seven-bit groups are already read. */
  function ReadGroups(s: seq<byte>, pos: nat, group: nat): (r: Option<(nat, nat)>)
    requires group <= 10
    ensures r.Some? ==> pos < r.value.1 <= |s|
    decreases 10 - group
  {
    if group == 10 || pos >= |s| || (group == 9 && s[pos] > 1) then None
    else if s[pos] < 0x80 then Some((s[pos], pos + 1))
    else
      var (rest, end) :- ReadGroups(s, pos + 1, group + 1);
      Some((s[pos] - 0x80 + 0x80 * rest, end))
  }

  lemma {:induction false} GroupsFit(s: seq<byte>, pos: nat, group: nat)
    requires group <= 10 && ReadGroups(s, pos, group).Some?
    ensures group < 10 && ReadGroups(s, pos, group).value.0 < VarintRoom(group)
    decreases 10 - group
  {
    VarintRooms();
    if s[pos] >= 0x80 {
      GroupsFit(s, pos + 1, group + 1);
    }
  }

  function ReadVarint(s: seq<byte>, pos: nat): (r: Option<(u64, nat)>)
    ensures r.Some? ==> pos < r.value.1 <= |s|
  {
    var (n, end) :- ReadGroups(s, pos, 0);
    GroupsFit(s, pos, 0);
    Some((n, end))
  }

  lemma {:induction false} GroupsRoundTrip(s: seq<byte>, pos: nat, n: nat, group: nat)
    requires group < 10 && n < VarintRoom(group)
    requires At(s, pos, Varint(n))
    ensures ReadGroups(s, pos, group) == Some((n, pos + |Varint(n)|))
    decreases n
  {
    VarintRooms();
    hide VarintRoom;
    assert s[pos] == Varint(n)[0];
    if n >= 0x80 {
      AtSplit(s, pos, [n % 0x80 + 0x80], Varint(n / 0x80));
      hide At;
      GroupsRoundTrip(s, pos + 1, n / 0x80, group + 1);
    }
  }

  lemma VarintRoundTrip(s: seq<byte>, pos: nat, n: u64)
    requires At(s, pos, Varint(n))
    ensures ReadVarint(s, pos) == Some((n, pos + |Varint(n)|))
  {
    GroupsRoundTrip(s, pos, n, 0);
  }

  /** The encoder writes the shortest form a reader accepts. */
  lemma {:induction false} VarintShortest(s: seq<byte>, pos: nat, group: nat)
    requires group <= 10 && ReadGroups(s, pos, group).Some?
    ensures var (n, end) := ReadGroups(s, pos, group).value; |Varint(n)| <= end - pos
    decreases 10 - group
  {
    if s[pos] >= 0x80 {
      VarintShortest(s, pos + 1, group + 1);
      var (rest, _) := ReadGroups(s, pos + 1, group + 1).value;
      assert (s[pos] - 0x80 + 0x80 * rest) / 0x80 == rest;
    }
  }

  function Pow128(group: nat): (p: nat)
    ensures p > 0
  {
    if group == 0 then 1 else 0x80 * Pow128(group - 1)
  }

  lemma DivideTwice(n: nat, k: nat)
    requires k > 0
    ensures n / 0x80 / k == n / (0x80 * k)
  {
    var m, q := n / 0x80, n / 0x80 / k;
    assert n == 0x80 * m + n % 0x80 && m == k * q + m % k;
    var r := 0x80 * (m % k) + n % 0x80;
    assert n == 0x80 * k * q + r && 0 <= r < 0x80 * k;
    Quotient(n, 0x80 * k, q, r);
  }

  lemma Multiples(d: int, x: int)
    requires d > 0
    ensures x >= 1 ==> d * x >= d
    ensures x <= -1 ==> d * x <= -d
  {
  }

  lemma Quotient(n: nat, d: nat, q: nat, r: nat)
    requires n == d * q + r && r < d
    ensures n / d == q
  {
    var e, s := n / d, n % d;
    assert d * e + s == d * q + r;
    assert d * (e - q) == d * e - d * q;
    Multiples(d, e - q);
  }

  /** Byte `i` holds the group of weight 128^i, and its top bit says whether more follow. */
  lemma {:induction false} VarintAt(n: nat, i: nat)
    requires i < |Varint(n)|
    ensures Varint(n)[i] == n / Pow128(i) % 0x80 + if i + 1 < |Varint(n)| then 0x80 else 0
    decreases n
  {
    if i > 0 {
      VarintAt(n / 0x80, i - 1);
      DivideTwice(n, Pow128(i - 1));
    }
  }

  lemma {:induction false} VarintLength(n: nat, group: nat)
    requires group < 10 && n < VarintRoom(group)
    ensures |Varint(n)| <= 10 - group
    decreases n
  {
    VarintRooms();
    if n >= 0x80 {
      VarintLength(n / 0x80, group + 1);
    }
  }

  method EncodeVarint(n: u64, out: seq<byte>) returns (r: seq<byte>)
    ensures r == out + Varint(n)
  {
    r := out;
    var rest := n;
    while rest >= 0x80
      invariant 0 <= rest <= n
      invariant r + Varint(rest) == out + Varint(n)
    {
      r := r + [rest % 0x80 + 0x80];
      rest := rest / 0x80;
    }
    r := r + [rest];
  }

  /** A group shifted to its place. */
  function Shifted(scale: nat, n: nat): nat { scale * n }

  /** `whole` is what `rest` reads, on top of the low groups `res` already read. */
  predicate Accumulated(whole: Option<(nat, nat)>, rest: Option<(nat, nat)>, res: nat, scale: nat) {
    match rest
    case None => whole.None?
    case Some((n, end)) => whole == Some((res + Shifted(scale, n), end))
  }

  lemma AccumulateGroup(whole: Option<(nat, nat)>, s: seq<byte>, pos: nat, group: nat, res: nat, scale: nat)
    requires group < 10 && pos < |s| && !(group == 9 && s[pos] > 1) && res < scale
    requires Accumulated(whole, ReadGroups(s, pos, group), res, scale)
    ensures s[pos] < 0x80 ==> whole == Some((res + Shifted(scale, s[pos]), pos + 1))
    ensures s[pos] >= 0x80 ==>
              && Accumulated(whole, ReadGroups(s, pos + 1, group + 1), res + Shifted(scale, s[pos] - 0x80), 0x80 * scale)
              && res + Shifted(scale, s[pos] - 0x80) < 0x80 * scale
  {
    hide Shifted;
    if s[pos] >= 0x80 {
      var rest := ReadGroups(s, pos + 1, group + 1);
      ScaleGroup(scale, s[pos] - 0x80, if rest.Some? then rest.value.0 else 0);
    }
  }

  lemma ScaleGroup(scale: nat, low: nat, rest: nat)
    requires low < 0x80
    ensures Shifted(scale, low + 0x80 * rest) == Shifted(scale, low) + Shifted(0x80 * scale, rest)
    ensures Shifted(scale, low) <= 0x7F * scale
  {
    assert scale * (0x80 * rest) == 0x80 * scale * rest;
    var slack := 0x7F - low;
    assert scale * low + scale * slack == scale * 0x7F;
  }

  /** The loop of `decode_varint`; `res |= bits << shift` adds, as `res < 2^shift`. */
  method DecodeVarint(s: seq<byte>, pos: nat) returns (r: Option<(nat, nat)>)
    ensures r == ReadGroups(s, pos, 0)
  {
    ghost var whole := ReadGroups(s, pos, 0);
    var res: nat, p: nat, group: nat, scale: nat := 0, pos, 0, 1;
    assert Accumulated(whole, ReadGroups(s, p, group), res, scale);
    hide Shifted;
    while group < 10
      invariant group <= 10
      invariant res < scale
      invariant Accumulated(whole, ReadGroups(s, p, group), res, scale)
    {
      if p >= |s| || (group == 9 && s[p] > 1) {
        return None;
      }
      AccumulateGroup(whole, s, p, group, res, scale);
      if s[p] < 0x80 {
        return Some((res + Shifted(scale, s[p]), p + 1));
      }
      res, p, group, scale := res + Shifted(scale, s[p] - 0x80), p + 1, group + 1, 0x80 * scale;
    }
    r := None;
  }

  // ---- UTF-8 ----

  predicate Continuation(b: byte) { 0x80 <= b < 0xC0 }

  /** Length of the well-formed code point at the front of `s`; 0 when there is none. */
  function Utf8Head(s: seq<byte>): (n: nat)
    requires s != []
    ensures n <= |s|
  {
    var b := s[0];
    if b < 0x80 then 1
    else if 0xC2 <= b < 0xE0 then
      if |s| >= 2 && Continuation(s[1]) then 2 else 0
    else if 0xE0 <= b < 0xF0 then
      if |s| >= 3 && Continuation(s[1]) && Continuation(s[2])
        && (b == 0xE0 ==> s[1] >= 0xA0) && (b == 0xED ==> s[1] < 0xA0) then 3 else 0
    else if 0xF0 <= b < 0xF5 then
      if |s| >= 4 && Continuation(s[1]) && Continuation(s[2]) && Continuation(s[3])
        && (b == 0xF0 ==> s[1] >= 0x90) && (b == 0xF4 ==> s[1] < 0x90) then 4 else 0
    else 0
  }

  /** `std::str::from_utf8(s).is_ok()` */
  predicate Utf8(s: seq<byte>) {
    s == [] || (Utf8Head(s) > 0 && Utf8(s[Utf8Head(s)..]))
  }

  /** The bytes of a code point, section 3 of RFC 3629. */
  function Utf8Encode(c: nat): seq<byte>
    requires c < 0x11_0000
  {
    if c < 0x80 then [c]
    else if c < 0x800 then [0xC0 + c / 0x40, 0x80 + c % 0x40]
    else if c < 0x1_0000 then [0xE0 + c / 0x1000, 0x80 + c / 0x40 % 0x40, 0x80 + c % 0x40]
    else [0xF0 + c / 0x4_0000, 0x80 + c / 0x1000 % 0x40, 0x80 + c / 0x40 % 0x40, 0x80 + c % 0x40]
  }

  /** Code points that are not surrogates. */
  predicate Scalar(c: nat) { c < 0x11_0000 && !(0xD800 <= c < 0xE000) }

  predicate Scalars(cs: seq<nat>) { forall c | c in cs :: Scalar(c) }

  function Utf8Text(cs: seq<nat>): seq<byte>
    requires Scalars(cs)
  {
    if cs == [] then []
    else
      assert Scalar(cs[0]);
      Utf8Encode(cs[0]) + Utf8Text(cs[1..])
  }

  /** The code point at the front of a text. */
  function Utf8First(s: seq<byte>): nat
    requires s != [] && Utf8Head(s) > 0
  {
    var b := s[0] as int;
    if b < 0x80 then b
    else if b < 0xE0 then 0x40 * (b - 0xC0) + (s[1] as int - 0x80)
    else if b < 0xF0 then 0x1000 * (b - 0xE0) + 0x40 * (s[1] as int - 0x80) + (s[2] as int - 0x80)
    else 0x4_0000 * (b - 0xF0) + 0x1000 * (s[1] as int - 0x80) + 0x40 * (s[2] as int - 0x80) + (s[3] as int - 0x80)
  }

  lemma TwoBytes(x: int, y: int)
    requires 2 <= x < 0x20 && 0 <= y < 0x40
    ensures var c := 0x40 * x + y; 0x80 <= c < 0x800 && c / 0x40 == x && c % 0x40 == y
  {
  }

  lemma ThreeBytes(x: int, y: int, z: int)
    requires 0 <= x < 0x10 && 0 <= y < 0x40 && 0 <= z < 0x40
    ensures var c := 0x1000 * x + 0x40 * y + z; c / 0x1000 == x && c / 0x40 % 0x40 == y && c % 0x40 == z
  {
    assert (0x1000 * x + 0x40 * y + z) / 0x40 == 0x40 * x + y;
  }

  lemma FourBytes(w: int, x: int, y: int, z: int)
    requires 0 <= w < 8 && 0 <= x < 0x40 && 0 <= y < 0x40 && 0 <= z < 0x40
    ensures var c := 0x4_0000 * w + 0x1000 * x + 0x40 * y + z;
            c / 0x4_0000 == w && c / 0x1000 % 0x40 == x && c / 0x40 % 0x40 == y && c % 0x40 == z
  {
    var c := 0x4_0000 * w + 0x1000 * x + 0x40 * y + z;
    assert c / 0x40 == 0x1000 * w + 0x40 * x + y && c / 0x1000 == 0x40 * w + x;
  }

  lemma HeadTwo(s: seq<byte>)
    requires s != [] && Utf8Head(s) == 2
    ensures Scalar(Utf8First(s)) && [s[0], s[1]] == Utf8Encode(Utf8First(s))
  {
    TwoBytes(s[0] as int - 0xC0, s[1] as int - 0x80);
  }

  lemma HeadThree(s: seq<byte>)
    requires s != [] && Utf8Head(s) == 3
    ensures Scalar(Utf8First(s)) && [s[0], s[1], s[2]] == Utf8Encode(Utf8First(s))
  {
    ThreeBytes(s[0] as int - 0xE0, s[1] as int - 0x80, s[2] as int - 0x80);
  }

  lemma HeadFour(s: seq<byte>)
    requires s != [] && Utf8Head(s) == 4
    ensures Scalar(Utf8First(s)) && [s[0], s[1], s[2], s[3]] == Utf8Encode(Utf8First(s))
  {
    FourBytes(s[0] as int - 0xF0, s[1] as int - 0x80, s[2] as int - 0x80, s[3] as int - 0x80);
  }

  lemma HeadLength(s: seq<byte>)
    requires s != [] && Utf8Head(s) > 0
    ensures Utf8Head(s) <= 4 && (Utf8Head(s) == 1 ==> s[0] < 0x80 && Utf8First(s) == s[0] && Utf8Encode(s[0]) == [s[0]])
  {
  }

  /** The bytes counted as one code point are the encoding of one. */
  lemma HeadEncodes(s: seq<byte>)
    requires s != [] && Utf8Head(s) > 0
    ensures Scalar(Utf8First(s)) && s[..Utf8Head(s)] == Utf8Encode(Utf8First(s))
  {
    HeadLength(s);
    hide Utf8Head, Utf8First, Utf8Encode;
    var n := Utf8Head(s);
    if n == 2 {
      HeadTwo(s);
    } else if n == 3 {
      HeadThree(s);
    } else if n == 4 {
      HeadFour(s);
    }
  }

  lemma EncodedHead(c: nat, rest: seq<byte>)
    requires Scalar(c)
    ensures Utf8Head(Utf8Encode(c) + rest) == |Utf8Encode(c)| > 0
  {
    if c >= 0x1_0000 {
      assert c / 0x4_0000 == (c / 0x1000) / 0x40;
    } else if c >= 0x800 {
      assert c / 0x1000 == (c / 0x40) / 0x40;
    }
  }

  lemma {:induction false} TextIsUtf8(cs: seq<nat>)
    requires Scalars(cs)
    ensures Utf8(Utf8Text(cs))
  {
    if cs != [] {
      hide Utf8Head, Utf8Encode;
      TextIsUtf8(cs[1..]);
      EncodedHead(cs[0], Utf8Text(cs[1..]));
      var s, n := Utf8Text(cs), |Utf8Encode(cs[0])|;
      assert s[n..] == Utf8Text(cs[1..]);
    }
  }

  lemma TextFront(s: seq<byte>, n: nat, c: nat, cs: seq<nat>)
    requires n <= |s| && Scalar(c) && s[..n] == Utf8Encode(c) && Scalars(cs) && s[n..] == Utf8Text(cs)
    ensures Scalars([c] + cs) && s == Utf8Text([c] + cs)
  {
    hide Utf8Encode, Scalar;
    assert ([c] + cs)[1..] == cs && s == s[..n] + s[n..];
  }

  lemma Utf8Rest(s: seq<byte>)
    requires Utf8(s) && s != []
    ensures Utf8Head(s) > 0 && Utf8(s[Utf8Head(s)..])
  {
  }

  lemma {:induction false} Utf8IsText(s: seq<byte>) returns (cs: seq<nat>)
    requires Utf8(s)
    ensures Scalars(cs) && s == Utf8Text(cs)
  {
    hide Utf8Head, Utf8Encode, Utf8First, Scalar, Utf8;
    if s == [] {
      cs := [];
    } else {
      hide Scalars, Utf8Text;
      Utf8Rest(s);
      HeadEncodes(s);
      var n := Utf8Head(s);
      cs := Utf8IsText(s[n..]);
      TextFront(s, n, Utf8First(s), cs);
      cs := [Utf8First(s)] + cs;
    }
  }

  /** The check accepts exactly the encodings of sequences of scalar values. */
  lemma Utf8Exact(s: seq<byte>)
    ensures Utf8(s) <==> exists cs: seq<nat> :: Scalars(cs) && Utf8Text(cs) == s
  {
    if Utf8(s) {
      var cs := Utf8IsText(s);
    }
    if cs: seq<nat> :| Scalars(cs) && Utf8Text(cs) == s {
      TextIsUtf8(cs);
    }
  }
}
