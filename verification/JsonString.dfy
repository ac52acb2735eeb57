/**
 JSON string escaping (`write_json_raw`): eight bytes at a time over clean runs,
 bulk copies between escapes. The loop emits what escaping byte by byte emits,
 and unescaping by section 7 of RFC 8259 gives the string back.
 */
module JsonString {
  import opened Bytes

  const QUOTE: byte := 0x22
  const BACKSLASH: byte := 0x5C
  const LETTER_U: byte := 0x75

  /** The byte to emit after a backslash; 0 for a clean byte, `u` for `\u00XX`. */
  function EscapeCode(b: byte): byte {
    if b == 0x08 then 0x62
    else if b == 0x09 then 0x74
    else if b == 0x0A then 0x6E
    else if b == 0x0C then 0x66
    else if b == 0x0D then 0x72
    else if b < 0x20 then LETTER_U
    else if b == QUOTE || b == BACKSLASH then b
    else 0
  }

  predicate Clean(b: byte) { EscapeCode(b) == 0 }

  function HexDigit(n: nat): byte
    requires n < 16
  {
    if n < 10 then 0x30 + n else 0x57 + n
  }

  function EscapeByte(b: byte): seq<byte> {
    if Clean(b) then [b]
    else if EscapeCode(b) == LETTER_U then
      [BACKSLASH, LETTER_U, 0x30, 0x30, HexDigit(b / 16), HexDigit(b % 16)]
    else [BACKSLASH, EscapeCode(b)]
  }

  /** Byte-by-byte escaping: what the emitter has to produce. */
  function Escape(s: seq<byte>): seq<byte> {
    if s == [] then [] else EscapeByte(s[0]) + Escape(s[1..])
  }

  // ---- Eight bytes at a time ----

  const ONES: bv64 := 0x0101_0101_0101_0101
  const HIGH: bv64 := 0x8080_8080_8080_8080

  /** `needs_escape`: some lane of the word is below 0x20, a quote or a backslash. */
  predicate NeedsEscape(w: bv64) {
    var below := (w - ONES * 0x20) & !w & HIGH;
    var q := w ^ (ONES * 0x22);
    var s := w ^ (ONES * 0x5C);
    var equal := ((q - ONES) & !q & HIGH) | ((s - ONES) & !s & HIGH);
    (below | equal) != 0
  }

  predicate BadLane(lane: bv64) { lane < 0x20 || lane == 0x22 || lane == 0x5C }

  predicate SomeBadLane(w: bv64) {
    || BadLane(w & 0xFF) || BadLane((w >> 8) & 0xFF) || BadLane((w >> 16) & 0xFF) || BadLane((w >> 24) & 0xFF)
    || BadLane((w >> 32) & 0xFF) || BadLane((w >> 40) & 0xFF) || BadLane((w >> 48) & 0xFF) || BadLane((w >> 56) & 0xFF)
  }

  /** The borrow-free and the borrowing lanes together: the word test is exact. */
  lemma NeedsEscapeExact(w: bv64)
    ensures NeedsEscape(w) <==> SomeBadLane(w)
  {
    assert ONES * 0x20 == 0x2020_2020_2020_2020;
    assert ONES * 0x22 == 0x2222_2222_2222_2222;
    assert ONES * 0x5C == 0x5C5C_5C5C_5C5C_5C5C;
  }

  /** `u64::from_le_bytes`. */
  function Word(s: seq<byte>): bv64
    requires |s| == 8
  {
    Join(Lane(s[0]), Lane(s[1]), Lane(s[2]), Lane(s[3]), Lane(s[4]), Lane(s[5]), Lane(s[6]), Lane(s[7]))
  }

  function Lane(b: byte): bv64 { b as bv64 }

  function Join(a: bv64, b: bv64, c: bv64, d: bv64, e: bv64, f: bv64, g: bv64, h: bv64): bv64 {
    a | (b << 8) | (c << 16) | (d << 24) | (e << 32) | (f << 40) | (g << 48) | (h << 56)
  }

  lemma JoinLanes(a: bv64, b: bv64, c: bv64, d: bv64, e: bv64, f: bv64, g: bv64, h: bv64)
    requires a <= 0xFF && b <= 0xFF && c <= 0xFF && d <= 0xFF && e <= 0xFF && f <= 0xFF && g <= 0xFF && h <= 0xFF
    ensures var w := Join(a, b, c, d, e, f, g, h);
            && w & 0xFF == a && (w >> 8) & 0xFF == b && (w >> 16) & 0xFF == c && (w >> 24) & 0xFF == d
            && (w >> 32) & 0xFF == e && (w >> 40) & 0xFF == f && (w >> 48) & 0xFF == g && (w >> 56) & 0xFF == h
  {
  }

  lemma JoinTest(a: bv64, b: bv64, c: bv64, d: bv64, e: bv64, f: bv64, g: bv64, h: bv64)
    requires a <= 0xFF && b <= 0xFF && c <= 0xFF && d <= 0xFF && e <= 0xFF && f <= 0xFF && g <= 0xFF && h <= 0xFF
    ensures SomeBadLane(Join(a, b, c, d, e, f, g, h)) <==>
            || BadLane(a) || BadLane(b) || BadLane(c) || BadLane(d)
            || BadLane(e) || BadLane(f) || BadLane(g) || BadLane(h)
  {
    hide BadLane, Join;
    JoinLanes(a, b, c, d, e, f, g, h);
  }

  lemma LaneOfByte(b: byte)
    ensures Lane(b) <= 0xFF
    ensures BadLane(Lane(b)) <==> !Clean(b)
  {
    LaneBound(b);
    LaneBelow(b);
    LaneEquals(b);
  }

  lemma LaneBound(b: byte) ensures b as bv64 <= 0xFF { }

  lemma LaneBelow(b: byte) ensures b as bv64 < 0x20 <==> b < 0x20 { }

  lemma LaneEquals(b: byte)
    ensures b as bv64 == 0x22 <==> b == 0x22
    ensures b as bv64 == 0x5C <==> b == 0x5C
  { }

  /** The word test holds exactly when one of the eight bytes must be escaped. */
  lemma WordTest(s: seq<byte>)
    requires |s| == 8
    ensures NeedsEscape(Word(s)) <==> exists i | 0 <= i < 8 :: !Clean(s[i])
  {
    hide NeedsEscape, SomeBadLane, BadLane, Clean, Join, Lane;
    forall i | 0 <= i < 8 ensures Lane(s[i]) <= 0xFF && (BadLane(Lane(s[i])) <==> !Clean(s[i])) {
      LaneOfByte(s[i]);
    }
    JoinTest(Lane(s[0]), Lane(s[1]), Lane(s[2]), Lane(s[3]), Lane(s[4]), Lane(s[5]), Lane(s[6]), Lane(s[7]));
    NeedsEscapeExact(Word(s));
  }

  // ---- The emitter ----

  lemma {:induction false} EscapeAppend(a: seq<byte>, b: seq<byte>)
    ensures Escape(a + b) == Escape(a) + Escape(b)
  {
    hide EscapeByte;
    if a == [] {
      assert a + b == b;
    } else {
      assert (a + b)[1..] == a[1..] + b;
      var x, y, z := EscapeByte(a[0]), Escape(a[1..]), Escape(b);
      assert Escape(a + b) == x + Escape(a[1..] + b) && Escape(a) == x + y;
      hide Escape;
      EscapeAppend(a[1..], b);
      Assoc(x, y, z);
    }
  }

  lemma {:induction false} EscapeClean(s: seq<byte>)
    requires forall i | 0 <= i < |s| :: Clean(s[i])
    ensures Escape(s) == s
  {
    if s != [] {
      EscapeClean(s[1..]);
      assert [s[0]] + s[1..] == s;
    }
  }

  /** What is emitted for `s[..i]` when `s[start..i]` is still to be copied. */
  lemma PendingRun(s: seq<byte>, start: nat, i: nat)
    requires start <= i <= |s| && forall k | start <= k < i :: Clean(s[k])
    ensures Escape(s[..i]) == Escape(s[..start]) + s[start..i]
  {
    hide Clean;
    assert s[..i] == s[..start] + s[start..i];
    EscapeAppend(s[..start], s[start..i]);
    EscapeClean(s[start..i]);
  }

  lemma EscapeNext(s: seq<byte>, i: nat)
    requires i < |s|
    ensures Escape(s[..i + 1]) == Escape(s[..i]) + EscapeByte(s[i])
  {
    hide EscapeByte;
    assert s[..i + 1] == s[..i] + [s[i]];
    EscapeAppend(s[..i], [s[i]]);
    assert [s[i]][1..] == [] && EscapeByte(s[i]) + [] == EscapeByte(s[i]);
  }

  method WriteEscape(out: seq<byte>, b: byte, esc: byte) returns (r: seq<byte>)
    requires esc == EscapeCode(b) && esc != 0
    ensures r == out + EscapeByte(b)
  {
    r := out + [BACKSLASH];
    if esc == LETTER_U {
      r := r + [LETTER_U, 0x30, 0x30];
      r := r + [HexDigit(b / 16)];
      r := r + [HexDigit(b % 16)];
    } else {
      r := r + [esc];
    }
  }

  /** `write_json_raw`. */
  method WriteJsonRaw(out: seq<byte>, s: seq<byte>) returns (r: seq<byte>)
    ensures r == out + Escape(s)
  {
    hide NeedsEscape, Word, Escape;
    r := out;
    var start, i := 0, 0;
    assert Escape(s[..0]) == [] by { EscapeClean(s[..0]); }
    while i < |s|
      invariant 0 <= start <= i <= |s|
      invariant r == out + Escape(s[..start])
      invariant forall k | start <= k < i :: Clean(s[k])
    {
      if i + 8 <= |s| {
        var word := s[i..i + 8];
        WordTest(word);
        if !NeedsEscape(Word(word)) {
          forall k | i <= k < i + 8 ensures Clean(s[k]) { assert s[k] == word[k - i]; }
          i := i + 8;
          continue;
        }
      }
      var b := s[i];
      var esc := EscapeCode(b);
      if esc == 0 {
        i := i + 1;
        continue;
      }
      PendingRun(s, start, i);
      EscapeNext(s, i);
      hide EscapeByte, Clean;
      Assoc(out, Escape(s[..start]), s[start..i]);
      r := r + s[start..i];
      Assoc(out, Escape(s[..i]), EscapeByte(b));
      i := i + 1;
      start := i;
      r := WriteEscape(r, b, esc);
    }
    PendingRun(s, start, |s|);
    assert s[..|s|] == s;
    r := r + s[start..];
  }

  // ---- Unescaping, section 7 of RFC 8259 ----

  function HexValue(b: byte): Option<nat> {
    if 0x30 <= b <= 0x39 then Some(b - 0x30)
    else if 0x61 <= b <= 0x66 then Some(b - 0x57)
    else if 0x41 <= b <= 0x46 then Some(b - 0x37)
    else None
  }

  /** The code unit of four hexadecimal digits at the front of `t`. */
  function HexQuad(t: seq<byte>): (r: Option<nat>)
    ensures r.Some? ==> |t| >= 4 && r.value < 0x1_0000
  {
    if |t| < 4 then None
    else
      var a :- HexValue(t[0]);
      var b :- HexValue(t[1]);
      var c :- HexValue(t[2]);
      var d :- HexValue(t[3]);
      if a < 16 && b < 16 && c < 16 && d < 16 then Some(0x1000 * a + 0x100 * b + 0x10 * c + d) else None
  }

  /** The character after a backslash: its bytes, and how much of `t` it takes. */
  function Unescaped(t: seq<byte>): (r: Option<(seq<byte>, nat)>)
    ensures r.Some? ==> 0 < r.value.1 <= |t|
  {
    if t == [] then None
    else if t[0] == 0x22 || t[0] == 0x5C || t[0] == 0x2F then Some(([t[0]], 1))
    else if t[0] == 0x62 then Some(([0x08], 1))
    else if t[0] == 0x66 then Some(([0x0C], 1))
    else if t[0] == 0x6E then Some(([0x0A], 1))
    else if t[0] == 0x72 then Some(([0x0D], 1))
    else if t[0] == 0x74 then Some(([0x09], 1))
    else if t[0] != 0x75 then None
    else
      var unit :- HexQuad(t[1..]);
      if !(0xD800 <= unit < 0xE000) then Some((Utf8Encode(unit), 5))
      else if unit < 0xDC00 && |t| >= 11 && t[5] == 0x5C && t[6] == 0x75 then
        var low :- HexQuad(t[7..]);
        if 0xDC00 <= low < 0xE000 then
          Some((Utf8Encode(0x1_0000 + 0x400 * (unit - 0xD800) + (low - 0xDC00)), 11))
        else None
      else None
  }

  /** The contents of a JSON string literal. */
  function Unescape(t: seq<byte>): Option<seq<byte>> {
    if t == [] then Some([])
    else if t[0] == 0x5C then
      var (bytes, len) :- Unescaped(t[1..]);
      var rest :- Unescape(t[1 + len..]);
      Some(bytes + rest)
    else if t[0] < 0x20 || t[0] == 0x22 then None
    else
      var rest :- Unescape(t[1..]);
      Some([t[0]] + rest)
  }

  lemma UnescapeByte(b: byte, rest: seq<byte>)
    ensures Unescape(EscapeByte(b) + rest) ==
            match Unescape(rest) case None => None case Some(s) => Some([b] + s)
  {
    var t := EscapeByte(b) + rest;
    if Clean(b) {
      assert t[1..] == rest;
    } else if EscapeCode(b) == LETTER_U {
      assert t[1..][1..][..4] == [0x30, 0x30, HexDigit(b / 16), HexDigit(b % 16)];
      assert HexQuad(t[1..][1..]) == Some(b);
      assert t[6..] == rest;
    } else {
      assert t[2..] == rest;
    }
  }

  lemma {:induction false} UnescapeInverts(s: seq<byte>)
    ensures Unescape(Escape(s)) == Some(s)
  {
    if s != [] {
      UnescapeInverts(s[1..]);
      UnescapeByte(s[0], Escape(s[1..]));
      assert [s[0]] + s[1..] == s;
    }
  }

  /** Bytes with an escape of two characters. */
  predicate Short(b: byte) {
    b == 0x22 || b == 0x5C || b == 0x2F || b == 0x08 || b == 0x09 || b == 0x0A || b == 0x0C || b == 0x0D
  }

  lemma EscapeTakes(t: seq<byte>)
    requires Unescaped(t).Some?
    ensures if t[0] == 0x75 then Unescaped(t).value.1 >= 5
            else Unescaped(t).value.1 == 1 && |Unescaped(t).value.0| == 1 && Short(Unescaped(t).value.0[0])
  {
    hide HexQuad, Utf8Encode;
  }

  /** The bytes in front of a text that stands for one byte: none, or that byte. */
  lemma OneByte(front: seq<byte>, rest: seq<byte>, b: byte)
    requires front + rest == [b] && |front| == 1
    ensures front == [b]
  {
    assert front[0] == (front + rest)[0];
  }

  lemma EscapeLength(b: byte)
    ensures |EscapeByte(b)| <= 6
    ensures b >= 0x20 && b != 0x22 && b != 0x5C ==> |EscapeByte(b)| == 1
    ensures Short(b) ==> |EscapeByte(b)| <= 2
  {
    hide HexDigit;
  }

  lemma UnescapeFirst(t: seq<byte>)
    requires Unescape(t).Some? && t != [] && t[0] == 0x5C
    ensures Unescaped(t[1..]).Some?
    ensures var (bytes, len) := Unescaped(t[1..]).value; Unescape(t[1 + len..]).Some? && Unescape(t).value == bytes + Unescape(t[1 + len..]).value
  {
    hide Unescaped;
  }

  lemma UnescapePlain(t: seq<byte>)
    requires Unescape(t).Some? && t != [] && t[0] != 0x5C
    ensures t[0] >= 0x20 && t[0] != 0x22
    ensures Unescape(t[1..]).Some? && Unescape(t).value == [t[0]] + Unescape(t[1..]).value
  {
  }

  /** No shorter text stands for a byte: the two-character escapes are used where there are any. */
  lemma ShortestEscape(b: byte, t: seq<byte>)
    requires Unescape(t) == Some([b])
    ensures |EscapeByte(b)| <= |t|
  {
    assert t != [];
    hide Unescape, Unescaped, EscapeByte, Short;
    EscapeLength(b);
    if t[0] == 0x5C {
      UnescapeFirst(t);
      EscapeTakes(t[1..]);
      var (bytes, len) := Unescaped(t[1..]).value;
      if t[1] != 0x75 {
        OneByte(bytes, Unescape(t[1 + len..]).value, b);
      }
    } else {
      UnescapePlain(t);
      OneByte([t[0]], Unescape(t[1..]).value, b);
    }
  }
}
