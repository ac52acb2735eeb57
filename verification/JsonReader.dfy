/**
 A reader of JSON text by the grammar of RFC 8259, sections 2 to 7, without insignificant
 whitespace, and the tree of what a value holds. The reader knows nothing of the emitters;
 only the unescaping of string contents is shared with them.
 */
module JsonReader {
  import opened Bytes
  import opened Values
  import opened JsonString
  import opened Json

  datatype Tree =
    | TNull
    | TBool(b: bool)
    | TInt(n: int)
    | TNumber(token: seq<byte>)
    | TString(s: seq<byte>)
    | TArray(items: seq<Tree>)
    | TObject(members: seq<Pair>)

  datatype Pair = Pair(key: seq<byte>, value: Tree)

  // ---- Numbers: section 6 ----

  predicate Digit(b: byte) { 0x30 <= b <= 0x39 }

  /** How many digits stand in front. */
  function Digits(t: seq<byte>): (n: nat)
    ensures n <= |t|
  {
    if t == [] || !Digit(t[0]) then 0 else 1 + Digits(t[1..])
  }

  function Unsigned(t: seq<byte>): seq<byte> { if t != [] && t[0] == 0x2D then t[1..] else t }

  /** No leading zero, then an optional fraction and an optional exponent. */
  predicate IsNumber(t: seq<byte>) {
    var u := Unsigned(t);
    var n := Digits(u);
    n > 0 && (u[0] == 0x30 ==> n == 1) && Fraction(u[n..])
  }

  predicate Fraction(t: seq<byte>) {
    if t != [] && t[0] == 0x2E then Digits(t[1..]) > 0 && Exponent(t[1 + Digits(t[1..])..]) else Exponent(t)
  }

  predicate Exponent(t: seq<byte>) {
    t == [] || ((t[0] == 0x65 || t[0] == 0x45) &&
                var u := if |t| > 1 && (t[1] == 0x2B || t[1] == 0x2D) then t[2..] else t[1..];
                u != [] && Digits(u) == |u|)
  }

  /** Digits, sign, point and exponent letters. */
  predicate NumberByte(b: byte) { Digit(b) || b == 0x2B || b == 0x2D || b == 0x2E || b == 0x45 || b == 0x65 }

  function NumberLength(t: seq<byte>): (n: nat)
    ensures n <= |t|
  {
    if t == [] || !NumberByte(t[0]) then 0 else 1 + NumberLength(t[1..])
  }

  /** What decimal digits denote. */
  function Decimal(t: seq<byte>): int {
    if t == [] then 0 else 10 * Decimal(t[..|t| - 1]) + (t[|t| - 1] as int - 0x30)
  }

  function NumberTree(t: seq<byte>): Tree {
    var u := Unsigned(t);
    if Digits(u) == |u| then TInt(if u == t then Decimal(u) else -Decimal(u)) else TNumber(t)
  }

  // ---- Values: sections 3 to 5 and 7 ----

  /** Where the string literal ends: the first quote not behind a backslash. */
  function StringEnd(t: seq<byte>): (r: Option<nat>)
    ensures r.Some? ==> r.value < |t|
  {
    if t == [] then None
    else if t[0] == 0x22 then Some(0)
    else if t[0] == 0x5C then
      if |t| < 2 then None
      else
        var n :- StringEnd(t[2..]);
        Some(n + 2)
    else
      var n :- StringEnd(t[1..]);
      Some(n + 1)
  }

  /** A string literal behind its opening quote. */
  function ReadString(t: seq<byte>): (r: Option<(seq<byte>, seq<byte>)>)
    ensures r.Some? ==> |r.value.1| < |t|
  {
    var n :- StringEnd(t);
    var s :- Unescape(t[..n]);
    Some((s, t[n + 1..]))
  }

  /** A value in front of the text, and the text behind it. */
  function ReadValue(t: seq<byte>): (r: Option<(Tree, seq<byte>)>)
    ensures r.Some? ==> |r.value.1| < |t|
    decreases |t|, 0
  {
    if t == [] then None
    else if [0x6E, 0x75, 0x6C, 0x6C] <= t then Some((TNull, t[4..]))
    else if [0x74, 0x72, 0x75, 0x65] <= t then Some((TBool(true), t[4..]))
    else if [0x66, 0x61, 0x6C, 0x73, 0x65] <= t then Some((TBool(false), t[5..]))
    else if t[0] == 0x22 then
      var (s, rest) :- ReadString(t[1..]);
      Some((TString(s), rest))
    else if t[0] == 0x5B then
      if |t| > 1 && t[1] == 0x5D then Some((TArray([]), t[2..]))
      else
        var (items, rest) :- ReadItems(t[1..]);
        Some((TArray(items), rest))
    else if t[0] == 0x7B then
      if |t| > 1 && t[1] == 0x7D then Some((TObject([]), t[2..]))
      else
        var (members, rest) :- ReadMembers(t[1..]);
        Some((TObject(members), rest))
    else
      var n := NumberLength(t);
      if n > 0 && IsNumber(t[..n]) then Some((NumberTree(t[..n]), t[n..])) else None
  }

  /** One or more values up to the closing bracket. */
  function ReadItems(t: seq<byte>): (r: Option<(seq<Tree>, seq<byte>)>)
    ensures r.Some? ==> |r.value.1| < |t|
    decreases |t|, 1
  {
    var (v, rest) :- ReadValue(t);
    if rest == [] then None
    else if rest[0] == 0x5D then Some(([v], rest[1..]))
    else if rest[0] == 0x2C then
      var (vs, end) :- ReadItems(rest[1..]);
      Some(([v] + vs, end))
    else None
  }

  /** One or more members up to the closing brace. */
  function ReadMembers(t: seq<byte>): (r: Option<(seq<Pair>, seq<byte>)>)
    ensures r.Some? ==> |r.value.1| < |t|
    decreases |t|, 1
  {
    if t == [] || t[0] != 0x22 then None
    else
      var (key, mid) :- ReadString(t[1..]);
      if mid == [] || mid[0] != 0x3A then None
      else
        var (v, rest) :- ReadValue(mid[1..]);
        if rest == [] then None
        else if rest[0] == 0x7D then Some(([Pair(key, v)], rest[1..]))
        else if rest[0] == 0x2C then
          var (ms, end) :- ReadMembers(rest[1..]);
          Some(([Pair(key, v)] + ms, end))
        else None
  }

  /** A whole text. */
  function ReadText(t: seq<byte>): Option<Tree> {
    var (v, rest) :- ReadValue(t);
    if rest == [] then Some(v) else None
  }

  // ---- What a value holds ----

  predicate IsNull(t: seq<byte>) { t == [0x6E, 0x75, 0x6C, 0x6C] }

  /** Floats are rendered as number tokens, or as null when they are not finite. */
  ghost predicate Renders(ff: FloatText) { forall bits: u64 :: IsNumber(ff(bits)) || IsNull(ff(bits)) }

  function TreeOf(v: Value, ff: FloatText): Tree
    decreases v, 1
  {
    match v
    case Null => TNull
    case ServerTimestamp => TNull
    case Bool(b) => TBool(b)
    case Int(i) => TInt(i)
    case Float(bits) => if IsNull(ff(bits)) then TNull else NumberTree(ff(bits))
    case String(s) => TString(s)
    case Binary(bytes) => TArray(seq(|bytes|, i requires 0 <= i < |bytes| => TInt(bytes[i])))
    case Timestamp(micros) => TInt(micros)
    case Reference(c, d) => TObject([Pair([0x5F, 0x5F, 0x72, 0x65, 0x66, 0x5F, 0x5F], TString(c + [0x2F] + d))])
    case BlobLink(offset, len) =>
      TObject([Pair([0x5F, 0x5F, 0x62, 0x6C, 0x6F, 0x62, 0x5F, 0x5F],
                    TObject([Pair([0x6C, 0x65, 0x6E], TInt(len)), Pair([0x6F, 0x66, 0x66, 0x73, 0x65, 0x74], TInt(offset))]))])
    case Map(fields) => TObject(Arranged([], PairsOf(fields, ff)))
    case Array(items) => TArray(TreesOf(items, ff))
  }

  function PairsOf(fields: seq<Field>, ff: FloatText): (r: seq<Pair>)
    ensures |r| == |fields|
    decreases fields, 0
  {
    if fields == [] then [] else [Pair(fields[0].key, TreeOf(fields[0].value, ff))] + PairsOf(fields[1..], ff)
  }

  function TreesOf(items: seq<Value>, ff: FloatText): (r: seq<Tree>)
    ensures |r| == |items|
    decreases items, 0
  {
    if items == [] then [] else [TreeOf(items[0], ff)] + TreesOf(items[1..], ff)
  }

  /** A pair put behind those with a key that is not greater. */
  function Place(sorted: seq<Pair>, p: Pair): seq<Pair> {
    if sorted == [] || CompareBytes(p.key, sorted[0].key) == Less then [p] + sorted
    else [sorted[0]] + Place(sorted[1..], p)
  }

  function Arranged(sorted: seq<Pair>, pairs: seq<Pair>): seq<Pair>
    decreases pairs
  {
    if pairs == [] then sorted else Arranged(Place(sorted, pairs[0]), pairs[1..])
  }

  predicate InKeyOrder(pairs: seq<Pair>) {
    forall i, j | 0 <= i < j < |pairs| :: CompareBytes(pairs[j].key, pairs[i].key) != Less
  }

  lemma {:induction false} PlaceKeeps(sorted: seq<Pair>, p: Pair)
    requires InKeyOrder(sorted)
    ensures InKeyOrder(Place(sorted, p)) && multiset(Place(sorted, p)) == multiset(sorted) + multiset{p}
  {
    hide CompareBytes, InKeyOrder;
    if sorted == [] {
      FrontOrder(p, []);
    } else {
      var first, rest := sorted[0], sorted[1..];
      assert sorted == [first] + rest;
      BackOrder(first, rest);
      if CompareBytes(p.key, first.key) == Less {
        forall x | x in sorted ensures CompareBytes(x.key, p.key) != Less {
          NotBefore(p.key, first.key, x.key);
        }
        FrontOrder(p, sorted);
      } else {
        PlaceKeeps(rest, p);
        var tail := Place(rest, p);
        forall x | x in tail ensures CompareBytes(x.key, first.key) != Less {
          assert x in multiset(tail);
        }
        FrontOrder(first, tail);
      }
    }
  }

  lemma FrontOrder(p: Pair, rest: seq<Pair>)
    requires InKeyOrder(rest) && forall x | x in rest :: CompareBytes(x.key, p.key) != Less
    ensures InKeyOrder([p] + rest)
  {
    hide CompareBytes;
  }

  lemma BackOrder(first: Pair, rest: seq<Pair>)
    requires InKeyOrder([first] + rest)
    ensures InKeyOrder(rest) && forall x | x in rest :: CompareBytes(x.key, first.key) != Less
  {
    hide CompareBytes;
    var all := [first] + rest;
    assert forall i | 0 <= i < |rest| :: rest[i] == all[i + 1];
    forall x | x in rest ensures CompareBytes(x.key, first.key) != Less {
      var i :| 0 <= i < |rest| && rest[i] == x;
      assert all[i + 1] == x && all[0] == first;
    }
  }

  /** What is not before the greater key is not before the smaller one. */
  lemma NotBefore(low: seq<byte>, high: seq<byte>, other: seq<byte>)
    requires CompareBytes(low, high) == Less && (CompareBytes(other, high) != Less || other == high)
    ensures CompareBytes(other, low) != Less
  {
    CompareBytesOrder(low, high);
    if CompareBytes(other, low) == Less {
      CompareBytesTransitive(other, low, high);
      CompareBytesOrder(other, high);
    }
  }

  /** The members of a map: its fields, each once, in key order. */
  lemma {:induction false} ArrangedKeeps(sorted: seq<Pair>, pairs: seq<Pair>)
    requires InKeyOrder(sorted)
    ensures InKeyOrder(Arranged(sorted, pairs)) && multiset(Arranged(sorted, pairs)) == multiset(sorted) + multiset(pairs)
    decreases pairs
  {
    hide Place, InKeyOrder;
    if pairs == [] {
      assert multiset(pairs) == multiset{};
    } else {
      PlaceKeeps(sorted, pairs[0]);
      ArrangedKeeps(Place(sorted, pairs[0]), pairs[1..]);
      assert pairs == [pairs[0]] + pairs[1..];
    }
  }
}
