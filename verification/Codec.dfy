/**
 The stored form of a document (`hako_doc.rs`): encoder, framing walk and owned
 decoder, as functions. A value is a tag byte and a payload; tags 3 to 11 frame
 their payload with a 32-bit length, the others fix its length by the tag alone.
 */
module Codec {
  import opened Bytes
  import opened Values

  const MAGIC: byte := 0xF1
  const VERSION: byte := 5
  const HEADER: nat := 12

  // ---- Encoder ----

  /** The body behind its (truncated) 32-bit length. */
  function Framed(body: seq<byte>): seq<byte> {
    LE(|body|, 4) + body
  }

  function Tag(v: Value): byte {
    match v
    case Null => 0xC0
    case ServerTimestamp => 0xC1
    case Bool(b) => if b then 0xC2 else 0xC3
    case Int(i) => if 0 <= i <= 15 then 0x10 + i else 3
    case Float(_) => 4
    case String(s) => if |s| <= 7 then 0x40 + |s| else 5
    case Binary(_) => 6
    case Timestamp(_) => 7
    case Map(_) => 8
    case Array(_) => 9
    case Reference(_, _) => 10
    case BlobLink(_, _) => 11
  }

  /** A string behind its (truncated) one-byte length. */
  function Prefixed(s: Str): seq<byte> {
    [|s| % 0x100] + s
  }

  function Body(v: Value): seq<byte>
    decreases v, 0
  {
    match v
    case Int(i) => Varint(Zigzag(i))
    case Timestamp(t) => Varint(Zigzag(t))
    case Float(bits) => LE(bits, 8)
    case String(s) => s
    case Binary(b) => b
    case Map(fields) => LE(|fields|, 2) + EncodeFields(fields)
    case Array(items) => LE(|items|, 4) + EncodeItems(items)
    case Reference(c, d) => Prefixed(c) + Prefixed(d)
    case BlobLink(offset, len) => LE(offset, 8) + LE(len, 4)
    case _ => []
  }

  /** Tags whose payload carries a length. */
  predicate FramedTag(tag: byte) { 3 <= tag <= 11 }

  function Payload(v: Value): seq<byte>
    decreases v, 1
  {
    if FramedTag(Tag(v)) then Framed(Body(v))
    else if v.String? then v.s
    else []
  }

  function EncodeValue(v: Value): seq<byte>
    decreases v, 2
  {
    [Tag(v)] + Payload(v)
  }

  function EncodeField(f: Field): seq<byte>
    decreases f, 3
  {
    Prefixed(f.key) + EncodeValue(f.value)
  }

  function EncodeFields(fields: seq<Field>): seq<byte>
    decreases fields
  {
    if fields == [] then [] else EncodeField(fields[0]) + EncodeFields(fields[1..])
  }

  function EncodeItems(items: seq<Value>): seq<byte>
    decreases items
  {
    if items == [] then [] else EncodeValue(items[0]) + EncodeItems(items[1..])
  }

  function Header(doc: HakoDoc): (h: seq<byte>)
    ensures |h| == HEADER && h[0] == 0xF1 && h[1] == 5
  {
    [MAGIC, VERSION] + LE(AsU64(doc.time), 8) + LE(|doc.fields|, 2)
  }

  function EncodeDoc(doc: HakoDoc): seq<byte> {
    Header(doc) + EncodeFields(doc.fields)
  }

  // ---- What fits the format ----

  predicate EncodableKey(key: Str) { |key| <= 0xFF && Utf8(key) }

  /** Every length fits its length field, and every string is UTF-8. */
  predicate Encodable(v: Value) {
    match v
    case String(s) => |s| < 0x1_0000_0000 && Utf8(s)
    case Binary(b) => |b| < 0x1_0000_0000
    case Reference(c, d) => EncodableKey(c) && EncodableKey(d)
    case Map(fields) =>
      && |fields| < 0x1_0000 && |Body(v)| < 0x1_0000_0000
      && forall f | f in fields :: EncodableKey(f.key) && Encodable(f.value)
    case Array(items) =>
      && |items| < 0x1_0000_0000 && |Body(v)| < 0x1_0000_0000
      && forall x | x in items :: Encodable(x)
    case _ => true
  }

  predicate EncodableFields(fields: seq<Field>) {
    forall f | f in fields :: EncodableKey(f.key) && Encodable(f.value)
  }

  predicate EncodableDoc(doc: HakoDoc) {
    |doc.fields| < 0x1_0000 && EncodableFields(doc.fields)
  }

  lemma BodyFits(v: Value)
    requires Encodable(v)
    ensures |Body(v)| < 0x1_0000_0000
  {
    match v
    case Int(i) => VarintLength(Zigzag(i), 0);
    case Timestamp(t) => VarintLength(Zigzag(t), 0);
    case _ =>
  }

  // ---- Framing walk ----

  /** `skip_value`: the offset behind the value of tag `tag` whose payload starts at `pos`. */
  function Skip(tag: byte, bytes: seq<byte>, pos: nat): (end: Option<nat>)
    requires pos <= |bytes|
    ensures end.Some? ==> pos <= end.value <= |bytes|
  {
    if 0xC0 <= tag <= 0xC3 || tag / 0x10 == 1 then Some(pos)
    else if tag / 8 == 8 then
      if pos + tag % 8 > |bytes| then None else Some(pos + tag % 8)
    else if FramedTag(tag) then
      if pos + 4 > |bytes| then None
      else if pos + 4 + ReadU32(bytes, pos) > |bytes| then None
      else Some(pos + 4 + ReadU32(bytes, pos))
    else None
  }

  /** A field as stored: its key, the value's tag and the value's payload bytes. */
  datatype Raw = Raw(key: Str, tag: byte, span: seq<byte>)

  /** A tagged value at `pos`, and the offset behind it. */
  function NextItem(bytes: seq<byte>, pos: nat): (r: Option<(Raw, nat)>)
    ensures r.Some? ==> pos + 1 + |r.value.0.span| == r.value.1 <= |bytes|
  {
    if pos >= |bytes| then None
    else
      var end :- Skip(bytes[pos], bytes, pos + 1);
      Some((Raw([], bytes[pos], bytes[pos + 1..end]), end))
  }

  /** A key and a tagged value at `pos`, and the offset behind them. */
  function NextField(bytes: seq<byte>, pos: nat): (r: Option<(Raw, nat)>)
    ensures r.Some? ==> pos + 1 + |r.value.0.key| + 1 + |r.value.0.span| == r.value.1 <= |bytes|
  {
    if pos >= |bytes| || pos + 1 + bytes[pos] > |bytes| then None
    else
      var at := pos + 1 + bytes[pos];
      var key := bytes[pos + 1..at];
      if !Utf8(key) then None
      else
        var (item, end) :- NextItem(bytes, at);
        Some((item.(key := key), end))
  }

  /** The fields (or array elements) read before the walk stopped, where, and how many are missing. */
  datatype Walk = Walk(raws: seq<Raw>, pos: nat, left: nat)

  function Scan(keyed: bool, bytes: seq<byte>, pos: nat, count: nat): (w: Walk)
    requires pos <= |bytes|
    ensures pos <= w.pos <= |bytes|
    ensures w.left + |w.raws| == count
    ensures forall r | r in w.raws :: |r.span| < |bytes|
    decreases count
  {
    if count == 0 then Walk([], pos, 0)
    else match (if keyed then NextField(bytes, pos) else NextItem(bytes, pos))
      case None => Walk([], pos, count)
      case Some((raw, next)) =>
        var rest := Scan(keyed, bytes, next, count - 1);
        Walk([raw] + rest.raws, rest.pos, rest.left)
  }

  // ---- Owned decoder ----

  function DecodeValue(tag: byte, data: seq<byte>): Option<Value>
    decreases |data|, 1, 0
  {
    if tag == 0xC0 then Some(Null)
    else if tag == 0xC1 then Some(ServerTimestamp)
    else if tag == 0xC2 then Some(Bool(true))
    else if tag == 0xC3 then Some(Bool(false))
    else if tag / 0x10 == 1 then Some(Int(tag % 0x10))
    else if tag / 8 == 8 then
      if tag % 8 > |data| || !Utf8(data[..tag % 8]) then None else Some(String(data[..tag % 8]))
    else if tag == 3 || tag == 7 then
      var (n, _) :- ReadVarint(data, 4);
      Some(if tag == 3 then Int(Unzigzag(n)) else Timestamp(Unzigzag(n)))
    else if tag == 4 then
      if |data| < 12 then None else Some(Float(ReadU64(data, 4)))
    else if tag == 5 || tag == 6 then
      var body :- FramedBody(data);
      if tag == 6 then Some(Binary(body)) else if Utf8(body) then Some(String(body)) else None
    else if tag == 8 then
      if |data| < 6 then None
      else
        var w := Scan(true, data, 6, ReadU16(data, 4));
        if w.left > 0 then None
        else
          var fields :- DecodeRaws(w.raws, |data|);
          Some(Map(fields))
    else if tag == 9 then
      if |data| < 8 then None
      else
        var w := Scan(false, data, 8, ReadU32(data, 4));
        if w.left > 0 then None
        else
          var fields :- DecodeRaws(w.raws, |data|);
          Some(Array(FieldValues(fields)))
    else if tag == 10 then
      var (c, next) :- ShortString(data, 4);
      var (d, _) :- ShortString(data, next);
      Some(Reference(c, d))
    else if tag == 11 then
      if |data| < 16 then None else Some(BlobLink(ReadU64(data, 4), ReadU32(data, 12)))
    else Some(Null)
  }

  /** The body announced by the 32-bit length at the front of `data`. */
  function FramedBody(data: seq<byte>): Option<seq<byte>> {
    if |data| < 4 || 4 + ReadU32(data, 0) > |data| then None
    else Some(data[4..4 + ReadU32(data, 0)])
  }

  /** A string behind a one-byte length at `pos`, and the offset behind it. */
  function ShortString(data: seq<byte>, pos: nat): (r: Option<(Str, nat)>)
    ensures r.Some? ==> |r.value.0| <= 0xFF && pos + 1 + |r.value.0| == r.value.1 <= |data|
  {
    if pos >= |data| || pos + 1 + data[pos] > |data| then None
    else
      var s := data[pos + 1..pos + 1 + data[pos]];
      if Utf8(s) then Some((s, pos + 1 + data[pos])) else None
  }

  function DecodeRaws(raws: seq<Raw>, ghost bound: nat): Option<seq<Field>>
    requires forall r | r in raws :: |r.span| < bound
    decreases bound, 0, |raws|
  {
    if raws == [] then Some([])
    else
      var v :- DecodeValue(raws[0].tag, raws[0].span);
      var rest :- DecodeRaws(raws[1..], bound);
      Some([Field(raws[0].key, v)] + rest)
  }

  function FieldValues(fields: seq<Field>): (r: seq<Value>)
    ensures |r| == |fields|
  {
    if fields == [] then [] else [fields[0].value] + FieldValues(fields[1..])
  }

  /** `HakoDocView::new` and a full pass of its iterator. */
  function ScanDoc(bytes: seq<byte>): Option<Walk> {
    if |bytes| < HEADER || bytes[0] != MAGIC || bytes[1] != VERSION then None
    else Some(Scan(true, bytes, HEADER, ReadU16(bytes, 10)))
  }

  function DecodeDoc(bytes: seq<byte>): Option<HakoDoc> {
    var w :- ScanDoc(bytes);
    var fields :- DecodeRaws(w.raws, |bytes|);
    if w.left > 0 || w.pos != |bytes| then None
    else Some(HakoDoc(fields, AsI64(ReadU64(bytes, 2))))
  }
}
