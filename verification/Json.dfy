/**
 JSON of a document, three ways: from the owned document (`write_json`), from the
 stored bytes without decoding (`DocView::write_json`), and through a tree of
 sorted maps (`to_json` followed by `serde_json`), which is the reference.
 Rendering a float is the parameter `ff`; everything else is spelled out.
 */
module Json {
  import opened Bytes
  import opened Values
  import opened Codec
  import opened JsonString

  type FloatText = u64 -> seq<byte>

  function Ascii(s: string): seq<byte>
    requires forall i | 0 <= i < |s| :: s[i] as int < 0x80
  {
    seq(|s|, i requires 0 <= i < |s| => s[i] as int)
  }

  const COMMA: byte := 0x2C
  const COLON: byte := 0x3A
  const NULL_TEXT := Ascii("null")
  const TRUE_TEXT := Ascii("true")
  const FALSE_TEXT := Ascii("false")
  const TIME_KEY := Ascii("_time")
  const REF_KEY := Ascii("__ref__")
  const BLOB_KEY := Ascii("__blob__")
  const LEN_KEY := Ascii("len")
  const OFFSET_KEY := Ascii("offset")

  function NatText(n: nat): seq<byte> {
    if n < 10 then [0x30 + n] else NatText(n / 10) + [0x30 + n % 10]
  }

  function IntText(n: int): seq<byte> {
    if n < 0 then [0x2D] + NatText(-n) else NatText(n)
  }

  function StringText(s: Str): seq<byte> {
    [QUOTE] + Escape(s) + [QUOTE]
  }

  function Commas(pieces: seq<seq<byte>>): seq<byte> {
    if pieces == [] then []
    else if |pieces| == 1 then pieces[0]
    else pieces[0] + [COMMA] + Commas(pieces[1..])
  }

  function ArrayText(pieces: seq<seq<byte>>): seq<byte> {
    [0x5B] + Commas(pieces) + [0x5D]
  }

  function ByteTexts(bytes: seq<byte>): seq<seq<byte>> {
    seq(|bytes|, i requires 0 <= i < |bytes| => IntText(bytes[i]))
  }

  /** A member of an object: its key, and the text of its value. */
  datatype Entry = Entry(key: Str, text: seq<byte>)

  function MemberText(e: Entry): seq<byte> {
    StringText(e.key) + [COLON] + e.text
  }

  function Members(entries: seq<Entry>): (r: seq<seq<byte>>)
    ensures |r| == |entries|
  {
    seq(|entries|, i requires 0 <= i < |entries| => MemberText(entries[i]))
  }

  function ObjectText(entries: seq<Entry>): seq<byte> {
    [0x7B] + Commas(Members(entries)) + [0x7D]
  }

  /** Behind every key that is not greater. */
  function InsertEntry(sorted: seq<Entry>, e: Entry): seq<Entry> {
    if sorted == [] || CompareBytes(e.key, sorted[0].key) == Less then [e] + sorted
    else [sorted[0]] + InsertEntry(sorted[1..], e)
  }

  function InsertAll(sorted: seq<Entry>, entries: seq<Entry>): seq<Entry>
    decreases entries
  {
    if entries == [] then sorted else InsertAll(InsertEntry(sorted, entries[0]), entries[1..])
  }

  /** The entries in key order. */
  function SortEntries(entries: seq<Entry>): seq<Entry> {
    InsertAll([], entries)
  }

  /** `{"__ref__":"collection/id"}`: both parts escaped under one pair of quotes. */
  function ReferenceText(c: Str, d: Str): seq<byte> {
    [0x7B] + StringText(REF_KEY) + [COLON] + ([QUOTE] + (Escape(c) + [0x2F] + Escape(d)) + [QUOTE]) + [0x7D]
  }

  function BlobText(offset: u64, len: u32): seq<byte> {
    ObjectText([Entry(BLOB_KEY, ObjectText([Entry(LEN_KEY, IntText(len)), Entry(OFFSET_KEY, IntText(offset))]))])
  }

  // ---- From the owned document ----

  function JsonValue(v: Value, ff: FloatText): seq<byte>
    decreases v, 1
  {
    match v
    case Null => NULL_TEXT
    case ServerTimestamp => NULL_TEXT
    case Bool(b) => if b then TRUE_TEXT else FALSE_TEXT
    case Int(i) => IntText(i)
    case Float(bits) => ff(bits)
    case String(s) => StringText(s)
    case Binary(bytes) => ArrayText(ByteTexts(bytes))
    case Timestamp(t) => IntText(t)
    case Reference(c, d) => ReferenceText(c, d)
    case BlobLink(offset, len) => BlobText(offset, len)
    case Map(fields) => ObjectText(SortEntries(JsonEntries(fields, ff)))
    case Array(items) => ArrayText(JsonItems(items, ff))
  }

  function JsonEntries(fields: seq<Field>, ff: FloatText): (r: seq<Entry>)
    ensures |r| == |fields|
    decreases fields, 0
  {
    if fields == [] then []
    else [Entry(fields[0].key, JsonValue(fields[0].value, ff))] + JsonEntries(fields[1..], ff)
  }

  function JsonItems(items: seq<Value>, ff: FloatText): (r: seq<seq<byte>>)
    ensures |r| == |items|
    decreases items, 0
  {
    if items == [] then [] else [JsonValue(items[0], ff)] + JsonItems(items[1..], ff)
  }

  /** `_time` goes before the first greater key, unless a field of that name stands there. */
  function MergeTime(entries: seq<Entry>, time: i64, written: bool): seq<Entry> {
    var stamp := Entry(TIME_KEY, IntText(time));
    if entries == [] then (if written then [] else [stamp])
    else if !written && CompareBytes(entries[0].key, TIME_KEY) == Greater then
      [stamp, entries[0]] + MergeTime(entries[1..], time, true)
    else [entries[0]] + MergeTime(entries[1..], time, written || entries[0].key == TIME_KEY)
  }

  function JsonDoc(doc: HakoDoc, ff: FloatText): seq<byte> {
    ObjectText(MergeTime(JsonEntries(doc.fields, ff), doc.time, false))
  }

  // ---- From the stored bytes ----

  function ViewValue(tag: byte, data: seq<byte>, ff: FloatText): Option<seq<byte>>
    decreases |data|, 1, 0
  {
    if tag == 0xC0 || tag == 0xC1 then Some(NULL_TEXT)
    else if tag == 0xC2 then Some(TRUE_TEXT)
    else if tag == 0xC3 then Some(FALSE_TEXT)
    else if tag / 0x10 == 1 then Some(IntText(tag % 0x10))
    else if tag / 8 == 8 then
      if tag % 8 > |data| || !Utf8(data[..tag % 8]) then None else Some(StringText(data[..tag % 8]))
    else if tag == 3 || tag == 7 then
      var (n, _) :- ReadVarint(data, 4);
      Some(IntText(Unzigzag(n)))
    else if tag == 4 then
      if |data| < 12 then None else Some(ff(ReadU64(data, 4)))
    else if tag == 5 || tag == 6 then
      var body :- FramedBody(data);
      if tag == 6 then Some(ArrayText(ByteTexts(body))) else if Utf8(body) then Some(StringText(body)) else None
    else if tag == 8 then
      if |data| < 6 then None
      else
        var w := Scan(true, data, 6, ReadU16(data, 4));
        if w.left > 0 || w.pos != |data| then None
        else
          var entries :- ViewEntries(w.raws, |data|, ff);
          Some(ObjectText(SortEntries(entries)))
    else if tag == 9 then
      if |data| < 8 then None
      else
        var w := Scan(false, data, 8, ReadU32(data, 4));
        if w.left > 0 || w.pos != |data| then None
        else
          var entries :- ViewEntries(w.raws, |data|, ff);
          Some(ArrayText(Texts(entries)))
    else if tag == 10 then
      var (c, next) :- ShortString(data, 4);
      var (d, _) :- ShortString(data, next);
      Some(ReferenceText(c, d))
    else if tag == 11 then
      if |data| < 16 then None else Some(BlobText(ReadU64(data, 4), ReadU32(data, 12)))
    else Some(NULL_TEXT)
  }

  function ViewEntries(raws: seq<Raw>, ghost bound: nat, ff: FloatText): Option<seq<Entry>>
    requires forall r | r in raws :: |r.span| < bound
    decreases bound, 0, |raws|
  {
    if raws == [] then Some([])
    else
      var text :- ViewValue(raws[0].tag, raws[0].span, ff);
      var rest :- ViewEntries(raws[1..], bound, ff);
      Some([Entry(raws[0].key, text)] + rest)
  }

  function Texts(entries: seq<Entry>): (r: seq<seq<byte>>)
    ensures |r| == |entries|
  {
    if entries == [] then [] else [entries[0].text] + Texts(entries[1..])
  }

  function ViewDoc(bytes: seq<byte>, ff: FloatText): Option<seq<byte>> {
    var w :- ScanDoc(bytes);
    var entries :- ViewEntries(w.raws, |bytes|, ff);
    if w.left > 0 || w.pos != |bytes| then None
    else Some(ObjectText(MergeTime(entries, AsI64(ReadU64(bytes, 2)), false)))
  }

  // ---- Through a tree of sorted maps ----

  datatype Json =
    | JsonNull
    | JsonBool(b: bool)
    | JsonNumber(text: seq<byte>)
    | JsonString(s: Str)
    | JsonArray(items: seq<Json>)
    | JsonObject(members: seq<Member>)

  datatype Member = Member(key: Str, value: Json)

  /** `BTreeMap::insert`: in key order, the last value of a key wins. */
  function InsertMember(members: seq<Member>, m: Member): seq<Member> {
    if members == [] then [m]
    else match CompareBytes(m.key, members[0].key)
      case Less => [m] + members
      case Equal => [m] + members[1..]
      case Greater => [members[0]] + InsertMember(members[1..], m)
  }

  function ToJson(v: Value, ff: FloatText): Json
    decreases v, 1
  {
    match v
    case Null => JsonNull
    case ServerTimestamp => JsonNull
    case Bool(b) => JsonBool(b)
    case Int(i) => JsonNumber(IntText(i))
    case Float(bits) => JsonNumber(ff(bits))
    case String(s) => JsonString(s)
    case Binary(bytes) => JsonArray(seq(|bytes|, i requires 0 <= i < |bytes| => JsonNumber(IntText(bytes[i]))))
    case Timestamp(t) => JsonNumber(IntText(t))
    case Reference(c, d) => JsonObject([Member(REF_KEY, JsonString(c + [0x2F] + d))])
    case BlobLink(offset, len) =>
      var meta := InsertMember(InsertMember([], Member(OFFSET_KEY, JsonNumber(IntText(offset)))),
                               Member(LEN_KEY, JsonNumber(IntText(len))));
      JsonObject([Member(BLOB_KEY, JsonObject(meta))])
    case Map(fields) => JsonObject(ToMembers([], fields, ff))
    case Array(items) => JsonArray(ToJsonItems(items, ff))
  }

  /** The fields inserted one after another. */
  function ToMembers(members: seq<Member>, fields: seq<Field>, ff: FloatText): seq<Member>
    decreases fields, 0
  {
    if fields == [] then members
    else ToMembers(InsertMember(members, Member(fields[0].key, ToJson(fields[0].value, ff))), fields[1..], ff)
  }

  function ToJsonItems(items: seq<Value>, ff: FloatText): (r: seq<Json>)
    ensures |r| == |items|
    decreases items, 0
  {
    if items == [] then [] else [ToJson(items[0], ff)] + ToJsonItems(items[1..], ff)
  }

  function DocToJson(doc: HakoDoc, ff: FloatText): Json {
    JsonObject(ToMembers([Member(TIME_KEY, JsonNumber(IntText(doc.time)))], doc.fields, ff))
  }

  function Serialize(j: Json): seq<byte>
    decreases j, 1
  {
    match j
    case JsonNull => NULL_TEXT
    case JsonBool(b) => if b then TRUE_TEXT else FALSE_TEXT
    case JsonNumber(text) => text
    case JsonString(s) => StringText(s)
    case JsonArray(items) => ArrayText(SerializeItems(items))
    case JsonObject(members) => ObjectText(SerializeMembers(members))
  }

  function SerializeItems(items: seq<Json>): (r: seq<seq<byte>>)
    ensures |r| == |items|
    decreases items, 0
  {
    if items == [] then [] else [Serialize(items[0])] + SerializeItems(items[1..])
  }

  function SerializeMembers(members: seq<Member>): (r: seq<Entry>)
    ensures |r| == |members|
    decreases members, 0
  {
    if members == [] then []
    else [Entry(members[0].key, Serialize(members[0].value))] + SerializeMembers(members[1..])
  }
}
