/**
 The stored form is unambiguous: decoding inverts encoding, exactly on the
 documents that fit the format; no encoding is a proper prefix of a decodable
 buffer, nor a decodable buffer cut short.
 */
module CodecProofs {
  import opened Bytes
  import opened Values
  import opened Codec

  // ---- The walk steps exactly over what the encoder wrote ----

  function RawOf(f: Field): Raw {
    Raw(f.key, Tag(f.value), Payload(f.value))
  }

  function RawsOf(fields: seq<Field>): (raws: seq<Raw>)
    ensures |raws| == |fields|
    ensures forall i | 0 <= i < |fields| :: raws[i] == RawOf(fields[i])
  {
    seq(|fields|, i requires 0 <= i < |fields| => RawOf(fields[i]))
  }

  /** Array elements as fields without a key, which is how the walk reports them. */
  function Unkeyed(items: seq<Value>): (fields: seq<Field>)
    ensures |fields| == |items|
    ensures forall i | 0 <= i < |items| :: fields[i] == Field([], items[i])
  {
    seq(|items|, i requires 0 <= i < |items| => Field([], items[i]))
  }

  lemma SkipExact(v: Value, bytes: seq<byte>, pos: nat)
    requires Encodable(v) && At(bytes, pos, Payload(v))
    ensures Skip(Tag(v), bytes, pos) == Some(pos + |Payload(v)|)
  {
    if FramedTag(Tag(v)) {
      BodyFits(v);
      AtSplit(bytes, pos, LE(|Body(v)|, 4), Body(v));
      ReadU32At(bytes, pos, |Body(v)|);
    }
  }

  lemma SkipCut(v: Value, bytes: seq<byte>, pos: nat)
    requires Encodable(v) && CutAt(bytes, pos, Payload(v))
    ensures Skip(Tag(v), bytes, pos) == None
  {
    if FramedTag(Tag(v)) {
      BodyFits(v);
      CutSplit(bytes, pos, LE(|Body(v)|, 4), Body(v));
      if At(bytes, pos, LE(|Body(v)|, 4)) {
        ReadU32At(bytes, pos, |Body(v)|);
      }
    }
  }

  lemma NextItemExact(v: Value, bytes: seq<byte>, pos: nat)
    requires Encodable(v) && At(bytes, pos, EncodeValue(v))
    ensures NextItem(bytes, pos) == Some((RawOf(Field([], v)), pos + |EncodeValue(v)|))
  {
    hide Skip, Tag, Payload, Encodable;
    AtSplit(bytes, pos, [Tag(v)], Payload(v));
    assert bytes[pos] == bytes[pos..pos + 1][0];
    SkipExact(v, bytes, pos + 1);
  }

  lemma NextItemCut(v: Value, bytes: seq<byte>, pos: nat)
    requires Encodable(v) && CutAt(bytes, pos, EncodeValue(v))
    ensures NextItem(bytes, pos) == None
  {
    hide Skip, Tag, Payload, Encodable;
    CutSplit(bytes, pos, [Tag(v)], Payload(v));
    if At(bytes, pos, [Tag(v)]) {
      assert bytes[pos] == bytes[pos..pos + 1][0];
      SkipCut(v, bytes, pos + 1);
    }
  }

  lemma NextFieldExact(f: Field, bytes: seq<byte>, pos: nat)
    requires EncodableKey(f.key) && Encodable(f.value) && At(bytes, pos, EncodeField(f))
    ensures NextField(bytes, pos) == Some((RawOf(f), pos + |EncodeField(f)|))
  {
    hide Utf8, NextItem, Encodable, Payload, Tag;
    AtSplit(bytes, pos, Prefixed(f.key), EncodeValue(f.value));
    AtSplit(bytes, pos, [|f.key| % 0x100], f.key);
    assert bytes[pos] == bytes[pos..pos + 1][0] == |f.key|;
    NextItemExact(f.value, bytes, pos + 1 + |f.key|);
  }

  lemma NextFieldCut(f: Field, bytes: seq<byte>, pos: nat)
    requires EncodableKey(f.key) && Encodable(f.value) && CutAt(bytes, pos, EncodeField(f))
    ensures NextField(bytes, pos) == None
  {
    hide Utf8, NextItem, Encodable, Payload, Tag;
    CutSplit(bytes, pos, Prefixed(f.key), EncodeValue(f.value));
    if CutAt(bytes, pos, Prefixed(f.key)) {
      CutSplit(bytes, pos, [|f.key| % 0x100], f.key);
    } else {
      AtSplit(bytes, pos, [|f.key| % 0x100], f.key);
      NextItemCut(f.value, bytes, pos + 1 + |f.key|);
    }
    if pos < |bytes| {
      assert bytes[pos] == bytes[pos..][0] == |f.key|;
    }
  }

  /** One step of the walk. */
  lemma ScanStep(keyed: bool, bytes: seq<byte>, pos: nat, count: nat, raw: Raw, next: nat)
    requires pos <= next <= |bytes| && count > 0
    requires (if keyed then NextField(bytes, pos) else NextItem(bytes, pos)) == Some((raw, next))
    ensures var rest := Scan(keyed, bytes, next, count - 1);
            Scan(keyed, bytes, pos, count) == Walk([raw] + rest.raws, rest.pos, rest.left)
  {
    hide NextField, NextItem;
  }

  lemma ScanStop(keyed: bool, bytes: seq<byte>, pos: nat, count: nat)
    requires pos <= |bytes|
    requires count == 0 || (if keyed then NextField(bytes, pos) else NextItem(bytes, pos)) == None
    ensures Scan(keyed, bytes, pos, count) == Walk([], pos, count)
  {
  }

  lemma {:induction false} ScanFieldsExact(fields: seq<Field>, bytes: seq<byte>, pos: nat)
    requires EncodableFields(fields) && At(bytes, pos, EncodeFields(fields))
    ensures Scan(true, bytes, pos, |fields|) == Walk(RawsOf(fields), pos + |EncodeFields(fields)|, 0)
  {
    hide NextField, EncodeField, Encodable, EncodableKey, At, RawOf;
    if fields != [] {
      AtSplit(bytes, pos, EncodeField(fields[0]), EncodeFields(fields[1..]));
      NextFieldExact(fields[0], bytes, pos);
      var next := pos + |EncodeField(fields[0])|;
      ScanStep(true, bytes, pos, |fields|, RawOf(fields[0]), next);
      hide Scan;
      ScanFieldsExact(fields[1..], bytes, next);
      assert RawsOf(fields) == [RawOf(fields[0])] + RawsOf(fields[1..]);
    }
  }

  lemma {:induction false} ScanItemsExact(items: seq<Value>, bytes: seq<byte>, pos: nat)
    requires (forall x | x in items :: Encodable(x)) && At(bytes, pos, EncodeItems(items))
    ensures Scan(false, bytes, pos, |items|) == Walk(RawsOf(Unkeyed(items)), pos + |EncodeItems(items)|, 0)
  {
    hide NextItem, EncodeValue, Encodable, At;
    if items != [] {
      AtSplit(bytes, pos, EncodeValue(items[0]), EncodeItems(items[1..]));
      NextItemExact(items[0], bytes, pos);
      var next := pos + |EncodeValue(items[0])|;
      ScanStep(false, bytes, pos, |items|, RawOf(Field([], items[0])), next);
      hide Scan;
      ScanItemsExact(items[1..], bytes, next);
      assert RawsOf(Unkeyed(items)) == [RawOf(Field([], items[0]))] + RawsOf(Unkeyed(items[1..]));
    }
  }

  lemma {:induction false} ScanFieldsCut(fields: seq<Field>, bytes: seq<byte>, pos: nat)
    requires EncodableFields(fields) && CutAt(bytes, pos, EncodeFields(fields))
    ensures Scan(true, bytes, pos, |fields|).left > 0
  {
    hide NextField, EncodeField, Encodable, EncodableKey, At;
    CutSplit(bytes, pos, EncodeField(fields[0]), EncodeFields(fields[1..]));
    if CutAt(bytes, pos, EncodeField(fields[0])) {
      NextFieldCut(fields[0], bytes, pos);
    } else {
      NextFieldExact(fields[0], bytes, pos);
      var next := pos + |EncodeField(fields[0])|;
      ScanStep(true, bytes, pos, |fields|, RawOf(fields[0]), next);
      hide Scan;
      ScanFieldsCut(fields[1..], bytes, next);
    }
  }

  // ---- Decoding inverts encoding ----

  lemma {:induction false} DecodeValueExact(v: Value)
    requires Encodable(v)
    ensures DecodeValue(Tag(v), Payload(v)) == Some(v)
  {
    hide Payload, Tag, DecodeValue;
    match v
    case Map(fields) =>
      forall f | f in fields ensures DecodeValue(Tag(f.value), Payload(f.value)) == Some(f.value) {
        DecodeValueExact(f.value);
      }
      DecodeMapExact(v);
    case Array(items) =>
      forall x | x in items ensures DecodeValue(Tag(x), Payload(x)) == Some(x) {
        DecodeValueExact(x);
      }
      DecodeArrayExact(v);
    case _ =>
      if FramedTag(Tag(v)) {
        DecodeFramedExact(v);
      } else {
        DecodeShortExact(v);
      }
  }

  lemma DecodeShortExact(v: Value)
    requires Encodable(v) && !FramedTag(Tag(v))
    ensures DecodeValue(Tag(v), Payload(v)) == Some(v)
  {
    if v.String? {
      assert v.s[..|v.s|] == v.s;
    }
  }

  lemma BodyAt(v: Value)
    requires Encodable(v) && FramedTag(Tag(v))
    ensures |Payload(v)| == 4 + |Body(v)| && At(Payload(v), 4, Body(v))
    ensures |Body(v)| < 0x1_0000_0000 && ReadU32(Payload(v), 0) == |Body(v)|
  {
    BodyFits(v);
    assert At(Payload(v), 0, Framed(Body(v)));
    AtSplit(Payload(v), 0, LE(|Body(v)|, 4), Body(v));
    ReadU32At(Payload(v), 0, |Body(v)|);
  }

  lemma DecodeFramedExact(v: Value)
    requires Encodable(v) && FramedTag(Tag(v)) && !v.Map? && !v.Array?
    ensures DecodeValue(Tag(v), Payload(v)) == Some(v)
  {
    hide Payload, DecodeValue, Encodable;
    match v
    case Int(_) => DecodeNumberExact(v);
    case Timestamp(_) => DecodeNumberExact(v);
    case Float(_) => DecodeNumberExact(v);
    case String(_) => DecodeTextExact(v);
    case Binary(_) => DecodeTextExact(v);
    case Reference(_, _) => DecodeReferenceExact(v);
    case BlobLink(_, _) => DecodeNumberExact(v);
  }

  lemma DecodeNumberExact(v: Value)
    requires v.Int? || v.Timestamp? || v.Float? || v.BlobLink?
    requires Encodable(v) && FramedTag(Tag(v))
    ensures DecodeValue(Tag(v), Payload(v)) == Some(v)
  {
    hide Payload, ReadVarint, ReadU64, ReadU32, Varint, LE, Scan, DecodeRaws, FramedBody, ShortString;
    BodyAt(v);
    var data := Payload(v);
    match v
    case Int(i) => VarintRoundTrip(data, 4, Zigzag(i));
    case Timestamp(t) => VarintRoundTrip(data, 4, Zigzag(t));
    case Float(bits) => ReadU64At(data, 4, bits);
    case BlobLink(offset, len) =>
      AtSplit(data, 4, LE(offset, 8), LE(len, 4));
      ReadU64At(data, 4, offset);
      ReadU32At(data, 12, len);
  }

  lemma DecodeTextExact(v: Value)
    requires v.String? || v.Binary?
    requires Encodable(v) && FramedTag(Tag(v))
    ensures DecodeValue(Tag(v), Payload(v)) == Some(v)
  {
    hide Payload, Utf8;
    BodyAt(v);
  }

  lemma DecodeReferenceExact(v: Value)
    requires v.Reference? && Encodable(v)
    ensures DecodeValue(Tag(v), Payload(v)) == Some(v)
  {
    hide Payload, ShortString, EncodableKey, Scan, DecodeRaws, FramedBody, ReadU32, At;
    BodyAt(v);
    var data := Payload(v);
    AtSplit(data, 4, Prefixed(v.collection), Prefixed(v.docId));
    ShortStringExact(data, 4, v.collection);
    ShortStringExact(data, 5 + |v.collection|, v.docId);
  }

  lemma ShortStringExact(data: seq<byte>, pos: nat, s: Str)
    requires EncodableKey(s) && At(data, pos, Prefixed(s))
    ensures ShortString(data, pos) == Some((s, pos + 1 + |s|))
  {
    hide Utf8;
    AtSplit(data, pos, [|s| % 0x100], s);
    assert data[pos] == data[pos..pos + 1][0];
  }

  /** Every payload decodes to the value it came from. */
  predicate Inverted(fields: seq<Field>) {
    forall f | f in fields :: DecodeValue(Tag(f.value), Payload(f.value)) == Some(f.value)
  }

  /** The walk inside a stored map: its fields, and nothing behind them. */
  lemma MapScan(v: Value)
    requires v.Map? && Encodable(v)
    ensures EncodableFields(v.fields)
    ensures |Payload(v)| >= 6 && ReadU16(Payload(v), 4) == |v.fields|
    ensures Scan(true, Payload(v), 6, |v.fields|) == Walk(RawsOf(v.fields), |Payload(v)|, 0)
  {
    hide Payload, Scan, EncodeFields, Utf8;
    BodyAt(v);
    AtSplit(Payload(v), 4, LE(|v.fields|, 2), EncodeFields(v.fields));
    ReadU16At(Payload(v), 4, |v.fields|);
    ScanFieldsExact(v.fields, Payload(v), 6);
  }

  lemma ArrayScan(v: Value)
    requires v.Array? && Encodable(v)
    ensures |Payload(v)| >= 8 && ReadU32(Payload(v), 4) == |v.items|
    ensures Scan(false, Payload(v), 8, |v.items|) == Walk(RawsOf(Unkeyed(v.items)), |Payload(v)|, 0)
  {
    hide Payload, Scan, EncodeItems, Utf8;
    BodyAt(v);
    AtSplit(Payload(v), 4, LE(|v.items|, 4), EncodeItems(v.items));
    ReadU32At(Payload(v), 4, |v.items|);
    ScanItemsExact(v.items, Payload(v), 8);
  }

  lemma DecodeMapExact(v: Value)
    requires v.Map? && Encodable(v) && Inverted(v.fields)
    ensures DecodeValue(Tag(v), Payload(v)) == Some(v)
  {
    hide Payload, Scan, DecodeRaws, ReadU16, Encodable, Utf8, ReadVarint, FramedBody, ShortString;
    MapScan(v);
    DecodeRawsExact(v.fields, |Payload(v)|);
  }

  lemma DecodeArrayExact(v: Value)
    requires v.Array? && Encodable(v) && Inverted(Unkeyed(v.items))
    ensures DecodeValue(Tag(v), Payload(v)) == Some(v)
  {
    hide Payload, Scan, DecodeRaws, ReadU32, Encodable, Utf8, ReadVarint, FramedBody, ShortString;
    ArrayScan(v);
    DecodeRawsExact(Unkeyed(v.items), |Payload(v)|);
    FieldValuesUnkeyed(v.items);
  }

  lemma {:induction false} FieldValuesUnkeyed(items: seq<Value>)
    ensures FieldValues(Unkeyed(items)) == items
  {
    if items != [] {
      FieldValuesUnkeyed(items[1..]);
      assert Unkeyed(items)[1..] == Unkeyed(items[1..]);
    }
  }

  lemma {:induction false} DecodeRawsExact(fields: seq<Field>, bound: nat)
    requires Inverted(fields)
    requires forall r | r in RawsOf(fields) :: |r.span| < bound
    ensures DecodeRaws(RawsOf(fields), bound) == Some(fields)
    decreases fields
  {
    hide DecodeValue, Tag, Payload;
    if fields != [] {
      assert RawsOf(fields)[0] == RawOf(fields[0]);
      assert RawsOf(fields)[1..] == RawsOf(fields[1..]);
      DecodeRawsExact(fields[1..], bound);
      assert [fields[0]] + fields[1..] == fields;
    }
  }

  // ---- Whole documents ----

  lemma HeaderExact(doc: HakoDoc, bytes: seq<byte>)
    requires |doc.fields| < 0x1_0000 && At(bytes, 0, Header(doc))
    ensures |bytes| >= HEADER && bytes[0] == MAGIC && bytes[1] == VERSION
    ensures AsI64(ReadU64(bytes, 2)) == doc.time
    ensures ReadU16(bytes, 10) == |doc.fields|
  {
    var time, count := LE(AsU64(doc.time), 8), LE(|doc.fields|, 2);
    AtSplit(bytes, 0, [MAGIC, VERSION] + time, count);
    AtSplit(bytes, 0, [MAGIC, VERSION], time);
    assert bytes[0] == bytes[0..2][0] && bytes[1] == bytes[0..2][1];
    ReadU64At(bytes, 2, AsU64(doc.time));
    ReadU16At(bytes, 10, |doc.fields|);
  }

  /** The walk over a buffer that starts with an encoding finds its fields, wherever the buffer ends. */
  lemma ScanDocExact(doc: HakoDoc, rest: seq<byte>)
    requires EncodableDoc(doc)
    ensures ScanDoc(EncodeDoc(doc) + rest) == Some(Walk(RawsOf(doc.fields), |EncodeDoc(doc)|, 0))
  {
    hide EncodeFields, Scan, Header;
    var bytes := EncodeDoc(doc) + rest;
    assert At(bytes, 0, EncodeDoc(doc));
    AtSplit(bytes, 0, Header(doc), EncodeFields(doc.fields));
    HeaderExact(doc, bytes);
    ScanFieldsExact(doc.fields, bytes, HEADER);
  }

  /** `decode` inverts `encode`, and accepts nothing longer than the encoding. */
  lemma RoundTrip(doc: HakoDoc, rest: seq<byte>)
    requires EncodableDoc(doc)
    ensures DecodeDoc(EncodeDoc(doc) + rest) == if rest == [] then Some(doc) else None
  {
    hide EncodeFields, Scan, DecodeRaws, DecodeValue, Tag, Payload, Header, Encodable;
    var bytes := EncodeDoc(doc) + rest;
    ScanDocExact(doc, rest);
    HeaderExact(doc, bytes);
    forall f | f in doc.fields ensures DecodeValue(Tag(f.value), Payload(f.value)) == Some(f.value) {
      DecodeValueExact(f.value);
    }
    DecodeRawsExact(doc.fields, |bytes|);
  }

  /** A document cut short anywhere does not decode. */
  lemma PrefixRejected(doc: HakoDoc, len: nat)
    requires EncodableDoc(doc) && len < |EncodeDoc(doc)|
    ensures DecodeDoc(EncodeDoc(doc)[..len]) == None
  {
    hide EncodeFields, Scan, DecodeRaws, Header;
    var bytes := EncodeDoc(doc)[..len];
    if len >= HEADER {
      assert bytes[..HEADER] == Header(doc);
      HeaderExact(doc, bytes);
      assert bytes[HEADER..] == EncodeFields(doc.fields)[..len - HEADER];
      ScanFieldsCut(doc.fields, bytes, HEADER);
    }
  }

  // ---- Only what fits the format comes out of a buffer ----

  /** The span is as long as its tag says. */
  predicate Spanned(tag: byte, span: seq<byte>) {
    if FramedTag(tag) then 4 <= |span| < 0x1_0000_0004
    else if tag / 8 == 8 then |span| == tag % 8
    else (0xC0 <= tag <= 0xC3 || tag / 0x10 == 1) && span == []
  }

  /** Bytes the walk consumed for `raws`. */
  function Consumed(keyed: bool, raws: seq<Raw>): nat {
    if raws == [] then 0
    else (if keyed then 1 + |raws[0].key| else 0) + 1 + |raws[0].span| + Consumed(keyed, raws[1..])
  }

  predicate WellSpanned(raws: seq<Raw>) {
    forall r | r in raws :: Spanned(r.tag, r.span) && EncodableKey(r.key)
  }

  lemma {:induction false} ScanFits(keyed: bool, bytes: seq<byte>, pos: nat, count: nat)
    requires pos <= |bytes|
    ensures var w := Scan(keyed, bytes, pos, count);
            WellSpanned(w.raws) && Consumed(keyed, w.raws) == w.pos - pos
    decreases count
  {
    var step := if keyed then NextField(bytes, pos) else NextItem(bytes, pos);
    if count > 0 && step.Some? {
      hide Spanned, EncodableKey, NextField, NextItem, Scan;
      var (raw, next) := step.value;
      StepFits(keyed, bytes, pos);
      ScanFits(keyed, bytes, next, count - 1);
      ScanStep(keyed, bytes, pos, count, raw, next);
      SpannedStep(keyed, raw, Scan(keyed, bytes, next, count - 1).raws);
    } else {
      hide NextField, NextItem;
    }
  }

  lemma SpannedStep(keyed: bool, raw: Raw, rest: seq<Raw>)
    requires Spanned(raw.tag, raw.span) && EncodableKey(raw.key) && WellSpanned(rest)
    ensures WellSpanned([raw] + rest)
    ensures Consumed(keyed, [raw] + rest) == (if keyed then 1 + |raw.key| else 0) + 1 + |raw.span| + Consumed(keyed, rest)
  {
    hide Spanned, EncodableKey;
    assert ([raw] + rest)[1..] == rest;
  }

  lemma StepFits(keyed: bool, bytes: seq<byte>, pos: nat)
    requires (if keyed then NextField(bytes, pos) else NextItem(bytes, pos)).Some?
    ensures var (raw, next) := (if keyed then NextField(bytes, pos) else NextItem(bytes, pos)).value;
            && Spanned(raw.tag, raw.span) && EncodableKey(raw.key)
            && next == pos + (if keyed then 1 + |raw.key| else 0) + 1 + |raw.span|
  {
    hide FromLE;
  }

  lemma {:induction false} DecodedFits(tag: byte, data: seq<byte>)
    requires Spanned(tag, data) && DecodeValue(tag, data).Some?
    ensures var v := DecodeValue(tag, data).value; Encodable(v) && |Payload(v)| <= |data|
    decreases |data|, 1
  {
    if tag == 8 || tag == 9 {
      DecodedCompoundFits(tag, data);
    } else {
      DecodedScalarFits(tag, data);
    }
  }

  lemma DecodedVarintFits(tag: byte, data: seq<byte>)
    requires DecodeValue(tag, data).Some? && (tag == 3 || tag == 7)
    ensures var v := DecodeValue(tag, data).value; Encodable(v) && |Payload(v)| <= |data|
  {
    hide Utf8, ReadGroups, FromLE, Scan, DecodeRaws, EncodeFields, EncodeItems, LE;
    VarintShortest(data, 4, 0);
  }

  lemma DecodedScalarFits(tag: byte, data: seq<byte>)
    requires Spanned(tag, data) && DecodeValue(tag, data).Some? && tag != 8 && tag != 9
    ensures var v := DecodeValue(tag, data).value; Encodable(v) && |Payload(v)| <= |data|
  {
    hide Utf8, ReadGroups, FromLE, Scan, DecodeRaws, EncodeFields, EncodeItems, LE;
    if tag == 3 || tag == 7 {
      DecodedVarintFits(tag, data);
    }
  }

  lemma DecodedCompoundFits(tag: byte, data: seq<byte>)
    requires Spanned(tag, data) && DecodeValue(tag, data).Some? && (tag == 8 || tag == 9)
    ensures var v := DecodeValue(tag, data).value; Encodable(v) && |Payload(v)| <= |data|
    decreases |data|, 0
  {
    hide Utf8, Scan, DecodeRaws, EncodeFields, EncodeItems, FromLE;
    var keyed := tag == 8;
    var from, count := if keyed then 6 else 8, if keyed then ReadU16(data, 4) else ReadU32(data, 4);
    var w := Scan(keyed, data, from, count);
    ScanFits(keyed, data, from, count);
    forall r | r in w.raws && DecodeValue(r.tag, r.span).Some? ensures DecodedFit(r) {
      DecodedFits(r.tag, r.span);
    }
    DecodedRawsFit(keyed, w.raws, |data|);
  }

  predicate DecodedFit(r: Raw) {
    match DecodeValue(r.tag, r.span)
    case None => true
    case Some(v) => Encodable(v) && |Payload(v)| <= |r.span|
  }

  lemma {:induction false} DecodedRawsFit(keyed: bool, raws: seq<Raw>, bound: nat)
    requires forall r | r in raws :: |r.span| < bound && EncodableKey(r.key) && DecodedFit(r)
    requires DecodeRaws(raws, bound).Some?
    ensures var fields := DecodeRaws(raws, bound).value;
            && |fields| == |raws| && EncodableFields(fields)
            && (forall x | x in FieldValues(fields) :: Encodable(x))
            && |if keyed then EncodeFields(fields) else EncodeItems(FieldValues(fields))| <= Consumed(keyed, raws)
    decreases raws
  {
    hide DecodeValue, Encodable, EncodableKey, Payload, Tag;
    if raws != [] {
      assert DecodedFit(raws[0]);
      DecodedRawsFit(keyed, raws[1..], bound);
      var fields, rest := DecodeRaws(raws, bound).value, DecodeRaws(raws[1..], bound).value;
      assert fields[1..] == rest && fields[0].key == raws[0].key;
      assert |Payload(fields[0].value)| <= |raws[0].span|;
      if keyed {
        assert EncodeFields(fields) == EncodeField(fields[0]) + EncodeFields(rest);
      } else {
        assert FieldValues(fields) == [fields[0].value] + FieldValues(rest);
        assert FieldValues(fields)[1..] == FieldValues(rest);
        assert EncodeItems(FieldValues(fields)) == EncodeValue(fields[0].value) + EncodeItems(FieldValues(rest));
      }
    }
  }

  /** The documents that survive a round trip are exactly those that fit the format. */
  lemma RoundTripIff(doc: HakoDoc)
    ensures DecodeDoc(EncodeDoc(doc)) == Some(doc) <==> EncodableDoc(doc)
  {
    if EncodableDoc(doc) {
      RoundTrip(doc, []);
      assert EncodeDoc(doc) + [] == EncodeDoc(doc);
    } else if DecodeDoc(EncodeDoc(doc)) == Some(doc) {
      DecodedDocFits(EncodeDoc(doc));
      assert false;
    }
  }

  lemma DecodedDocFits(bytes: seq<byte>)
    requires DecodeDoc(bytes).Some?
    ensures EncodableDoc(DecodeDoc(bytes).value)
  {
    hide Utf8, Scan, DecodeRaws, EncodeFields, FromLE;
    ScanFits(true, bytes, HEADER, ReadU16(bytes, 10));
    forall r | r in ScanDoc(bytes).value.raws && DecodeValue(r.tag, r.span).Some? ensures DecodedFit(r) {
      DecodedFits(r.tag, r.span);
    }
    DecodedRawsFit(true, ScanDoc(bytes).value.raws, |bytes|);
  }

  // ---- Tags ----

  /** The skipper passes no tag that the encoder does not write. */
  lemma SkipKnown(tag: byte, bytes: seq<byte>, pos: nat) returns (v: Value)
    requires pos <= |bytes| && Skip(tag, bytes, pos).Some?
    ensures Tag(v) == tag
  {
    if tag / 0x10 == 1 {
      v := Int(tag - 0x10);
    } else if tag / 8 == 8 {
      v := String(seq(tag - 0x40, _ => 0));
    } else {
      v := match tag
        case 0xC0 => Null
        case 0xC1 => ServerTimestamp
        case 0xC2 => Bool(true)
        case 0xC3 => Bool(false)
        case 3 => Int(16)
        case 4 => Float(0)
        case 5 => String([0, 0, 0, 0, 0, 0, 0, 0])
        case 6 => Binary([])
        case 7 => Timestamp(0)
        case 8 => Map([])
        case 9 => Array([])
        case 10 => Reference([], [])
        case _ => BlobLink(0, 0);
    }
  }

  // ---- Sizes ----

  lemma TaggedSize(v: Value)
    ensures |EncodeValue(v)| == 1 + if FramedTag(Tag(v)) then 4 + |Body(v)| else if v.String? then |v.s| else 0
  {
    hide Tag, Body;
  }

  /** What a value takes in the document: small integers and short strings have no frame. */
  lemma StoredSize(v: Value)
    ensures v.Null? || v.ServerTimestamp? || v.Bool? || (v.Int? && 0 <= v.i <= 15) ==> |EncodeValue(v)| == 1
    ensures (v.Int? && !(0 <= v.i <= 15)) || v.Timestamp? ==> 6 <= |EncodeValue(v)| <= 15
    ensures v.Float? ==> |EncodeValue(v)| == 13
    ensures v.String? ==> |EncodeValue(v)| == |v.s| + if |v.s| <= 7 then 1 else 5
    ensures v.Binary? ==> |EncodeValue(v)| == |v.bytes| + 5
    ensures v.Reference? ==> |EncodeValue(v)| == |v.collection| + |v.docId| + 7
    ensures v.BlobLink? ==> |EncodeValue(v)| == 17
    ensures v.Map? ==> |EncodeValue(v)| == 7 + |EncodeFields(v.fields)|
    ensures v.Array? ==> |EncodeValue(v)| == 9 + |EncodeItems(v.items)|
  {
    hide EncodeFields, EncodeItems, EncodeValue, LE, Varint, Zigzag;
    TaggedSize(v);
    if v.Int? { VarintLength(Zigzag(v.i), 0); }
    if v.Timestamp? { VarintLength(Zigzag(v.micros), 0); }
  }
}
