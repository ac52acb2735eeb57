/**
 The codec as the program runs it: the encoder appends to a buffer and patches
 lengths back into it, the decoder pulls fields from a cursor. Both are proved
 against the functions of `Codec`.
 */
module DocCodec {
  import opened Bytes
  import opened Values
  import opened Codec
  import opened CodecProofs

  // ---- Encoder ----

  /** Overwrites the four placeholder bytes at `start` with the length of what follows them. */
  method PatchLength(out: seq<byte>, start: nat, ghost head: seq<byte>, ghost v: Value) returns (r: seq<byte>)
    requires FramedTag(Tag(v)) && |head| + 1 == start && out == head + [Tag(v)] + [0, 0, 0, 0] + Body(v)
    ensures r == head + EncodeValue(v)
  {
    hide Tag, Body;
    var len := |out| - start - 4;
    r := out[..start] + LE(len, 4) + out[start + 4..];
    assert out[..start] == head + [Tag(v)] && out[start + 4..] == Body(v);
  }

  lemma {:induction false} EncodeFieldsSnoc(fields: seq<Field>, i: nat)
    requires i < |fields|
    ensures EncodeFields(fields[..i + 1]) == EncodeFields(fields[..i]) + EncodeField(fields[i])
  {
    hide EncodeField;
    if i == 0 {
      assert fields[..1] == [fields[0]];
    } else {
      EncodeFieldsSnoc(fields[1..], i - 1);
      assert fields[..i + 1][1..] == fields[1..][..i] && fields[..i][1..] == fields[1..][..i - 1];
    }
  }

  lemma {:induction false} EncodeItemsSnoc(items: seq<Value>, i: nat)
    requires i < |items|
    ensures EncodeItems(items[..i + 1]) == EncodeItems(items[..i]) + EncodeValue(items[i])
  {
    hide EncodeValue;
    if i == 0 {
      assert items[..1] == [items[0]];
    } else {
      EncodeItemsSnoc(items[1..], i - 1);
      assert items[..i + 1][1..] == items[1..][..i] && items[..i][1..] == items[1..][..i - 1];
    }
  }

  method EncodeValueTo(v: Value, out: seq<byte>) returns (r: seq<byte>)
    ensures r == out + EncodeValue(v)
    decreases v, 1
  {
    var start := |out| + 1;
    r := out + [Tag(v)];
    match v
    case Int(i) =>
      if 0 <= i <= 15 {
        Unframed(v, out, r);
      } else {
        r := EncodeVarint(Zigzag(i), r + [0, 0, 0, 0]);
        r := PatchLength(r, start, out, v);
      }
    case Timestamp(t) =>
      r := EncodeVarint(Zigzag(t), r + [0, 0, 0, 0]);
      r := PatchLength(r, start, out, v);
    case Float(bits) =>
      r := r + LE(8, 4) + LE(bits, 8);
      DirectlyFramed(v, out, r);
    case String(s) =>
      if |s| <= 7 {
        r := r + s;
        Unframed(v, out, r);
      } else {
        r := r + LE(|s|, 4) + s;
        DirectlyFramed(v, out, r);
      }
    case Binary(b) =>
      r := r + LE(|b|, 4) + b;
      DirectlyFramed(v, out, r);
    case BlobLink(offset, len) =>
      r := r + LE(12, 4) + (LE(offset, 8) + LE(len, 4));
      DirectlyFramed(v, out, r);
    case Reference(c, d) =>
      r := r + [0, 0, 0, 0] + ([|c| % 0x100] + c + ([|d| % 0x100] + d));
      r := PatchLength(r, start, out, v);
    case Map(fields) =>
      r := EncodeFieldsTo(fields, r + [0, 0, 0, 0] + LE(|fields|, 2));
      r := PatchLength(r, start, out, v);
    case Array(items) =>
      r := EncodeItemsTo(items, r + [0, 0, 0, 0] + LE(|items|, 4));
      r := PatchLength(r, start, out, v);
    case _ =>
      Unframed(v, out, r);
  }

  lemma Unframed(v: Value, head: seq<byte>, r: seq<byte>)
    requires !FramedTag(Tag(v)) && r == head + [Tag(v)] + (if v.String? then v.s else [])
    ensures r == head + EncodeValue(v)
  {
  }

  lemma DirectlyFramed(v: Value, head: seq<byte>, r: seq<byte>)
    requires FramedTag(Tag(v)) && r == head + [Tag(v)] + LE(|Body(v)|, 4) + Body(v)
    ensures r == head + EncodeValue(v)
  {
    hide Tag, Body;
  }

  method EncodeItemsTo(items: seq<Value>, out: seq<byte>) returns (r: seq<byte>)
    ensures r == out + EncodeItems(items)
    decreases items, 0
  {
    hide EncodeValue;
    r := out;
    var i := 0;
    while i < |items|
      invariant 0 <= i <= |items|
      invariant r == out + EncodeItems(items[..i])
    {
      r := EncodeValueTo(items[i], r);
      EncodeItemsSnoc(items, i);
      i := i + 1;
    }
    assert items[..i] == items;
  }

  method EncodeFieldsTo(fields: seq<Field>, out: seq<byte>) returns (r: seq<byte>)
    ensures r == out + EncodeFields(fields)
    decreases fields, 0
  {
    hide EncodeValue;
    r := out;
    var i := 0;
    while i < |fields|
      invariant 0 <= i <= |fields|
      invariant r == out + EncodeFields(fields[..i])
    {
      r := r + [|fields[i].key| % 0x100] + fields[i].key;
      r := EncodeValueTo(fields[i].value, r);
      EncodeFieldsSnoc(fields, i);
      i := i + 1;
    }
    assert fields[..i] == fields;
  }

  /** `encode_into`; on documents that fit the format what it appends decodes to the document. */
  method EncodeInto(doc: HakoDoc, out: seq<byte>) returns (r: seq<byte>)
    ensures r == out + EncodeDoc(doc)
    ensures EncodableDoc(doc) ==> DecodeDoc(r[|out|..]) == Some(doc)
  {
    r := out + [MAGIC, VERSION] + LE(AsU64(doc.time), 8) + LE(|doc.fields|, 2);
    r := EncodeFieldsTo(doc.fields, r);
    hide DecodeDoc, EncodableDoc, EncodeFields, LE;
    assert r == out + EncodeDoc(doc);
    assert r[|out|..] == EncodeDoc(doc);
    RoundTripIff(doc);
  }

  // ---- Decoder ----

  /** `HakoDocIter`: a cursor over the fields of a stored document. */
  class HakoDocIter {
    const bytes: seq<byte>
    var pos: nat
    var remaining: nat

    constructor (bytes: seq<byte>, pos: nat, remaining: nat)
      ensures this.bytes == bytes && this.pos == pos && this.remaining == remaining
    {
      this.bytes, this.pos, this.remaining := bytes, pos, remaining;
    }

    /** The next field, or `None` at the end and on corrupt framing, where the count stays. */
    method Next() returns (r: Option<Raw>)
      modifies this
      ensures r.Some? ==> old(remaining) > 0 && NextField(bytes, old(pos)) == Some((r.value, pos))
                          && remaining == old(remaining) - 1
      ensures r.None? ==> remaining == old(remaining)
                          && (remaining == 0 ==> pos == old(pos))
                          && (remaining > 0 ==> NextField(bytes, old(pos)) == None)
    {
      if remaining == 0 { return None; }
      if pos >= |bytes| { return None; }
      var keyLen := bytes[pos];
      pos := pos + 1;
      if pos + keyLen > |bytes| { return None; }
      var key := bytes[pos..pos + keyLen];
      if !Utf8(key) { return None; }
      pos := pos + keyLen;
      if pos >= |bytes| { return None; }
      var tag := bytes[pos];
      pos := pos + 1;
      var start := pos;
      var end := Skip(tag, bytes, pos);
      if end.None? { return None; }
      pos := end.value;
      remaining := remaining - 1;
      r := Some(Raw(key, tag, bytes[start..pos]));
    }
  }

  /** A value that does not decode spoils the list it is in; one that does comes next. */
  lemma {:induction false} DecodeNext(done: seq<Raw>, raw: Raw, rest: seq<Raw>, bound: nat)
    requires forall r | r in done :: |r.span| < bound
    requires forall r | r in rest :: |r.span| < bound
    requires rest != [] && rest[0] == raw && DecodeRaws(done, bound).Some?
    ensures forall r | r in done + rest :: |r.span| < bound
    ensures forall r | r in done + [raw] :: |r.span| < bound
    ensures match DecodeValue(raw.tag, raw.span)
            case None => DecodeRaws(done + rest, bound) == None
            case Some(v) => DecodeRaws(done + [raw], bound) == Some(DecodeRaws(done, bound).value + [Field(raw.key, v)])
  {
    hide DecodeValue;
    if done == [] {
      assert done + rest == rest && done + [raw] == [raw] && [raw][1..] == [];
      var v := DecodeValue(raw.tag, raw.span);
      if v.Some? {
        var f := Field(raw.key, v.value);
        assert [f] + [] == DecodeRaws(done, bound).value + [f];
      }
    } else {
      DecodeNext(done[1..], raw, rest, bound);
      assert (done + rest)[1..] == done[1..] + rest && (done + [raw])[1..] == done[1..] + [raw];
      var head, tail := DecodeRaws(done, bound).value, DecodeRaws(done[1..], bound).value;
      assert head == [head[0]] + tail;
      var v := DecodeValue(raw.tag, raw.span);
      if v.Some? {
        assert head + [Field(raw.key, v.value)] == [head[0]] + (tail + [Field(raw.key, v.value)]);
      }
    }
  }

  /** `HakoDoc::decode`. */
  method Decode(bytes: seq<byte>) returns (r: Option<HakoDoc>)
    ensures r == DecodeDoc(bytes)
  {
    hide NextField, DecodeValue, Scan;
    if |bytes| < HEADER || bytes[0] != MAGIC || bytes[1] != VERSION {
      return None;
    }
    var it := new HakoDocIter(bytes, HEADER, ReadU16(bytes, 10));
    var fields: seq<Field> := [];
    ghost var walk := Scan(true, bytes, HEADER, ReadU16(bytes, 10));
    ghost var done: seq<Raw> := [];
    assert DecodeRaws(done, |bytes|) == Some(fields);
    hide DecodeRaws;
    while true
      invariant it.bytes == bytes && it.pos <= |bytes|
      invariant var rest := Scan(true, bytes, it.pos, it.remaining);
                walk == Walk(done + rest.raws, rest.pos, rest.left)
      invariant forall d | d in done :: |d.span| < |bytes|
      invariant DecodeRaws(done, |bytes|) == Some(fields)
      decreases it.remaining
    {
      ghost var pos, left := it.pos, it.remaining;
      ghost var rest := Scan(true, bytes, pos, left);
      var next := it.Next();
      if next.None? {
        ScanStop(true, bytes, pos, left);
        assert done + [] == done;
        break;
      }
      var raw := next.value;
      ScanStep(true, bytes, pos, left, raw, it.pos);
      DecodeNext(done, raw, rest.raws, |bytes|);
      var v := DecodeValue(raw.tag, raw.span);
      if v.None? {
        return None;
      }
      fields := fields + [Field(raw.key, v.value)];
      assert done + rest.raws == done + [raw] + rest.raws[1..];
      done := done + [raw];
    }
    if it.remaining != 0 || it.pos != |bytes| {
      return None;
    }
    r := Some(HakoDoc(fields, AsI64(ReadU64(bytes, 2))));
  }
}
