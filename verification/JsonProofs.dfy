/**
 The three JSON emitters agree: the one over stored bytes with the owned one on
 every buffer that decodes and frames its nested values tightly, hence on every
 encoding; the owned one with the sorted-map reference on every document whose
 keys are distinct.
 */
module JsonProofs {
  import opened Bytes
  import opened Values
  import opened Codec
  import opened CodecProofs
  import opened Json

  // ---- Stored bytes against the owned document ----

  /** Every stored map and array ends where its frame ends. */
  predicate Tight(tag: byte, data: seq<byte>)
    decreases |data|
  {
    if tag == 8 && |data| >= 6 then
      var w := Scan(true, data, 6, ReadU16(data, 4));
      w.pos == |data| && forall r | r in w.raws :: Tight(r.tag, r.span)
    else if tag == 9 && |data| >= 8 then
      var w := Scan(false, data, 8, ReadU32(data, 4));
      w.pos == |data| && forall r | r in w.raws :: Tight(r.tag, r.span)
    else true
  }

  /** What the emitter over stored bytes has to give for a value. */
  function Expected(tag: byte, data: seq<byte>, ff: FloatText): Option<seq<byte>> {
    if DecodeValue(tag, data).Some? && Tight(tag, data) then Some(JsonValue(DecodeValue(tag, data).value, ff)) else None
  }

  lemma {:induction false} ViewAgrees(tag: byte, data: seq<byte>, ff: FloatText)
    ensures ViewValue(tag, data, ff) == Expected(tag, data, ff)
    decreases |data|
  {
    if tag == 8 && |data| >= 6 {
      var w := Scan(true, data, 6, ReadU16(data, 4));
      forall r | r in w.raws ensures ViewValue(r.tag, r.span, ff) == Expected(r.tag, r.span, ff) {
        ViewAgrees(r.tag, r.span, ff);
      }
      MapAgrees(data, ff);
    } else if tag == 9 && |data| >= 8 {
      var w := Scan(false, data, 8, ReadU32(data, 4));
      forall r | r in w.raws ensures ViewValue(r.tag, r.span, ff) == Expected(r.tag, r.span, ff) {
        ViewAgrees(r.tag, r.span, ff);
      }
      ArrayAgrees(data, ff);
    } else {
      ScalarAgrees(tag, data, ff);
    }
  }

  lemma ScalarAgrees(tag: byte, data: seq<byte>, ff: FloatText)
    requires !(tag == 8 && |data| >= 6) && !(tag == 9 && |data| >= 8)
    ensures ViewValue(tag, data, ff) == Expected(tag, data, ff)
  {
    hide Utf8, ReadVarint, FramedBody, ShortString, ReadU64, ReadU32, Scan, DecodeRaws, ViewEntries,
         ArrayText, StringText, BlobText, ReferenceText, IntText, Ascii;
  }

  lemma UnfoldMap(data: seq<byte>, ff: FloatText)
    requires |data| >= 6
    ensures var w := Scan(true, data, 6, ReadU16(data, 4));
            && DecodeValue(8, data) == (match (if w.left > 0 then None else DecodeRaws(w.raws, |data|))
                                        case None => None
                                        case Some(fields) => Some(Map(fields)))
            && ViewValue(8, data, ff) == (match (if w.left > 0 || w.pos != |data| then None else ViewEntries(w.raws, |data|, ff))
                                          case None => None
                                          case Some(entries) => Some(ObjectText(SortEntries(entries))))
  {
    hide Scan, ReadU16, ObjectText, SortEntries, Utf8, ReadVarint, FramedBody, ShortString, DecodeRaws, ViewEntries;
  }

  lemma UnfoldArray(data: seq<byte>, ff: FloatText)
    requires |data| >= 8
    ensures var w := Scan(false, data, 8, ReadU32(data, 4));
            && DecodeValue(9, data) == (match (if w.left > 0 then None else DecodeRaws(w.raws, |data|))
                                        case None => None
                                        case Some(fields) => Some(Array(FieldValues(fields))))
            && ViewValue(9, data, ff) == (match (if w.left > 0 || w.pos != |data| then None else ViewEntries(w.raws, |data|, ff))
                                          case None => None
                                          case Some(entries) => Some(ArrayText(Texts(entries))))
  {
    hide Scan, ReadU32, ArrayText, Utf8, ReadVarint, FramedBody, ShortString, DecodeRaws, ViewEntries;
  }

  lemma MapAgrees(data: seq<byte>, ff: FloatText)
    requires |data| >= 6
    requires forall r | r in Scan(true, data, 6, ReadU16(data, 4)).raws ::
               ViewValue(r.tag, r.span, ff) == Expected(r.tag, r.span, ff)
    ensures ViewValue(8, data, ff) == Expected(8, data, ff)
  {
    hide Scan, ReadU16, ObjectText, SortEntries, DecodeValue, ViewValue, ViewEntries, DecodeRaws;
    UnfoldMap(data, ff);
    EntriesAgree(Scan(true, data, 6, ReadU16(data, 4)).raws, |data|, ff);
  }

  lemma ArrayAgrees(data: seq<byte>, ff: FloatText)
    requires |data| >= 8
    requires forall r | r in Scan(false, data, 8, ReadU32(data, 4)).raws ::
               ViewValue(r.tag, r.span, ff) == Expected(r.tag, r.span, ff)
    ensures ViewValue(9, data, ff) == Expected(9, data, ff)
  {
    hide Scan, ReadU32, ArrayText, DecodeValue, ViewValue, ViewEntries, DecodeRaws;
    UnfoldArray(data, ff);
    EntriesAgree(Scan(false, data, 8, ReadU32(data, 4)).raws, |data|, ff);
  }

  predicate AllTight(raws: seq<Raw>) {
    forall r | r in raws :: Tight(r.tag, r.span)
  }

  lemma {:induction false} EntriesAgree(raws: seq<Raw>, bound: nat, ff: FloatText)
    requires forall r | r in raws :: |r.span| < bound
    requires forall r | r in raws :: ViewValue(r.tag, r.span, ff) == Expected(r.tag, r.span, ff)
    ensures ViewEntries(raws, bound, ff) ==
            if DecodeRaws(raws, bound).Some? && AllTight(raws) then Some(JsonEntries(DecodeRaws(raws, bound).value, ff))
            else None
    ensures DecodeRaws(raws, bound).Some? ==>
              var fields := DecodeRaws(raws, bound).value;
              Texts(JsonEntries(fields, ff)) == JsonItems(FieldValues(fields), ff)
    decreases raws
  {
    hide DecodeValue, ViewValue, JsonValue, Tight;
    if raws != [] {
      EntriesAgree(raws[1..], bound, ff);
      assert AllTight(raws) <==> Tight(raws[0].tag, raws[0].span) && AllTight(raws[1..]);
      if DecodeRaws(raws, bound).Some? {
        var fields, rest := DecodeRaws(raws, bound).value, DecodeRaws(raws[1..], bound).value;
        assert fields[1..] == rest;
        assert JsonEntries(fields, ff)[1..] == JsonEntries(rest, ff);
        assert FieldValues(fields)[1..] == FieldValues(rest);
      }
    }
  }

  /** The bytes of any buffer give the JSON of the document they decode to, or none if a nested frame is loose. */
  lemma ViewDocAgrees(bytes: seq<byte>, ff: FloatText)
    ensures ViewDoc(bytes, ff) ==
            if DecodeDoc(bytes).Some? && AllTight(ScanDoc(bytes).value.raws) then Some(JsonDoc(DecodeDoc(bytes).value, ff))
            else None
  {
    hide Scan, ObjectText, MergeTime, ViewValue, DecodeValue, Tight, ReadU64, ReadU16;
    if ScanDoc(bytes).Some? {
      var raws := ScanDoc(bytes).value.raws;
      forall r | r in raws ensures ViewValue(r.tag, r.span, ff) == Expected(r.tag, r.span, ff) {
        ViewAgrees(r.tag, r.span, ff);
      }
      EntriesAgree(raws, |bytes|, ff);
      hide ViewEntries, DecodeRaws;
    }
  }

  lemma {:induction false} EncodingsTight(v: Value)
    requires Encodable(v)
    ensures Tight(Tag(v), Payload(v))
  {
    hide Payload, Scan, ReadU16, ReadU32;
    match v
    case Map(fields) =>
      MapScan(v);
      forall r | r in RawsOf(fields) ensures Tight(r.tag, r.span) {
        var i :| 0 <= i < |fields| && r == RawOf(fields[i]);
        EncodingsTight(fields[i].value);
      }
    case Array(items) =>
      ArrayScan(v);
      forall r | r in RawsOf(Unkeyed(items)) ensures Tight(r.tag, r.span) {
        var i :| 0 <= i < |items| && r == RawOf(Field([], items[i]));
        EncodingsTight(items[i]);
      }
    case _ =>
      assert Tag(v) != 8 && Tag(v) != 9;
  }

  /** On a stored document the emitter over bytes gives the JSON of the document. */
  lemma ViewDocExact(doc: HakoDoc, ff: FloatText)
    requires EncodableDoc(doc)
    ensures ViewDoc(EncodeDoc(doc), ff) == Some(JsonDoc(doc, ff))
  {
    hide ViewDoc, JsonDoc, EncodeDoc, DecodeDoc, Tight, ScanDoc, Tag, Payload, Encodable;
    ViewDocAgrees(EncodeDoc(doc), ff);
    RoundTrip(doc, []);
    ScanDocExact(doc, []);
    assert EncodeDoc(doc) + [] == EncodeDoc(doc);
    forall r | r in RawsOf(doc.fields) ensures Tight(r.tag, r.span) {
      var i :| 0 <= i < |doc.fields| && r == RawOf(doc.fields[i]);
      EncodingsTight(doc.fields[i].value);
    }
  }

  // ---- A loose frame ----

  /** A document of one field `a`: an empty map with a byte to spare in its frame. */
  const LOOSE: seq<byte> := [0xF1, 5, 0, 0, 0, 0, 0, 0, 0, 0, 1, 0, 1, 0x61, 8, 3, 0, 0, 0, 0, 0, 0xFF]

  lemma LowByte(bytes: seq<byte>, pos: nat)
    requires pos + 2 <= |bytes| && bytes[pos + 1] == 0
    ensures ReadU16(bytes, pos) == bytes[pos]
  {
    var high := bytes[pos..pos + 2][1..];
    assert high[0] == 0 && high[1..] == [];
    assert FromLE(high) == 0;
  }

  lemma LowWord(bytes: seq<byte>, pos: nat)
    requires pos + 4 <= |bytes| && bytes[pos + 1] == bytes[pos + 2] == bytes[pos + 3] == 0
    ensures ReadU32(bytes, pos) == bytes[pos]
  {
    var s := bytes[pos..pos + 4];
    assert s[3..][1..] == [] && s[2..][1..] == s[3..] && s[1..][1..] == s[2..];
    assert FromLE(s[3..]) == 0 && FromLE(s[2..]) == 0 && FromLE(s[1..]) == 0;
  }

  lemma LooseNumbers(bytes: seq<byte>)
    requires bytes == LOOSE
    ensures |bytes| == 22 && bytes[0] == MAGIC && bytes[1] == VERSION && bytes[12] == 1 && bytes[13] == 0x61 && bytes[14] == 8
    ensures ReadU16(bytes, 10) == 1 && ReadU32(bytes, 15) == 3 && ReadU16(bytes, 19) == 0
  {
    hide ReadU16, ReadU32;
    LowByte(bytes, 10);
    LowByte(bytes, 19);
    LowWord(bytes, 15);
  }

  lemma LoosePayload(data: seq<byte>)
    requires |data| == 7 && ReadU16(data, 4) == 0
    ensures DecodeValue(8, data) == Some(Map([])) && !Tight(8, data)
  {
    hide ReadU16;
    ScanStop(true, data, 6, 0);
  }

  lemma LooseField(bytes: seq<byte>)
    requires |bytes| == 22 && bytes[12] == 1 && bytes[13] == 0x61 && bytes[14] == 8 && ReadU32(bytes, 15) == 3
    ensures NextField(bytes, 12) == Some((Raw([0x61], 8, bytes[15..22]), 22))
  {
    hide ReadU32;
    assert bytes[13..14] == [0x61] && Utf8([0x61]);
  }

  lemma LooseScan(bytes: seq<byte>)
    requires bytes == LOOSE
    ensures ScanDoc(bytes) == Some(Walk([Raw([0x61], 8, bytes[15..22])], 22, 0))
  {
    LooseNumbers(bytes);
    LooseField(bytes);
    hide ReadU16, ReadU32, NextField, Scan;
    var raw := Raw([0x61], 8, bytes[15..22]);
    ScanStep(true, bytes, 12, 1, raw, 22);
    ScanStop(true, bytes, 22, 0);
    assert [raw] + [] == [raw];
  }

  lemma SameCount(bytes: seq<byte>, data: seq<byte>)
    requires |bytes| == 22 && data == bytes[15..22]
    ensures ReadU16(data, 4) == ReadU16(bytes, 19)
  {
    assert data[4..6] == bytes[19..21];
  }

  lemma LooseView(bytes: seq<byte>, ff: FloatText)
    requires |bytes| == 22 && ReadU16(bytes, 19) == 0
    requires ScanDoc(bytes) == Some(Walk([Raw([0x61], 8, bytes[15..22])], 22, 0))
    ensures DecodeDoc(bytes).Some? && DecodeDoc(bytes).value.fields == [Field([0x61], Map([]))] && ViewDoc(bytes, ff) == None
  {
    hide ScanDoc, DecodeValue, Tight, ReadU64, ReadU16, ViewDoc, DecodeRaws;
    var data := bytes[15..22];
    SameCount(bytes, data);
    LoosePayload(data);
    var raws := [Raw([0x61], 8, data)];
    LooseDecodes(raws, 22);
    assert raws[0] in raws && !AllTight(raws);
    ViewDocAgrees(bytes, ff);
  }

  /** A nested map with a byte to spare: the document decodes and has no JSON. */
  lemma LooseRefused(ff: FloatText)
    ensures DecodeDoc(LOOSE).Some? && DecodeDoc(LOOSE).value.fields == [Field([0x61], Map([]))] && ViewDoc(LOOSE, ff) == None
  {
    hide ScanDoc, DecodeDoc, ViewDoc, ReadU16, ReadU32;
    LooseScan(LOOSE);
    LooseNumbers(LOOSE);
    LooseView(LOOSE, ff);
  }

  lemma LooseDecodes(raws: seq<Raw>, bound: nat)
    requires |raws| == 1 && |raws[0].span| < bound && DecodeValue(raws[0].tag, raws[0].span).Some?
    ensures forall r | r in raws :: |r.span| < bound
    ensures DecodeRaws(raws, bound) == Some([Field(raws[0].key, DecodeValue(raws[0].tag, raws[0].span).value)])
  {
    hide DecodeValue;
    assert raws[1..] == [];
    var f := Field(raws[0].key, DecodeValue(raws[0].tag, raws[0].span).value);
    assert [f] + [] == [f];
  }
}
