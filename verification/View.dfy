/**
 Reading a stored document without decoding it (`DocView`): lazy field access,
 borrowed strings and bytes, and dotted paths that descend through raw spans.
 On an encoding each of them agrees with the owned document.
 */
module View {
  import opened Bytes
  import opened Values
  import opened Codec
  import opened CodecProofs

  /** Pinned storage bytes whose header was checked. */
  datatype DocView = DocView(bytes: seq<byte>, time: i64, count: nat) {
    ghost predicate Valid() { |bytes| >= HEADER && ScanDoc(bytes) == Some(Scan(true, bytes, HEADER, count)) }
  }

  /** A value in place: its tag and its payload bytes. */
  datatype BorrowedValue = BorrowedValue(tag: byte, data: seq<byte>) {

    function ToOwned(): Option<Value> { DecodeValue(tag, data) }

    function AsStr(): Option<Str> {
      if tag / 8 == 8 then
        if tag % 8 <= |data| && Utf8(data[..tag % 8]) then Some(data[..tag % 8]) else None
      else if tag == 5 then
        var body :- FramedBody(data);
        if Utf8(body) then Some(body) else None
      else None
    }

    function AsBytes(): Option<seq<byte>> {
      if tag == 6 then FramedBody(data) else None
    }
  }

  /** The first stored field called `key` before the framing breaks off. */
  function FindRaw(raws: seq<Raw>, key: Str): Option<BorrowedValue> {
    if raws == [] then None
    else if raws[0].key == key then Some(BorrowedValue(raws[0].tag, raws[0].span))
    else FindRaw(raws[1..], key)
  }

  /** Where a path leads from `at`, one stored map per segment. */
  function DescendRaw(at: BorrowedValue, segs: seq<Str>): Option<BorrowedValue>
    decreases segs
  {
    if segs == [] then Some(at)
    else if segs[0] == [] || at.tag != 8 || |at.data| < 6 then None
    else
      var next :- FindRaw(Scan(true, at.data, 6, ReadU16(at.data, 4)).raws, segs[0]);
      DescendRaw(next, segs[1..])
  }

  function LazyGet(bytes: seq<byte>, key: Str): Option<BorrowedValue> {
    var w :- ScanDoc(bytes);
    FindRaw(w.raws, key)
  }

  function Owned(at: Option<BorrowedValue>): Option<Value> {
    if at.None? then None else at.value.ToOwned()
  }

  function PathSpan(bytes: seq<byte>, segs: seq<Str>): Option<BorrowedValue>
    requires segs != []
  {
    if segs[0] == [] then None
    else
      var top :- LazyGet(bytes, segs[0]);
      DescendRaw(top, segs[1..])
  }

  /** On any bytes the borrowed readers give what decoding gives, if it is a string or a binary. */
  lemma BorrowedExact(at: BorrowedValue)
    ensures at.AsStr() == (match at.ToOwned() case Some(String(s)) => Some(s) case _ => None)
    ensures at.AsBytes() == (match at.ToOwned() case Some(Binary(b)) => Some(b) case _ => None)
  {
    hide Utf8, Scan, DecodeRaws, ReadVarint, FramedBody, ShortString;
  }

  // ---- On encodings, stored values are the encoded ones ----

  function Stored(v: Option<Value>): Option<BorrowedValue> {
    if v.None? then None else Some(BorrowedValue(Tag(v.value), Payload(v.value)))
  }

  lemma {:induction false} FindRawExact(fields: seq<Field>, key: Str)
    ensures FindRaw(RawsOf(fields), key) == Stored(Find(fields, key))
  {
    hide Tag, Payload;
    if fields != [] {
      assert RawsOf(fields)[1..] == RawsOf(fields[1..]);
      FindRawExact(fields[1..], key);
    }
  }

  lemma FindEncodable(fields: seq<Field>, key: Str)
    requires EncodableFields(fields)
    ensures Find(fields, key).Some? ==> Encodable(Find(fields, key).value)
  {
    FindMember(fields, key);
  }

  lemma TopLevelExact(doc: HakoDoc, key: Str)
    requires EncodableDoc(doc)
    ensures LazyGet(EncodeDoc(doc), key) == Stored(Find(doc.fields, key))
    ensures Find(doc.fields, key).Some? ==> Encodable(Find(doc.fields, key).value)
  {
    hide ScanDoc, EncodeDoc, Encodable, EncodableKey, Stored, Find, FindRaw;
    ScanDocExact(doc, []);
    assert EncodeDoc(doc) + [] == EncodeDoc(doc);
    FindRawExact(doc.fields, key);
    FindEncodable(doc.fields, key);
  }

  lemma MapTag(v: Value)
    ensures v.Map? <==> Tag(v) == 8
  {
  }

  lemma {:induction false} DescendExact(v: Value, segs: seq<Str>)
    requires Encodable(v)
    ensures DescendRaw(BorrowedValue(Tag(v), Payload(v)), segs) == Stored(Descend(v, segs))
    ensures Descend(v, segs).Some? ==> Encodable(Descend(v, segs).value)
    decreases segs
  {
    hide Encodable, Tag, Payload, Scan, Find, FindRaw;
    MapTag(v);
    if segs != [] && segs[0] != [] && v.Map? {
      MapScan(v);
      FindRawExact(v.fields, segs[0]);
      FindEncodable(v.fields, segs[0]);
      var next := Find(v.fields, segs[0]);
      if next.Some? {
        DescendExact(next.value, segs[1..]);
      }
    }
  }

  /** Every path over the stored bytes ends where it ends in the document. */
  lemma PathSpanExact(doc: HakoDoc, segs: seq<Str>)
    requires EncodableDoc(doc) && segs != []
    ensures PathSpan(EncodeDoc(doc), segs) == Stored(Lookup(doc.fields, segs))
    ensures Lookup(doc.fields, segs).Some? ==> Encodable(Lookup(doc.fields, segs).value)
  {
    hide Encodable, Tag, Payload, LazyGet, EncodeDoc, EncodableDoc;
    TopLevelExact(doc, segs[0]);
    var top := Find(doc.fields, segs[0]);
    if top.Some? {
      DescendExact(top.value, segs[1..]);
    }
  }

  /** A stored value decodes to its value; the borrowed getters read strings and binaries only. */
  lemma StoredExact(v: Value)
    requires Encodable(v)
    ensures var at := BorrowedValue(Tag(v), Payload(v));
            && at.ToOwned() == Some(v)
            && at.AsStr() == (if v.String? then Some(v.s) else None)
            && at.AsBytes() == (if v.Binary? then Some(v.bytes) else None)
  {
    DecodeValueExact(v);
    hide DecodeValue, Utf8;
    if v.String? || v.Binary? {
      if FramedTag(Tag(v)) {
        BodyAt(v);
      } else {
        assert v.s[..|v.s|] == v.s;
      }
    }
  }

  // ---- The walks as loops ----

  /** Steps over at most `count` stored fields and stops at the one called `key`. */
  method WalkTo(bytes: seq<byte>, start: nat, count: nat, key: Str) returns (hit: Option<BorrowedValue>)
    requires start <= |bytes|
    ensures hit == FindRaw(Scan(true, bytes, start, count).raws, key)
  {
    hide NextField;
    var pos, left := start, count;
    while left > 0
      invariant 0 <= left && 0 <= pos <= |bytes|
      invariant FindRaw(Scan(true, bytes, start, count).raws, key) == FindRaw(Scan(true, bytes, pos, left).raws, key)
    {
      var step := NextField(bytes, pos);
      if step.None? {
        return None;
      }
      var (raw, next) := step.value;
      if raw.key == key {
        return Some(BorrowedValue(raw.tag, raw.span));
      }
      assert ([raw] + Scan(true, bytes, next, left - 1).raws)[1..] == Scan(true, bytes, next, left - 1).raws;
      pos, left := next, left - 1;
    }
    hit := None;
  }

  /** `DocView::get`, `get_str` and `get_bytes`: one field, and no other is decoded. */
  method Get(view: DocView, key: Str) returns (v: Option<Value>, str: Option<Str>, bytes: Option<seq<byte>>)
    requires view.Valid()
    ensures v == Owned(LazyGet(view.bytes, key))
    ensures forall doc: HakoDoc | EncodableDoc(doc) && view.bytes == EncodeDoc(doc) ::
              && v == Find(doc.fields, key)
              && str == (if v.Some? && v.value.String? then Some(v.value.s) else None)
              && bytes == (if v.Some? && v.value.Binary? then Some(v.value.bytes) else None)
  {
    hide ScanDoc, EncodableDoc, EncodeDoc;
    var hit := WalkTo(view.bytes, HEADER, view.count, key);
    v, str, bytes := None, None, None;
    if hit.Some? {
      v, str, bytes := hit.value.ToOwned(), hit.value.AsStr(), hit.value.AsBytes();
    }
    hide BorrowedValue.ToOwned, BorrowedValue.AsStr, BorrowedValue.AsBytes, Tag, Payload, Encodable;
    forall doc: HakoDoc | EncodableDoc(doc) && view.bytes == EncodeDoc(doc)
      ensures v == Find(doc.fields, key)
      ensures str == (if v.Some? && v.value.String? then Some(v.value.s) else None)
      ensures bytes == (if v.Some? && v.value.Binary? then Some(v.value.bytes) else None)
    {
      TopLevelExact(doc, key);
      if hit.Some? { StoredExact(Find(doc.fields, key).value); }
    }
  }

  /** `get_path_span`: the raw terminal of a dotted path. */
  method GetPathSpan(view: DocView, path: Str) returns (r: Option<BorrowedValue>)
    requires view.Valid()
    ensures r == PathSpan(view.bytes, Split(path))
  {
    hide Scan, FindRaw, Split;
    var segs := Split(path);
    if segs[0] == [] {
      return None;
    }
    r := WalkTo(view.bytes, HEADER, view.count, segs[0]);
    var i := 1;
    while i < |segs| && r.Some?
      invariant 1 <= i <= |segs|
      invariant PathSpan(view.bytes, segs) == if r.None? then None else DescendRaw(r.value, segs[i..])
    {
      var span := r.value.data;
      if segs[i] == [] || r.value.tag != 8 || |span| < 6 {
        return None;
      }
      r := WalkTo(span, 6, ReadU16(span, 4), segs[i]);
      i := i + 1;
    }
  }

  /** `DocView::get_path`, `get_path_str` and `get_path_bytes`. */
  method GetPath(view: DocView, path: Str) returns (v: Option<Value>, str: Option<Str>, bytes: Option<seq<byte>>)
    requires view.Valid()
    ensures v == Owned(PathSpan(view.bytes, Split(path)))
    ensures forall doc: HakoDoc | EncodableDoc(doc) && view.bytes == EncodeDoc(doc) ::
              && v == Lookup(doc.fields, Split(path))
              && str == (if v.Some? && v.value.String? then Some(v.value.s) else None)
              && bytes == (if v.Some? && v.value.Binary? then Some(v.value.bytes) else None)
  {
    hide ScanDoc, EncodableDoc, EncodeDoc, PathSpan, Lookup, Split;
    var hit := GetPathSpan(view, path);
    v, str, bytes := None, None, None;
    if hit.Some? {
      v, str, bytes := hit.value.ToOwned(), hit.value.AsStr(), hit.value.AsBytes();
    }
    hide BorrowedValue.ToOwned, BorrowedValue.AsStr, BorrowedValue.AsBytes, Tag, Payload, Encodable;
    forall doc: HakoDoc | EncodableDoc(doc) && view.bytes == EncodeDoc(doc)
      ensures v == Lookup(doc.fields, Split(path))
      ensures str == (if v.Some? && v.value.String? then Some(v.value.s) else None)
      ensures bytes == (if v.Some? && v.value.Binary? then Some(v.value.bytes) else None)
    {
      PathSpanExact(doc, Split(path));
      if hit.Some? { StoredExact(Lookup(doc.fields, Split(path)).value); }
    }
  }
}
