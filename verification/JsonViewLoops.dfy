/**
 The JSON emitter over stored bytes as the program runs it: a framing walk, the
 raw members sorted by key, each value written from its span.
 */
module JsonViewLoops {
  import opened Bytes
  import opened Values
  import opened Codec
  import opened CodecProofs
  import opened Json
  import opened JsonLoops
  import opened JsonProofs

  // ---- Sorting stored members ----

  function InsertRaw(sorted: seq<Raw>, raw: Raw): seq<Raw> {
    if sorted == [] || CompareBytes(raw.key, sorted[0].key) == Less then [raw] + sorted
    else [sorted[0]] + InsertRaw(sorted[1..], raw)
  }

  /** `entries` with the rendering of `raw` in its place, if it renders. */
  function Rendered(entries: Option<seq<Entry>>, raw: Raw, ff: FloatText): Option<seq<Entry>> {
    var es :- entries;
    var text :- ViewValue(raw.tag, raw.span, ff);
    Some(InsertEntry(es, Entry(raw.key, text)))
  }

  lemma {:induction false} InsertRawCommutes(sorted: seq<Raw>, raw: Raw, bound: nat, ff: FloatText)
    requires |raw.span| < bound && forall r | r in sorted :: |r.span| < bound
    ensures forall r | r in InsertRaw(sorted, raw) :: |r.span| < bound
    ensures ViewEntries(InsertRaw(sorted, raw), bound, ff) == Rendered(ViewEntries(sorted, bound, ff), raw, ff)
  {
    hide ViewValue, CompareBytes;
    if sorted == [] || CompareBytes(raw.key, sorted[0].key) == Less {
      assert ([raw] + sorted)[1..] == sorted;
    } else {
      InsertRawCommutes(sorted[1..], raw, bound, ff);
      assert ([sorted[0]] + InsertRaw(sorted[1..], raw))[1..] == InsertRaw(sorted[1..], raw);
    }
  }

  /** `entries` with everything that `raws` render to inserted in turn. */
  function RenderedAll(entries: Option<seq<Entry>>, raws: Option<seq<Entry>>): Option<seq<Entry>> {
    var es :- entries;
    var added :- raws;
    Some(InsertAll(es, added))
  }

  method SortRaws(raws: seq<Raw>, ghost bound: nat, ff: FloatText) returns (sorted: seq<Raw>)
    requires forall r | r in raws :: |r.span| < bound
    ensures forall r | r in sorted :: |r.span| < bound
    ensures ViewEntries(sorted, bound, ff) == RenderedAll(Some([]), ViewEntries(raws, bound, ff))
  {
    hide ViewValue, CompareBytes, InsertEntry;
    sorted := [];
    for i := 0 to |raws|
      invariant forall r | r in sorted :: |r.span| < bound
      invariant RenderedAll(ViewEntries(sorted, bound, ff), ViewEntries(raws[i..], bound, ff)) ==
                RenderedAll(Some([]), ViewEntries(raws, bound, ff))
    {
      InsertRawCommutes(sorted, raws[i], bound, ff);
      assert raws[i..][1..] == raws[i + 1..];
      if ViewEntries(raws[i..], bound, ff).Some? {
        var added := ViewEntries(raws[i..], bound, ff).value;
        assert added[1..] == ViewEntries(raws[i + 1..], bound, ff).value;
      }
      sorted := InsertRaw(sorted, raws[i]);
    }
  }

  /** The fields or elements framed by `data`; nothing if the framing is short or leaves bytes over. */
  method CollectRaws(keyed: bool, data: seq<byte>, from: nat, count: nat) returns (r: Option<seq<Raw>>)
    requires from <= |data|
    ensures var w := Scan(keyed, data, from, count);
            r == if w.left > 0 || w.pos != |data| then None else Some(w.raws)
  {
    hide NextField, NextItem, Scan;
    var raws: seq<Raw> := [];
    var pos, left := from, count;
    ghost var w := Scan(keyed, data, from, count);
    while left > 0
      invariant 0 <= left && from <= pos <= |data|
      invariant var rest := Scan(keyed, data, pos, left);
                w == Walk(raws + rest.raws, rest.pos, rest.left)
    {
      var step := if keyed then NextField(data, pos) else NextItem(data, pos);
      if step.None? {
        ScanStop(keyed, data, pos, left);
        return None;
      }
      ScanStep(keyed, data, pos, left, step.value.0, step.value.1);
      raws := raws + [step.value.0];
      pos, left := step.value.1, left - 1;
    }
    ScanStop(keyed, data, pos, 0);
    assert raws + [] == raws;
    r := if pos != |data| then None else Some(raws);
  }

  /** `out` with the text behind it, if there is one. */
  function Appended(out: seq<byte>, text: Option<seq<byte>>): Option<seq<byte>> {
    if text.None? then None else Some(out + text.value)
  }

  /** Members of an object, or elements of an array, comma-separated. */
  function PiecesText(keyed: bool, es: seq<Entry>): seq<byte> {
    Commas(if keyed then Members(es) else Texts(es))
  }

  /** `write_view_value`. */
  method WriteViewValue(out: seq<byte>, tag: byte, data: seq<byte>, ff: FloatText) returns (r: Option<seq<byte>>)
    ensures r == Appended(out, ViewValue(tag, data, ff))
    decreases |data|, 2
  {
    hide ViewValue;
    if tag == 8 {
      r := WriteViewMap(out, data, ff);
    } else if tag == 9 {
      r := WriteViewArray(out, data, ff);
    } else {
      r := WriteViewScalar(out, tag, data, ff);
    }
  }

  lemma ShortCompound(data: seq<byte>, ff: FloatText)
    ensures |data| < 6 ==> ViewValue(8, data, ff) == None
    ensures |data| < 8 ==> ViewValue(9, data, ff) == None
  {
  }

  lemma Bracketed(out: seq<byte>, left: byte, text: seq<byte>, right: byte)
    ensures out + [left] + text + [right] == out + ([left] + text + [right])
  {
  }

  method WriteViewMap(out: seq<byte>, data: seq<byte>, ff: FloatText) returns (r: Option<seq<byte>>)
    ensures r == Appended(out, ViewValue(8, data, ff))
    decreases |data|, 1
  {
    hide Scan, ReadU16, ViewEntries, DecodeRaws, ViewValue, DecodeValue, InsertAll, Commas;
    ShortCompound(data, ff);
    if |data| < 6 {
      return None;
    }
    UnfoldMap(data, ff);
    var raws := CollectRaws(true, data, 6, ReadU16(data, 4));
    if raws.None? {
      return None;
    }
    var sorted := SortRaws(raws.value, |data|, ff);
    r := WriteViewPieces(out + [0x7B], true, sorted, |data|, ff);
    if r.Some? {
      Bracketed(out, 0x7B, r.value[|out| + 1..], 0x7D);
      r := Some(r.value + [0x7D]);
    }
  }

  method WriteViewArray(out: seq<byte>, data: seq<byte>, ff: FloatText) returns (r: Option<seq<byte>>)
    ensures r == Appended(out, ViewValue(9, data, ff))
    decreases |data|, 1
  {
    hide Scan, ReadU32, ViewEntries, DecodeRaws, ViewValue, DecodeValue, Commas;
    ShortCompound(data, ff);
    if |data| < 8 {
      return None;
    }
    UnfoldArray(data, ff);
    var raws := CollectRaws(false, data, 8, ReadU32(data, 4));
    if raws.None? {
      return None;
    }
    r := WriteViewPieces(out + [0x5B], false, raws.value, |data|, ff);
    if r.Some? {
      Bracketed(out, 0x5B, r.value[|out| + 1..], 0x5D);
      r := Some(r.value + [0x5D]);
    }
  }

  method WriteViewScalar(out: seq<byte>, tag: byte, data: seq<byte>, ff: FloatText) returns (r: Option<seq<byte>>)
    requires tag != 8 && tag != 9
    ensures r == Appended(out, ViewValue(tag, data, ff))
  {
    hide Utf8, ReadVarint, FramedBody, ShortString, ReadU64, ReadU32, Scan, ViewEntries, ArrayText, StringText,
         BlobText, ReferenceText, IntText, Ascii;
    if tag == 0xC0 || tag == 0xC1 {
      r := Some(out + NULL_TEXT);
    } else if tag == 0xC2 {
      r := Some(out + TRUE_TEXT);
    } else if tag == 0xC3 {
      r := Some(out + FALSE_TEXT);
    } else if tag / 0x10 == 1 {
      r := Some(out + IntText(tag % 0x10));
    } else if tag / 8 == 8 {
      if tag % 8 > |data| || !Utf8(data[..tag % 8]) {
        return None;
      }
      var text := WriteJsonStr(out, data[..tag % 8]);
      r := Some(text);
    } else if tag == 3 || tag == 7 {
      var n := ReadVarint(data, 4);
      r := if n.None? then None else Some(out + IntText(Unzigzag(n.value.0)));
    } else if tag == 4 {
      r := if |data| < 12 then None else Some(out + ff(ReadU64(data, 4)));
    } else if tag == 5 || tag == 6 {
      var body := FramedBody(data);
      if body.None? || (tag == 5 && !Utf8(body.value)) {
        return None;
      }
      var text;
      if tag == 5 { text := WriteJsonStr(out, body.value); } else { text := WriteBytes(out, body.value); }
      r := Some(text);
    } else if tag == 10 {
      var c := ShortString(data, 4);
      if c.None? {
        return None;
      }
      var d := ShortString(data, c.value.1);
      if d.None? {
        return None;
      }
      var text := WriteReference(out, c.value.0, d.value.0);
      r := Some(text);
    } else if tag == 11 {
      r := if |data| < 16 then None else Some(out + BlobText(ReadU64(data, 4), ReadU32(data, 12)));
    } else {
      r := Some(out + NULL_TEXT);
    }
  }

  method WriteViewPieces(out: seq<byte>, keyed: bool, raws: seq<Raw>, ghost bound: nat, ff: FloatText)
    returns (r: Option<seq<byte>>)
    requires forall x | x in raws :: |x.span| < bound
    ensures r == match ViewEntries(raws, bound, ff)
                 case None => None
                 case Some(es) => Some(out + PiecesText(keyed, es))
    decreases bound, 0
  {
    ViewEntriesAt(raws, bound, ff);
    var buffer := out;
    ghost var done: seq<Entry> := [];
    assert Rendering(raws, 0, done, ff);
    hide ViewValue, ViewEntries, PiecesText, StringText, Rendering;
    assert PiecesText(keyed, []) == [] by { NoPieces(keyed); }
    for i := 0 to |raws|
      invariant Rendering(raws, i, done, ff)
      invariant buffer == out + PiecesText(keyed, done)
    {
      var raw := raws[i];
      var sep := Separated(buffer, i == 0);
      if keyed {
        sep := WriteJsonStr(sep, raw.key);
        sep := sep + [COLON];
      }
      var text := WriteViewValue(sep, raw.tag, raw.span, ff);
      if text.None? {
        return None;
      }
      ghost var e := Entry(raw.key, ViewValue(raw.tag, raw.span, ff).value);
      PieceWritten(out, buffer, keyed, done, e);
      RenderingNext(raws, i, done, ff);
      buffer := text.value;
      done := done + [e];
    }
    r := Some(buffer);
  }

  /** The first `i` values render, to `done`. */
  predicate Rendering(raws: seq<Raw>, i: nat, done: seq<Entry>, ff: FloatText) {
    && i == |done| <= |raws|
    && forall k | 0 <= k < i :: ViewValue(raws[k].tag, raws[k].span, ff) == Some(done[k].text) && done[k].key == raws[k].key
  }

  lemma RenderingNext(raws: seq<Raw>, i: nat, done: seq<Entry>, ff: FloatText)
    requires Rendering(raws, i, done, ff) && i < |raws| && ViewValue(raws[i].tag, raws[i].span, ff).Some?
    ensures Rendering(raws, i + 1, done + [Entry(raws[i].key, ViewValue(raws[i].tag, raws[i].span, ff).value)], ff)
    ensures i == 0 <==> done == []
  {
    hide ViewValue;
  }

  /** The list renders if and only if each value does, and then to their renderings. */
  lemma {:induction false} ViewEntriesAt(raws: seq<Raw>, bound: nat, ff: FloatText)
    requires forall x | x in raws :: |x.span| < bound
    ensures ViewEntries(raws, bound, ff).Some? <==> forall i | 0 <= i < |raws| :: ViewValue(raws[i].tag, raws[i].span, ff).Some?
    ensures ViewEntries(raws, bound, ff).Some? ==> Rendering(raws, |raws|, ViewEntries(raws, bound, ff).value, ff)
    ensures forall done: seq<Entry> | Rendering(raws, |raws|, done, ff) :: ViewEntries(raws, bound, ff) == Some(done)
  {
    hide ViewValue;
    if raws != [] {
      ViewEntriesAt(raws[1..], bound, ff);
      assert forall i | 0 < i < |raws| :: raws[i] == raws[1..][i - 1];
      forall done: seq<Entry> | Rendering(raws, |raws|, done, ff) ensures ViewEntries(raws, bound, ff) == Some(done) {
        assert Rendering(raws[1..], |raws| - 1, done[1..], ff);
        assert done == [Entry(raws[0].key, done[0].text)] + done[1..];
      }
    }
  }

  lemma NoPieces(keyed: bool)
    ensures PiecesText(keyed, []) == []
  {
    assert Members([]) == [];
  }

  lemma PieceWritten(out: seq<byte>, buffer: seq<byte>, keyed: bool, done: seq<Entry>, e: Entry)
    requires buffer == out + PiecesText(keyed, done)
    ensures var sep := Separated(buffer, done == []);
            (if keyed then sep + StringText(e.key) + [COLON] + e.text else sep + e.text) ==
            out + PiecesText(keyed, done + [e])
  {
    hide Commas, MemberText, StringText;
    if keyed {
      AppendPiece(out, Members(done), MemberText(e));
      assert Members(done + [e]) == Members(done) + [MemberText(e)];
      MemberParts(Separated(buffer, done == []), e);
    } else {
      AppendPiece(out, Texts(done), e.text);
      TextsSnoc(done, e);
    }
  }

  lemma {:induction false} TextsSnoc(done: seq<Entry>, e: Entry)
    ensures Texts(done + [e]) == Texts(done) + [e.text]
  {
    if done != [] {
      assert (done + [e])[1..] == done[1..] + [e];
      TextsSnoc(done[1..], e);
    }
  }

  /** `DocView::write_json`: the stored bytes of a document give the JSON of the document. */
  method WriteViewJson(out: seq<byte>, bytes: seq<byte>, ff: FloatText) returns (r: Option<seq<byte>>)
    ensures r == Appended(out, ViewDoc(bytes, ff))
    ensures forall doc: HakoDoc | EncodableDoc(doc) && bytes == EncodeDoc(doc) :: r == Some(out + JsonDoc(doc, ff))
  {
    hide Scan, ViewValue, ViewEntries, JsonDoc, EncodeDoc, EncodableDoc, ReadU16, ReadU64;
    forall doc: HakoDoc | EncodableDoc(doc) && bytes == EncodeDoc(doc) ensures ViewDoc(bytes, ff) == Some(JsonDoc(doc, ff)) {
      ViewDocExact(doc, ff);
    }
    if |bytes| < HEADER || bytes[0] != MAGIC || bytes[1] != VERSION {
      return None;
    }
    var raws := CollectRaws(true, bytes, HEADER, ReadU16(bytes, 10));
    if raws.None? {
      return None;
    }
    r := WriteViewFields(out, raws.value, |bytes|, AsI64(ReadU64(bytes, 2)), ff);
  }

  method WriteViewMember(buffer: seq<byte>, first: bool, raw: Raw, ff: FloatText, ghost head: seq<byte>, ghost done: seq<Entry>)
    returns (r: Option<seq<byte>>)
    requires Written(buffer, head, done) && (first <==> done == [])
    ensures r.None? <==> ViewValue(raw.tag, raw.span, ff).None?
    ensures r.Some? ==> Written(r.value, head, done + [Entry(raw.key, ViewValue(raw.tag, raw.span, ff).value)])
  {
    hide ViewValue, Ascii, IntText, MemberText, Written;
    var sep := Separated(buffer, first);
    var keyed := WriteJsonStr(sep, raw.key);
    r := WriteViewValue(keyed + [COLON], raw.tag, raw.span, ff);
    if r.Some? {
      ghost var e := Entry(raw.key, ViewValue(raw.tag, raw.span, ff).value);
      WrittenNext(buffer, head, done, e);
      MemberParts(sep, e);
    }
  }

  method WriteViewFields(out: seq<byte>, raws: seq<Raw>, ghost bound: nat, time: i64, ff: FloatText)
    returns (r: Option<seq<byte>>)
    requires forall x | x in raws :: |x.span| < bound
    ensures r == match ViewEntries(raws, bound, ff)
                 case None => None
                 case Some(es) => Some(out + ObjectText(MergeTime(es, time, false)))
  {
    hide ViewValue, ViewEntries, Ascii, IntText, MemberText, Written, CompareBytes, MergeTime, ObjectText;
    ViewEntriesAt(raws, bound, ff);
    ghost var all := ViewEntries(raws, bound, ff);
    var head := out + [0x7B];
    var buffer := head;
    var first, timeWritten := true, false;
    ghost var done: seq<Entry>, seen: seq<Entry> := [], [];
    WrittenNone(head);
    for i := 0 to |raws|
      invariant Written(buffer, head, done) && (first <==> done == [])
      invariant Rendering(raws, i, seen, ff)
      invariant all.Some? ==> MergeTime(all.value, time, false) == done + MergeTime(all.value[i..], time, timeWritten)
    {
      var raw := raws[i];
      if all.Some? {
        MergeNext(done, all.value[i..], time, timeWritten);
        assert all.value[i..][1..] == all.value[i + 1..];
      }
      if !timeWritten && CompareBytes(raw.key, TIME_KEY) == Greater {
        WrittenNext(buffer, head, done, TimeEntry(time));
        buffer := WriteTime(buffer, first, time);
        first, timeWritten, done := false, true, done + [TimeEntry(time)];
      }
      if !timeWritten && raw.key == TIME_KEY {
        timeWritten := true;
      }
      var text := WriteViewMember(buffer, first, raw, ff, head, done);
      if text.None? {
        return None;
      }
      ghost var e := Entry(raw.key, ViewValue(raw.tag, raw.span, ff).value);
      buffer := text.value;
      first, done, seen := false, done + [e], seen + [e];
    }
    MergeEnd(time, timeWritten);
    if !timeWritten {
      WrittenNext(buffer, head, done, TimeEntry(time));
      buffer := WriteTime(buffer, first, time);
      done := done + [TimeEntry(time)];
    }
    assert done == MergeTime(all.value, time, false);
    Closed(buffer, out, done);
    r := Some(buffer + [0x7D]);
  }
}
