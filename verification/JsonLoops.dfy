/**
 The JSON emitters as the program runs them: appending to a buffer piece by
 piece, sorting the members of a map before writing them.
 */
module JsonLoops {
  import opened Bytes
  import opened Values
  import opened JsonString
  import opened Json

  lemma {:induction false} CommasSnoc(pieces: seq<seq<byte>>, p: seq<byte>)
    ensures Commas(pieces + [p]) == if pieces == [] then p else Commas(pieces) + [COMMA] + p
  {
    if pieces != [] {
      assert (pieces + [p])[1..] == pieces[1..] + [p];
      CommasSnoc(pieces[1..], p);
    }
  }

  /** The separator, unless this is the first piece. */
  function Separated(out: seq<byte>, first: bool): seq<byte> {
    if first then out else out + [COMMA]
  }

  lemma AppendPiece(head: seq<byte>, pieces: seq<seq<byte>>, p: seq<byte>)
    ensures Separated(head + Commas(pieces), pieces == []) + p == head + Commas(pieces + [p])
  {
    CommasSnoc(pieces, p);
  }

  method WriteJsonStr(out: seq<byte>, s: Str) returns (r: seq<byte>)
    ensures r == out + StringText(s)
  {
    r := WriteJsonRaw(out + [QUOTE], s);
    r := r + [QUOTE];
  }

  // ---- Owned values ----

  function InsertField(sorted: seq<Field>, f: Field): seq<Field> {
    if sorted == [] || CompareBytes(f.key, sorted[0].key) == Less then [f] + sorted
    else [sorted[0]] + InsertField(sorted[1..], f)
  }

  /** `sort_unstable_by` on the keys. */
  method SortFields(fields: seq<Field>, ff: FloatText) returns (sorted: seq<Field>)
    ensures forall f | f in sorted :: f in fields
    ensures JsonEntries(sorted, ff) == SortEntries(JsonEntries(fields, ff))
  {
    hide JsonValue, CompareBytes;
    sorted := [];
    for i := 0 to |fields|
      invariant forall f | f in sorted :: f in fields
      invariant InsertAll(JsonEntries(sorted, ff), JsonEntries(fields[i..], ff)) == SortEntries(JsonEntries(fields, ff))
    {
      InsertFieldCommutes(sorted, fields[i], ff);
      assert fields[i..][1..] == fields[i + 1..];
      assert JsonEntries(fields[i..], ff)[1..] == JsonEntries(fields[i + 1..], ff);
      sorted := InsertField(sorted, fields[i]);
    }
  }

  lemma {:induction false} InsertFieldCommutes(sorted: seq<Field>, f: Field, ff: FloatText)
    ensures JsonEntries(InsertField(sorted, f), ff) ==
            InsertEntry(JsonEntries(sorted, ff), Entry(f.key, JsonValue(f.value, ff)))
    ensures forall g | g in InsertField(sorted, f) :: g == f || g in sorted
  {
    hide JsonValue, CompareBytes;
    if sorted == [] || CompareBytes(f.key, sorted[0].key) == Less {
      assert ([f] + sorted)[1..] == sorted;
    } else {
      InsertFieldCommutes(sorted[1..], f, ff);
      assert ([sorted[0]] + InsertField(sorted[1..], f))[1..] == InsertField(sorted[1..], f);
      assert JsonEntries(sorted, ff)[1..] == JsonEntries(sorted[1..], ff);
    }
  }

  lemma {:induction false} JsonEntriesSnoc(fields: seq<Field>, i: nat, ff: FloatText)
    requires i < |fields|
    ensures JsonEntries(fields[..i + 1], ff) ==
            JsonEntries(fields[..i], ff) + [Entry(fields[i].key, JsonValue(fields[i].value, ff))]
  {
    hide JsonValue;
    if i == 0 {
      assert fields[..1] == [fields[0]] && fields[..1][1..] == [];
    } else {
      JsonEntriesSnoc(fields[1..], i - 1, ff);
      assert fields[..i + 1][1..] == fields[1..][..i] && fields[..i][1..] == fields[1..][..i - 1];
    }
  }

  lemma {:induction false} JsonItemsSnoc(items: seq<Value>, i: nat, ff: FloatText)
    requires i < |items|
    ensures JsonItems(items[..i + 1], ff) == JsonItems(items[..i], ff) + [JsonValue(items[i], ff)]
  {
    hide JsonValue;
    if i == 0 {
      assert items[..1] == [items[0]] && items[..1][1..] == [];
    } else {
      JsonItemsSnoc(items[1..], i - 1, ff);
      assert items[..i + 1][1..] == items[1..][..i] && items[..i][1..] == items[1..][..i - 1];
    }
  }

  method WriteBytes(out: seq<byte>, bytes: seq<byte>) returns (r: seq<byte>)
    ensures r == out + ArrayText(ByteTexts(bytes))
  {
    hide IntText;
    var head := out + [0x5B];
    r := head;
    for i := 0 to |bytes|
      invariant r == head + Commas(ByteTexts(bytes[..i]))
    {
      AppendPiece(head, ByteTexts(bytes[..i]), IntText(bytes[i]));
      assert ByteTexts(bytes[..i + 1]) == ByteTexts(bytes[..i]) + [IntText(bytes[i])];
      r := Separated(r, i == 0) + IntText(bytes[i]);
    }
    assert bytes[..|bytes|] == bytes;
    r := r + [0x5D];
  }

  method WriteJsonValue(out: seq<byte>, v: Value, ff: FloatText) returns (r: seq<byte>)
    ensures r == out + JsonValue(v, ff)
    decreases v, 1
  {
    hide Ascii, Escape, IntText, Commas, SortEntries;
    match v
    case Null => r := out + NULL_TEXT;
    case ServerTimestamp => r := out + NULL_TEXT;
    case Bool(b) => r := out + if b then TRUE_TEXT else FALSE_TEXT;
    case Int(i) => r := out + IntText(i);
    case Float(bits) => r := out + ff(bits);
    case String(s) => r := WriteJsonStr(out, s);
    case Binary(bytes) => r := WriteBytes(out, bytes);
    case Timestamp(t) => r := out + IntText(t);
    case Reference(c, d) => r := WriteReference(out, c, d);
    case BlobLink(offset, len) => r := out + BlobText(offset, len);
    case Map(fields) =>
      var sorted := SortFields(fields, ff);
      r := WriteMembers(out + [0x7B], sorted, v, ff);
      r := r + [0x7D];
    case Array(items) =>
      r := WriteItems(out + [0x5B], items, ff);
      r := r + [0x5D];
  }

  /** The parts are escaped one by one under one pair of quotes. */
  method WriteReference(out: seq<byte>, c: Str, d: Str) returns (r: seq<byte>)
    ensures r == out + ReferenceText(c, d)
  {
    hide Ascii, Escape;
    r := out + ([0x7B] + StringText(REF_KEY) + [COLON, QUOTE]);
    r := WriteJsonRaw(r, c);
    r := WriteJsonRaw(r + [0x2F], d);
    r := r + [QUOTE, 0x7D];
  }

  method WriteItems(out: seq<byte>, items: seq<Value>, ff: FloatText) returns (r: seq<byte>)
    ensures r == out + Commas(JsonItems(items, ff))
    decreases items, 0
  {
    hide JsonValue, Commas;
    r := out;
    assert Commas([]) == [] by { NoCommas(); }
    for i := 0 to |items|
      invariant r == out + Commas(JsonItems(items[..i], ff))
    {
      AppendPiece(out, JsonItems(items[..i], ff), JsonValue(items[i], ff));
      JsonItemsSnoc(items, i, ff);
      r := WriteJsonValue(Separated(r, i == 0), items[i], ff);
    }
    assert items[..|items|] == items;
  }

  lemma NoCommas()
    ensures Commas([]) == []
  {
  }

  method WriteMembers(out: seq<byte>, fields: seq<Field>, ghost owner: Value, ff: FloatText) returns (r: seq<byte>)
    requires owner.Map? && forall f | f in fields :: f in owner.fields
    ensures r == out + Commas(Members(JsonEntries(fields, ff)))
    decreases owner, 0
  {
    hide JsonValue, Commas, MemberText;
    r := out;
    assert Commas([]) == [] by { NoCommas(); }
    assert Members(JsonEntries(fields[..0], ff)) == [];
    for i := 0 to |fields|
      invariant r == out + Commas(Members(JsonEntries(fields[..i], ff)))
    {
      var f := fields[i];
      ghost var before, e := JsonEntries(fields[..i], ff), Entry(f.key, JsonValue(f.value, ff));
      AppendPiece(out, Members(before), MemberText(e));
      JsonEntriesSnoc(fields, i, ff);
      assert Members(before + [e]) == Members(before) + [MemberText(e)];
      var sep := Separated(r, i == 0);
      assert f in fields && f in owner.fields;
      ghost var k :| 0 <= k < |owner.fields| && owner.fields[k] == f;
      r := WriteJsonStr(sep, f.key);
      r := WriteJsonValue(r + [COLON], f.value, ff);
      assert r == sep + MemberText(e) by { MemberParts(sep, e); }
    }
    assert fields[..|fields|] == fields;
  }

  lemma MemberParts(out: seq<byte>, e: Entry)
    ensures out + StringText(e.key) + [COLON] + e.text == out + MemberText(e)
  {
    hide StringText;
  }

  // ---- Whole documents ----

  function TimeEntry(time: i64): Entry { Entry(TIME_KEY, IntText(time)) }

  method WriteTime(out: seq<byte>, first: bool, time: i64) returns (r: seq<byte>)
    ensures r == Separated(out, first) + MemberText(TimeEntry(time))
  {
    hide Escape, IntText;
    TimeKeyClean();
    r := Separated(out, first) + ([QUOTE] + TIME_KEY + [QUOTE, COLON]) + IntText(time);
  }

  lemma TimeKeyClean()
    ensures Escape(TIME_KEY) == TIME_KEY
  {
    EscapeClean(TIME_KEY);
  }

  /** The buffer holds the members `done` of an object, comma-separated. */
  predicate Written(buffer: seq<byte>, head: seq<byte>, done: seq<Entry>) {
    buffer == head + Commas(Members(done))
  }

  lemma WrittenNext(buffer: seq<byte>, head: seq<byte>, done: seq<Entry>, e: Entry)
    requires Written(buffer, head, done)
    ensures Written(Separated(buffer, done == []) + MemberText(e), head, done + [e])
  {
    hide MemberText, Commas;
    AppendPiece(head, Members(done), MemberText(e));
    assert Members(done + [e]) == Members(done) + [MemberText(e)];
  }

  lemma WrittenNone(head: seq<byte>)
    ensures Written(head, head, [])
  {
    assert Members([]) == [];
  }

  /** One field of the merge: the stamp first if it is due, then the field. */
  lemma MergeNext(done: seq<Entry>, es: seq<Entry>, time: i64, written: bool)
    requires es != []
    ensures var due := !written && CompareBytes(es[0].key, TIME_KEY) == Greater;
            done + MergeTime(es, time, written) ==
            (if due then done + [TimeEntry(time)] else done) + [es[0]]
            + MergeTime(es[1..], time, written || due || es[0].key == TIME_KEY)
  {
    hide CompareBytes, Ascii, IntText;
  }

  /** `HakoDoc::write_json`. */
  method WriteJson(out: seq<byte>, doc: HakoDoc, ff: FloatText) returns (r: seq<byte>)
    ensures r == out + JsonDoc(doc, ff)
  {
    hide JsonValue, Ascii, IntText, MemberText, Written, CompareBytes, MergeTime;
    var head := out + [0x7B];
    r := head;
    var first, timeWritten := true, false;
    ghost var done: seq<Entry> := [];
    ghost var all := MergeTime(JsonEntries(doc.fields, ff), doc.time, false);
    WrittenNone(head);
    for i := 0 to |doc.fields|
      invariant Written(r, head, done) && (first <==> done == [])
      invariant all == done + MergeTime(JsonEntries(doc.fields[i..], ff), doc.time, timeWritten)
    {
      var f := doc.fields[i];
      ghost var e := Entry(f.key, JsonValue(f.value, ff));
      assert doc.fields[i..][1..] == doc.fields[i + 1..];
      assert JsonEntries(doc.fields[i..], ff)[1..] == JsonEntries(doc.fields[i + 1..], ff);
      MergeNext(done, JsonEntries(doc.fields[i..], ff), doc.time, timeWritten);
      if !timeWritten && CompareBytes(f.key, TIME_KEY) == Greater {
        WrittenNext(r, head, done, TimeEntry(doc.time));
        r := WriteTime(r, first, doc.time);
        first, timeWritten, done := false, true, done + [TimeEntry(doc.time)];
      }
      if !timeWritten && f.key == TIME_KEY {
        timeWritten := true;
      }
      WrittenNext(r, head, done, e);
      var sep := Separated(r, first);
      r := WriteJsonStr(sep, f.key);
      r := WriteJsonValue(r + [COLON], f.value, ff);
      assert r == sep + MemberText(e) by { MemberParts(sep, e); }
      first, done := false, done + [e];
    }
    MergeEnd(doc.time, timeWritten);
    if !timeWritten {
      WrittenNext(r, head, done, TimeEntry(doc.time));
      r := WriteTime(r, first, doc.time);
      done := done + [TimeEntry(doc.time)];
    }
    assert done == all;
    Closed(r, out, done);
    r := r + [0x7D];
  }

  lemma MergeEnd(time: i64, written: bool)
    ensures MergeTime([], time, written) == if written then [] else [TimeEntry(time)]
  {
  }

  lemma Closed(buffer: seq<byte>, out: seq<byte>, done: seq<Entry>)
    requires Written(buffer, out + [0x7B], done)
    ensures buffer + [0x7D] == out + ObjectText(done)
  {
    hide MemberText, Commas;
  }
}
