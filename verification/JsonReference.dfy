/**
 The owned emitter against the reference: writing fields in sorted order, with
 `_time` merged in, gives the bytes of building sorted maps and serialising them.
 */
module JsonReference {
  import opened Bytes
  import opened Values
  import opened JsonString
  import opened Json

  // ---- Entry lists in key order ----

  predicate Ascending(es: seq<Entry>) {
    forall i, j | 0 <= i < j < |es| :: CompareBytes(es[i].key, es[j].key) == Less
  }

  ghost predicate SameEntries(a: seq<Entry>, b: seq<Entry>) {
    forall e :: e in a <==> e in b
  }

  lemma HasEntry(a: seq<Entry>)
    requires a != []
    ensures exists e :: e in a
  {
    assert a[0] in a;
  }

  /** An ascending list is determined by its entries. */
  lemma {:induction false} AscendingUnique(a: seq<Entry>, b: seq<Entry>)
    requires Ascending(a) && Ascending(b) && SameEntries(a, b)
    ensures a == b
  {
    if a == [] {
      if b != [] {
        HasEntry(b);
      }
    } else {
      assert a[0] in b && b[0] in a;
      var i :| 0 <= i < |a| && a[i] == b[0];
      var j :| 0 <= j < |b| && b[j] == a[0];
      CompareBytesOrder(a[0].key, b[0].key);
      CompareBytesOrder(a[0].key, a[0].key);
      assert i == 0 && j == 0;
      forall e ensures e in a[1..] <==> e in b[1..] {
        FirstOnce(a);
        FirstOnce(b);
        assert e in a <==> e == a[0] || e in a[1..];
        assert e in b <==> e == b[0] || e in b[1..];
      }
      AscendingUnique(a[1..], b[1..]);
    }
  }

  lemma FirstOnce(a: seq<Entry>)
    requires Ascending(a) && a != []
    ensures a[0] !in a[1..]
  {
    CompareBytesOrder(a[0].key, a[0].key);
  }

  predicate DistinctEntries(es: seq<Entry>) {
    forall i, j | 0 <= i < j < |es| :: es[i].key != es[j].key
  }

  predicate HasKey(es: seq<Entry>, key: Str) {
    exists e :: e in es && e.key == key
  }

  // ---- Sorting ----

  lemma {:induction false} InsertAscends(sorted: seq<Entry>, e: Entry)
    requires Ascending(sorted) && !HasKey(sorted, e.key)
    ensures Ascending(InsertEntry(sorted, e))
    ensures forall x :: x in InsertEntry(sorted, e) <==> x == e || x in sorted
  {
    if sorted != [] {
      var first, rest := sorted[0], sorted[1..];
      assert first in sorted;
      CompareBytesOrder(e.key, first.key);
      if CompareBytes(e.key, first.key) == Less {
        forall j | 0 < j < |sorted| ensures CompareBytes(e.key, sorted[j].key) == Less {
          CompareBytesTransitive(e.key, first.key, sorted[j].key);
        }
      } else {
        InsertAscends(rest, e);
        var tail := InsertEntry(rest, e);
        forall j | 0 <= j < |tail| ensures CompareBytes(first.key, tail[j].key) == Less {
          assert tail[j] in tail;
        }
      }
    }
  }

  lemma {:induction false} InsertAllAscends(sorted: seq<Entry>, es: seq<Entry>)
    requires Ascending(sorted) && DistinctEntries(es) && forall e | e in es :: !HasKey(sorted, e.key)
    ensures Ascending(InsertAll(sorted, es))
    ensures forall x :: x in InsertAll(sorted, es) <==> x in es || x in sorted
    decreases es
  {
    hide InsertEntry;
    if es != [] {
      InsertAscends(sorted, es[0]);
      var next := InsertEntry(sorted, es[0]);
      forall e | e in es[1..] ensures !HasKey(next, e.key) {
        assert e in es;
      }
      InsertAllAscends(next, es[1..]);
      assert forall x :: x in es <==> x == es[0] || x in es[1..];
    }
  }

  /** Whatever sorted arrangement of distinct keys an unstable sort picks, it is this one. */
  lemma SortUnique(es: seq<Entry>, arranged: seq<Entry>)
    requires DistinctEntries(es) && Ascending(arranged) && SameEntries(es, arranged)
    ensures arranged == SortEntries(es)
  {
    InsertAllAscends([], es);
    AscendingUnique(arranged, SortEntries(es));
  }

  // ---- Sorted-map insertion ----

  function PutEntry(es: seq<Entry>, e: Entry): seq<Entry> {
    if es == [] then [e]
    else match CompareBytes(e.key, es[0].key)
      case Less => [e] + es
      case Equal => [e] + es[1..]
      case Greater => [es[0]] + PutEntry(es[1..], e)
  }

  function PutAll(es: seq<Entry>, added: seq<Entry>): seq<Entry>
    decreases added
  {
    if added == [] then es else PutAll(PutEntry(es, added[0]), added[1..])
  }

  lemma {:induction false} PutAscends(es: seq<Entry>, e: Entry)
    requires Ascending(es)
    ensures Ascending(PutEntry(es, e))
    ensures forall x :: x in PutEntry(es, e) <==> x == e || (x in es && x.key != e.key)
  {
    if es != [] {
      var first, rest := es[0], es[1..];
      CompareBytesOrder(e.key, first.key);
      assert forall x :: x in es <==> x == first || x in rest;
      match CompareBytes(e.key, first.key)
      case Less =>
        forall j | 0 <= j < |es| ensures CompareBytes(e.key, es[j].key) == Less && es[j].key != e.key {
          if j > 0 { CompareBytesTransitive(e.key, first.key, es[j].key); }
          CompareBytesOrder(e.key, es[j].key);
        }
      case Equal =>
        forall j | 0 <= j < |rest| ensures rest[j].key != e.key {
          CompareBytesOrder(first.key, rest[j].key);
        }
      case Greater =>
        PutAscends(rest, e);
        var tail := PutEntry(rest, e);
        forall j | 0 <= j < |tail| ensures CompareBytes(first.key, tail[j].key) == Less {
          assert tail[j] in tail;
        }
    }
  }

  lemma {:induction false} PutAllAscends(es: seq<Entry>, added: seq<Entry>)
    requires Ascending(es) && DistinctEntries(added)
    ensures Ascending(PutAll(es, added))
    ensures forall x :: x in PutAll(es, added) <==> x in added || (x in es && !HasKey(added, x.key))
    decreases added
  {
    hide PutEntry;
    if added != [] {
      PutAscends(es, added[0]);
      PutAllAscends(PutEntry(es, added[0]), added[1..]);
      assert forall x :: x in added <==> x == added[0] || x in added[1..];
      assert forall k :: HasKey(added, k) <==> k == added[0].key || HasKey(added[1..], k);
    }
  }

  // ---- Merging `_time` ----

  lemma {:induction false} MergeWritten(es: seq<Entry>, time: i64)
    ensures MergeTime(es, time, true) == es
  {
    if es != [] {
      MergeWritten(es[1..], time);
      assert [es[0]] + es[1..] == es;
    }
  }

  lemma {:induction false} MergeAscends(es: seq<Entry>, time: i64)
    requires Ascending(es)
    ensures Ascending(MergeTime(es, time, false))
    ensures forall x :: x in MergeTime(es, time, false) <==>
              x in es || (x == Entry(TIME_KEY, IntText(time)) && !HasKey(es, TIME_KEY))
  {
    hide Ascii, CompareBytes, IntText;
    if es != [] {
      var first, rest := es[0], es[1..];
      var stamp := Entry(TIME_KEY, IntText(time));
      CompareBytesOrder(first.key, TIME_KEY);
      assert forall x :: x in es <==> x == first || x in rest;
      if CompareBytes(first.key, TIME_KEY) == Greater {
        MergeWritten(rest, time);
        assert [stamp, first] + rest == [stamp] + es;
        forall j | 0 <= j < |es| ensures CompareBytes(TIME_KEY, es[j].key) == Less && es[j].key != TIME_KEY {
          if j > 0 { CompareBytesTransitive(TIME_KEY, first.key, es[j].key); }
          CompareBytesOrder(TIME_KEY, es[j].key);
        }
      } else if first.key == TIME_KEY {
        MergeWritten(rest, time);
        assert [first] + rest == es;
      } else {
        MergeAscends(rest, time);
        var tail := MergeTime(rest, time, false);
        forall j | 0 <= j < |tail| ensures CompareBytes(first.key, tail[j].key) == Less {
          assert tail[j] in tail;
        }
        assert HasKey(es, TIME_KEY) <==> HasKey(rest, TIME_KEY);
      }
    }
  }

  // ---- Emitting equals building and serialising ----

  lemma {:induction false} SerializeInsert(ms: seq<Member>, m: Member)
    ensures SerializeMembers(InsertMember(ms, m)) == PutEntry(SerializeMembers(ms), Entry(m.key, Serialize(m.value)))
  {
    hide Serialize, CompareBytes;
    if ms != [] {
      SerializeInsert(ms[1..], m);
      assert ([ms[0]] + InsertMember(ms[1..], m))[1..] == InsertMember(ms[1..], m);
      assert ([m] + ms)[1..] == ms && ([m] + ms[1..])[1..] == ms[1..];
    }
  }

  lemma {:induction false} SerializeToMembers(ms: seq<Member>, fields: seq<Field>, ff: FloatText)
    requires forall f | f in fields :: Serialize(ToJson(f.value, ff)) == JsonValue(f.value, ff)
    ensures SerializeMembers(ToMembers(ms, fields, ff)) == PutAll(SerializeMembers(ms), JsonEntries(fields, ff))
    decreases fields
  {
    hide Serialize, ToJson, JsonValue, InsertMember, PutEntry;
    if fields != [] {
      var m := Member(fields[0].key, ToJson(fields[0].value, ff));
      SerializeInsert(ms, m);
      SerializeToMembers(InsertMember(ms, m), fields[1..], ff);
      assert JsonEntries(fields, ff)[1..] == JsonEntries(fields[1..], ff);
    }
  }

  lemma {:induction false} EntryKeys(fields: seq<Field>, ff: FloatText)
    ensures forall i | 0 <= i < |fields| :: JsonEntries(fields, ff)[i].key == fields[i].key
  {
    hide JsonValue;
    if fields != [] {
      EntryKeys(fields[1..], ff);
    }
  }

  /** Keys are distinct in every nested map. */
  predicate DistinctNested(v: Value) {
    match v
    case Map(fields) => DistinctKeys(fields) && forall f | f in fields :: DistinctNested(f.value)
    case Array(items) => forall x | x in items :: DistinctNested(x)
    case _ => true
  }

  lemma {:induction false} ReferenceAgrees(v: Value, ff: FloatText)
    requires DistinctNested(v)
    ensures Serialize(ToJson(v, ff)) == JsonValue(v, ff)
  {
    match v
    case Map(fields) =>
      forall f | f in fields ensures Serialize(ToJson(f.value, ff)) == JsonValue(f.value, ff) {
        ReferenceAgrees(f.value, ff);
      }
      MapReference(fields, ff);
    case Array(items) =>
      forall x | x in items ensures Serialize(ToJson(x, ff)) == JsonValue(x, ff) {
        ReferenceAgrees(x, ff);
      }
      ItemsReference(items, ff);
    case Binary(bytes) =>
      NumbersReference(bytes);
    case Reference(c, d) =>
      ReferenceReference(c, d, ff);
    case BlobLink(offset, len) =>
      BlobReference(offset, len, ff);
    case _ =>
  }

  lemma MapReference(fields: seq<Field>, ff: FloatText)
    requires DistinctKeys(fields)
    requires forall f | f in fields :: Serialize(ToJson(f.value, ff)) == JsonValue(f.value, ff)
    ensures SerializeMembers(ToMembers([], fields, ff)) == SortEntries(JsonEntries(fields, ff))
  {
    hide Serialize, ToJson, JsonValue;
    var es := JsonEntries(fields, ff);
    SerializeToMembers([], fields, ff);
    EntryKeys(fields, ff);
    PutAllAscends([], es);
    SortUnique(es, PutAll([], es));
  }

  lemma {:induction false} ItemsReference(items: seq<Value>, ff: FloatText)
    requires forall x | x in items :: Serialize(ToJson(x, ff)) == JsonValue(x, ff)
    ensures SerializeItems(ToJsonItems(items, ff)) == JsonItems(items, ff)
  {
    hide Serialize, ToJson, JsonValue;
    if items != [] {
      ItemsReference(items[1..], ff);
      assert ToJsonItems(items, ff)[1..] == ToJsonItems(items[1..], ff);
    }
  }

  function Numbers(bytes: seq<byte>): seq<Json> {
    seq(|bytes|, i requires 0 <= i < |bytes| => JsonNumber(IntText(bytes[i])))
  }

  lemma {:induction false} NumbersReference(bytes: seq<byte>)
    ensures SerializeItems(Numbers(bytes)) == ByteTexts(bytes)
  {
    if bytes != [] {
      NumbersReference(bytes[1..]);
      assert Numbers(bytes)[1..] == Numbers(bytes[1..]);
    }
  }

  lemma OneMember(m: Member)
    ensures SerializeMembers([m]) == [Entry(m.key, Serialize(m.value))]
  {
    hide Serialize;
    assert [m][1..] == [];
  }

  lemma ReferenceReference(c: Str, d: Str, ff: FloatText)
    ensures Serialize(ToJson(Reference(c, d), ff)) == ReferenceText(c, d)
  {
    hide Escape, Ascii;
    EscapeAppend(c + [0x2F], d);
    EscapeAppend(c, [0x2F]);
    SlashIsClean();
    OneMember(Member(REF_KEY, JsonString(c + [0x2F] + d)));
  }

  lemma SlashIsClean()
    ensures Escape([0x2F]) == [0x2F]
  {
  }

  lemma BlobReference(offset: u64, len: u32, ff: FloatText)
    ensures Serialize(ToJson(BlobLink(offset, len), ff)) == BlobText(offset, len)
  {
    LenBeforeOffset();
    hide CompareBytes, Ascii, ObjectText, IntText;
    var off := Member(OFFSET_KEY, JsonNumber(IntText(offset)));
    var size := Member(LEN_KEY, JsonNumber(IntText(len)));
    assert InsertMember(InsertMember([], off), size) == [size, off];
    assert [size, off][1..] == [off];
    OneMember(off);
    assert SerializeMembers([size, off]) == [Entry(LEN_KEY, IntText(len)), Entry(OFFSET_KEY, IntText(offset))];
    OneMember(Member(BLOB_KEY, JsonObject([size, off])));
  }

  lemma LenBeforeOffset()
    ensures CompareBytes(LEN_KEY, OFFSET_KEY) == Less
  {
    assert LEN_KEY[0] == 0x6C && OFFSET_KEY[0] == 0x6F;
  }

  lemma MembersReference(fields: seq<Field>, time: i64, ff: FloatText)
    requires SortedKeys(fields)
    requires forall f | f in fields :: Serialize(ToJson(f.value, ff)) == JsonValue(f.value, ff)
    ensures SerializeMembers(ToMembers([Member(TIME_KEY, JsonNumber(IntText(time)))], fields, ff)) ==
            MergeTime(JsonEntries(fields, ff), time, false)
  {
    hide JsonValue, ToJson, Ascii, IntText, CompareBytes, MergeTime, PutAll, JsonEntries, ToMembers;
    var es := JsonEntries(fields, ff);
    var stamp := Member(TIME_KEY, JsonNumber(IntText(time)));
    OneMember(stamp);
    SerializeToMembers([stamp], fields, ff);
    EntryKeys(fields, ff);
    SortedKeysDistinct(fields);
    hide Serialize, SerializeMembers;
    PutAllAscends([Entry(TIME_KEY, IntText(time))], es);
    MergeAscends(es, time);
    AscendingUnique(PutAll([Entry(TIME_KEY, IntText(time))], es), MergeTime(es, time, false));
  }

  /** The bytes of `write_json` are the bytes of `to_json` serialised, `_time` included. */
  lemma DocReferenceAgrees(doc: HakoDoc, ff: FloatText)
    requires SortedKeys(doc.fields) && forall f | f in doc.fields :: DistinctNested(f.value)
    ensures Serialize(DocToJson(doc, ff)) == JsonDoc(doc, ff)
  {
    hide DistinctNested, JsonValue, ToJson, ObjectText, Ascii, MergeTime, ToMembers, JsonEntries, SortedKeys;
    forall f | f in doc.fields ensures Serialize(ToJson(f.value, ff)) == JsonValue(f.value, ff) {
      ReferenceAgrees(f.value, ff);
    }
    MembersReference(doc.fields, doc.time, ff);
  }
}
