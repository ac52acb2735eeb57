/**
 Building secondary indexes (`service.rs`): from decoded documents, and straight
 from stored bytes, where only the indexed fields are looked at. On stored
 documents both leave the same indexes; on other buffers they part exactly when
 the indexed part of an undecodable buffer is intact.
 */
module Backfill {
  import opened Bytes
  import opened Values
  import opened Codec
  import opened CodecProofs
  import opened IndexKey

  const ID_FIELD: Str := [0x69, 0x64]
  const TIME_FIELD: Str := [0x5F, 0x74, 0x69, 0x6D, 0x65]

  type Postings = map<seq<byte>, set<Str>>
  type Secondary = map<Str, Postings>

  function Post(index: Postings, key: seq<byte>, id: Str): Postings {
    index[key := (if key in index then index[key] else {}) + {id}]
  }

  predicate Virtual(name: Str) { name == ID_FIELD || name == TIME_FIELD }

  // ---- From decoded documents ----

  /** The key a document has in the index on `name`: `id` and `_time` never come from a field. */
  function OwnedKey(name: Str, id: Str, doc: HakoDoc): Option<seq<byte>> {
    if name == ID_FIELD then Some(StrScalar(id))
    else if name == TIME_FIELD then Some(ScalarKey(Int(doc.time)))
    else
      var v :- Find(doc.fields, name);
      Some(ScalarKey(v))
  }

  function Posted(index: Postings, key: Option<seq<byte>>, id: Str): Postings {
    if key.None? then index else Post(index, key.value, id)
  }

  function OwnedAdd(sec: Secondary, id: Str, doc: HakoDoc): Secondary {
    map name | name in sec :: Posted(sec[name], OwnedKey(name, id, doc), id)
  }

  /** Decode, then index; a buffer that does not decode indexes nothing. */
  function DecodedAdd(sec: Secondary, id: Str, bytes: seq<byte>): Secondary {
    if DecodeDoc(bytes).None? then sec else OwnedAdd(sec, id, DecodeDoc(bytes).value)
  }

  function DecodedAll(sec: Secondary, docs: seq<(Str, seq<byte>)>): Secondary
    decreases docs
  {
    if docs == [] then sec else DecodedAll(DecodedAdd(sec, docs[0].0, docs[0].1), docs[1..])
  }

  // ---- From stored bytes ----

  datatype Staged = Staged(name: Str, key: seq<byte>)

  function Matched(raws: seq<Raw>, names: set<Str>): seq<Raw> {
    if raws == [] then []
    else (if raws[0].key in names && !Virtual(raws[0].key) then [raws[0]] else []) + Matched(raws[1..], names)
  }

  function FieldKeys(fields: seq<Field>): seq<Staged> {
    if fields == [] then [] else [Staged(fields[0].key, ScalarKey(fields[0].value))] + FieldKeys(fields[1..])
  }

  function VirtualKeys(names: set<Str>, id: Str, time: i64): seq<Staged> {
    (if ID_FIELD in names then [Staged(ID_FIELD, StrScalar(id))] else [])
    + (if TIME_FIELD in names then [Staged(TIME_FIELD, ScalarKey(Int(time)))] else [])
  }

  /** What a stored document stages for insertion; nothing unless all of it is in order. */
  function StagedKeys(names: set<Str>, id: Str, bytes: seq<byte>): Option<seq<Staged>> {
    var w :- ScanDoc(bytes);
    if w.left > 0 || w.pos != |bytes| then None
    else
      MatchedSpans(w.raws, names, |bytes|);
      var fields :- DecodeRaws(Matched(w.raws, names), |bytes|);
      Some(FieldKeys(fields) + VirtualKeys(names, id, AsI64(ReadU64(bytes, 2))))
  }

  lemma {:induction false} MatchedSpans(raws: seq<Raw>, names: set<Str>, bound: nat)
    requires forall r | r in raws :: |r.span| < bound
    ensures forall r | r in Matched(raws, names) :: |r.span| < bound && r.key in names
  {
    if raws != [] {
      MatchedSpans(raws[1..], names, bound);
    }
  }

  function InsertStaged(sec: Secondary, staged: seq<Staged>, id: Str): Secondary
    decreases staged
  {
    if staged == [] then sec
    else if staged[0].name !in sec then InsertStaged(sec, staged[1..], id)
    else InsertStaged(sec[staged[0].name := Post(sec[staged[0].name], staged[0].key, id)], staged[1..], id)
  }

  function BorrowedAdd(sec: Secondary, id: Str, bytes: seq<byte>): Secondary {
    match StagedKeys(sec.Keys, id, bytes)
    case None => sec
    case Some(staged) => InsertStaged(sec, staged, id)
  }

  function BorrowedAll(sec: Secondary, docs: seq<(Str, seq<byte>)>): Secondary
    decreases docs
  {
    if docs == [] then sec else BorrowedAll(BorrowedAdd(sec, docs[0].0, docs[0].1), docs[1..])
  }

  // ---- The staged keys are the keys of the document ----

  function StagedKey(staged: seq<Staged>, name: Str): Option<seq<byte>> {
    if staged == [] then None
    else if staged[0].name == name then Some(staged[0].key)
    else StagedKey(staged[1..], name)
  }

  predicate DistinctNames(staged: seq<Staged>) {
    forall i, j | 0 <= i < j < |staged| :: staged[i].name != staged[j].name
  }

  lemma {:induction false} InsertPointwise(sec: Secondary, staged: seq<Staged>, id: Str)
    requires DistinctNames(staged)
    ensures InsertStaged(sec, staged, id) == map name | name in sec :: Posted(sec[name], StagedKey(staged, name), id)
    decreases staged
  {
    if staged != [] {
      var s := staged[0];
      var next := if s.name in sec then sec[s.name := Post(sec[s.name], s.key, id)] else sec;
      InsertPointwise(next, staged[1..], id);
      assert StagedKey(staged[1..], s.name) == None by { NotStaged(staged[1..], s.name); }
    }
  }

  lemma {:induction false} NotStaged(staged: seq<Staged>, name: Str)
    requires forall i | 0 <= i < |staged| :: staged[i].name != name
    ensures StagedKey(staged, name) == None
  {
    if staged != [] {
      NotStaged(staged[1..], name);
    }
  }

  /** The fields the byte path looks at. */
  function Looked(fields: seq<Field>, names: set<Str>): seq<Field> {
    if fields == [] then []
    else (if fields[0].key in names && !Virtual(fields[0].key) then [fields[0]] else []) + Looked(fields[1..], names)
  }

  lemma {:induction false} MatchedDecode(raws: seq<Raw>, names: set<Str>, bound: nat)
    requires forall r | r in raws :: |r.span| < bound
    requires forall r | r in Matched(raws, names) :: |r.span| < bound
    requires DecodeRaws(raws, bound).Some?
    ensures DecodeRaws(Matched(raws, names), bound) == Some(Looked(DecodeRaws(raws, bound).value, names))
  {
    hide DecodeValue;
    if raws != [] {
      MatchedSpans(raws[1..], names, bound);
      MatchedDecode(raws[1..], names, bound);
      var fields := DecodeRaws(raws, bound).value;
      assert fields[1..] == DecodeRaws(raws[1..], bound).value;
      if raws[0].key in names && !Virtual(raws[0].key) {
        assert Matched(raws, names)[1..] == Matched(raws[1..], names);
      } else {
        assert Matched(raws, names) == Matched(raws[1..], names);
        assert Looked(fields, names) == Looked(fields[1..], names);
      }
    }
  }

  predicate HasField(fields: seq<Field>, name: Str) {
    exists f :: f in fields && f.key == name
  }

  lemma {:induction false} LookedNames(fields: seq<Field>, names: set<Str>)
    ensures forall s | s in FieldKeys(Looked(fields, names)) :: !Virtual(s.name) && HasField(fields, s.name)
  {
    hide ScalarKey, Virtual;
    if fields != [] {
      var f, rest := fields[0], fields[1..];
      LookedNames(rest, names);
      LookedStep(fields, names);
      forall s | s in FieldKeys(Looked(fields, names)) ensures !Virtual(s.name) && HasField(fields, s.name) {
        if s in FieldKeys(Looked(rest, names)) {
          var g :| g in rest && g.key == s.name;
          assert g in fields;
        } else {
          assert f in fields;
        }
      }
    }
  }

  /** One field of the walk: staged if it is indexed, skipped if not. */
  lemma LookedStep(fields: seq<Field>, names: set<Str>)
    requires fields != []
    ensures var keys := FieldKeys(Looked(fields[1..], names));
            FieldKeys(Looked(fields, names)) ==
            if fields[0].key in names && !Virtual(fields[0].key) then [Staged(fields[0].key, ScalarKey(fields[0].value))] + keys
            else keys
  {
    hide ScalarKey, Virtual;
    if fields[0].key in names && !Virtual(fields[0].key) {
      assert Looked(fields, names)[1..] == Looked(fields[1..], names);
    } else {
      assert Looked(fields, names) == Looked(fields[1..], names);
    }
  }

  lemma {:induction false} LookedDistinct(fields: seq<Field>, names: set<Str>, tail: seq<Staged>)
    requires DistinctKeys(fields) && DistinctNames(tail) && forall s | s in tail :: Virtual(s.name)
    ensures DistinctNames(FieldKeys(Looked(fields, names)) + tail)
  {
    hide ScalarKey, Virtual;
    if fields == [] {
      assert FieldKeys(Looked(fields, names)) + tail == tail;
    } else {
      LookedDistinct(fields[1..], names, tail);
      LookedStep(fields, names);
      LookedNames(fields[1..], names);
      var keys := FieldKeys(Looked(fields[1..], names));
      hide FieldKeys, Looked, DistinctNames;
      forall s | s in keys + tail ensures fields[0].key in names && !Virtual(fields[0].key) ==> s.name != fields[0].key {
        if s in keys {
          var g :| g in fields[1..] && g.key == s.name;
        }
      }
      if fields[0].key in names && !Virtual(fields[0].key) {
        var first := Staged(fields[0].key, ScalarKey(fields[0].value));
        PrependDistinct(first, keys + tail);
        Assoc([first], keys, tail);
      }
    }
  }

  lemma PrependDistinct(first: Staged, rest: seq<Staged>)
    requires DistinctNames(rest) && forall s | s in rest :: s.name != first.name
    ensures DistinctNames([first] + rest)
  {
  }

  lemma {:induction false} LookedKey(fields: seq<Field>, names: set<Str>, tail: seq<Staged>, name: Str)
    ensures StagedKey(FieldKeys(Looked(fields, names)) + tail, name) ==
            if name in names && !Virtual(name) && Find(fields, name).Some? then Some(ScalarKey(Find(fields, name).value))
            else StagedKey(tail, name)
  {
    hide ScalarKey, Virtual;
    if fields == [] {
      assert FieldKeys(Looked(fields, names)) + tail == tail;
    } else {
      assert Find(fields, name) == if fields[0].key == name then Some(fields[0].value) else Find(fields[1..], name);
      hide FieldKeys, Looked, Find, StagedKey;
      LookedKey(fields[1..], names, tail, name);
      LookedStep(fields, names);
      var keys := FieldKeys(Looked(fields[1..], names));
      if fields[0].key in names && !Virtual(fields[0].key) {
        var first := Staged(fields[0].key, ScalarKey(fields[0].value));
        Assoc([first], keys, tail);
        StagedStep(first, keys + tail, name);
      }
    }
  }

  lemma StagedStep(first: Staged, rest: seq<Staged>, name: Str)
    ensures StagedKey([first] + rest, name) == if first.name == name then Some(first.key) else StagedKey(rest, name)
  {
    assert ([first] + rest)[1..] == rest;
  }

  lemma VirtualKey(names: set<Str>, id: Str, time: i64, name: Str)
    ensures DistinctNames(VirtualKeys(names, id, time))
    ensures forall s | s in VirtualKeys(names, id, time) :: Virtual(s.name)
    ensures StagedKey(VirtualKeys(names, id, time), name) ==
            if name !in names then None
            else if name == ID_FIELD then Some(StrScalar(id))
            else if name == TIME_FIELD then Some(ScalarKey(Int(time)))
            else None
  {
    hide ScalarKey, StrScalar;
    var a := if ID_FIELD in names then [Staged(ID_FIELD, StrScalar(id))] else [];
    var b := if TIME_FIELD in names then [Staged(TIME_FIELD, ScalarKey(Int(time)))] else [];
    assert |ID_FIELD| != |TIME_FIELD|;
    assert StagedKey(b, name) == if b != [] && name == TIME_FIELD then Some(b[0].key) else None by {
      assert b != [] ==> b[1..] == [];
    }
    assert VirtualKeys(names, id, time) == a + b;
    if a == [] {
      assert a + b == b;
    } else {
      assert (a + b)[0] == a[0] && (a + b)[1..] == b;
      assert StagedKey(a + b, name) == if name == ID_FIELD then Some(a[0].key) else StagedKey(b, name);
    }
  }

  /** A buffer that decodes to a stored document is indexed as that document. */
  lemma BorrowedAgrees(sec: Secondary, id: Str, bytes: seq<byte>)
    requires DecodeDoc(bytes).Some? && SortedKeys(DecodeDoc(bytes).value.fields)
    ensures BorrowedAdd(sec, id, bytes) == OwnedAdd(sec, id, DecodeDoc(bytes).value)
  {
    hide Scan, DecodeRaws, Matched, InsertStaged, ScalarKey, StrScalar, FieldKeys, Looked, VirtualKeys, ReadU16, ReadU64;
    var names, doc := sec.Keys, DecodeDoc(bytes).value;
    var raws := ScanDoc(bytes).value.raws;
    MatchedSpans(raws, names, |bytes|);
    MatchedDecode(raws, names, |bytes|);
    SortedKeysDistinct(doc.fields);
    var tail := VirtualKeys(names, id, doc.time);
    VirtualKey(names, id, doc.time, ID_FIELD);
    LookedDistinct(doc.fields, names, tail);
    var staged := FieldKeys(Looked(doc.fields, names)) + tail;
    InsertPointwise(sec, staged, id);
    forall name | name in sec ensures StagedKey(staged, name) == OwnedKey(name, id, doc) {
      LookedKey(doc.fields, names, tail, name);
      VirtualKey(names, id, doc.time, name);
    }
  }

  /** For every list of stored documents the byte path leaves the indexes of decode-then-insert. */
  lemma {:induction false} BackfillAgrees(sec: Secondary, docs: seq<(Str, HakoDoc)>)
    requires forall d | d in docs :: EncodableDoc(d.1) && SortedKeys(d.1.fields)
    ensures BorrowedAll(sec, Stored(docs)) == DecodedAll(sec, Stored(docs)) == OwnedAll(sec, docs)
    decreases docs
  {
    hide BorrowedAdd, OwnedAdd, EncodeDoc, EncodableDoc, SortedKeys;
    if docs != [] {
      var (id, doc) := docs[0];
      assert Stored(docs)[1..] == Stored(docs[1..]);
      RoundTrip(doc, []);
      assert EncodeDoc(doc) + [] == EncodeDoc(doc);
      BorrowedAgrees(sec, id, EncodeDoc(doc));
      BackfillAgrees(OwnedAdd(sec, id, doc), docs[1..]);
    }
  }

  function Stored(docs: seq<(Str, HakoDoc)>): seq<(Str, seq<byte>)> {
    seq(|docs|, i requires 0 <= i < |docs| => (docs[i].0, EncodeDoc(docs[i].1)))
  }

  function OwnedAll(sec: Secondary, docs: seq<(Str, HakoDoc)>): Secondary
    decreases docs
  {
    if docs == [] then sec else OwnedAll(OwnedAdd(sec, docs[0].0, docs[0].1), docs[1..])
  }

  // ---- What a lookup finds ----

  /** What a document has under an indexed name. */
  function Indexed(name: Str, id: Str, doc: HakoDoc): Option<Value> {
    if name == [0x69, 0x64] then Some(String(id))
    else if name == [0x5F, 0x74, 0x69, 0x6D, 0x65] then Some(Int(doc.time))
    else Find(doc.fields, name)
  }

  /** The ids under the key of a value. */
  function IdsUnder(sec: Secondary, name: Str, key: seq<byte>): set<Str> {
    if name in sec && key in sec[name] then sec[name][key] else {}
  }

  predicate HasKey(d: (Str, HakoDoc), name: Str, id: Str, key: seq<byte>) {
    d.0 == id && OwnedKey(name, d.0, d.1) == Some(key)
  }

  lemma {:induction false} OwnedPosts(sec: Secondary, docs: seq<(Str, HakoDoc)>, name: Str, key: seq<byte>, id: Str)
    requires name in sec
    ensures id in IdsUnder(OwnedAll(sec, docs), name, key) <==> id in IdsUnder(sec, name, key) || exists d :: d in docs && HasKey(d, name, id, key)
    decreases docs
  {
    hide OwnedKey;
    if docs != [] {
      var (first, doc) := docs[0];
      OwnedPosts(OwnedAdd(sec, first, doc), docs[1..], name, key, id);
      assert docs[0] in docs && forall d | d in docs[1..] :: d in docs;
      assert forall d | d in docs :: d == docs[0] || d in docs[1..];
    }
  }

  lemma IndexedKey(name: Str, d: (Str, HakoDoc), v: Value)
    requires EncodableDoc(d.1) && Encodable(String(d.0)) && Encodable(v)
    ensures OwnedKey(name, d.0, d.1) == Some(ScalarKey(v)) <==>
            Indexed(name, d.0, d.1).Some? && SharesKey(Indexed(name, d.0, d.1).value, v)
  {
    hide ScalarKey, Encodable, SharesKey, Find;
    var w := Indexed(name, d.0, d.1);
    assert OwnedKey(name, d.0, d.1) == if w.Some? then Some(ScalarKey(w.value)) else None by { StrKey(d.0); }
    if w.Some? {
      assert Encodable(w.value) by { FoundFits(d.1.fields, name); EncodableInt(d.1.time); }
      KeyShared(w.value, v);
    }
  }

  lemma EncodableInt(i: i64)
    ensures Encodable(Int(i))
  {
  }

  lemma StrKey(id: Str)
    ensures StrScalar(id) == ScalarKey(String(id))
  {
  }

  lemma {:induction false} FoundFits(fields: seq<Field>, name: Str)
    requires EncodableFields(fields)
    ensures Find(fields, name).Some? ==> Encodable(Find(fields, name).value)
  {
    hide Encodable;
    if fields != [] && fields[0].key != name {
      FoundFits(fields[1..], name);
    }
  }

  /** After a backfill from stored bytes a value leads to exactly the documents that have it, up to kinds that share a key. */
  lemma LookupExact(names: set<Str>, docs: seq<(Str, HakoDoc)>, name: Str, v: Value, id: Str)
    requires forall d | d in docs :: EncodableDoc(d.1) && SortedKeys(d.1.fields) && Encodable(String(d.0))
    requires name in names && Encodable(v)
    ensures id in IdsUnder(BorrowedAll(map n | n in names :: map[], Stored(docs)), name, ScalarKey(v)) <==>
            exists d :: d in docs && d.0 == id && Indexed(name, d.0, d.1).Some? && SharesKey(Indexed(name, d.0, d.1).value, v)
  {
    hide ScalarKey, Encodable, EncodableDoc, SortedKeys, SharesKey, OwnedKey, Indexed, BorrowedAll, OwnedAll;
    var sec: Secondary := map n | n in names :: map[];
    BackfillAgrees(sec, docs);
    OwnedPosts(sec, docs, name, ScalarKey(v), id);
    forall d | d in docs
      ensures HasKey(d, name, id, ScalarKey(v)) <==> d.0 == id && Indexed(name, d.0, d.1).Some? && SharesKey(Indexed(name, d.0, d.1).value, v)
    {
      IndexedKey(name, d, v);
    }
  }

  // ---- Where the two paths part ----

  predicate Posts(sec: Secondary, s: Staged, id: Str) {
    s.name in sec && s.key in sec[s.name] && id in sec[s.name][s.key]
  }

  lemma {:induction false} InsertPosts(sec: Secondary, staged: seq<Staged>, id: Str, s: Staged)
    requires Posts(sec, s, id) || (s in staged && s.name in sec)
    ensures Posts(InsertStaged(sec, staged, id), s, id)
    decreases staged
  {
    if staged != [] {
      var t := staged[0];
      assert staged == [t] + staged[1..];
      var next := if t.name in sec then sec[t.name := Post(sec[t.name], t.key, id)] else sec;
      InsertPosts(next, staged[1..], id, s);
    }
  }

  lemma {:induction false} InsertIdle(sec: Secondary, staged: seq<Staged>, id: Str)
    requires forall s | s in staged :: Posts(sec, s, id)
    ensures InsertStaged(sec, staged, id) == sec
    decreases staged
  {
    if staged != [] {
      var s := staged[0];
      assert Posts(sec, s, id);
      assert sec[s.name][s.key] + {id} == sec[s.name][s.key];
      assert Post(sec[s.name], s.key, id) == sec[s.name];
      assert sec[s.name := Post(sec[s.name], s.key, id)] == sec;
      InsertIdle(sec, staged[1..], id);
    }
  }

  /**
   The two paths agree on a buffer exactly when it decodes, the byte path skips it, or
   everything the byte path stages stands in the indexes already: a corrupt value in a
   field that no index covers keeps the document out of one and not of the other.
   */
  lemma PathsAgreeIff(sec: Secondary, id: Str, bytes: seq<byte>)
    requires DecodeDoc(bytes).Some? ==> SortedKeys(DecodeDoc(bytes).value.fields)
    ensures BorrowedAdd(sec, id, bytes) == DecodedAdd(sec, id, bytes) <==>
            || DecodeDoc(bytes).Some? || StagedKeys(sec.Keys, id, bytes).None?
            || forall s | s in StagedKeys(sec.Keys, id, bytes).value :: Posts(sec, s, id)
  {
    hide DecodeDoc, InsertStaged, StagedKeys, Posts;
    if DecodeDoc(bytes).Some? {
      BorrowedAgrees(sec, id, bytes);
    } else if StagedKeys(sec.Keys, id, bytes).Some? {
      var staged := StagedKeys(sec.Keys, id, bytes).value;
      StagedNames(sec.Keys, id, bytes);
      if s :| s in staged && !Posts(sec, s, id) {
        InsertPosts(sec, staged, id, s);
      } else {
        InsertIdle(sec, staged, id);
      }
    }
  }

  lemma StagedNames(names: set<Str>, id: Str, bytes: seq<byte>)
    requires StagedKeys(names, id, bytes).Some?
    ensures forall s | s in StagedKeys(names, id, bytes).value :: s.name in names
  {
    hide Scan, DecodeRaws, ScalarKey, StrScalar, ReadU16, ReadU64, DecodeValue;
    var raws := ScanDoc(bytes).value.raws;
    MatchedSpans(raws, names, |bytes|);
    DecodedNames(Matched(raws, names), names, |bytes|);
  }

  lemma {:induction false} DecodedNames(raws: seq<Raw>, names: set<Str>, bound: nat)
    requires forall r | r in raws :: |r.span| < bound && r.key in names
    requires DecodeRaws(raws, bound).Some?
    ensures forall s | s in FieldKeys(DecodeRaws(raws, bound).value) :: s.name in names
  {
    hide DecodeValue, ScalarKey;
    if raws != [] {
      DecodedNames(raws[1..], names, bound);
      var fields := DecodeRaws(raws, bound).value;
      assert fields[1..] == DecodeRaws(raws[1..], bound).value;
    }
  }

  /** One field `x` holding a string that is not UTF-8: indexed by id from the bytes, not from the document. */
  lemma PathsPart()
    ensures var bytes := [0xF1, 5, 0, 0, 0, 0, 0, 0, 0, 0, 1, 0, 1, 0x78, 0x41, 0xFF];
            && DecodeDoc(bytes) == None
            && BorrowedAdd(map[ID_FIELD := map[]], [0x61], bytes) != DecodedAdd(map[ID_FIELD := map[]], [0x61], bytes)
  {
    var bytes: seq<byte> := [0xF1, 5, 0, 0, 0, 0, 0, 0, 0, 0, 1, 0, 1, 0x78, 0x41, 0xFF];
    var sec: Secondary := map[ID_FIELD := map[]];
    CorruptScan(bytes);
    assert !Utf8([0xFF]);
    assert DecodeValue(0x41, [0xFF]) == None;
    assert Matched([Raw([0x78], 0x41, [0xFF])], sec.Keys) == [];
    assert StagedKeys(sec.Keys, [0x61], bytes).value[0] == Staged(ID_FIELD, StrScalar([0x61]));
    assert !Posts(sec, Staged(ID_FIELD, StrScalar([0x61])), [0x61]);
    PathsAgreeIff(sec, [0x61], bytes);
  }

  lemma CorruptScan(bytes: seq<byte>)
    requires bytes == [0xF1, 5, 0, 0, 0, 0, 0, 0, 0, 0, 1, 0, 1, 0x78, 0x41, 0xFF]
    ensures ScanDoc(bytes) == Some(Walk([Raw([0x78], 0x41, [0xFF])], 16, 0))
  {
    assert bytes[10..12] == LE(1, 2);
    ReadU16At(bytes, 10, 1);
    assert bytes[13..14] == [0x78] && Utf8([0x78]);
    assert bytes[15..16] == [0xFF];
    assert NextField(bytes, 12) == Some((Raw([0x78], 0x41, [0xFF]), 16));
    ScanStep(true, bytes, 12, 1, Raw([0x78], 0x41, [0xFF]), 16);
    ScanStop(true, bytes, 16, 0);
    assert [Raw([0x78], 0x41, [0xFF])] + [] == [Raw([0x78], 0x41, [0xFF])];
  }
}
