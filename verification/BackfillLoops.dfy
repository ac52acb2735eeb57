/**
 The index manager and its two backfills as the program runs them.
 */
module BackfillLoops {
  import opened Bytes
  import opened Values
  import opened Codec
  import opened CodecProofs
  import opened DocCodec
  import opened IndexKey
  import opened Backfill

  class IndexManager {
    var secondary: Secondary
    // Whether an index of another family covers the collection.
    var fts: bool
    var vector: bool
    var composite: bool
    var traverse: bool

    /** `backfill_secondary`: every document through every index. */
    method BackfillSecondary(docs: seq<(Str, HakoDoc)>)
      requires forall d | d in docs :: SortedKeys(d.1.fields)
      modifies this`secondary
      ensures secondary == OwnedAll(old(secondary), docs)
    {
      hide OwnedAdd;
      for i := 0 to |docs|
        invariant OwnedAll(secondary, docs[i..]) == OwnedAll(old(secondary), docs)
      {
        assert docs[i..][0] == docs[i] && docs[i..][1..] == docs[i + 1..];
        assert docs[i] in docs;
        AddDocument(docs[i].0, docs[i].1);
      }
    }

    method AddDocument(id: Str, doc: HakoDoc)
      requires SortedKeys(doc.fields)
      modifies this`secondary
      ensures secondary == OwnedAdd(old(secondary), id, doc)
    {
      hide OwnedKey, Posted;
      var names := secondary.Keys;
      ghost var done: set<Str> := {};
      while names != {}
        invariant secondary.Keys == old(secondary).Keys && names + done == secondary.Keys && names !! done
        invariant forall name | name in names :: secondary[name] == old(secondary)[name]
        invariant forall name | name in done ::
                    secondary[name] == Posted(old(secondary)[name], OwnedKey(name, id, doc), id)
      {
        var name :| name in names;
        var key := KeyOf(name, id, doc);
        secondary := secondary[name := Posted(secondary[name], key, id)];
        names, done := names - {name}, done + {name};
      }
    }

    /** `backfill_secondary_borrowed`: declines when an index of another family needs decoded documents. */
    method BackfillSecondaryBorrowed(docs: seq<(Str, seq<byte>)>) returns (complete: bool)
      modifies this`secondary
      ensures complete <==> !fts && !vector && !traverse && !composite
      ensures secondary == if complete then BorrowedAll(old(secondary), docs) else old(secondary)
    {
      hide BorrowedAdd;
      if fts || vector || traverse || composite {
        return false;
      }
      for i := 0 to |docs|
        invariant BorrowedAll(secondary, docs[i..]) == BorrowedAll(old(secondary), docs)
      {
        assert docs[i..][0] == docs[i] && docs[i..][1..] == docs[i + 1..];
        AddStored(docs[i].0, docs[i].1);
      }
      complete := true;
    }

    method AddStored(id: Str, bytes: seq<byte>)
      modifies this`secondary
      ensures secondary == BorrowedAdd(old(secondary), id, bytes)
    {
      hide StagedKeys, InsertStaged;
      var staged := Stage(secondary.Keys, id, bytes);
      if staged.None? {
        return;
      }
      for i := 0 to |staged.value|
        invariant secondary.Keys == old(secondary).Keys
        invariant InsertStaged(secondary, staged.value[i..], id) == InsertStaged(old(secondary), staged.value, id)
      {
        var s := staged.value[i];
        InsertNext(secondary, staged.value[i..], id);
        assert staged.value[i..][1..] == staged.value[i + 1..];
        if s.name in secondary {
          secondary := secondary[s.name := Post(secondary[s.name], s.key, id)];
        }
      }
      InsertIdle(secondary, [], id);
    }
  }

  lemma InsertNext(sec: Secondary, staged: seq<Staged>, id: Str)
    requires staged != []
    ensures var s := staged[0];
            InsertStaged(sec, staged, id) ==
            InsertStaged(if s.name in sec then sec[s.name := Post(sec[s.name], s.key, id)] else sec, staged[1..], id)
  {
  }

  method KeyOf(name: Str, id: Str, doc: HakoDoc) returns (key: Option<seq<byte>>)
    requires SortedKeys(doc.fields)
    ensures key == OwnedKey(name, id, doc)
  {
    hide ScalarKey, StrScalar;
    if name == ID_FIELD {
      key := Some(ScalarKey(String(id)));
      IdKey(id);
    } else if name == TIME_FIELD {
      key := Some(ScalarKey(Int(doc.time)));
    } else {
      var v := Get(doc, name);
      key := if v.None? then None else Some(ScalarKey(v.value));
    }
  }

  lemma IdKey(id: Str)
    ensures ScalarKey(String(id)) == StrScalar(id)
  {
  }

  /** Both passes over one stored document: match the indexed fields, then encode all their keys. */
  method Stage(names: set<Str>, id: Str, bytes: seq<byte>) returns (r: Option<seq<Staged>>)
    ensures r == StagedKeys(names, id, bytes)
  {
    hide Scan, DecodeRaws, Matched, FieldKeys, ScalarKey, StrScalar, ReadU16, ReadU64;
    if |bytes| < HEADER || bytes[0] != MAGIC || bytes[1] != VERSION {
      return None;
    }
    var matched := MatchFields(names, bytes, ReadU16(bytes, 10));
    if matched.None? {
      return None;
    }
    MatchedSpans(ScanDoc(bytes).value.raws, names, |bytes|);
    var staged := EncodeKeys(matched.value, |bytes|);
    if staged.None? {
      return None;
    }
    var r' := staged.value;
    if ID_FIELD in names {
      r' := r' + [Staged(ID_FIELD, StrScalar(id))];
    }
    if TIME_FIELD in names {
      r' := r' + [Staged(TIME_FIELD, ScalarKey(Int(AsI64(ReadU64(bytes, 2)))))];
    }
    assert r' == staged.value + VirtualKeys(names, id, AsI64(ReadU64(bytes, 2)));
    r := Some(r');
  }

  lemma {:induction false} MatchedAppend(a: seq<Raw>, b: seq<Raw>, names: set<Str>)
    ensures Matched(a + b, names) == Matched(a, names) + Matched(b, names)
  {
    hide Virtual;
    if a == [] {
      assert a + b == b;
    } else {
      assert (a + b)[1..] == a[1..] + b;
      MatchedAppend(a[1..], b, names);
    }
  }

  method MatchFields(names: set<Str>, bytes: seq<byte>, count: nat) returns (r: Option<seq<Raw>>)
    requires |bytes| >= HEADER
    ensures var w := Scan(true, bytes, HEADER, count);
            r == if w.left > 0 || w.pos != |bytes| then None else Some(Matched(w.raws, names))
  {
    hide NextField, Scan, Matched;
    var it := new HakoDocIter(bytes, HEADER, count);
    ghost var walk, done := Scan(true, bytes, HEADER, count), [];
    var matched: seq<Raw> := [];
    assert Matched([], names) == [] by { MatchedAppend([], [], names); NoMatch(names); }
    while true
      invariant it.bytes == bytes && it.pos <= |bytes|
      invariant var rest := Scan(true, bytes, it.pos, it.remaining);
                walk == Walk(done + rest.raws, rest.pos, rest.left)
      invariant matched == Matched(done, names)
      decreases it.remaining
    {
      ghost var pos, left := it.pos, it.remaining;
      var next := it.Next();
      if next.None? {
        ScanStop(true, bytes, pos, left);
        assert done + [] == done;
        break;
      }
      var raw := next.value;
      ScanStep(true, bytes, pos, left, raw, it.pos);
      MatchedAppend(done, [raw], names);
      OneMatch(raw, names);
      if raw.key in names && !Virtual(raw.key) {
        matched := matched + [raw];
      }
      done := done + [raw];
    }
    r := if it.remaining != 0 || it.pos != |bytes| then None else Some(matched);
  }

  lemma NoMatch(names: set<Str>)
    ensures Matched([], names) == []
  {
  }

  lemma OneMatch(raw: Raw, names: set<Str>)
    ensures Matched([raw], names) == if raw.key in names && !Virtual(raw.key) then [raw] else []
  {
    assert [raw][1..] == [];
  }

  /** Keys of the matched fields: from the bytes where that works, through the value where it does not. */
  method EncodeKeys(matched: seq<Raw>, ghost bound: nat) returns (r: Option<seq<Staged>>)
    requires forall x | x in matched :: |x.span| < bound
    ensures r == match DecodeRaws(matched, bound) case None => None case Some(fields) => Some(FieldKeys(fields))
  {
    hide DecodeValue, ScalarKey;
    var staged: seq<Staged> := [];
    ghost var fields: seq<Field> := [];
    for i := 0 to |matched|
      invariant DecodeRaws(matched[..i], bound) == Some(fields) && staged == FieldKeys(fields)
    {
      var raw := matched[i];
      var ok, key := EncodeRawScalar(raw.tag, raw.span, []);
      assert ok ==> key == ScalarKey(DecodeValue(raw.tag, raw.span).value);
      assert matched[..i] + matched[i..] == matched && matched[..i] + [raw] == matched[..i + 1];
      DecodeNext(matched[..i], raw, matched[i..], bound);
      if !ok {
        var v := DecodeValue(raw.tag, raw.span);
        if v.None? {
          return None;
        }
        key := ScalarKey(v.value);
      }
      ghost var f := Field(raw.key, DecodeValue(raw.tag, raw.span).value);
      FieldKeysSnoc(fields, f);
      fields, staged := fields + [f], staged + [Staged(raw.key, key)];
    }
    assert matched[..|matched|] == matched;
    r := Some(staged);
  }

  lemma {:induction false} FieldKeysSnoc(fields: seq<Field>, f: Field)
    ensures FieldKeys(fields + [f]) == FieldKeys(fields) + [Staged(f.key, ScalarKey(f.value))]
  {
    hide ScalarKey;
    if fields == [] {
      assert fields + [f] == [f] && [f][1..] == [];
    } else {
      assert (fields + [f])[1..] == fields[1..] + [f];
      FieldKeysSnoc(fields[1..], f);
    }
  }
}
