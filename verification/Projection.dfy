/**
 Dotted projection (`value.rs`, `decode_projected`, `project_fields`): keeping
 the subtrees some paths name. Decoding with a projection equals projecting the
 decoded document; the named paths read the same, nothing else is reachable, and
 projecting again changes nothing.
 */
module Projection {
  import opened Bytes
  import opened Values
  import opened Codec
  import opened CodecProofs

  type Path = seq<Str>

  /** Some path names `key` itself. */
  predicate Whole(paths: seq<Path>, key: Str) {
    [key] in paths
  }

  /** What the paths through `key` select below it. */
  function Below(paths: seq<Path>, key: Str): seq<Path> {
    if paths == [] then []
    else if |paths[0]| > 1 && paths[0][0] == key then [paths[0][1..]] + Below(paths[1..], key)
    else Below(paths[1..], key)
  }

  lemma {:induction false} BelowMembers(paths: seq<Path>, key: Str)
    ensures forall q | q in Below(paths, key) :: q != [] && [key] + q in paths
    ensures forall p | p in paths && |p| > 1 && p[0] == key :: p[1..] in Below(paths, key)
  {
    if paths != [] {
      BelowMembers(paths[1..], key);
      assert forall p | p in paths :: p == paths[0] || p in paths[1..];
      if |paths[0]| > 1 && paths[0][0] == key {
        assert [key] + paths[0][1..] == paths[0];
      }
    }
  }

  function Prune(v: Value, paths: seq<Path>): Value
    decreases v, 1
  {
    if paths == [] then v
    else match v
      case Map(fields) => Map(PruneFields(fields, paths))
      case Array(items) => Array(PruneItems(items, paths))
      case _ => v
  }

  /** One map entry: kept whole, kept pruned, or dropped. */
  function PruneEntry(f: Field, paths: seq<Path>): seq<Field>
    decreases f, 2
  {
    if Whole(paths, f.key) then [f]
    else if Below(paths, f.key) != [] then [Field(f.key, Prune(f.value, Below(paths, f.key)))]
    else []
  }

  function PruneFields(fields: seq<Field>, paths: seq<Path>): seq<Field>
    decreases fields, 0
  {
    if fields == [] then [] else PruneEntry(fields[0], paths) + PruneFields(fields[1..], paths)
  }

  function PruneItems(items: seq<Value>, paths: seq<Path>): (r: seq<Value>)
    ensures |r| == |items|
    decreases items, 0
  {
    if items == [] then [] else [Prune(items[0], paths)] + PruneItems(items[1..], paths)
  }

  // ---- Whole documents ----

  /** The projection as relative paths; one with an empty segment after the first names nothing. */
  function Selected(projection: seq<Str>): seq<Path> {
    if projection == [] then []
    else
      var segs := Split(projection[0]);
      (if forall i | 0 < i < |segs| :: segs[i] != [] then [segs] else []) + Selected(projection[1..])
  }

  lemma {:induction false} SelectedMembers(projection: seq<Str>)
    ensures forall p | p in projection && (forall i | 0 < i < |Split(p)| :: Split(p)[i] != []) :: Split(p) in Selected(projection)
    ensures forall q | q in Selected(projection) :: q != [] && exists p :: p in projection && Split(p) == q
  {
    hide Split;
    if projection != [] {
      SelectedMembers(projection[1..]);
      assert forall p | p in projection :: p == projection[0] || p in projection[1..];
      forall q | q in Selected(projection) ensures q != [] && exists p :: p in projection && Split(p) == q {
        if q == Split(projection[0]) {
          assert projection[0] in projection;
        } else {
          var p :| p in projection[1..] && Split(p) == q;
          assert p in projection;
        }
      }
    }
  }

  function ProjectFields(fields: seq<Field>, projection: seq<Str>): seq<Field> {
    if projection == [] then fields else PruneFields(fields, Selected(projection))
  }

  /** The stored fields a projection has to decode: those one of its first segments names. */
  predicate Wanted(projection: seq<Str>, key: Str) {
    projection == [] || (key != [] && Heads(projection, key))
  }

  predicate Heads(projection: seq<Str>, key: Str) {
    exists p :: p in projection && Split(p)[0] == key
  }

  function ProjectRaws(raws: seq<Raw>, projection: seq<Str>): Option<seq<Field>> {
    if raws == [] then Some([])
    else if !Wanted(projection, raws[0].key) then ProjectRaws(raws[1..], projection)
    else
      var v :- DecodeValue(raws[0].tag, raws[0].span);
      var rest :- ProjectRaws(raws[1..], projection);
      Some(ProjectFields([Field(raws[0].key, v)], projection) + rest)
  }

  function DecodeProjected(bytes: seq<byte>, projection: seq<Str>): Option<HakoDoc> {
    var w :- ScanDoc(bytes);
    var fields :- ProjectRaws(w.raws, projection);
    if w.left > 0 || w.pos != |bytes| then None
    else Some(HakoDoc(fields, AsI64(ReadU64(bytes, 2))))
  }

  // ---- Named paths read the same ----

  lemma {:induction false} PruneFind(fields: seq<Field>, paths: seq<Path>, key: Str)
    ensures Find(PruneFields(fields, paths), key) ==
            if Find(fields, key).None? then None
            else Find(PruneEntry(Field(key, Find(fields, key).value), paths), key)
  {
    hide Prune, Below;
    if fields != [] {
      var entry, rest := PruneEntry(fields[0], paths), PruneFields(fields[1..], paths);
      PruneFind(fields[1..], paths, key);
      if entry == [] {
        assert entry + rest == rest;
      } else {
        assert (entry + rest)[0] == entry[0] && (entry + rest)[1..] == rest;
        assert entry == [entry[0]] && entry[0].key == fields[0].key;
        assert fields[0].key == key ==> fields[0] == Field(key, fields[0].value);
      }
    }
  }

  lemma {:induction false} PruneDescend(v: Value, paths: seq<Path>, q: Path)
    requires q in paths && q != []
    ensures Descend(Prune(v, paths), q) == Descend(v, q)
    decreases q
  {
    hide Find, PruneFields, PruneItems, Whole;
    if v.Map? && q[0] != [] {
      PruneFind(v.fields, paths, q[0]);
      var hit := Find(v.fields, q[0]);
      if hit.Some? {
        EntryFind(Field(q[0], hit.value), paths);
        if !Whole(paths, q[0]) {
          NotWhole(paths, q);
          PruneDescend(hit.value, Below(paths, q[0]), q[1..]);
        }
      }
    }
  }

  lemma NotWhole(paths: seq<Path>, q: Path)
    requires q in paths && q != [] && !Whole(paths, q[0])
    ensures |q| > 1 && q[1..] in Below(paths, q[0])
  {
    BelowMembers(paths, q[0]);
    assert q != [q[0]];
  }

  lemma EntryFind(f: Field, paths: seq<Path>)
    ensures Find(PruneEntry(f, paths), f.key) ==
            if Whole(paths, f.key) then Some(f.value)
            else if Below(paths, f.key) != [] then Some(Prune(f.value, Below(paths, f.key)))
            else None
  {
    hide Prune, Below, Whole;
  }

  lemma {:induction false} EmptySegmentMisses(v: Value, segs: seq<Str>)
    requires [] in segs
    ensures Descend(v, segs) == None
    decreases segs
  {
    if segs[0] != [] && v.Map? && Find(v.fields, segs[0]).Some? {
      EmptySegmentMisses(Find(v.fields, segs[0]).value, segs[1..]);
    }
  }

  /** Every path of the projection reads on the projected document what it reads on the document. */
  lemma PathKept(fields: seq<Field>, projection: seq<Str>, p: Str)
    requires p in projection
    ensures Lookup(ProjectFields(fields, projection), Split(p)) == Lookup(fields, Split(p))
  {
    hide Split;
    SelectedMembers(projection);
    var segs, paths := Split(p), Selected(projection);
    var kept := ProjectFields(fields, projection);
    assert Lookup(fields, segs) == Descend(Map(fields), segs);
    assert Lookup(kept, segs) == Descend(Map(kept), segs);
    if [] in segs {
      EmptySegmentMisses(Map(fields), segs);
      EmptySegmentMisses(Map(kept), segs);
    } else {
      assert segs in paths;
      assert Prune(Map(fields), paths) == Map(kept);
      PruneDescend(Map(fields), paths, segs);
    }
  }

  // ---- Nothing else is reachable ----

  /** One of the paths runs along `q`, or `q` along one of them. */
  predicate Touched(paths: seq<Path>, q: Path) {
    exists p :: p in paths && (p <= q || q <= p)
  }

  lemma {:induction false} PruneHides(v: Value, paths: seq<Path>, q: Path)
    requires paths != [] && q != [] && !Touched(paths, q)
    ensures Descend(Prune(v, paths), q) == None
    decreases q
  {
    hide Find, PruneFields, PruneItems;
    if v.Map? && q[0] != [] {
      PruneFind(v.fields, paths, q[0]);
      var hit := Find(v.fields, q[0]);
      if hit.Some? {
        EntryFind(Field(q[0], hit.value), paths);
        assert [q[0]] <= q;
        if Below(paths, q[0]) != [] {
          UntouchedBelow(paths, q);
          PruneHides(hit.value, Below(paths, q[0]), q[1..]);
        }
      }
    }
  }

  lemma UntouchedBelow(paths: seq<Path>, q: Path)
    requires q != [] && !Touched(paths, q) && Below(paths, q[0]) != []
    ensures q[1..] != [] && !Touched(Below(paths, q[0]), q[1..])
  {
    var below := Below(paths, q[0]);
    BelowMembers(paths, q[0]);
    assert q == [q[0]] + q[1..];
    forall p | p in below ensures !(p <= q[1..] || q[1..] <= p) {
      var whole := [q[0]] + p;
      assert whole in paths;
      assert whole[0] == q[0] && whole[1..] == p;
      assert p <= q[1..] ==> whole <= q;
      assert q[1..] <= p ==> q <= whole;
    }
    var first := below[0];
    assert first in below && !(q[1..] <= first);
  }

  /** A path that meets none of the projection's paths finds nothing on the projected document. */
  lemma RestHidden(fields: seq<Field>, projection: seq<Str>, q: Path)
    requires projection != [] && q != [] && !Touched(Selected(projection), q)
    ensures Lookup(ProjectFields(fields, projection), q) == None
  {
    var paths := Selected(projection);
    var kept := ProjectFields(fields, projection);
    assert Lookup(kept, q) == Descend(Map(kept), q);
    if paths == [] {
      DropsAll(fields);
    } else {
      assert Prune(Map(fields), paths) == Map(kept);
      PruneHides(Map(fields), paths, q);
    }
  }

  lemma {:induction false} DropsAll(fields: seq<Field>)
    ensures PruneFields(fields, []) == []
  {
    if fields != [] {
      DropsAll(fields[1..]);
    }
  }

  // ---- Projecting again changes nothing ----

  lemma {:induction false} PruneTwice(v: Value, paths: seq<Path>)
    ensures Prune(Prune(v, paths), paths) == Prune(v, paths)
    decreases v, 1
  {
    if paths != [] {
      match v
      case Map(fields) => PruneFieldsTwice(fields, paths);
      case Array(items) => PruneItemsTwice(items, paths);
      case _ =>
    }
  }

  lemma {:induction false} PruneItemsTwice(items: seq<Value>, paths: seq<Path>)
    ensures PruneItems(PruneItems(items, paths), paths) == PruneItems(items, paths)
    decreases items, 0
  {
    if items != [] {
      PruneTwice(items[0], paths);
      PruneItemsTwice(items[1..], paths);
      assert PruneItems(items, paths)[1..] == PruneItems(items[1..], paths);
    }
  }

  lemma {:induction false} PruneFieldsTwice(fields: seq<Field>, paths: seq<Path>)
    ensures PruneFields(PruneFields(fields, paths), paths) == PruneFields(fields, paths)
    decreases fields, 0
  {
    if fields != [] {
      var entry, rest := PruneEntry(fields[0], paths), PruneFields(fields[1..], paths);
      PruneFieldsTwice(fields[1..], paths);
      if entry == [] {
        assert entry + rest == rest;
      } else {
        PruneTwice(fields[0].value, Below(paths, fields[0].key));
        assert PruneEntry(entry[0], paths) == entry;
        assert (entry + rest)[0] == entry[0] && (entry + rest)[1..] == rest;
      }
    }
  }

  lemma ProjectTwice(fields: seq<Field>, projection: seq<Str>)
    ensures ProjectFields(ProjectFields(fields, projection), projection) == ProjectFields(fields, projection)
  {
    if projection != [] {
      PruneFieldsTwice(fields, Selected(projection));
    }
  }

  /** Projection keeps the key order the binary search of `get` relies on. */
  lemma {:induction false} PruneSorted(fields: seq<Field>, paths: seq<Path>)
    requires SortedKeys(fields)
    ensures SortedKeys(PruneFields(fields, paths))
    ensures forall f | f in PruneFields(fields, paths) :: exists g :: g in fields && g.key == f.key
  {
    hide Prune, Below, Whole;
    if fields != [] {
      PruneSorted(fields[1..], paths);
      var entry, rest := PruneEntry(fields[0], paths), PruneFields(fields[1..], paths);
      forall j | 0 <= j < |rest| ensures CompareBytes(fields[0].key, rest[j].key) == Less {
        var g :| g in fields[1..] && g.key == rest[j].key;
      }
      forall f | f in entry + rest ensures exists g :: g in fields && g.key == f.key {
        if f in entry {
          assert fields[0] in fields && fields[0].key == f.key;
        } else {
          var g :| g in fields[1..] && g.key == f.key;
          assert g in fields;
        }
      }
    }
  }

  // ---- Decoding with a projection ----

  lemma {:induction false} BelowNone(paths: seq<Path>, key: Str)
    requires forall q | q in paths :: q != [] && q[0] != key
    ensures Below(paths, key) == [] && !Whole(paths, key)
  {
    assert [key][0] == key;
    if paths != [] {
      assert paths[0] in paths && forall q | q in paths[1..] :: q in paths;
      BelowNone(paths[1..], key);
    }
  }

  /** A field no prefix names is not selected. */
  lemma Unwanted(f: Field, projection: seq<Str>)
    requires projection != [] && f.key != [] && !Wanted(projection, f.key)
    ensures PruneEntry(f, Selected(projection)) == []
  {
    hide Selected, Below, Split, Prune;
    SelectedMembers(projection);
    forall q | q in Selected(projection) ensures q[0] != f.key {
      var p :| p in projection && Split(p) == q;
    }
    BelowNone(Selected(projection), f.key);
  }

  lemma OneField(f: Field, paths: seq<Path>)
    ensures PruneFields([f], paths) == PruneEntry(f, paths)
  {
    hide PruneEntry;
    assert [f][1..] == [];
    assert PruneEntry(f, paths) + [] == PruneEntry(f, paths);
  }

  /** The fields whose key is not empty. */
  function Named(fields: seq<Field>): seq<Field> {
    if fields == [] then []
    else (if fields[0].key == [] then [] else [fields[0]]) + Named(fields[1..])
  }

  lemma {:induction false} ProjectRawsExact(fields: seq<Field>, projection: seq<Str>)
    requires Inverted(fields)
    ensures ProjectRaws(RawsOf(fields), projection) ==
            Some(if projection == [] then fields else ProjectFields(Named(fields), projection))
  {
    hide DecodeValue, Tag, Payload, Selected, PruneEntry;
    if fields != [] {
      var f, rest := fields[0], fields[1..];
      ProjectRawsExact(rest, projection);
      assert RawsOf(fields)[1..] == RawsOf(rest) && RawsOf(fields)[0] == RawOf(f);
      if projection == [] {
        assert [f] + rest == fields;
      } else {
        assert f.key == [] ==> !Wanted(projection, f.key) && Named(fields) == Named(rest);
        assert f.key != [] ==> Named(fields)[1..] == Named(rest);
        hide Wanted;
        var entry := PruneEntry(f, Selected(projection));
        OneField(f, Selected(projection));
        if f.key != [] && !Wanted(projection, f.key) {
          Unwanted(f, projection);
          assert entry + ProjectFields(Named(rest), projection) == ProjectFields(Named(rest), projection);
        }
      }
    }
  }

  /** The projection selects nothing under an empty top-level key. */
  predicate SkipsEmptyKeys(fields: seq<Field>, paths: seq<Path>) {
    forall f | f in fields && f.key == [] :: !Whole(paths, []) && Below(paths, []) == []
  }

  lemma {:induction false} NamedProjection(fields: seq<Field>, paths: seq<Path>)
    ensures |PruneFields(Named(fields), paths)| <= |PruneFields(fields, paths)|
    ensures PruneFields(Named(fields), paths) == PruneFields(fields, paths) <==> SkipsEmptyKeys(fields, paths)
  {
    hide Whole, Below, Prune;
    if fields != [] {
      var f, rest := fields[0], fields[1..];
      NamedProjection(rest, paths);
      if f.key == [] {
        assert Named(fields) == Named(rest);
        assert |PruneEntry(f, paths)| == 0 <==> !Whole(paths, []) && Below(paths, []) == [];
      } else {
        assert Named(fields)[1..] == Named(rest);
        var entry := PruneEntry(f, paths);
        assert forall a: seq<Field>, b: seq<Field> | entry + a == entry + b :: a == (entry + a)[|entry|..] == b;
      }
    }
  }

  /**
   Decoding with a projection gives the projected document, exactly when no empty
   top-level key is selected: `decode_projected` never decodes such a field.
   */
  lemma DecodeProjectedExact(doc: HakoDoc, projection: seq<Str>)
    requires EncodableDoc(doc)
    ensures DecodeProjected(EncodeDoc(doc), projection) ==
            Some(HakoDoc(ProjectFields(doc.fields, projection), doc.time))
            <==> projection == [] || SkipsEmptyKeys(doc.fields, Selected(projection))
  {
    hide EncodeFields, Scan, DecodeRaws, DecodeValue, Tag, Payload, Header, Encodable, ProjectRaws, SkipsEmptyKeys, PruneFields;
    ScanDocExact(doc, []);
    assert EncodeDoc(doc) + [] == EncodeDoc(doc);
    HeaderExact(doc, EncodeDoc(doc));
    forall f | f in doc.fields ensures DecodeValue(Tag(f.value), Payload(f.value)) == Some(f.value) {
      DecodeValueExact(f.value);
    }
    ProjectRawsExact(doc.fields, projection);
    NamedProjection(doc.fields, Selected(projection));
  }

  /** A field with an empty key that the projection selects: kept by projecting, not by decoding with the projection. */
  lemma EmptyKeyDropped()
    ensures var doc := HakoDoc([Field([], Null)], 0);
            && EncodableDoc(doc) && ProjectFields(doc.fields, [[]]) == doc.fields
            && DecodeProjected(EncodeDoc(doc), [[]]) != Some(doc)
  {
    var doc := HakoDoc([Field([], Null)], 0);
    var paths := Selected([[]]);
    var projection: seq<Str> := [[]];
    assert projection[1..] == [] && Split([]) == [[]];
    assert paths == [[[]]];
    assert paths[0] in paths && Whole(paths, []);
    assert doc.fields[0] in doc.fields && doc.fields[1..] == [];
    DecodeProjectedExact(doc, [[]]);
  }
}
