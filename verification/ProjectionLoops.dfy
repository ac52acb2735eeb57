/**
 Projection as the program runs it: loops that build the kept entries and
 subpaths one by one, proved against the functions of `Projection`.
 */
module ProjectionLoops {
  import opened Bytes
  import opened Values
  import opened Codec
  import opened CodecProofs
  import opened DocCodec
  import opened Projection

  lemma {:induction false} BelowSnoc(paths: seq<Path>, j: nat, key: Str)
    requires j < |paths|
    ensures Below(paths[..j + 1], key) ==
            Below(paths[..j], key) + (if |paths[j]| > 1 && paths[j][0] == key then [paths[j][1..]] else [])
  {
    if j == 0 {
      assert paths[..1] == [paths[0]] && paths[..1][1..] == [];
    } else {
      BelowSnoc(paths[1..], j - 1, key);
      assert paths[..j + 1][1..] == paths[1..][..j] && paths[..j][1..] == paths[1..][..j - 1];
    }
  }

  lemma {:induction false} SelectedSnoc(projection: seq<Str>, j: nat)
    requires j < |projection|
    ensures var segs := Split(projection[j]);
            Selected(projection[..j + 1]) ==
            Selected(projection[..j]) + (if forall i | 0 < i < |segs| :: segs[i] != [] then [segs] else [])
  {
    hide Split;
    if j == 0 {
      assert projection[..1] == [projection[0]] && projection[..1][1..] == [];
    } else {
      SelectedSnoc(projection[1..], j - 1);
      assert projection[..j + 1][1..] == projection[1..][..j] && projection[..j][1..] == projection[1..][..j - 1];
    }
  }

  /** Which paths run through `key`: below it, or to it. */
  method Through(paths: seq<Path>, key: Str) returns (whole: bool, subs: seq<Path>)
    ensures whole == Whole(paths, key)
    ensures !whole ==> subs == Below(paths, key)
  {
    subs := [];
    var j := 0;
    while j < |paths|
      invariant 0 <= j <= |paths|
      invariant !Whole(paths[..j], key) && subs == Below(paths[..j], key)
    {
      var p := paths[j];
      BelowSnoc(paths, j, key);
      if p != [] && p[0] == key {
        if |p| == 1 {
          assert p == [key] && p in paths;
          return true, [];
        }
        subs := subs + [p[1..]];
      }
      assert paths[..j + 1] == paths[..j] + [p];
      j := j + 1;
    }
    assert paths[..j] == paths;
    whole := false;
  }

  lemma {:induction false} PruneFieldsSnoc(fields: seq<Field>, paths: seq<Path>, i: nat)
    requires i < |fields|
    ensures PruneFields(fields[..i + 1], paths) == PruneFields(fields[..i], paths) + PruneEntry(fields[i], paths)
  {
    hide PruneEntry;
    if i == 0 {
      assert fields[..1] == [fields[0]] && fields[..1][1..] == [];
    } else {
      PruneFieldsSnoc(fields[1..], paths, i - 1);
      assert fields[..i + 1][1..] == fields[1..][..i] && fields[..i][1..] == fields[1..][..i - 1];
    }
  }

  lemma {:induction false} PruneItemsSnoc(items: seq<Value>, paths: seq<Path>, i: nat)
    requires i < |items|
    ensures PruneItems(items[..i + 1], paths) == PruneItems(items[..i], paths) + [Prune(items[i], paths)]
  {
    hide Prune;
    if i == 0 {
      assert items[..1] == [items[0]] && items[..1][1..] == [];
    } else {
      PruneItemsSnoc(items[1..], paths, i - 1);
      assert items[..i + 1][1..] == items[1..][..i] && items[..i][1..] == items[1..][..i - 1];
    }
  }

  method PruneValue(v: Value, paths: seq<Path>) returns (r: Value)
    ensures r == Prune(v, paths)
    decreases v
  {
    if paths == [] {
      return v;
    }
    match v
    case Map(fields) =>
      var out: seq<Field> := [];
      for i := 0 to |fields|
        invariant out == PruneFields(fields[..i], paths)
      {
        var f := fields[i];
        var whole, subs := Through(paths, f.key);
        PruneFieldsSnoc(fields, paths, i);
        if whole {
          out := out + [f];
        } else if subs != [] {
          var kept := PruneValue(f.value, subs);
          out := out + [Field(f.key, kept)];
        }
      }
      assert fields[..|fields|] == fields;
      r := Map(out);
    case Array(items) =>
      var out: seq<Value> := [];
      for i := 0 to |items|
        invariant out == PruneItems(items[..i], paths)
      {
        var kept := PruneValue(items[i], paths);
        PruneItemsSnoc(items, paths, i);
        out := out + [kept];
      }
      assert items[..|items|] == items;
      r := Array(out);
    case _ =>
      r := v;
  }

  /** `prune_field_value`: what a projection keeps of a top-level field, if anything. */
  method PruneFieldValue(value: Value, projection: seq<Str>, key: Str) returns (r: Option<Value>)
    ensures PruneEntry(Field(key, value), Selected(projection)) ==
            if r.None? then [] else [Field(key, r.value)]
  {
    hide Split, Prune, Selected;
    var whole, subs := false, [];
    assert Selected([]) == [] by { NothingSelected(); }
    var j := 0;
    while j < |projection|
      invariant 0 <= j <= |projection|
      invariant !Whole(Selected(projection[..j]), key) && subs == Below(Selected(projection[..j]), key)
    {
      var segs := Split(projection[j]);
      var wellFormed := forall i | 0 < i < |segs| :: segs[i] != [];
      ghost var before := Selected(projection[..j]);
      SelectedSnoc(projection, j);
      BelowLast(before, segs, key);
      assert before + [] == before;
      if segs[0] == key {
        if |segs| == 1 {
          WholeFound(projection, j, key);
          return Some(value);
        }
        if wellFormed {
          subs := subs + [segs[1..]];
        }
      }
      assert segs != [key];
      j := j + 1;
    }
    assert projection[..j] == projection;
    if subs == [] {
      r := None;
    } else {
      var kept := PruneValue(value, subs);
      r := Some(kept);
    }
  }

  lemma NothingSelected()
    ensures Selected([]) == []
  {
  }

  lemma BelowLast(before: seq<Path>, segs: Path, key: Str)
    requires segs != []
    ensures Below(before + [segs], key) ==
            Below(before, key) + (if |segs| > 1 && segs[0] == key then [segs[1..]] else [])
  {
    var paths := before + [segs];
    BelowSnoc(paths, |before|, key);
    assert paths[..|before| + 1] == paths && paths[..|before|] == before;
  }

  lemma WholeFound(projection: seq<Str>, j: nat, key: Str)
    requires j < |projection| && Split(projection[j]) == [key]
    ensures Whole(Selected(projection), key)
  {
    SelectedMembers(projection);
    assert projection[j] in projection;
  }

  /** `projection_prefixes`: the non-empty first segments, each once. */
  method ProjectionPrefixes(projection: seq<Str>) returns (out: seq<Str>)
    ensures forall i, k | 0 <= i < k < |out| :: out[i] != out[k]
    ensures projection != [] ==> forall key :: key in out <==> Wanted(projection, key)
  {
    hide Split;
    out := [];
    for j := 0 to |projection|
      invariant forall i, k | 0 <= i < k < |out| :: out[i] != out[k]
      invariant forall key :: key in out <==> key != [] && Heads(projection[..j], key)
    {
      var first := Split(projection[j])[0];
      assert projection[..j + 1] == projection[..j] + [projection[j]];
      forall key: Str ensures Heads(projection[..j + 1], key) <==> key == first || Heads(projection[..j], key) {
        assert projection[j] in projection[..j + 1];
      }
      if first != [] && first !in out {
        out := out + [first];
      }
    }
    assert projection[..|projection|] == projection;
  }

  /** What a stored field adds: nothing when skipped, its pruned value when wanted, a failure when that does not decode. */
  function KeptOf(raw: Raw, projection: seq<Str>): Option<seq<Field>> {
    if !Wanted(projection, raw.key) then Some([])
    else
      var v :- DecodeValue(raw.tag, raw.span);
      Some(ProjectFields([Field(raw.key, v)], projection))
  }

  lemma ProjectNone(projection: seq<Str>)
    ensures ProjectRaws([], projection) == Some([])
  {
  }

  lemma ProjectStep(raws: seq<Raw>, projection: seq<Str>)
    requires raws != []
    ensures var kept, rest := KeptOf(raws[0], projection), ProjectRaws(raws[1..], projection);
            ProjectRaws(raws, projection) == if kept.None? || rest.None? then None else Some(kept.value + rest.value)
  {
    hide DecodeValue, Wanted, ProjectFields;
    var rest := ProjectRaws(raws[1..], projection);
    assert rest.Some? ==> [] + rest.value == rest.value;
  }

  /** A failing field spoils the list; another one comes next. */
  lemma {:induction false} ProjectNext(done: seq<Raw>, raw: Raw, rest: seq<Raw>, projection: seq<Str>)
    requires rest != [] && rest[0] == raw && ProjectRaws(done, projection).Some?
    ensures match KeptOf(raw, projection)
            case None => ProjectRaws(done + rest, projection) == None
            case Some(kept) => ProjectRaws(done + [raw], projection) == Some(ProjectRaws(done, projection).value + kept)
  {
    if done == [] {
      assert done + rest == rest && done + [raw] == [raw] && [raw][1..] == [];
      ProjectNone(projection);
      hide KeptOf, ProjectRaws;
      ProjectStep(rest, projection);
      ProjectStep([raw], projection);
      var kept := KeptOf(raw, projection);
      assert kept.Some? ==> kept.value + [] == kept.value && [] + kept.value == kept.value;
    } else {
      hide KeptOf, ProjectRaws;
      assert (done + rest)[1..] == done[1..] + rest && (done + rest)[0] == done[0];
      assert (done + [raw])[1..] == done[1..] + [raw] && (done + [raw])[0] == done[0];
      ProjectStep(done, projection);
      ProjectNext(done[1..], raw, rest, projection);
      ProjectStep(done + rest, projection);
      ProjectStep(done + [raw], projection);
      var kept := KeptOf(raw, projection);
      if kept.Some? {
        Assoc(KeptOf(done[0], projection).value, ProjectRaws(done[1..], projection).value, kept.value);
      }
    }
  }

  /** The loop body of `decode_projected`. */
  method KeepRaw(raw: Raw, projection: seq<Str>, prefixes: seq<Str>) returns (kept: Option<seq<Field>>)
    requires projection != [] ==> forall key :: key in prefixes <==> Wanted(projection, key)
    ensures kept == KeptOf(raw, projection)
  {
    hide DecodeValue, PruneEntry, Selected;
    if projection != [] && raw.key !in prefixes {
      return Some([]);
    }
    var v := DecodeValue(raw.tag, raw.span);
    if v.None? {
      return None;
    }
    if projection == [] {
      return Some([Field(raw.key, v.value)]);
    }
    var pruned := PruneFieldValue(v.value, projection, raw.key);
    OneField(Field(raw.key, v.value), Selected(projection));
    kept := Some(if pruned.Some? then [Field(raw.key, pruned.value)] else []);
  }

  lemma ProjectedAs(bytes: seq<byte>, projection: seq<Str>)
    ensures |bytes| < HEADER || bytes[0] != MAGIC || bytes[1] != VERSION ==> DecodeProjected(bytes, projection) == None
    ensures |bytes| >= HEADER && bytes[0] == MAGIC && bytes[1] == VERSION ==>
              var w := Scan(true, bytes, HEADER, ReadU16(bytes, 10));
              DecodeProjected(bytes, projection) ==
              match ProjectRaws(w.raws, projection)
              case None => None
              case Some(fields) =>
                if w.left > 0 || w.pos != |bytes| then None else Some(HakoDoc(fields, AsI64(ReadU64(bytes, 2))))
  {
    hide Scan, ProjectRaws, ReadU64, ReadU16;
  }

  /** `decode_projected`: only the fields a first segment names are decoded. */
  method DecodeProjectedDoc(bytes: seq<byte>, projection: seq<Str>) returns (r: Option<HakoDoc>)
    ensures r == DecodeProjected(bytes, projection)
  {
    ProjectedAs(bytes, projection);
    hide NextField, Scan, KeptOf, Wanted, DecodeProjected, ProjectRaws, ReadU16, ReadU64;
    if |bytes| < HEADER || bytes[0] != MAGIC || bytes[1] != VERSION {
      return None;
    }
    var it := new HakoDocIter(bytes, HEADER, ReadU16(bytes, 10));
    var fields: seq<Field> := [];
    var prefixes := ProjectionPrefixes(projection);
    ghost var walk := Scan(true, bytes, HEADER, ReadU16(bytes, 10));
    ghost var done: seq<Raw> := [];
    ProjectNone(projection);
    while true
      invariant it.bytes == bytes && it.pos <= |bytes|
      invariant var rest := Scan(true, bytes, it.pos, it.remaining);
                walk == Walk(done + rest.raws, rest.pos, rest.left)
      invariant ProjectRaws(done, projection) == Some(fields)
      decreases it.remaining
    {
      ghost var pos, left := it.pos, it.remaining;
      ghost var rest := Scan(true, bytes, pos, left);
      var next := it.Next();
      if next.None? {
        ScanStop(true, bytes, pos, left);
        assert done + [] == done;
        break;
      }
      var raw := next.value;
      ScanStep(true, bytes, pos, left, raw, it.pos);
      ProjectNext(done, raw, rest.raws, projection);
      var kept := KeepRaw(raw, projection, prefixes);
      if kept.None? {
        return None;
      }
      fields := fields + kept.value;
      Assoc(done, [raw], Scan(true, bytes, it.pos, it.remaining).raws);
      done := done + [raw];
    }
    if it.remaining != 0 || it.pos != |bytes| {
      return None;
    }
    r := Some(HakoDoc(fields, AsI64(ReadU64(bytes, 2))));
  }

  /** `project_fields` */
  method ProjectDoc(doc: HakoDoc, projection: seq<Str>) returns (out: seq<Field>)
    ensures out == ProjectFields(doc.fields, projection)
  {
    hide PruneEntry, Selected;
    if projection == [] {
      return doc.fields;
    }
    out := [];
    for i := 0 to |doc.fields|
      invariant out == PruneFields(doc.fields[..i], Selected(projection))
    {
      var f := doc.fields[i];
      var pruned := PruneFieldValue(f.value, projection, f.key);
      PruneFieldsSnoc(doc.fields, Selected(projection), i);
      if pruned.Some? {
        out := out + [Field(f.key, pruned.value)];
      }
    }
    assert doc.fields[..|doc.fields|] == doc.fields;
  }
}
