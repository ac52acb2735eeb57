/**
 What a projected document holds at every place, inside nested maps and arrays alike
 (`prune_value`, `project_fields`): a place is a path of map keys and array positions.
 */
module ProjectionReads {
  import opened Bytes
  import opened Values
  import opened Projection

  datatype Step = Key(name: Str) | At(index: nat)

  /** The value at a place. */
  function Read(v: Value, steps: seq<Step>): Option<Value>
    decreases steps
  {
    if steps == [] then Some(v)
    else match steps[0]
      case Key(name) =>
        if !v.Map? then None
        else
          var next :- Find(v.fields, name);
          Read(next, steps[1..])
      case At(i) => if !v.Array? || i >= |v.items| then None else Read(v.items[i], steps[1..])
  }

  /** The keys along a place; array positions do not count. */
  function Names(steps: seq<Step>): Path {
    if steps == [] then []
    else (if steps[0].Key? then [steps[0].name] else []) + Names(steps[1..])
  }

  /** A path ends on the way to the place or at it. */
  predicate Chosen(paths: set<Path>, names: Path) { exists p :: p in paths && p <= names }

  /** A path goes on from the place. */
  predicate Leads(paths: set<Path>, names: Path) { exists p :: p in paths && names <= p }

  /** The same scalar, a map, or an array of the same length. */
  predicate SameShape(x: Value, y: Value) {
    match x
    case Map(_) => y.Map?
    case Array(items) => y.Array? && |y.items| == |items|
    case _ => y == x
  }

  /** What stands at a place: untouched on a chosen path, of the same shape on the way to one, else nothing. */
  ghost predicate Kept(paths: set<Path>, names: Path, before: Option<Value>, after: Option<Value>) {
    if Chosen(paths, names) then after == before
    else if Leads(paths, names) then
      (before.None? <==> after.None?) && (before.Some? && after.Some? ==> SameShape(before.value, after.value))
    else after == None
  }

  ghost function Of(paths: seq<Path>): set<Path> { set p | p in paths }

  lemma {:induction false} PrunedItem(items: seq<Value>, paths: seq<Path>, i: nat)
    requires i < |items|
    ensures PruneItems(items, paths)[i] == Prune(items[i], paths)
  {
    hide Prune;
    if i > 0 {
      PrunedItem(items[1..], paths, i - 1);
    }
  }

  /** Below a key that is not taken whole, the paths through it decide. */
  lemma KeptBelow(paths: seq<Path>, key: Str, names: Path)
    requires !Whole(paths, key) && forall p | p in paths :: p != []
    ensures Chosen(Of(paths), [key] + names) <==> Chosen(Of(Below(paths, key)), names)
    ensures Leads(Of(paths), [key] + names) <==> Leads(Of(Below(paths, key)), names)
  {
    var all, below := [key] + names, Below(paths, key);
    BelowMembers(paths, key);
    hide Below;
    forall p | p in paths && (p <= all || all <= p) ensures |p| > 1 && p[0] == key && p[1..] in below
      ensures (p <= all ==> p[1..] <= names) && (all <= p ==> names <= p[1..])
    {
      assert p[0] == all[0] == key;
      assert |p| == 1 ==> p == [key];
      assert all[1..] == names;
    }
    forall q | q in below ensures [key] + q in paths && (q <= names ==> [key] + q <= all) && (names <= q ==> all <= [key] + q) {
      assert ([key] + q)[1..] == q;
    }
    if Chosen(Of(paths), all) {
      var p :| p in Of(paths) && p <= all;
      assert p[1..] in Of(below);
    }
    if Chosen(Of(below), names) {
      var q :| q in Of(below) && q <= names;
      assert [key] + q in Of(paths);
    }
    if Leads(Of(paths), all) {
      var p :| p in Of(paths) && all <= p;
      assert p[1..] in Of(below);
    }
    if Leads(Of(below), names) {
      var q :| q in Of(below) && names <= q;
      assert [key] + q in Of(paths);
    }
  }

  lemma NothingBelow(paths: seq<Path>, key: Str, names: Path)
    requires !Whole(paths, key) && Below(paths, key) == [] && forall p | p in paths :: p != []
    ensures !Chosen(Of(paths), [key] + names) && !Leads(Of(paths), [key] + names)
  {
    hide Below;
    KeptBelow(paths, key, names);
  }

  /** The value found under a key of a pruned map. */
  lemma PrunedKey(fields: seq<Field>, paths: seq<Path>, key: Str)
    ensures Find(PruneFields(fields, paths), key) ==
            match Find(fields, key)
            case None => None
            case Some(v) =>
              if Whole(paths, key) then Some(v) else if Below(paths, key) != [] then Some(Prune(v, Below(paths, key))) else None
  {
    hide Find, PruneFields, PruneEntry, Whole, Below, Prune;
    PruneFind(fields, paths, key);
    if Find(fields, key).Some? {
      EntryFind(Field(key, Find(fields, key).value), paths);
    }
  }

  /** Every place of a pruned value. */
  lemma {:induction false} ReadPruned(v: Value, paths: seq<Path>, steps: seq<Step>)
    requires paths != [] && forall p | p in paths :: p != []
    ensures Kept(Of(paths), Names(steps), Read(v, steps), Read(Prune(v, paths), steps))
    decreases steps
  {
    if steps == [] {
      assert !Chosen(Of(paths), []);
      assert paths[0] in Of(paths) && [] <= paths[0];
    } else if steps[0].At? {
      if v.Array? && steps[0].index < |v.items| {
        PrunedItem(v.items, paths, steps[0].index);
        hide PruneItems, Kept;
        ReadPruned(v.items[steps[0].index], paths, steps[1..]);
        assert Names(steps) == [] + Names(steps[1..]) == Names(steps[1..]);
      }
    } else {
      var key, names := steps[0].name, Names(steps[1..]);
      assert Names(steps) == [key] + names;
      hide Find, PruneFields, Below, PruneItems, Names, Chosen, Leads;
      if v.Map? {
        PrunedKey(v.fields, paths, key);
        if Whole(paths, key) {
          WholeChosen(paths, key, names);
        } else if Below(paths, key) == [] {
          NothingBelow(paths, key, names);
        } else {
          KeptBelow(paths, key, names);
          BelowMembers(paths, key);
          if Find(v.fields, key).Some? {
            ReadPruned(Find(v.fields, key).value, Below(paths, key), steps[1..]);
          }
        }
      }
    }
  }

  lemma WholeChosen(paths: seq<Path>, key: Str, names: Path)
    requires Whole(paths, key)
    ensures Chosen(Of(paths), [key] + names)
  {
    assert [key] in Of(paths) && [key] <= [key] + names;
  }

  /** The segments of the well-formed paths of a projection: only the first may be empty. */
  ghost function Asked(projection: seq<Str>): set<Path> {
    set p | p in projection && (forall i | 0 < i < |Split(p)| :: Split(p)[i] != []) :: Split(p)
  }

  lemma SelectedAsked(projection: seq<Str>)
    ensures Of(Selected(projection)) == Asked(projection) && forall q | q in Selected(projection) :: q != []
  {
    hide Split;
    SelectedMembers(projection);
    SelectedProper(projection);
  }

  lemma {:induction false} SelectedProper(projection: seq<Str>)
    ensures forall q | q in Selected(projection) :: forall i | 0 < i < |q| :: q[i] != []
  {
    hide Split;
    if projection != [] {
      SelectedProper(projection[1..]);
    }
  }

  /**
   Every place of a projected document: on a path of the projection it is as it was, at any
   depth below it; on the way to one it has the same shape; anywhere else there is nothing.
   */
  lemma ReadProjected(fields: seq<Field>, projection: seq<Str>, steps: seq<Step>)
    requires projection != [] && Names(steps) != []
    ensures Kept(Asked(projection), Names(steps), Read(Map(fields), steps), Read(Map(ProjectFields(fields, projection)), steps))
  {
    hide Split, Selected, Names, Prune, Kept, Read;
    SelectedAsked(projection);
    var paths := Selected(projection);
    if paths == [] {
      DropsAll(fields);
      NothingAsked(Of(paths), steps, Read(Map(fields), steps));
    } else {
      PruneMap(fields, paths);
      ReadPruned(Map(fields), paths, steps);
    }
  }

  lemma PruneMap(fields: seq<Field>, paths: seq<Path>)
    requires paths != []
    ensures Prune(Map(fields), paths) == Map(PruneFields(fields, paths))
  {
  }

  lemma NothingAsked(paths: set<Path>, steps: seq<Step>, before: Option<Value>)
    requires paths == {} && Names(steps) != []
    ensures Kept(paths, Names(steps), before, Read(Map([]), steps))
  {
  }
}
