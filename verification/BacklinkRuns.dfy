/** Every run of the backlink index (`traverse.rs`), against the history of what was indexed. */
module BacklinkRuns {
  import opened Bytes
  import opened Values
  import opened Backlinks

  datatype Event =
    | Tracked(col: Str)
    | Untracked(col: Str)
    | Cleared(col: Str)
    | Indexed(col: Str, id: Str, doc: HakoDoc)
    | Removed(col: Str, id: Str, doc: HakoDoc)

  /** The collection was tracked and not untracked since. */
  ghost predicate TrackedNow(trace: seq<Event>, c: Str) {
    exists i :: 0 <= i < |trace| && trace[i] == Tracked(c) && forall j | i < j < |trace| :: trace[j] != Untracked(c)
  }

  /** Event `i` indexes the edge, and its target is tracked at that moment. */
  ghost predicate Adds(trace: seq<Event>, i: nat, e: Edge)
    requires i < |trace|
  {
    trace[i].Indexed? && Refers(trace[i].col, trace[i].id, trace[i].doc.fields, e) && TrackedNow(trace[..i], e.col)
  }

  predicate Kills(event: Event, e: Edge) {
    match event
    case Untracked(c) => Touches(e, c)
    case Cleared(c) => Touches(e, c)
    case Removed(col, id, doc) => Removes(col, id, doc.fields, e)
    case _ => false
  }

  /** The edge was indexed at some moment and not taken away since. */
  ghost predicate Alive(trace: seq<Event>, e: Edge) {
    exists i: nat :: i < |trace| && Adds(trace, i, e) && forall j | i < j < |trace| :: !Kills(trace[j], e)
  }

  lemma TrackedStep(trace: seq<Event>, event: Event, c: Str)
    ensures TrackedNow(trace + [event], c) <==> event == Tracked(c) || (TrackedNow(trace, c) && event != Untracked(c))
  {
    var all := trace + [event];
    if TrackedNow(all, c) {
      var i :| 0 <= i < |all| && all[i] == Tracked(c) && forall j | i < j < |all| :: all[j] != Untracked(c);
      if i < |trace| {
        assert trace[i] == Tracked(c) && all[|trace|] == event;
        assert forall j | i < j < |trace| :: trace[j] == all[j];
      }
    }
    if event == Tracked(c) {
      assert all[|trace|] == Tracked(c);
    } else if TrackedNow(trace, c) && event != Untracked(c) {
      var i :| 0 <= i < |trace| && trace[i] == Tracked(c) && forall j | i < j < |trace| :: trace[j] != Untracked(c);
      assert all[i] == Tracked(c);
    }
  }

  lemma AddsSame(trace: seq<Event>, event: Event, i: nat, e: Edge)
    requires i < |trace|
    ensures Adds(trace + [event], i, e) <==> Adds(trace, i, e)
  {
    assert (trace + [event])[..i] == trace[..i];
  }

  /** What one more event does to the edges. */
  lemma AliveStep(trace: seq<Event>, event: Event, e: Edge)
    ensures Alive(trace + [event], e) <==>
            (Alive(trace, e) && !Kills(event, e)) ||
            (event.Indexed? && Refers(event.col, event.id, event.doc.fields, e) && TrackedNow(trace, e.col))
  {
    var all := trace + [event];
    assert all[..|trace|] == trace && all[|trace|] == event;
    hide Refers, TrackedNow, Kills;
    if Alive(all, e) {
      var i: nat :| i < |all| && Adds(all, i, e) && forall j | i < j < |all| :: !Kills(all[j], e);
      if i < |trace| {
        AddsSame(trace, event, i, e);
        assert forall j | i < j < |trace| :: trace[j] == all[j];
      }
    }
    if Alive(trace, e) && !Kills(event, e) {
      var i: nat :| i < |trace| && Adds(trace, i, e) && forall j | i < j < |trace| :: !Kills(trace[j], e);
      AddsSame(trace, event, i, e);
    }
    if event.Indexed? && Refers(event.col, event.id, event.doc.fields, e) && TrackedNow(trace, e.col) {
      assert Adds(all, |trace|, e);
    }
  }

  /** The index holds exactly the edges that are alive, under exactly the tracked targets. */
  ghost predicate Mirrors(index: BacklinkIndex, trace: seq<Event>)
    reads index
  {
    && index.Valid()
    && (forall c :: c in index.tracked <==> TrackedNow(trace, c))
    && (forall e :: Has(index.edges, e) <==> Alive(trace, e))
  }

  method Step(index: BacklinkIndex, event: Event, ghost trace: seq<Event>)
    requires Mirrors(index, trace)
    modifies index
    ensures Mirrors(index, trace + [event])
  {
    hide EdgesOk, Has, Refers, Removes, Touches, TrackedNow, Alive;
    match event {
      case Tracked(c) => index.Track(c);
      case Untracked(c) => var _ := index.Untrack(c);
      case Cleared(c) => index.ClearCollection(c);
      case Indexed(col, id, doc) => index.IndexDoc(col, id, doc);
      case Removed(col, id, doc) => index.RemoveDoc(col, id, doc);
    }
    ghost var all := trace + [event];
    forall c ensures c in index.tracked <==> TrackedNow(all, c) { TrackedStep(trace, event, c); }
    forall e ensures Has(index.edges, e) <==> Alive(all, e) { AliveStep(trace, event, e); }
  }

  /** After any sequence of events, `inbound` finds exactly the edges that are alive. */
  method Run(trace: seq<Event>) returns (index: BacklinkIndex)
    ensures fresh(index) && Mirrors(index, trace)
  {
    index := new BacklinkIndex();
    for i := 0 to |trace|
      invariant fresh(index) && Mirrors(index, trace[..i])
    {
      hide Mirrors;
      Step(index, trace[i], trace[..i]);
      assert trace[..i + 1] == trace[..i] + [trace[i]];
    }
    assert trace[..|trace|] == trace;
  }

  /** A reference of the version indexed at `i` to a target tracked then is found, until it is removed or cleared. */
  method FindBacklink(index: BacklinkIndex, ghost trace: seq<Event>, ghost i: nat, e: Edge) returns (links: Option<seq<Backlink>>)
    requires Mirrors(index, trace) && i < |trace| && Adds(trace, i, e)
    requires forall j | i < j < |trace| :: !Kills(trace[j], e)
    ensures links.Some? && e.link in links.value
  {
    hide EdgesOk, Has;
    links := index.Inbound(e.col, e.id);
    assert Alive(trace, e) && e == Edge(e.col, e.id, e.link);
  }
}
