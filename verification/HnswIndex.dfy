/**
 The HNSW vector index (`vector.rs`): a mutable multi-level graph of quantised
 vectors. The level drawn for a new node is a parameter of `Upsert`.
 */
module HnswIndex {
  import opened Bytes
  import opened Values
  import opened Quantize
  import opened HnswGraph
  import opened HnswSearch
  import opened HnswEdit
  import opened HnswDistance
  import opened HnswInsert

  const M_MIN := 16
  const M_MAX := 64
  const HIGH_DIM := 128

  /** The per-dimension defaults and the bounds put on overrides. */
  function Neighbors(dim: nat, sqrt: real -> real, m: Option<nat>): (r: nat)
    ensures M_MIN <= r <= M_MAX
  {
    var asked := if m.Some? then m.value else Round(3.0 * sqrt(dim as real));
    if asked < M_MIN then M_MIN else if asked > M_MAX then M_MAX else asked
  }

  /** The integer nearest to `x`, within 16 and 64. */
  predicate Derived(x: real, m: nat) {
    (x < 16.0 ==> m == 16) && (x > 64.0 ==> m == 64) && (16.0 <= x <= 64.0 ==> -0.5 <= m as real - x <= 0.5)
  }

  lemma NeighborsDerived(dim: nat, sqrt: real -> real)
    ensures Derived(3.0 * sqrt(dim as real), Neighbors(dim, sqrt, None))
  {
    RoundError(3.0 * sqrt(dim as real));
  }

  function EfConstruction(dim: nat, ef: Option<nat>): (r: nat)
    ensures r >= 32
  {
    var asked := if ef.Some? then ef.value else if dim >= HIGH_DIM then 300 else 200;
    if asked < 32 then 32 else asked
  }

  /** Every node has the dimension, the norm of its vector and level 0. */
  ghost predicate Shaped(nodes: seq<Node>, dim: nat) {
    forall i | 0 <= i < |nodes| :: |nodes[i].ivec| == dim && Normed(nodes[i]) && |nodes[i].links| > 0
  }

  /** The entry is a node of maximal level; only the empty graph has none. */
  ghost predicate EntryTop(nodes: seq<Node>, entry: Option<nat>) {
    match entry
    case None => nodes == []
    case Some(e) => e < |nodes| && forall i | 0 <= i < |nodes| :: |nodes[i].links| <= |nodes[e].links|
  }

  /** The two id maps are inverse to each other. */
  ghost predicate Inverse(n: nat, idToIdx: map<Str, nat>, idxToId: seq<Str>) {
    && |idxToId| == n
    && (forall i | 0 <= i < n :: idxToId[i] in idToIdx && idToIdx[idxToId[i]] == i)
    && (forall id | id in idToIdx :: idToIdx[id] < n && idxToId[idToIdx[id]] == id)
  }

  /** Every one of the first `n` nodes has a neighbour on level 0, unless it is alone. */
  ghost predicate Joined(nodes: seq<Node>, n: nat) {
    n > 1 ==> forall i: nat | i < n && HasLevel(nodes, i, 0) :: Links(nodes, i, 0) != []
  }

  /** No link of level at most `level` points to `idx`. */
  ghost predicate Unlinked(nodes: seq<Node>, idx: nat, level: nat) {
    forall i: nat, l: nat | HasLevel(nodes, i, l) && l <= level :: idx !in Links(nodes, i, l)
  }

  type Stored = (seq<int>, real)

  function Restored(nodes: seq<Node>, i: nat): Stored
    requires i < |nodes|
  {
    (nodes[i].ivec, nodes[i].scale)
  }

  datatype Op = Upsert(id: Str, vec: seq<real>, level: nat) | Clear

  /** The contents a run of operations leaves: the last vector of the right dimension per id. */
  function Replay(dim: nat, contents: map<Str, Stored>, ops: seq<Op>): map<Str, Stored>
    decreases |ops|
  {
    if ops == [] then contents
    else
      var before := Replay(dim, contents, ops[..|ops| - 1]);
      match ops[|ops| - 1]
      case Clear => map[]
      case Upsert(id, vec, _) => if |vec| == dim then before[id := (Quantized(vec), Scale(vec))] else before
  }

  lemma LinkedClosed(nodes: seq<Node>, level: nat)
    requires Linked(nodes)
    ensures LevelClosed(nodes, level)
  {
    forall i: nat, nb: nat | HasLevel(nodes, i, level) && nb in Links(nodes, i, level) ensures HasLevel(nodes, nb, level) {
      assert Tidy(nodes, i, level);
    }
  }

  /** A node nobody links to is not reached from another one. */
  lemma NotReached(nodes: seq<Node>, level: nat, cur: nat, idx: nat)
    requires LevelClosed(nodes, level) && Unlinked(nodes, idx, level) && cur != idx && HasLevel(nodes, cur, level)
    ensures idx !in Reach(nodes, level, [cur])
  {
    var inside := set v: nat | v < |nodes| && HasLevel(nodes, v, level) && v != idx;
    forall v, nb | v in inside && HasLevel(nodes, v, level) && nb in Links(nodes, v, level) ensures nb in inside {
      assert HasLevel(nodes, nb, level) && idx !in Links(nodes, v, level);
    }
    ReachStays(nodes, level, [cur], inside);
  }

  class HnswIndex {
    const dim: nat
    const metric: Metric
    const sqrt: real -> real
    const m: nat
    const efConstruction: nat
    var nodes: seq<Node>
    var idToIdx: map<Str, nat>
    var idxToId: seq<Str>
    var entry: Option<nat>
    var complete: bool

    ghost predicate Valid()
      reads this
    {
      && M_MIN <= m <= M_MAX
      && Linked(nodes) && Capped(nodes, m, 0, {})
      && Shaped(nodes, dim) && EntryTop(nodes, entry)
      && Inverse(|nodes|, idToIdx, idxToId)
      && Joined(nodes, |nodes|)
    }

    /** The quantised vector kept for each id. */
    ghost function Contents(): map<Str, Stored>
      reads this
      requires Inverse(|nodes|, idToIdx, idxToId)
    {
      map id | id in idToIdx :: Restored(nodes, idToIdx[id])
    }

    constructor (dim: nat, metric: Metric, sqrt: real -> real, m: Option<nat>, ef: Option<nat>)
      ensures Valid() && Contents() == map[] && !complete
      ensures this.dim == dim && this.metric == metric
      ensures m.Some? ==> this.m == if m.value < 16 then 16 else if m.value > 64 then 64 else m.value
      ensures m.None? ==> Derived(3.0 * sqrt(dim as real), this.m)
      ensures efConstruction == if ef.None? then (if dim >= 128 then 300 else 200) else if ef.value < 32 then 32 else ef.value
    {
      NeighborsDerived(dim, sqrt);
      this.dim := dim;
      this.metric := metric;
      this.sqrt := sqrt;
      this.m := Neighbors(dim, sqrt, m);
      efConstruction := EfConstruction(dim, ef);
      nodes, idToIdx, idxToId, entry, complete := [], map[], [], None, false;
    }

    method Clear()
      requires Valid()
      modifies this
      ensures Valid() && Contents() == map[] && !complete
    {
      nodes, idToIdx, idxToId, entry, complete := [], map[], [], None, false;
    }

    /** `shrink_links`: an overfull list is replaced by a diverse selection of it. */
    method ShrinkLinks(idx: nat, level: nat, ghost over: set<nat>)
      requires Linked(nodes) && HasLevel(nodes, idx, level) && m > 0 && Capped(nodes, m, level, over)
      modifies this`nodes
      ensures Linked(nodes) && Capped(nodes, m, level, over - {idx}) && Relinked(old(nodes), nodes, level)
      ensures Trimmed(BetweenNodes(metric, sqrt, old(nodes)), idx, Cap(m, level), old(LinksOr(nodes, idx, level)), LinksOr(nodes, idx, level))
      ensures forall j: nat | j != idx :: LinksOr(nodes, j, level) == old(LinksOr(nodes, j, level))
    {
      hide Relinked, Selected, BetweenNodes;
      var links := Links(nodes, idx, level);
      if |links| <= Cap(m, level) {
        RelinkedSelf(nodes, level);
        return;
      }
      var between := BetweenNodes(metric, sqrt, nodes);
      var dist := FromNode(between, idx);
      assert Tidy(nodes, idx, level);
      var kept := SelectNeighbors(between, dist, links, Cap(m, level));
      SelectionSorted(between, dist, links, Cap(m, level), kept);
      assert Selected(between, dist, links, Cap(m, level), kept) && forall x :: dist(x) == between(idx, x);
      ShrinkKeeps(nodes, idx, level, kept, dist, m, over);
      forall j: nat ensures LinksOr(SetLinks(nodes, idx, level, kept), j, level) == if j == idx then kept else LinksOr(nodes, j, level) {
        SetLinksAt(nodes, idx, level, kept, j);
      }
      nodes := SetLinks(nodes, idx, level, kept);
    }

    /** Links `idx` with each neighbour, both ways, and brings the lists back under the cap. */
    method Connect(idx: nat, neighbors: seq<nat>, level: nat)
      requires Linked(nodes) && m > 0 && Capped(nodes, m, level, {}) && CanConnect(nodes, idx, neighbors, level) && |neighbors| <= m
      modifies this`nodes
      ensures Linked(nodes) && Capped(nodes, m, level, {}) && Relinked(old(nodes), nodes, level)
      ensures Connected(BetweenNodes(metric, sqrt, old(nodes)), Cap(m, level), old(nodes), nodes, idx, neighbors, level)
    {
      hide Linked, HasLevel, Links, Capped, Relinked, BetweenNodes, LinksOr, Trimmed;
      AddAll(idx, neighbors, level);
      ghost var added, between := nodes, BetweenNodes(metric, sqrt, old(nodes));
      RelinkedLevels(old(nodes), added, level);
      ShrinkLinks(idx, level, {idx} + Elements(neighbors));
      ShortStays(BetweenNodes(metric, sqrt, added), idx, m, level, neighbors, LinksOr(nodes, idx, level));
      CappedMore(nodes, m, level, {idx} + Elements(neighbors) - {idx}, Elements(neighbors[0..]));
      for i := 0 to |neighbors|
        invariant Linked(nodes) && Capped(nodes, m, level, Elements(neighbors[i..]))
        invariant Relinked(added, nodes, level)
        invariant forall k | 0 <= k < i ::
                    Trimmed(between, neighbors[k], Cap(m, level), LinksOr(added, neighbors[k], level), LinksOr(nodes, neighbors[k], level))
        invariant forall j: nat | j !in neighbors[..i] :: LinksOr(nodes, j, level) == LinksOr(added, j, level)
      {
        ghost var before := nodes;
        var nb := neighbors[i];
        RelinkedLevels(added, before, level);
        assert nb in neighbors;
        DistinctSplit(neighbors, i);
        ShrinkLinks(nb, level, Elements(neighbors[i..]));
        RelinkedTrans(added, before, nodes, level);
        RelinkedTrans(old(nodes), added, before, level);
        RelinkedVectors(old(nodes), before, level);
        BetweenSame(metric, sqrt, before, old(nodes));
        TrimmedSame(BetweenNodes(metric, sqrt, before), between, nb, Cap(m, level), LinksOr(added, nb, level), LinksOr(nodes, nb, level));
        CappedMore(nodes, m, level, Elements(neighbors[i..]) - {nb}, Elements(neighbors[i + 1..]));
      }
      assert Elements(neighbors[|neighbors|..]) == {} && neighbors[..|neighbors|] == neighbors;
      RelinkedTrans(old(nodes), added, nodes, level);
      TrimAll(between, Cap(m, level), added, nodes, neighbors, level);
    }

    method AddAll(idx: nat, neighbors: seq<nat>, level: nat)
      requires Linked(nodes) && Capped(nodes, m, level, {}) && CanConnect(nodes, idx, neighbors, level)
      modifies this`nodes
      ensures Linked(nodes) && Capped(nodes, m, level, {idx} + Elements(neighbors)) && Relinked(old(nodes), nodes, level)
      ensures LinksOr(nodes, idx, level) == neighbors
      ensures forall j: nat | j != idx ::
                LinksOr(nodes, j, level) == if j in neighbors then old(LinksOr(nodes, j, level)) + [idx] else old(LinksOr(nodes, j, level))
    {
      hide Linked, HasLevel, Links, Capped, AddLink, Relinked, LinksOr;
      ghost var over := {idx} + Elements(neighbors);
      RelinkedSelf(nodes, level);
      CappedMore(nodes, m, level, {}, over);
      for i := 0 to |neighbors|
        invariant Linked(nodes) && Capped(nodes, m, level, over) && Relinked(old(nodes), nodes, level)
        invariant LinksOr(nodes, idx, level) == neighbors[..i]
        invariant forall j: nat | j != idx ::
                    LinksOr(nodes, j, level) == if j in neighbors[..i] then old(LinksOr(nodes, j, level)) + [idx] else old(LinksOr(nodes, j, level))
      {
        ghost var before := nodes;
        var nb := neighbors[i];
        assert nb in neighbors && neighbors[..i + 1] == neighbors[..i] + [nb];
        DistinctSplit(neighbors, i);
        RelinkedLevels(old(nodes), before, level);
        AddOne(idx, nb, level, over);
        RelinkedLevels(before, nodes, level);
        ghost var half := nodes;
        AddOne(nb, idx, level, over);
        RelinkedTrans(before, half, nodes, level);
        RelinkedTrans(old(nodes), before, nodes, level);
        forall j: nat ensures LinksOr(nodes, j, level) ==
            if j == idx then LinksOr(before, idx, level) + [nb] else if j == nb then LinksOr(before, nb, level) + [idx] else LinksOr(before, j, level)
        {
          AddLinkAt(before, idx, nb, level, j);
          AddLinkAt(before, idx, nb, level, nb);
          AddLinkAt(half, nb, idx, level, j);
        }
      }
      assert neighbors[..|neighbors|] == neighbors;
    }

    /** `add_link` */
    method AddOne(a: nat, b: nat, level: nat, ghost over: set<nat>)
      requires Linked(nodes) && Capped(nodes, m, level, over) && a in over && a != b
      requires HasLevel(nodes, a, level) && HasLevel(nodes, b, level)
      modifies this`nodes
      ensures nodes == AddLink(old(nodes), a, b, level)
      ensures Linked(nodes) && Capped(nodes, m, level, over) && Relinked(old(nodes), nodes, level)
    {
      hide Linked, Capped, Relinked;
      AddLinkKeeps(nodes, a, b, level, m, over);
      assert over + {a} == over;
      nodes := AddLink(nodes, a, b, level);
    }

    /** One level of an insertion: beam search, diverse selection, links; the nearest neighbour leads on. */
    method JoinLevel(idx: nat, q: seq<real>, cur: nat, level: nat) returns (next: nat, ghost j: Join)
      requires Linked(nodes) && m > 0 && Capped(nodes, m, 0, {}) && Unlinked(nodes, idx, level)
      requires HasLevel(nodes, idx, level) && LinksOr(nodes, idx, level) == [] && HasLevel(nodes, cur, level) && cur != idx
      modifies this`nodes
      ensures Linked(nodes) && Capped(nodes, m, 0, {}) && Relinked(old(nodes), nodes, level)
      ensures JoinedAt(metric, sqrt, old(nodes), nodes, idx, q, efConstruction, m, level, j) && j.cur == cur
      ensures HasLevel(nodes, next, level) && next != idx && LeadsTo(j, next)
      ensures LinksOr(nodes, idx, level) != [] && LinksOr(nodes, next, level) != []
    {
      hide Linked, Capped, Relinked, LevelClosed, Certified, Selected, Unlinked, Covered, BetweenNodes, FromQuery, Connected, LinksOr, HasLevel, CanConnect;
      var dist := FromQuery(metric, sqrt, nodes, q);
      LinkedClosed(nodes, level);
      var cand := SearchLayer(nodes, dist, [cur], efConstruction, level);
      Joinable(nodes, dist, level, if efConstruction > 1 then efConstruction else 1, cur, idx, cand);
      var between := BetweenNodes(metric, sqrt, nodes);
      var neighbors := SelectNeighbors(between, dist, cand, m);
      j := Join(cur, cand, neighbors);
      SelectionSorted(between, dist, cand, if m > 1 then m else 1, neighbors);
      Connectable(nodes, dist, idx, cand, neighbors, level);
      next := neighbors[0];
      assert next in neighbors;
      CappedEmpty(nodes, m, 0, level);
      Connect(idx, neighbors, level);
      CappedEmpty(nodes, m, level, 0);
      RelinkedLevels(old(nodes), nodes, level);
      ConnectedNonempty(between, Cap(m, level), old(nodes), nodes, idx, neighbors, level);
    }

    /** Greedy descent from level `top` down to the level above `low`. */
    method Descend(q: seq<real>, start: nat, top: nat, low: nat) returns (cur: nat, ghost path: seq<nat>)
      requires Linked(nodes) && HasLevel(nodes, start, top) && low <= top
      ensures Descended(nodes, FromQuery(metric, sqrt, nodes, q), start, top, low, path)
      ensures cur == path[|path| - 1] && HasLevel(nodes, cur, low) && (low < top ==> HasLevel(nodes, cur, low + 1))
    {
      hide Linked, LevelClosed, FromQuery, Settled;
      var dist := FromQuery(metric, sqrt, nodes, q);
      cur, path := start, [start];
      var l := top;
      while l > low
        invariant low <= l <= top && HasLevel(nodes, cur, l) && (l < top ==> HasLevel(nodes, cur, l + 1))
        invariant Descended(nodes, dist, start, top, l, path) && cur == path[|path| - 1]
      {
        LinkedClosed(nodes, l);
        ghost var from := cur;
        cur := GreedyClosest(nodes, dist, cur, l);
        SettledAt(nodes, dist, from, l, cur);
        path := path + [cur];
        l := l - 1;
      }
    }

    /** Joins the new node `idx` on every level from `level` down to 0; `joins[t]` tells how on level `level - t`. */
    method JoinLevels(idx: nat, q: seq<real>, start: nat, level: nat) returns (ghost joins: seq<Join>)
      requires Linked(nodes) && m > 0 && Capped(nodes, m, 0, {}) && Unlinked(nodes, idx, level)
      requires HasLevel(nodes, idx, level) && HasLevel(nodes, start, level) && start != idx
      requires idx + 1 == |nodes| && Joined(nodes, idx) && forall l: nat :: LinksOr(nodes, idx, l) == []
      modifies this`nodes
      ensures Linked(nodes) && Capped(nodes, m, 0, {}) && Joined(nodes, |nodes|)
      ensures Rewired(old(nodes), nodes, 0)
      ensures |joins| == level + 1 && Chained(joins, start)
      ensures forall t | 0 <= t <= level :: JoinedAt(metric, sqrt, old(nodes), nodes, idx, q, efConstruction, m, level - t, joins[t])
    {
      hide Linked, Capped, Relinked, Unlinked, Rewired, Links, JoinedAt;
      var k: nat, cur := level + 1, start;
      joins := [];
      RewiredSelf(nodes, k);
      while k > 0
        invariant k <= level + 1 && Linked(nodes) && Capped(nodes, m, 0, {})
        invariant Rewired(old(nodes), nodes, k) && cur != idx
        invariant HasLevel(nodes, cur, if k > 0 then k - 1 else 0)
        invariant k == 0 ==> LinksOr(nodes, idx, 0) != [] && LinksOr(nodes, cur, 0) != []
        invariant |joins| == level + 1 - k && Chained(joins, start) && (joins != [] ==> LeadsTo(joins[|joins| - 1], cur))
        invariant joins == [] ==> cur == start
        invariant forall t | 0 <= t < |joins| :: JoinedAt(metric, sqrt, old(nodes), nodes, idx, q, efConstruction, m, level - t, joins[t])
      {
        k := k - 1;
        ghost var before := nodes;
        StillUnlinked(old(nodes), before, idx, level, k);
        RewiredLevels(old(nodes), before, k + 1);
        StillEmpty(old(nodes), before, idx, k);
        ghost var j;
        cur, j := JoinLevel(idx, q, cur, k);
        JoinedFrom(metric, sqrt, old(nodes), before, nodes, idx, q, efConstruction, m, k, j);
        forall t | 0 <= t < |joins| ensures JoinedAt(metric, sqrt, old(nodes), nodes, idx, q, efConstruction, m, level - t, joins[t]) {
          JoinedStays(metric, sqrt, old(nodes), before, nodes, idx, q, efConstruction, m, level - t, k, joins[t]);
        }
        joins := joins + [j];
        RewiredStep(old(nodes), before, nodes, k);
      }
      AllJoined(old(nodes), nodes, idx, cur);
    }

    /** Appends a node without links under a new id. */
    method Append(id: Str, vec: seq<real>, level: nat)
      requires Valid() && |vec| == dim && id !in idToIdx
      modifies this`nodes, this`idToIdx, this`idxToId
      ensures nodes == old(nodes) + [StoredNode(vec, seq(level + 1, _ => []))]
      ensures idxToId == old(idxToId) + [id] && idToIdx == old(idToIdx)[id := |old(nodes)|]
      ensures Inverse(|nodes|, idToIdx, idxToId)
      ensures Contents() == old(Contents())[id := (Quantized(vec), Scale(vec))]
    {
      hide Linked, Capped, Shaped, EntryTop, Joined, Quantized, Scale, Dot, Reals;
      var idx := |nodes|;
      var ivec, scale := QuantizeVector(vec);
      nodes := nodes + [Node(ivec, scale, Dot(Reals(ivec), Reals(ivec)), seq(level + 1, _ => []))];
      idToIdx := idToIdx[id := idx];
      idxToId := idxToId + [id];
    }

    /** `upsert`, with the level a new node draws. */
    method Upsert(id: Str, vec: seq<real>, level: nat) returns (ghost path: seq<nat>, ghost joins: seq<Join>, ghost measure: Measure)
      requires Valid()
      modifies this
      ensures Valid() && complete == old(complete)
      ensures |vec| != dim ==> unchanged(this)
      ensures |vec| == dim ==> Contents() == old(Contents())[id := (Quantized(vec), Scale(vec))]
      ensures |vec| == dim && id in old(idToIdx) ==> idToIdx == old(idToIdx) && entry == old(entry)
      ensures |vec| == dim && id in old(idToIdx) ==>
                |nodes| == |old(nodes)| && forall i | 0 <= i < |nodes| :: nodes[i].links == old(nodes)[i].links
      ensures |vec| == dim && id !in old(idToIdx) ==> idxToId == old(idxToId) + [id]
      ensures |vec| == dim && id !in old(idToIdx) && old(entry).Some? ==>
                Inserted(this, old(nodes), |old(nodes)[old(entry).value].links| - 1, vec, level, old(entry).value, path, joins, measure)
    {
      path, joins, measure := [], [], Measure((i: nat) => 0.0, (i: nat, j: nat) => 0.0);
      hide Linked, Capped, Quantized, Scale, Dot, Reals, Shaped, Joined, EntryTop, Inverse, JoinedAt, Chained, Descended;
      if |vec| != dim {
        return;
      }
      if id in idToIdx {
        UpdateInPlace(id, vec);
        return;
      }
      var idx := |nodes|;
      Pushed(nodes, StoredNode(vec, seq(level + 1, _ => [])), dim, m, level);
      Append(id, vec, level);
      if entry.None? {
        entry := Some(idx);
        FirstEntry(old(nodes), nodes, idx);
      } else {
        ghost var base, contents := nodes, Contents();
        path, joins, measure := LinkNew(vec, level, old(nodes));
        RewiredContents(base, contents);
      }
    }

    /** The linking half of `upsert`: descent, joins and the entry. */
    method LinkNew(vec: seq<real>, level: nat, ghost before: seq<Node>)
      returns (ghost path: seq<nat>, ghost joins: seq<Join>, ghost measure: Measure)
      requires nodes == before + [StoredNode(vec, seq(level + 1, _ => []))] && entry.Some? && EntryTop(before, entry) && Shaped(before, dim)
      requires Linked(nodes) && m > 0 && Capped(nodes, m, 0, {}) && Shaped(nodes, dim)
      requires Joined(nodes, |before|) && Unlinked(nodes, |before|, level)
      modifies this`nodes, this`entry
      ensures Linked(nodes) && Capped(nodes, m, 0, {}) && Shaped(nodes, dim) && Joined(nodes, |nodes|) && EntryTop(nodes, entry)
      ensures Rewired(old(nodes), nodes, 0)
      ensures Inserted(this, before, |before[old(entry).value].links| - 1, vec, level, old(entry).value, path, joins, measure)
    {
      hide Linked, Capped, Quantized, Scale, Dot, Reals, Joined, JoinedBy, Chained, FromQuery, BetweenNodes, Rewired, Measures, MeasuresPairs;
      var idx, cur := |nodes| - 1, entry.value;
      assert nodes[cur] == before[cur];
      var top := |nodes[cur].links| - 1;
      var low := if level < top then level else top;
      ghost var base := nodes;
      measure := Measure(FromQuery(metric, sqrt, base, vec), BetweenNodes(metric, sqrt, base));
      GraphMeasured(metric, sqrt, base, vec);
      var from;
      from, path := Descend(vec, cur, top, low);
      joins := JoinLevels(idx, vec, from, low);
      RewiredShape(base, nodes, dim);
      if level > top {
        entry := Some(idx);
      }
      EntryStays(before, base, nodes, cur, idx, level);
    }

    /** The update branch of `upsert`: requantised in place, links kept. */
    method UpdateInPlace(id: Str, vec: seq<real>)
      requires Valid() && |vec| == dim && id in idToIdx
      modifies this`nodes
      ensures Valid() && Contents() == old(Contents())[id := (Quantized(vec), Scale(vec))]
      ensures |nodes| == |old(nodes)| && forall i | 0 <= i < |nodes| :: nodes[i].links == old(nodes)[i].links
    {
      hide Quantized, Scale, Dot, Reals;
      var idx := idToIdx[id];
      var ivec, scale := QuantizeVector(vec);
      var n := Node(ivec, scale, Dot(Reals(ivec), Reals(ivec)), nodes[idx].links);
      SameLinks(nodes, nodes[idx := n], m);
      nodes := nodes[idx := n];
    }

    lemma RewiredContents(base: seq<Node>, contents: map<Str, Stored>)
      requires Inverse(|nodes|, idToIdx, idxToId) && Rewired(base, nodes, 0)
      requires contents == map id | id in idToIdx :: Restored(base, idToIdx[id])
      ensures Contents() == contents
    {
    }

    /** `search`: distances and nodes. */
    method Search(query: seq<real>, ef: nat) returns (out: seq<(real, nat)>, ghost path: seq<nat>, ghost dist: Dist)
      requires Valid()
      ensures entry.None? || |query| != dim ==> out == []
      ensures entry.Some? && |query| == dim ==>
                && (forall i | 0 <= i < |nodes| :: |nodes[i].ivec| == |query|) && Measures(metric, sqrt, nodes, query, dist)
                && Descended(nodes, dist, entry.value, |nodes[entry.value].links| - 1, 0, path)
                && out != [] && Certified(nodes, dist, 0, if ef > 1 then ef else 1, [path[|path| - 1]], Hits(out))
                && Ranked(nodes, dist, if ef > 1 then ef else 1, out)
    {
      hide Linked, Capped, Certified, Joined, Inverse, LevelClosed, FromQuery, BetweenNodes, Descended, Measures, MeasuresPairs, Normed;
      path, dist := [], (i: nat) => 0.0;
      if entry.None? || |query| != dim {
        return [], path, dist;
      }
      var e, far := entry.value, FromQuery(metric, sqrt, nodes, query);
      dist := far;
      GraphMeasured(metric, sqrt, nodes, query);
      assert |nodes[e].links| > 0;
      var cur;
      cur, path := Descend(query, e, |nodes[e].links| - 1, 0);
      LinkedClosed(nodes, 0);
      var found := SearchLayer(nodes, far, [cur], ef, 0);
      NotEmpty(nodes, dist, 0, if ef > 1 then ef else 1, cur, found);
      out := seq(|found|, i requires 0 <= i < |found| => (far(found[i]), found[i]));
      assert Hits(out) == found;
      CertifiedRanked(nodes, dist, if ef > 1 then ef else 1, [cur], out);
    }

    /** Any sequence of insertions, updates and clears. */
    method Run(ops: seq<Op>)
      requires Valid()
      modifies this
      ensures Valid() && Contents() == Replay(dim, old(Contents()), ops)
    {
      hide Linked, Capped, Shaped, EntryTop, Joined, Quantized, Scale;
      for i := 0 to |ops|
        invariant Valid() && Contents() == Replay(dim, old(Contents()), ops[..i])
      {
        assert ops[..i + 1][..i] == ops[..i];
        match ops[i]
        case Clear => Clear();
        case Upsert(id, vec, level) => var _, _, _ := Upsert(id, vec, level);
      }
      assert ops[..|ops|] == ops;
    }
  }

  function Hits(out: seq<(real, nat)>): seq<nat> {
    seq(|out|, i requires 0 <= i < |out| => out[i].1)
  }

  /** Nodes with their distances, nearest first; a neighbour on level 0 of one is among them or no closer than any. */
  ghost predicate Ranked(nodes: seq<Node>, dist: Dist, ef: nat, out: seq<(real, nat)>) {
    && (forall i | 0 <= i < |out| :: HasLevel(nodes, out[i].1, 0) && out[i].0 == dist(out[i].1))
    && (forall i, j | 0 <= i < j < |out| :: out[i].0 <= out[j].0)
    && (forall i, nb | 0 <= i < |out| && nb in Links(nodes, out[i].1, 0) ::
          nb in Hits(out) || (|out| == ef && forall j | 0 <= j < |out| :: out[j].0 <= dist(nb)))
  }

  lemma CertifiedRanked(nodes: seq<Node>, dist: Dist, ef: nat, entries: seq<nat>, out: seq<(real, nat)>)
    requires Certified(nodes, dist, 0, ef, entries, Hits(out)) && forall i | 0 <= i < |out| :: out[i].0 == dist(out[i].1)
    ensures Ranked(nodes, dist, ef, out)
  {
    hide Reach;
    var found := Hits(out);
    assert forall i | 0 <= i < |out| :: found[i] == out[i].1 && found[i] in found;
    forall i, j | 0 <= i < j < |out| ensures out[i].0 <= out[j].0 {
      assert Before(dist, found[i], found[j]);
    }
    forall i, nb | 0 <= i < |out| && nb in Links(nodes, out[i].1, 0)
      ensures nb in found || (|out| == ef && forall j | 0 <= j < |out| :: out[j].0 <= dist(nb))
    {
      assert Covered(dist, ef, found, nb);
    }
  }

  lemma Pushed(nodes: seq<Node>, n: Node, dim: nat, m: nat, level: nat)
    requires Linked(nodes) && Capped(nodes, m, 0, {}) && Shaped(nodes, dim) && Joined(nodes, |nodes|)
    requires |n.ivec| == dim && Normed(n) && |n.links| > 0 && forall l | 0 <= l < |n.links| :: n.links[l] == []
    ensures Linked(nodes + [n]) && Capped(nodes + [n], m, 0, {}) && Shaped(nodes + [n], dim)
    ensures Joined(nodes + [n], |nodes|) && Unlinked(nodes + [n], |nodes|, level)
  {
    var r := nodes + [n];
    forall i: nat, l: nat | HasLevel(r, i, l)
      ensures Tidy(r, i, l) && |nodes| !in Links(r, i, l) && |Links(r, i, l)| <= Cap(m, l)
      ensures i < |nodes| ==> HasLevel(nodes, i, l) && Links(r, i, l) == Links(nodes, i, l)
    {
      if i < |nodes| {
        assert HasLevel(nodes, i, l) && Tidy(nodes, i, l) && Links(r, i, l) == Links(nodes, i, l);
      }
    }
  }

  lemma FirstEntry(a: seq<Node>, b: seq<Node>, idx: nat)
    requires EntryTop(a, None) && |a| == idx && |b| == idx + 1
    ensures EntryTop(b, Some(idx)) && Joined(b, |b|)
  {
  }

  lemma EntryStays(a: seq<Node>, base: seq<Node>, b: seq<Node>, cur: nat, idx: nat, level: nat)
    requires EntryTop(a, Some(cur)) && |a| == idx && |base| == idx + 1 && base[..idx] == a
    requires Rewired(base, b, 0) && |base[idx].links| == level + 1
    ensures EntryTop(b, Some(if level > |a[cur].links| - 1 then idx else cur))
  {
    assert forall i | 0 <= i < idx :: base[i] == base[..idx][i];
  }

  lemma RewiredShape(a: seq<Node>, b: seq<Node>, dim: nat)
    requires Rewired(a, b, 0) && Shaped(a, dim)
    ensures Shaped(b, dim)
  {
  }

  lemma SameLinks(a: seq<Node>, b: seq<Node>, m: nat)
    requires |a| == |b| && forall i | 0 <= i < |a| :: b[i].links == a[i].links
    requires Linked(a) && Capped(a, m, 0, {}) && Joined(a, |a|)
    ensures Linked(b) && Capped(b, m, 0, {}) && Joined(b, |b|)
  {
    forall i: nat, l: nat | HasLevel(b, i, l) ensures Tidy(b, i, l) && Links(b, i, l) == Links(a, i, l) {
      assert HasLevel(a, i, l) && Tidy(a, i, l);
    }
  }

  lemma NotEmpty(nodes: seq<Node>, dist: Dist, level: nat, ef: nat, cur: nat, out: seq<nat>)
    requires Certified(nodes, dist, level, ef, [cur], out) && HasLevel(nodes, cur, level) && ef > 0
    ensures out != []
  {
    assert Covered(dist, ef, out, cur);
  }

  lemma RewiredSelf(nodes: seq<Node>, level: nat)
    ensures Rewired(nodes, nodes, level)
  {
  }

  lemma RewiredStep(a: seq<Node>, b: seq<Node>, c: seq<Node>, level: nat)
    requires Rewired(a, b, level + 1) && Relinked(b, c, level)
    ensures Rewired(a, c, level)
  {
    RelinkedLevels(b, c, level);
    RewiredLevels(a, b, level + 1);
  }

  lemma StillUnlinked(a: seq<Node>, b: seq<Node>, idx: nat, level: nat, k: nat)
    requires Unlinked(a, idx, level) && Rewired(a, b, k + 1) && k <= level
    ensures Unlinked(b, idx, k)
  {
    RewiredLevels(a, b, k + 1);
    forall i: nat, l: nat | HasLevel(b, i, l) && l <= k ensures idx !in Links(b, i, l) {
      assert HasLevel(a, i, l) && Links(a, i, l) == Links(b, i, l);
    }
  }

  lemma StillEmpty(a: seq<Node>, b: seq<Node>, idx: nat, k: nat)
    requires Rewired(a, b, k + 1) && LinksOr(a, idx, k) == []
    ensures LinksOr(b, idx, k) == []
  {
    RewiredLevels(a, b, k + 1);
  }

  lemma Connectable(nodes: seq<Node>, dist: Dist, idx: nat, cand: seq<nat>, chosen: seq<nat>, level: nat)
    requires HasLevel(nodes, idx, level) && LinksOr(nodes, idx, level) == [] && Unlinked(nodes, idx, level)
    requires forall v | v in cand :: v != idx && HasLevel(nodes, v, level)
    requires Sorted(dist, chosen) && chosen != [] && forall v | v in chosen :: v in cand
    ensures CanConnect(nodes, idx, chosen, level)
  {
    forall i, j | 0 <= i < j < |chosen| ensures chosen[i] != chosen[j] { Later(dist, chosen, i, j); }
  }

  lemma ConnectedNonempty(between: Between, cap: nat, a: seq<Node>, b: seq<Node>, idx: nat, neighbors: seq<nat>, level: nat)
    requires Connected(between, cap, a, b, idx, neighbors, level) && neighbors != [] && cap > 0
    ensures LinksOr(b, idx, level) != [] && LinksOr(b, neighbors[0], level) != []
  {
    var nb := neighbors[0];
    var full := LinksOr(a, nb, level) + [idx];
    assert nb in neighbors && idx in full;
  }

  lemma AllJoined(a: seq<Node>, b: seq<Node>, idx: nat, cur: nat)
    requires Rewired(a, b, 0) && Joined(a, idx) && idx + 1 == |a|
    requires LinksOr(b, idx, 0) != [] && cur != idx && LinksOr(b, cur, 0) != []
    ensures Joined(b, |b|)
  {
    RewiredLevels(a, b, 0);
    forall i: nat | i < |b| && HasLevel(b, i, 0) ensures Links(b, i, 0) != [] {
      assert HasLevel(a, i, 0);
      assert idx == 1 ==> i == idx || i == cur;
    }
  }

  lemma CappedEmpty(nodes: seq<Node>, m: nat, level: nat, other: nat)
    requires Capped(nodes, m, level, {})
    ensures Capped(nodes, m, other, {})
  {
  }

  /** What the search finds on a level can be linked with the new node. */
  lemma Joinable(nodes: seq<Node>, dist: Dist, level: nat, ef: nat, cur: nat, idx: nat, cand: seq<nat>)
    requires LevelClosed(nodes, level) && Unlinked(nodes, idx, level) && cur != idx && HasLevel(nodes, cur, level)
    requires Certified(nodes, dist, level, ef, [cur], cand) && ef > 0
    ensures cand != [] && Distinct(cand)
    ensures forall v | v in cand :: v != idx && HasLevel(nodes, v, level)
  {
    NotReached(nodes, level, cur, idx);
    assert Covered(dist, ef, cand, cur);
    forall i, j | 0 <= i < j < |cand| ensures cand[i] != cand[j] { Later(dist, cand, i, j); }
  }

  /** A greedy walk on the level from `from` ends at `to`: no neighbour of it is closer. */
  ghost predicate Settled(nodes: seq<Node>, dist: Dist, from: nat, level: nat, to: nat) {
    && HasLevel(nodes, to, level) && Reaches(nodes, level, [from], to) && dist(to) <= dist(from)
    && (forall nb | nb in Links(nodes, to, level) :: dist(to) <= dist(nb))
  }

  lemma SettledAt(nodes: seq<Node>, dist: Dist, from: nat, level: nat, to: nat)
    requires HasLevel(nodes, to, level) && Reaches(nodes, level, [from], to) && dist(to) <= dist(from)
    requires forall nb | nb in Links(nodes, to, level) :: dist(to) <= dist(nb)
    ensures Settled(nodes, dist, from, level, to)
  {
    hide Reaches;
  }

  /** From `start` down to level `low`, one greedy walk on each level above it: `path` are their ends. */
  ghost predicate Descended(nodes: seq<Node>, dist: Dist, start: nat, top: nat, low: nat, path: seq<nat>) {
    && low <= top && |path| == top - low + 1 && path[0] == start
    && (forall t | 0 <= t < top - low :: Settled(nodes, dist, path[t], top - t, path[t + 1]))
  }

  /** The distance of the new vector to each node, and of any two nodes. */
  datatype Measure = Measure(dist: Dist, between: Between)

  /**
   A new node: the descent from the entry to the highest level shared with it, then a join on every
   level, and the entry moves to the node if its level is the highest.
   */
  ghost predicate Inserted(index: HnswIndex, before: seq<Node>, top: nat, vec: seq<real>, level: nat, e: nat,
                           path: seq<nat>, joins: seq<Join>, measure: Measure)
    reads index
  {
    var base := before + [StoredNode(vec, seq(level + 1, _ => []))];
    var low := if level < top then level else top;
    && (forall i | 0 <= i < |base| :: |base[i].ivec| == |vec|)
    && Measures(index.metric, index.sqrt, base, vec, measure.dist) && MeasuresPairs(index.metric, index.sqrt, base, measure.between)
    && Descended(base, measure.dist, e, top, low, path)
    && |joins| == low + 1 && Chained(joins, path[|path| - 1])
    && (forall t | 0 <= t <= low ::
          JoinedBy(measure.dist, measure.between, base, index.nodes, |before|, index.efConstruction, index.m, low - t, joins[t]))
    && index.entry == Some(if level > top then |before| else e)
  }

  /** The nearest selected neighbour is the next node. */
  ghost predicate LeadsTo(j: Join, next: nat) { j.neighbors != [] && j.neighbors[0] == next }

  /** The first level is entered at `start`, each further one at the nearest neighbour found above. */
  ghost predicate Chained(joins: seq<Join>, start: nat) {
    && (joins != [] ==> joins[0].cur == start)
    && (forall t | 0 < t < |joins| :: LeadsTo(joins[t - 1], joins[t].cur))
  }

  /** `idx` has no links on the level and none point to it; the neighbours are distinct other nodes. */
  ghost predicate CanConnect(nodes: seq<Node>, idx: nat, neighbors: seq<nat>, level: nat) {
    && HasLevel(nodes, idx, level) && LinksOr(nodes, idx, level) == [] && neighbors != [] && Distinct(neighbors)
    && (forall nb | nb in neighbors :: nb != idx && HasLevel(nodes, nb, level) && idx !in LinksOr(nodes, nb, level))
  }

  lemma RelinkedVectors(a: seq<Node>, b: seq<Node>, level: nat)
    requires Relinked(a, b, level)
    ensures SameVectors(a, b)
  {
  }

  lemma ShortStays(between: Between, i: nat, m: nat, level: nat, full: seq<nat>, kept: seq<nat>)
    requires Trimmed(between, i, Cap(m, level), full, kept) && |full| <= m
    ensures kept == full
  {
  }

  lemma DistinctSplit(s: seq<nat>, i: nat)
    requires Distinct(s) && i < |s|
    ensures s[i] !in s[..i] && s[i] !in s[i + 1..] && Elements(s[i..]) - {s[i]} <= Elements(s[i + 1..])
  {
    assert s[i..] == [s[i]] + s[i + 1..];
  }

  lemma TrimAll(between: Between, cap: nat, added: seq<Node>, b: seq<Node>, neighbors: seq<nat>, level: nat)
    requires forall k | 0 <= k < |neighbors| :: Trimmed(between, neighbors[k], cap, LinksOr(added, neighbors[k], level), LinksOr(b, neighbors[k], level))
    ensures forall nb | nb in neighbors :: Trimmed(between, nb, cap, LinksOr(added, nb, level), LinksOr(b, nb, level))
  {
    hide Trimmed, LinksOr;
  }

  lemma CappedMore(nodes: seq<Node>, m: nat, level: nat, over: set<nat>, more: set<nat>)
    requires Capped(nodes, m, level, over) && over <= more
    ensures Capped(nodes, m, level, more)
  {
  }

  lemma RelinkedSelf(nodes: seq<Node>, level: nat)
    ensures Relinked(nodes, nodes, level)
  {
  }

  lemma SelectionSorted(between: Between, dist: Dist, cand: seq<nat>, cap: nat, out: seq<nat>)
    requires Selected(between, dist, cand, cap, out)
    ensures Sorted(dist, out) && |out| <= cap && forall v | v in out :: v in cand
  {
  }
}
