/**
 What an insertion into the HNSW graph does, level by level (`vector.rs`). A level is
 searched as it was before the insertion, whatever happened on the levels above it.
 */
module HnswInsert {
  import opened HnswGraph
  import opened HnswSearch
  import opened HnswEdit
  import opened HnswDistance

  /** On the level, `idx` has exactly the neighbours, each of them got `idx` and was trimmed, the rest is as before. */
  ghost predicate Connected(between: Between, cap: nat, a: seq<Node>, b: seq<Node>, idx: nat, neighbors: seq<nat>, level: nat) {
    && LinksOr(b, idx, level) == neighbors
    && (forall nb | nb in neighbors :: Trimmed(between, nb, cap, LinksOr(a, nb, level) + [idx], LinksOr(b, nb, level)))
    && (forall j: nat | j != idx && j !in neighbors :: LinksOr(b, j, level) == LinksOr(a, j, level))
  }

  /** Links change only on levels from `level` up, and none of them vanishes. */
  ghost predicate Rewired(a: seq<Node>, b: seq<Node>, level: nat) {
    && |a| == |b|
    && (forall i | 0 <= i < |a| :: b[i] == a[i].(links := b[i].links) && |b[i].links| == |a[i].links|)
    && (forall i: nat, l: nat | HasLevel(a, i, l) && l < level :: Links(a, i, l) == Links(b, i, l))
    && (forall i: nat, l: nat | HasLevel(a, i, l) && Links(a, i, l) != [] :: Links(b, i, l) != [])
  }

  lemma RewiredLevels(a: seq<Node>, b: seq<Node>, level: nat)
    requires Rewired(a, b, level)
    ensures |a| == |b| && forall j: nat, l: nat :: HasLevel(a, j, l) <==> HasLevel(b, j, l)
  {
  }

  // ---- Distances do not depend on links ----

  /** The same nodes but for their links. */
  ghost predicate SameVectors(a: seq<Node>, b: seq<Node>) {
    |a| == |b| && forall i | 0 <= i < |a| :: b[i] == a[i].(links := b[i].links)
  }

  lemma LinksIrrelevant(metric: Metric, sqrt: real -> real, a: Node, b: Node, la: seq<seq<nat>>, lb: seq<seq<nat>>)
    requires |a.ivec| == |b.ivec|
    ensures NodeDist(metric, sqrt, a, b) == NodeDist(metric, sqrt, a.(links := la), b.(links := lb))
  {
    hide NodeFormula;
  }

  lemma BetweenSame(metric: Metric, sqrt: real -> real, a: seq<Node>, b: seq<Node>)
    requires SameVectors(b, a)
    ensures forall x: nat, y: nat :: BetweenNodes(metric, sqrt, a)(x, y) == BetweenNodes(metric, sqrt, b)(x, y)
  {
    hide NodeDist;
    forall x: nat, y: nat ensures BetweenNodes(metric, sqrt, a)(x, y) == BetweenNodes(metric, sqrt, b)(x, y) {
      if x < |a| && y < |a| && |a[x].ivec| == |a[y].ivec| {
        LinksIrrelevant(metric, sqrt, a[x], a[y], b[x].links, b[y].links);
      }
    }
  }

  lemma QueryIrrelevant(metric: Metric, sqrt: real -> real, q: seq<real>, qn: real, n: Node, links: seq<seq<nat>>)
    requires |q| == |n.ivec|
    ensures QDist(metric, sqrt, q, qn, n) == QDist(metric, sqrt, q, qn, n.(links := links))
  {
    hide QueryFormula;
  }

  lemma QuerySame(metric: Metric, sqrt: real -> real, a: seq<Node>, b: seq<Node>, q: seq<real>)
    requires SameVectors(b, a)
    ensures forall x: nat :: FromQuery(metric, sqrt, a, q)(x) == FromQuery(metric, sqrt, b, q)(x)
  {
    hide QDist;
    forall x: nat ensures FromQuery(metric, sqrt, a, q)(x) == FromQuery(metric, sqrt, b, q)(x) {
      if x < |a| && |q| == |a[x].ivec| {
        QueryIrrelevant(metric, sqrt, q, Quantize.Dot(q, q), a[x], b[x].links);
      }
    }
  }

  // ---- A search sees only its level ----

  ghost predicate SameLevel(a: seq<Node>, b: seq<Node>, level: nat) {
    && |a| == |b| && (forall i: nat :: HasLevel(a, i, level) <==> HasLevel(b, i, level))
    && (forall i: nat | HasLevel(a, i, level) :: Links(a, i, level) == Links(b, i, level))
  }

  lemma SameReach(a: seq<Node>, b: seq<Node>, level: nat, entries: seq<nat>)
    requires SameLevel(a, b, level)
    ensures Reach(a, level, entries) == Reach(b, level, entries)
  {
    forall p ensures Path(a, level, p) <==> Path(b, level, p) { SamePath(a, b, level, p); }
    hide Path;
    forall v: nat ensures Reaches(a, level, entries, v) <==> Reaches(b, level, entries, v) {
    }
  }

  lemma SamePath(a: seq<Node>, b: seq<Node>, level: nat, p: seq<nat>)
    requires SameLevel(a, b, level)
    ensures Path(a, level, p) <==> Path(b, level, p)
  {
    hide HasLevel, Links;
  }

  lemma CoveredSame(d1: Dist, d2: Dist, ef: nat, out: seq<nat>, v: nat)
    requires forall x :: d1(x) == d2(x)
    ensures Covered(d1, ef, out, v) <==> Covered(d2, ef, out, v)
  {
  }

  lemma SortedSame(d1: Dist, d2: Dist, out: seq<nat>)
    requires Sorted(d1, out) && forall x :: d1(x) == d2(x)
    ensures Sorted(d2, out)
  {
    assert forall i, j | 0 <= i < j < |out| :: Before(d1, out[i], out[j]);
  }

  lemma CertifiedSame(a: seq<Node>, b: seq<Node>, d1: Dist, d2: Dist, level: nat, ef: nat, entries: seq<nat>, out: seq<nat>)
    requires Certified(a, d1, level, ef, entries, out) && SameLevel(a, b, level) && forall x :: d1(x) == d2(x)
    ensures Certified(b, d2, level, ef, entries, out)
  {
    hide Reach, HasLevel, Links, Covered, Sorted;
    SameReach(a, b, level, entries);
    SortedSame(d1, d2, out);
    forall v ensures Covered(d1, ef, out, v) <==> Covered(d2, ef, out, v) { CoveredSame(d1, d2, ef, out, v); }
  }

  // ---- One level of an insertion ----

  /** The node a level is entered at, what the beam search finds from it, and the selected neighbours. */
  datatype Join = Join(cur: nat, cand: seq<nat>, neighbors: seq<nat>)

  /** Level `level` is joined: a certified search of the graph before the insertion, its selection, and its links. */
  ghost predicate JoinedBy(dist: Dist, between: Between, base: seq<Node>, nodes: seq<Node>, idx: nat, ef: nat, m: nat, level: nat, j: Join) {
    && Certified(base, dist, level, if ef > 1 then ef else 1, [j.cur], j.cand)
    && Selected(between, dist, j.cand, if m > 1 then m else 1, j.neighbors)
    && Connected(between, if level == 0 then 2 * m else m, base, nodes, idx, j.neighbors, level)
    && j.neighbors != []
  }

  /** The same by the distances of the index. */
  ghost predicate JoinedAt(metric: Metric, sqrt: real -> real, base: seq<Node>, nodes: seq<Node>, idx: nat, q: seq<real>,
                           ef: nat, m: nat, level: nat, j: Join) {
    JoinedBy(FromQuery(metric, sqrt, base, q), BetweenNodes(metric, sqrt, base), base, nodes, idx, ef, m, level, j)
  }

  /** What is said of the graph just before the level holds of the graph before the insertion. */
  lemma JoinedFrom(metric: Metric, sqrt: real -> real, base: seq<Node>, before: seq<Node>, nodes: seq<Node>, idx: nat, q: seq<real>,
                   ef: nat, m: nat, level: nat, j: Join)
    requires Rewired(base, before, level + 1) && JoinedAt(metric, sqrt, before, nodes, idx, q, ef, m, level, j)
    ensures JoinedAt(metric, sqrt, base, nodes, idx, q, ef, m, level, j)
  {
    RewiredLevels(base, before, level + 1);
    QuerySame(metric, sqrt, before, base, q);
    BetweenSame(metric, sqrt, before, base);
    assert SameLevel(before, base, level);
    var d1, d2 := FromQuery(metric, sqrt, before, q), FromQuery(metric, sqrt, base, q);
    var b1, b2 := BetweenNodes(metric, sqrt, before), BetweenNodes(metric, sqrt, base);
    hide FromQuery, BetweenNodes, Certified, Selected, Rewired;
    CertifiedSame(before, base, d1, d2, level, if ef > 1 then ef else 1, [j.cur], j.cand);
    SelectedSame(b1, b2, d1, d2, j.cand, if m > 1 then m else 1, j.neighbors);
    ConnectedFrom(b1, b2, Cap(m, level), before, base, nodes, idx, j.neighbors, level);
  }

  lemma ConnectedFrom(b1: Between, b2: Between, cap: nat, before: seq<Node>, base: seq<Node>, nodes: seq<Node>, idx: nat, neighbors: seq<nat>, level: nat)
    requires Connected(b1, cap, before, nodes, idx, neighbors, level) && SameLevel(before, base, level) && forall x, y :: b1(x, y) == b2(x, y)
    ensures Connected(b2, cap, base, nodes, idx, neighbors, level)
  {
    hide Trimmed;
    forall nb | nb in neighbors ensures Trimmed(b2, nb, cap, LinksOr(base, nb, level) + [idx], LinksOr(nodes, nb, level)) {
      TrimmedSame(b1, b2, nb, cap, LinksOr(before, nb, level) + [idx], LinksOr(nodes, nb, level));
    }
  }

  /** Work on a lower level leaves a joined level as it is. */
  lemma JoinedStays(metric: Metric, sqrt: real -> real, base: seq<Node>, nodes: seq<Node>, after: seq<Node>, idx: nat, q: seq<real>,
                    ef: nat, m: nat, level: nat, lower: nat, j: Join)
    requires JoinedAt(metric, sqrt, base, nodes, idx, q, ef, m, level, j) && Relinked(nodes, after, lower) && lower < level
    ensures JoinedAt(metric, sqrt, base, after, idx, q, ef, m, level, j)
  {
    RelinkedLevels(nodes, after, lower);
    assert forall i: nat :: LinksOr(after, i, level) == LinksOr(nodes, i, level);
    hide FromQuery, BetweenNodes, Certified, Selected, Trimmed, LinksOr;
  }
}
