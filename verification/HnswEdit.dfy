/**
 Editing the HNSW graph (`vector.rs`): what a change of one link list keeps.
 */
module HnswEdit {
  import opened HnswGraph
  import opened HnswSearch

  /** Links of a node on a level: distinct, to other nodes of the level. */
  ghost predicate Tidy(nodes: seq<Node>, i: nat, level: nat)
    requires HasLevel(nodes, i, level)
  {
    Distinct(Links(nodes, i, level)) && forall nb | nb in Links(nodes, i, level) :: nb != i && HasLevel(nodes, nb, level)
  }

  ghost predicate Linked(nodes: seq<Node>) {
    forall i: nat, l: nat | HasLevel(nodes, i, l) :: Tidy(nodes, i, l)
  }

  function Cap(m: nat, level: nat): nat { if level == 0 then 2 * m else m }

  /** Degrees are within the caps, except on `level` for the nodes in `over`. */
  ghost predicate Capped(nodes: seq<Node>, m: nat, level: nat, over: set<nat>) {
    forall i: nat, l: nat | HasLevel(nodes, i, l) && !(l == level && i in over) :: |Links(nodes, i, l)| <= if l == 0 then 2 * m else m
  }

  /** Only links on `level` differ, and no link list there becomes empty. */
  ghost predicate Relinked(a: seq<Node>, b: seq<Node>, level: nat) {
    && |a| == |b|
    && (forall i | 0 <= i < |a| :: b[i] == a[i].(links := b[i].links) && |b[i].links| == |a[i].links|)
    && (forall i: nat, l: nat | HasLevel(a, i, l) && l != level :: Links(a, i, l) == Links(b, i, l))
    && (forall i: nat | HasLevel(a, i, level) && Links(a, i, level) != [] :: Links(b, i, level) != [])
  }

  function SetLinks(nodes: seq<Node>, i: nat, level: nat, links: seq<nat>): (r: seq<Node>)
    requires HasLevel(nodes, i, level)
    ensures |r| == |nodes|
    ensures forall j: nat, l: nat :: HasLevel(r, j, l) <==> HasLevel(nodes, j, l)
    ensures forall j: nat, l: nat | HasLevel(nodes, j, l) :: Links(r, j, l) == if j == i && l == level then links else Links(nodes, j, l)
    ensures links != [] ==> Relinked(nodes, r, level)
  {
    nodes[i := nodes[i].(links := nodes[i].links[level := links])]
  }

  lemma SetTidy(nodes: seq<Node>, i: nat, level: nat, links: seq<nat>)
    requires Linked(nodes) && HasLevel(nodes, i, level)
    requires Distinct(links) && forall nb | nb in links :: nb != i && HasLevel(nodes, nb, level)
    ensures Linked(SetLinks(nodes, i, level, links))
  {
    hide SetLinks, HasLevel, Links, Distinct;
    var r := SetLinks(nodes, i, level, links);
    forall j: nat, l: nat | HasLevel(r, j, l) ensures Tidy(r, j, l) {
      assert Tidy(nodes, j, l);
    }
  }

  lemma RelinkedTrans(a: seq<Node>, b: seq<Node>, c: seq<Node>, level: nat)
    requires Relinked(a, b, level) && Relinked(b, c, level)
    ensures Relinked(a, c, level)
  {
  }

  lemma RelinkedLevels(a: seq<Node>, b: seq<Node>, level: nat)
    requires Relinked(a, b, level)
    ensures forall j: nat, l: nat :: HasLevel(a, j, l) <==> HasLevel(b, j, l)
    ensures forall i: nat | HasLevel(a, i, level) && Links(a, i, level) != [] :: Links(b, i, level) != []
  {
  }

  lemma DistinctAppend(s: seq<nat>, x: nat)
    requires Distinct(s) && x !in s
    ensures Distinct(s + [x])
  {
  }

  /** `add_link` */
  function AddLink(nodes: seq<Node>, a: nat, b: nat, level: nat): (r: seq<Node>)
    requires HasLevel(nodes, a, level)
  {
    if a == b || b in Links(nodes, a, level) then nodes
    else SetLinks(nodes, a, level, Links(nodes, a, level) + [b])
  }

  lemma AddLinkKeeps(nodes: seq<Node>, a: nat, b: nat, level: nat, m: nat, over: set<nat>)
    requires Linked(nodes) && HasLevel(nodes, a, level) && HasLevel(nodes, b, level)
    requires Capped(nodes, m, level, over)
    ensures Linked(AddLink(nodes, a, b, level)) && Capped(AddLink(nodes, a, b, level), m, level, over + {a})
    ensures Relinked(nodes, AddLink(nodes, a, b, level), level)
    ensures a != b ==> HasLevel(AddLink(nodes, a, b, level), a, level) && b in Links(AddLink(nodes, a, b, level), a, level)
  {
    assert Tidy(nodes, a, level);
    hide SetLinks, Tidy, Linked;
    if a != b && b !in Links(nodes, a, level) {
      DistinctAppend(Links(nodes, a, level), b);
      SetTidy(nodes, a, level, Links(nodes, a, level) + [b]);
    }
  }

  /** A selection among the links of a node may replace them. */
  lemma ShrinkKeeps(nodes: seq<Node>, i: nat, level: nat, links: seq<nat>, dist: Dist, m: nat, over: set<nat>)
    requires Linked(nodes) && HasLevel(nodes, i, level) && Capped(nodes, m, level, over)
    requires links != [] && Sorted(dist, links) && |links| <= Cap(m, level)
    requires forall v | v in links :: v in Links(nodes, i, level)
    ensures Linked(SetLinks(nodes, i, level, links)) && Capped(SetLinks(nodes, i, level, links), m, level, over - {i})
    ensures Relinked(nodes, SetLinks(nodes, i, level, links), level)
  {
    assert Tidy(nodes, i, level);
    assert Distinct(links) by {
      forall x, y | 0 <= x < y < |links| ensures links[x] != links[y] { Later(dist, links, x, y); }
    }
    hide SetLinks, Tidy, Linked;
    SetTidy(nodes, i, level, links);
  }

  // ---- The exact effect on the lists of one level ----

  /** The links of a node on a level, none where it does not reach the level. */
  function LinksOr(nodes: seq<Node>, i: nat, level: nat): seq<nat> {
    if HasLevel(nodes, i, level) then Links(nodes, i, level) else []
  }

  function FromNode(between: Between, i: nat): Dist { (nb: nat) => between(i, nb) }

  /** A list within the cap stays; a longer one gives way to its diverse selection by the distance to `i`. */
  ghost predicate Trimmed(between: Between, i: nat, cap: nat, full: seq<nat>, kept: seq<nat>) {
    if |full| <= cap then kept == full
    else exists d: Dist :: Selected(between, d, full, cap, kept) && forall x :: d(x) == between(i, x)
  }

  lemma AddLinkAt(nodes: seq<Node>, a: nat, b: nat, level: nat, i: nat)
    requires HasLevel(nodes, a, level)
    ensures LinksOr(AddLink(nodes, a, b, level), i, level) ==
            if i == a && a != b && b !in LinksOr(nodes, a, level) then LinksOr(nodes, a, level) + [b] else LinksOr(nodes, i, level)
  {
    hide SetLinks;
  }

  lemma SetLinksAt(nodes: seq<Node>, a: nat, level: nat, links: seq<nat>, i: nat)
    requires HasLevel(nodes, a, level)
    ensures LinksOr(SetLinks(nodes, a, level, links), i, level) == if i == a then links else LinksOr(nodes, i, level)
  {
    hide SetLinks;
  }

  lemma SelectedSame(b1: Between, b2: Between, d1: Dist, d2: Dist, cand: seq<nat>, cap: nat, out: seq<nat>)
    requires Selected(b1, d1, cand, cap, out)
    requires (forall x, y :: b1(x, y) == b2(x, y)) && (forall x :: d1(x) == d2(x))
    ensures Selected(b2, d2, cand, cap, out)
  {
    assert forall a, b :: Before(d1, a, b) == Before(d2, a, b);
    forall c ensures Blocked(b1, d1, out, c) <==> Blocked(b2, d2, out, c) {
    }
  }

  lemma TrimmedSame(b1: Between, b2: Between, i: nat, cap: nat, full: seq<nat>, kept: seq<nat>)
    requires Trimmed(b1, i, cap, full, kept) && forall x, y :: b1(x, y) == b2(x, y)
    ensures Trimmed(b2, i, cap, full, kept)
  {
    hide Selected;
    if |full| > cap {
      var d: Dist :| Selected(b1, d, full, cap, kept) && forall x :: d(x) == b1(i, x);
      SelectedSame(b1, b2, d, d, full, cap, kept);
    }
  }
}
