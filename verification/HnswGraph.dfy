/**
 One level of the HNSW graph and the searches over it (`vector.rs`). A distance is
 any function of the node index, so the results hold for every metric; a priority
 queue is a list kept sorted by distance and then by index.
 */
module HnswGraph {

  type Dist = nat -> real

  datatype Node = Node(ivec: seq<int>, scale: real, sumSq: real, links: seq<seq<nat>>)

  predicate HasLevel(nodes: seq<Node>, i: nat, level: nat) {
    i < |nodes| && level < |nodes[i].links|
  }

  function Links(nodes: seq<Node>, i: nat, level: nat): seq<nat>
    requires HasLevel(nodes, i, level)
  {
    nodes[i].links[level]
  }

  /** Links of a level stay on the level. */
  ghost predicate LevelClosed(nodes: seq<Node>, level: nat) {
    forall i: nat, nb: nat | HasLevel(nodes, i, level) && nb in Links(nodes, i, level) :: HasLevel(nodes, nb, level)
  }

  // ---- The order of candidates ----

  predicate Before(dist: Dist, a: nat, b: nat) {
    dist(a) < dist(b) || (dist(a) == dist(b) && a < b)
  }

  predicate Sorted(dist: Dist, s: seq<nat>) {
    forall i, j | 0 <= i < j < |s| :: Before(dist, s[i], s[j])
  }

  predicate Distinct(s: seq<nat>) {
    forall i, j | 0 <= i < j < |s| :: s[i] != s[j]
  }

  function Insert(dist: Dist, s: seq<nat>, x: nat): (r: seq<nat>)
    requires Sorted(dist, s) && x !in s
    ensures Sorted(dist, r) && |r| == |s| + 1
    ensures forall v :: v in r <==> v in s || v == x
  {
    if s == [] then [x]
    else if Before(dist, x, s[0]) then [x] + s
    else
      var rest := Insert(dist, s[1..], x);
      assert forall v | v in s[1..] :: Before(dist, s[0], v);
      assert forall k | 0 <= k < |rest| :: rest[k] in rest && Before(dist, s[0], rest[k]);
      [s[0]] + rest
  }

  /** Pushes `v` on a bounded queue: the farthest element falls off. */
  function Keep(dist: Dist, ef: nat, result: seq<nat>, v: nat): (r: seq<nat>)
    requires Sorted(dist, result) && v !in result
    ensures Sorted(dist, r) && |r| <= |result| + 1
  {
    var r := Insert(dist, result, v);
    if |r| > ef then r[..|r| - 1] else r
  }

  // ---- Reachability on one level ----

  ghost predicate Path(nodes: seq<Node>, level: nat, p: seq<nat>) {
    && |p| > 0
    && (forall k | 0 <= k < |p| :: HasLevel(nodes, p[k], level))
    && (forall k | 0 < k < |p| :: p[k] in Links(nodes, p[k - 1], level))
  }

  ghost predicate Reaches(nodes: seq<Node>, level: nat, entries: seq<nat>, v: nat) {
    exists p :: Path(nodes, level, p) && p[0] in entries && p[|p| - 1] == v
  }

  ghost function Reach(nodes: seq<Node>, level: nat, entries: seq<nat>): set<nat> {
    set v: nat | v < |nodes| && Reaches(nodes, level, entries, v)
  }

  lemma ReachesEntry(nodes: seq<Node>, level: nat, entries: seq<nat>, e: nat)
    requires e in entries && HasLevel(nodes, e, level)
    ensures Reaches(nodes, level, entries, e)
  {
    assert Path(nodes, level, [e]);
  }

  lemma ReachesNext(nodes: seq<Node>, level: nat, entries: seq<nat>, v: nat, nb: nat)
    requires Reaches(nodes, level, entries, v) && HasLevel(nodes, v, level)
    requires nb in Links(nodes, v, level) && HasLevel(nodes, nb, level)
    ensures Reaches(nodes, level, entries, nb)
  {
    var p :| Path(nodes, level, p) && p[0] in entries && p[|p| - 1] == v;
    assert Path(nodes, level, p + [nb]);
  }

  lemma {:induction false} PathStays(nodes: seq<Node>, level: nat, p: seq<nat>, inside: set<nat>)
    requires Path(nodes, level, p) && p[0] in inside
    requires forall v, nb | v in inside && HasLevel(nodes, v, level) && nb in Links(nodes, v, level) :: nb in inside
    ensures p[|p| - 1] in inside
  {
    if |p| > 1 {
      PathStays(nodes, level, p[..|p| - 1], inside);
      assert p[|p| - 1] in Links(nodes, p[|p| - 2], level);
    }
  }

  /** A set that holds the entries and is closed under links holds all that is reachable. */
  lemma ReachStays(nodes: seq<Node>, level: nat, entries: seq<nat>, inside: set<nat>)
    requires forall e | e in entries && HasLevel(nodes, e, level) :: e in inside
    requires forall v, nb | v in inside && HasLevel(nodes, v, level) && nb in Links(nodes, v, level) :: nb in inside
    ensures Reach(nodes, level, entries) <= inside
  {
    forall v | v in Reach(nodes, level, entries) ensures v in inside {
      var p :| Path(nodes, level, p) && p[0] in entries && p[|p| - 1] == v;
      assert HasLevel(nodes, p[0], level);
      PathStays(nodes, level, p, inside);
    }
  }

  // ---- What a bounded queue has kept ----

  /** `v` is kept, or the queue is full of nodes that are no farther. */
  ghost predicate Covered(dist: Dist, ef: nat, result: seq<nat>, v: nat) {
    v in result || (|result| == ef && forall x | x in result :: dist(x) <= dist(v))
  }

  lemma SortedEnds(dist: Dist, s: seq<nat>, v: nat)
    requires Sorted(dist, s) && v in s
    ensures dist(s[0]) <= dist(v) <= dist(s[|s| - 1])
  {
    var i :| 0 <= i < |s| && s[i] == v;
    assert i > 0 ==> Before(dist, s[0], s[i]);
    assert i < |s| - 1 ==> Before(dist, s[i], s[|s| - 1]);
  }

  lemma KeepCovers(dist: Dist, ef: nat, result: seq<nat>, v: nat, w: nat)
    requires Sorted(dist, result) && v !in result && 0 < ef && |result| <= ef
    requires w == v || Covered(dist, ef, result, w)
    ensures |Keep(dist, ef, result, v)| <= ef
    ensures Covered(dist, ef, Keep(dist, ef, result, v), w)
    ensures forall x | x in Keep(dist, ef, result, v) :: x in result || x == v
  {
    var r := Insert(dist, result, v);
    if |r| > ef {
      var last := r[|r| - 1];
      assert r == r[..|r| - 1] + [last];
      forall x | x in r[..|r| - 1] ensures dist(x) <= dist(last) && x in r {
        SortedEnds(dist, r, x);
      }
      if w !in r[..|r| - 1] && w != last {
        assert last in result || last == v;
        assert v in r;
        SortedEnds(dist, r, v);
        if last == v {
          assert forall x | x in r[..|r| - 1] :: x in result by { LastOnce(dist, r); }
        }
      }
    }
  }

  lemma LastOnce(dist: Dist, s: seq<nat>)
    requires Sorted(dist, s) && |s| > 0
    ensures s[|s| - 1] !in s[..|s| - 1]
  {
    assert forall i | 0 <= i < |s| - 1 :: Before(dist, s[i], s[|s| - 1]);
  }
}
