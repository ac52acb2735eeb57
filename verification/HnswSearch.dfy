/**
 The searches over one level of the HNSW graph: beam search, greedy descent and the
 diversity heuristic that picks neighbours (`vector.rs`).
 */
module HnswSearch {
  import Bytes
  import opened HnswGraph

  predicate Seen(seen: seq<bool>, v: nat) { v < |seen| && seen[v] }

  /** The state of the beam: `cands` still to expand, `result` the best `ef` seen. */
  ghost predicate Beam(nodes: seq<Node>, dist: Dist, level: nat, ef: nat, entries: seq<nat>,
                       seen: seq<bool>, cands: seq<nat>, result: seq<nat>) {
    && |seen| == |nodes|
    && Sorted(dist, cands) && Sorted(dist, result) && |result| <= ef
    && (forall v | v in cands :: Seen(seen, v))
    && (forall v | v in result :: Seen(seen, v))
    && (forall v: nat | Seen(seen, v) :: HasLevel(nodes, v, level))
    && (forall v: nat | Seen(seen, v) :: Reaches(nodes, level, entries, v))
    && (forall v: nat | Seen(seen, v) :: Covered(dist, ef, result, v))
  }

  ghost predicate Expanded(nodes: seq<Node>, level: nat, seen: seq<bool>, v: nat) {
    HasLevel(nodes, v, level) && forall nb | nb in Links(nodes, v, level) :: Seen(seen, nb)
  }

  /** A kept node is still open or all its neighbours were seen. */
  ghost predicate Pending(nodes: seq<Node>, level: nat, seen: seq<bool>, open: seq<nat>, result: seq<nat>) {
    forall v | v in result :: v in open || Expanded(nodes, level, seen, v)
  }

  ghost function Unseen(seen: seq<bool>): set<nat> {
    set v: nat | v < |seen| && !seen[v]
  }

  lemma Push(nodes: seq<Node>, dist: Dist, level: nat, ef: nat, entries: seq<nat>,
             seen: seq<bool>, cands: seq<nat>, result: seq<nat>, v: nat)
    requires Beam(nodes, dist, level, ef, entries, seen, cands, result) && 0 < ef
    requires v < |seen| && !seen[v] && HasLevel(nodes, v, level) && Reaches(nodes, level, entries, v)
    ensures v !in cands && v !in result
    ensures Beam(nodes, dist, level, ef, entries, seen[v := true], Insert(dist, cands, v), Keep(dist, ef, result, v))
    ensures forall x | x in Keep(dist, ef, result, v) :: x in result || x == v
  {
    hide Reaches, HasLevel, Keep, Insert, Covered;
    var after := seen[v := true];
    forall w: nat | Seen(after, w)
      ensures Covered(dist, ef, Keep(dist, ef, result, v), w) && (w == v || Seen(seen, w))
    {
      KeepCovers(dist, ef, result, v, w);
    }
    KeepCovers(dist, ef, result, v, v);
  }

  lemma Skip(nodes: seq<Node>, dist: Dist, level: nat, ef: nat, entries: seq<nat>,
             seen: seq<bool>, cands: seq<nat>, result: seq<nat>, v: nat)
    requires Beam(nodes, dist, level, ef, entries, seen, cands, result) && 0 < ef
    requires v < |seen| && !seen[v] && HasLevel(nodes, v, level) && Reaches(nodes, level, entries, v)
    requires |result| == ef && dist(result[ef - 1]) <= dist(v)
    ensures Beam(nodes, dist, level, ef, entries, seen[v := true], cands, result)
  {
    hide Reaches, HasLevel;
    var after := seen[v := true];
    forall x | x in result ensures dist(x) <= dist(v) {
      SortedEnds(dist, result, x);
    }
    assert Covered(dist, ef, result, v);
    assert forall w: nat | Seen(after, w) :: w == v || Seen(seen, w);
  }

  lemma PendingGrows(nodes: seq<Node>, level: nat, seen: seq<bool>, open: seq<nat>, result: seq<nat>,
                     after: seq<bool>, open': seq<nat>, result': seq<nat>)
    requires Pending(nodes, level, seen, open, result)
    requires forall v: nat | Seen(seen, v) :: Seen(after, v)
    requires forall v | v in open :: v in open'
    requires forall v | v in result' :: v in result || v in open'
    ensures Pending(nodes, level, after, open', result')
  {
    hide HasLevel, Links;
    forall v | v in result' && v !in open' ensures Expanded(nodes, level, after, v) {
      assert Expanded(nodes, level, seen, v);
    }
  }

  lemma UnseenShrinks(seen: seq<bool>, v: nat)
    requires v < |seen| && !seen[v]
    ensures Unseen(seen[v := true]) < Unseen(seen)
  {
    assert v in Unseen(seen) && v !in Unseen(seen[v := true]);
  }

  /** Sees every neighbour of `c`; keeps those that improve the result. */
  method Expand(nodes: seq<Node>, dist: Dist, ghost entries: seq<nat>, ef: nat, level: nat, c: nat,
                visited: array<bool>, cands0: seq<nat>, result0: seq<nat>)
    returns (cands: seq<nat>, result: seq<nat>)
    requires LevelClosed(nodes, level) && 0 < ef
    requires Beam(nodes, dist, level, ef, entries, visited[..], cands0, result0)
    requires Pending(nodes, level, visited[..], cands0 + [c], result0)
    requires HasLevel(nodes, c, level) && Reaches(nodes, level, entries, c)
    modifies visited
    ensures Beam(nodes, dist, level, ef, entries, visited[..], cands, result)
    ensures Pending(nodes, level, visited[..], cands, result)
    ensures forall v: nat | Seen(old(visited[..]), v) :: Seen(visited[..], v)
    ensures Unseen(visited[..]) < Unseen(old(visited[..])) || (Unseen(visited[..]) == Unseen(old(visited[..])) && cands == cands0)
  {
    hide Reaches, Covered, Insert, Keep;
    cands, result := cands0, result0;
    var links := Links(nodes, c, level);
    for i := 0 to |links|
      invariant Beam(nodes, dist, level, ef, entries, visited[..], cands, result)
      invariant Pending(nodes, level, visited[..], cands + [c], result)
      invariant forall k | 0 <= k < i :: Seen(visited[..], links[k])
      invariant forall v: nat | Seen(old(visited[..]), v) :: Seen(visited[..], v)
      invariant Unseen(visited[..]) < Unseen(old(visited[..])) || (visited[..] == old(visited[..]) && cands == cands0)
    {
      var nb := links[i];
      assert nb in Links(nodes, c, level) && HasLevel(nodes, nb, level) && |visited[..]| == |nodes|;
      if !visited[nb] {
        ghost var seen := visited[..];
        ReachesNext(nodes, level, entries, c, nb);
        UnseenShrinks(seen, nb);
        visited[nb] := true;
        assert visited[..] == seen[nb := true];
        ghost var open := cands + [c];
        ghost var was := result;
        if |result| < ef || dist(nb) < dist(result[|result| - 1]) {
          Push(nodes, dist, level, ef, entries, seen, cands, result, nb);
          cands := Insert(dist, cands, nb);
          result := Keep(dist, ef, result, nb);
          assert nb in cands && forall v | v in open :: v in cands + [c];
        } else {
          Skip(nodes, dist, level, ef, entries, seen, cands, result, nb);
        }
        PendingGrows(nodes, level, seen, open, was, visited[..], cands + [c], result);
      }
    }
    assert Expanded(nodes, level, visited[..], c);
  }

  /** What the beam search promises about its output. */
  ghost predicate Certified(nodes: seq<Node>, dist: Dist, level: nat, ef: nat, entries: seq<nat>, out: seq<nat>) {
    && Sorted(dist, out) && |out| <= ef
    && (forall v | v in out :: v in Reach(nodes, level, entries) && HasLevel(nodes, v, level))
    && (forall e | e in entries && e < |nodes| :: Covered(dist, ef, out, e))
    && (forall v, nb | v in out && HasLevel(nodes, v, level) && nb in Links(nodes, v, level) :: Covered(dist, ef, out, nb))
    && (|Reach(nodes, level, entries)| <= ef ==> forall v | v in Reach(nodes, level, entries) :: v in out)
  }

  function Elements(s: seq<nat>): set<nat> { set v | v in s }

  lemma {:induction false} CountDistinct(dist: Dist, s: seq<nat>)
    requires Sorted(dist, s)
    ensures |Elements(s)| == |s|
  {
    if s != [] {
      var init, last := s[..|s| - 1], s[|s| - 1];
      CountDistinct(dist, init);
      LastOnce(dist, s);
      assert s == init + [last];
      assert Elements(s) == Elements(init) + {last};
    }
  }

  /** A queue as large as what is reachable has dropped nothing. */
  lemma NothingDropped(dist: Dist, ef: nat, result: seq<nat>, v: nat, all: set<nat>)
    requires Sorted(dist, result) && Covered(dist, ef, result, v)
    requires (forall x | x in result :: x in all) && v in all && |all| <= ef
    ensures v in result
  {
    if v !in result {
      CountDistinct(dist, result);
      Bytes.SubsetSize(Elements(result) + {v}, all);
    }
  }

  lemma Certify(nodes: seq<Node>, dist: Dist, level: nat, ef: nat, entries: seq<nat>, seen: seq<bool>, cands: seq<nat>, out: seq<nat>)
    requires Beam(nodes, dist, level, ef, entries, seen, cands, out)
    requires Pending(nodes, level, seen, [], out)
    requires forall e | e in entries && e < |nodes| :: Seen(seen, e)
    ensures Certified(nodes, dist, level, ef, entries, out)
  {
    hide Reaches, Covered;
    forall v | v in out ensures Expanded(nodes, level, seen, v) {
      assert v !in [];
    }
    var all := Reach(nodes, level, entries);
    if |all| <= ef {
      forall v: nat | Seen(seen, v) ensures v in out {
        NothingDropped(dist, ef, out, v, all);
      }
      ReachStays(nodes, level, entries, Elements(out));
    }
  }

  /** `search_layer` */
  method SearchLayer(nodes: seq<Node>, dist: Dist, entries: seq<nat>, beam: nat, level: nat) returns (out: seq<nat>)
    requires LevelClosed(nodes, level)
    requires forall e | e in entries && e < |nodes| :: HasLevel(nodes, e, level)
    ensures Certified(nodes, dist, level, if beam > 1 then beam else 1, entries, out)
  {
    hide Reaches, Covered, Insert, Keep, Certified, LevelClosed;
    var ef := if beam > 1 then beam else 1;
    var visited := new bool[|nodes|](_ => false);
    var cands: seq<nat>, result: seq<nat> := [], [];
    for i := 0 to |entries|
      invariant Beam(nodes, dist, level, ef, entries, visited[..], cands, result)
      invariant forall v | v in result :: v in cands
      invariant forall k | 0 <= k < i && entries[k] < |nodes| :: Seen(visited[..], entries[k])
    {
      var e := entries[i];
      if e < |nodes| && !visited[e] {
        ghost var seen := visited[..];
        ReachesEntry(nodes, level, entries, e);
        visited[e] := true;
        assert visited[..] == seen[e := true];
        Push(nodes, dist, level, ef, entries, seen, cands, result, e);
        cands := Insert(dist, cands, e);
        result := Keep(dist, ef, result, e);
      }
    }
    while cands != []
      invariant Beam(nodes, dist, level, ef, entries, visited[..], cands, result)
      invariant Pending(nodes, level, visited[..], cands, result)
      invariant forall e | e in entries && e < |nodes| :: Seen(visited[..], e)
      decreases Unseen(visited[..]), |cands|
    {
      var c := cands[0];
      if |result| >= ef && dist(c) > dist(result[|result| - 1]) {
        Stop(nodes, dist, level, visited[..], cands, result);
        break;
      }
      Pop(nodes, dist, level, ef, entries, visited[..], cands, result);
      cands, result := Expand(nodes, dist, entries, ef, level, c, visited, cands[1..], result);
    }
    Certify(nodes, dist, level, ef, entries, visited[..], cands, result);
    out := result;
  }

  /** Nothing kept is open once the nearest open candidate is too far. */
  lemma Stop(nodes: seq<Node>, dist: Dist, level: nat, seen: seq<bool>, cands: seq<nat>, result: seq<nat>)
    requires Pending(nodes, level, seen, cands, result) && Sorted(dist, cands) && Sorted(dist, result)
    requires cands != [] && result != [] && dist(cands[0]) > dist(result[|result| - 1])
    ensures Pending(nodes, level, seen, [], result)
  {
    forall v | v in result ensures Expanded(nodes, level, seen, v) {
      SortedEnds(dist, result, v);
      if v in cands {
        SortedEnds(dist, cands, v);
      }
    }
  }

  lemma Pop(nodes: seq<Node>, dist: Dist, level: nat, ef: nat, entries: seq<nat>,
            seen: seq<bool>, cands: seq<nat>, result: seq<nat>)
    requires Beam(nodes, dist, level, ef, entries, seen, cands, result) && cands != []
    requires Pending(nodes, level, seen, cands, result)
    ensures Beam(nodes, dist, level, ef, entries, seen, cands[1..], result)
    ensures Pending(nodes, level, seen, cands[1..] + [cands[0]], result)
    ensures HasLevel(nodes, cands[0], level) && Reaches(nodes, level, entries, cands[0])
  {
    hide Reaches, Covered, HasLevel, Expanded;
    assert forall v | v in cands :: v in cands[1..] + [cands[0]] by { assert cands == [cands[0]] + cands[1..]; }
    assert Seen(seen, cands[0]);
  }

  // ---- Greedy descent ----

  ghost function Closer(nodes: seq<Node>, dist: Dist, best: nat): set<nat> {
    set v: nat | v < |nodes| && dist(v) < dist(best)
  }

  /** `greedy_closest`: a node with no strictly closer neighbour. */
  method GreedyClosest(nodes: seq<Node>, dist: Dist, entry: nat, level: nat) returns (best: nat)
    requires LevelClosed(nodes, level) && HasLevel(nodes, entry, level)
    ensures HasLevel(nodes, best, level) && Reaches(nodes, level, [entry], best)
    ensures dist(best) <= dist(entry)
    ensures forall nb | nb in Links(nodes, best, level) :: dist(best) <= dist(nb)
  {
    hide Reaches;
    best := entry;
    ReachesEntry(nodes, level, [entry], entry);
    while true
      invariant HasLevel(nodes, best, level) && Reaches(nodes, level, [entry], best)
      invariant dist(best) <= dist(entry)
      decreases Closer(nodes, dist, best)
    {
      var from, improved := best, false;
      var links := Links(nodes, from, level);
      for i := 0 to |links|
        invariant HasLevel(nodes, best, level) && Reaches(nodes, level, [entry], best)
        invariant forall k | 0 <= k < i :: dist(best) <= dist(links[k])
        invariant if improved then dist(best) < dist(from) else best == from
      {
        assert links[i] in Links(nodes, from, level);
        if dist(links[i]) < dist(best) {
          ReachesNext(nodes, level, [entry], from, links[i]);
          best := links[i];
          improved := true;
        }
      }
      if !improved {
        return;
      }
      assert best in Closer(nodes, dist, from) && best !in Closer(nodes, dist, best);
    }
  }

  // ---- Neighbour selection ----

  function SortBy(dist: Dist, s: seq<nat>): (r: seq<nat>)
    requires Distinct(s)
    ensures Sorted(dist, r) && |r| == |s|
    ensures forall v :: v in r <==> v in s
  {
    if s == [] then [] else
      assert s == [s[0]] + s[1..];
      Insert(dist, SortBy(dist, s[1..]), s[0])
  }

  type Between = (nat, nat) -> real

  /** Some kept nearer node is closer to `c` than the query is. */
  ghost predicate Blocked(between: Between, dist: Dist, out: seq<nat>, c: nat) {
    exists k :: k in out && Before(dist, k, c) && between(c, k) < dist(c)
  }

  /** The diverse selection of at most `cap` candidates, nearest first. */
  ghost predicate Selected(between: Between, dist: Dist, cand: seq<nat>, cap: nat, out: seq<nat>) {
    && Sorted(dist, out) && |out| <= cap
    && (forall v | v in out :: v in cand && !Blocked(between, dist, out, v))
    && (forall c | c in cand && c !in out ::
          Blocked(between, dist, out, c) || (|out| == cap && forall o | o in out :: Before(dist, o, c)))
  }

  lemma Later(dist: Dist, s: seq<nat>, i: nat, j: nat)
    requires Sorted(dist, s) && i < |s| && j < |s|
    ensures Before(dist, s[i], s[j]) <==> i < j
  {
    assert j < i ==> Before(dist, s[j], s[i]);
  }

  lemma Ahead(between: Between, dist: Dist, a: seq<nat>, b: seq<nat>, i: nat)
    requires Sorted(dist, a) && Sorted(dist, b)
    requires i < |a| && i <= |b| && a[..i] == b[..i]
    requires i < |b| ==> Before(dist, a[i], b[i])
    ensures a[i] in a && a[i] !in b
    ensures Blocked(between, dist, b, a[i]) ==> Blocked(between, dist, a, a[i])
    ensures i < |b| ==> b[i] in b && !Before(dist, b[i], a[i])
  {
    forall j | 0 <= j < |b| ensures b[j] != a[i] && (Before(dist, b[j], a[i]) ==> b[j] in a) {
      if j < i {
        assert b[j] == b[..i][j] == a[..i][j] == a[j];
        Later(dist, a, j, i);
      } else if i < j {
        Later(dist, b, i, j);
      }
    }
  }

  /** At the first difference, the selection holding the nearer node rules out the other. */
  lemma Diverges(between: Between, dist: Dist, cand: seq<nat>, cap: nat, a: seq<nat>, b: seq<nat>, i: nat)
    requires Selected(between, dist, cand, cap, a) && Selected(between, dist, cand, cap, b)
    requires i < |a| && i <= |b| && a[..i] == b[..i]
    ensures !(i < |b| ==> Before(dist, a[i], b[i]))
  {
    if i < |b| ==> Before(dist, a[i], b[i]) {
      Ahead(between, dist, a, b, i);
    }
  }

  lemma {:induction false} SamePrefix(between: Between, dist: Dist, cand: seq<nat>, cap: nat, a: seq<nat>, b: seq<nat>, i: nat)
    requires Selected(between, dist, cand, cap, a) && Selected(between, dist, cand, cap, b)
    requires i <= |a| && i <= |b| && a[..i] == b[..i]
    ensures a == b
    decreases |a| - i
  {
    hide Selected, Sorted;
    if i < |a| && i < |b| && a[i] == b[i] {
      assert a[..i + 1] == b[..i + 1];
      SamePrefix(between, dist, cand, cap, a, b, i + 1);
    } else {
      if i < |a| { Diverges(between, dist, cand, cap, a, b, i); }
      if i < |b| { Diverges(between, dist, cand, cap, b, a, i); }
      assert a == a[..i] && b == b[..i];
    }
  }

  /** The four clauses leave only one selection. */
  lemma SelectionUnique(between: Between, dist: Dist, cand: seq<nat>, cap: nat, a: seq<nat>, b: seq<nat>)
    requires Selected(between, dist, cand, cap, a) && Selected(between, dist, cand, cap, b)
    ensures a == b
  {
    SamePrefix(between, dist, cand, cap, a, b, 0);
  }

  lemma Extend(between: Between, dist: Dist, cand: seq<nat>, cap: nat, out: seq<nat>, c: nat, blocked: bool)
    requires Selected(between, dist, cand, cap, out) && |out| < cap
    requires forall o | o in out :: Before(dist, o, c)
    requires blocked <==> exists k | 0 <= k < |out| :: between(c, out[k]) < dist(c)
    ensures Selected(between, dist, cand + [c], cap, if blocked then out else out + [c])
  {
    if blocked {
      var k :| 0 <= k < |out| && between(c, out[k]) < dist(c);
      assert out[k] in out && Blocked(between, dist, out, c);
    } else {
      var longer := out + [c];
      forall v | v in longer ensures !Blocked(between, dist, longer, v) {
        assert v in out ==> Before(dist, v, c) && !Blocked(between, dist, out, v);
      }
      forall v | v in cand && v !in longer ensures Blocked(between, dist, longer, v) {
        var k :| k in out && Before(dist, k, v) && between(v, k) < dist(v);
        assert k in longer;
      }
    }
  }

  lemma Full(between: Between, dist: Dist, sorted: seq<nat>, i: nat, cap: nat, out: seq<nat>)
    requires Sorted(dist, sorted) && i <= |sorted|
    requires Selected(between, dist, sorted[..i], cap, out) && |out| == cap
    ensures Selected(between, dist, sorted, cap, out)
  {
    hide Blocked;
    assert sorted == sorted[..i] + sorted[i..];
    forall c, o | c in sorted[i..] && o in sorted[..i] ensures Before(dist, o, c) {
      var k :| i <= k < |sorted| && sorted[k] == c;
      var j :| 0 <= j < i && sorted[j] == o;
      Later(dist, sorted, j, k);
    }
  }

  /** `select_neighbors` */
  method SelectNeighbors(between: Between, dist: Dist, cand: seq<nat>, m: nat) returns (out: seq<nat>)
    requires Distinct(cand)
    ensures Selected(between, dist, cand, if m > 1 then m else 1, out)
    ensures cand != [] ==> out != []
  {
    var sorted := SortBy(dist, cand);
    ghost var cap := if m > 1 then m else 1;
    out := [];
    for i := 0 to |sorted|
      invariant Selected(between, dist, sorted[..i], cap, out) && |out| < cap
      invariant i > 0 ==> out != []
    {
      hide SortBy;
      var c, blocked := sorted[i], false;
      forall o | o in out ensures Before(dist, o, c) {
        var k :| 0 <= k < i && sorted[k] == o;
        Later(dist, sorted, k, i);
      }
      for j := 0 to |out|
        invariant blocked <==> exists k | 0 <= k < j :: between(c, out[k]) < dist(c)
      {
        if between(c, out[j]) < dist(c) {
          blocked := true;
          break;
        }
      }
      Extend(between, dist, sorted[..i], cap, out, c, blocked);
      assert sorted[..i + 1] == sorted[..i] + [c];
      if !blocked {
        out := out + [c];
        if |out| >= m {
          Full(between, dist, sorted, i + 1, cap, out);
          return;
        }
      }
    }
    assert sorted[..|sorted|] == sorted;
  }
}
