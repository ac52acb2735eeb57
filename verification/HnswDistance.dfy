/**
 The distances of the HNSW index between a full-precision query and a quantised node,
 and between two nodes (`vector.rs`), and what they measure. `sqrt` is a parameter.
 */
module HnswDistance {
  import opened HnswGraph
  import opened Quantize

  datatype Metric = Cosine | L2 | InnerProduct

  function StoredNode(vec: seq<real>, links: seq<seq<nat>>): Node {
    var iv := Reals(Quantized(vec));
    Node(Quantized(vec), Scale(vec), Dot(iv, iv), links)
  }

  /** `q_dist` */
  function QDist(metric: Metric, sqrt: real -> real, q: seq<real>, qn: real, n: Node): real
    requires |q| == |n.ivec|
  {
    QueryFormula(metric, sqrt, qn, Dot(q, Reals(n.ivec)), n.scale, n.sumSq)
  }

  function QueryFormula(metric: Metric, sqrt: real -> real, qn: real, dot: real, s: real, sum: real): real {
    match metric
    case Cosine => var denom := sqrt(qn) * sqrt(sum); if denom == 0.0 then 1.0 else 1.0 - dot / denom
    case L2 => qn + s * s * sum - 2.0 * s * dot
    case InnerProduct => -s * dot
  }

  /** `node_dist` */
  function NodeDist(metric: Metric, sqrt: real -> real, a: Node, b: Node): real
    requires |a.ivec| == |b.ivec|
  {
    NodeFormula(metric, sqrt, Dot(Reals(a.ivec), Reals(b.ivec)), a.scale, a.sumSq, b.scale, b.sumSq)
  }

  function NodeFormula(metric: Metric, sqrt: real -> real, dot: real, s: real, sumA: real, t: real, sumB: real): real {
    match metric
    case Cosine => var denom := sqrt(Mul(sumA, sumB)); if denom == 0.0 then 1.0 else 1.0 - dot / denom
    case L2 => s * s * sumA + t * t * sumB - 2.0 * s * t * dot
    case InnerProduct => -s * t * dot
  }

  /** The distance from a query to each node; other indices never occur. */
  function FromQuery(metric: Metric, sqrt: real -> real, nodes: seq<Node>, q: seq<real>): Dist {
    (i: nat) => if i < |nodes| && |q| == |nodes[i].ivec| then QDist(metric, sqrt, q, Dot(q, q), nodes[i]) else 0.0
  }

  function BetweenNodes(metric: Metric, sqrt: real -> real, nodes: seq<Node>): (nat, nat) -> real {
    (a: nat, b: nat) =>
      if a < |nodes| && b < |nodes| && |nodes[a].ivec| == |nodes[b].ivec| then NodeDist(metric, sqrt, nodes[a], nodes[b]) else 0.0
  }

  /** The vector a node stands for. */
  function Vector(n: Node): (v: seq<real>)
    ensures |v| == |n.ivec|
  {
    Dequantized(n.ivec, n.scale)
  }

  ghost predicate Normed(n: Node) { n.scale > 0.0 && n.sumSq == Dot(Reals(n.ivec), Reals(n.ivec)) }

  ghost predicate IsRoot(root: real, square: real) { root >= 0.0 && Mul(root, root) == square }

  /** L2 and inner product measure the query against the node's vector exactly. */
  lemma QueryDistances(sqrt: real -> real, q: seq<real>, n: Node)
    requires |q| == |n.ivec| && Normed(n)
    ensures QDist(L2, sqrt, q, Dot(q, q), n) == DistSq(q, Vector(n))
    ensures QDist(InnerProduct, sqrt, q, Dot(q, q), n) == -Dot(q, Vector(n))
  {
    hide Dot, DistSq, Dequantized, Reals;
    L2Exact(q, n.ivec, n.scale);
    DotDequantized(q, n.ivec, n.scale);
    assert Mul(n.scale, Dot(q, Reals(n.ivec))) == n.scale * Dot(q, Reals(n.ivec));
  }

  /** Cosine: one minus the cosine with the node's vector, or 1 when either is null. */
  lemma QueryCosine(sqrt: real -> real, q: seq<real>, n: Node, norm: real)
    requires |q| == |n.ivec| && Normed(n)
    requires IsRoot(sqrt(Dot(q, q)), Dot(q, q)) && IsRoot(sqrt(n.sumSq), n.sumSq)
    requires IsRoot(norm, Dot(Vector(n), Vector(n)))
    ensures QDist(Cosine, sqrt, q, Dot(q, q), n) ==
            if sqrt(Dot(q, q)) * norm == 0.0 then 1.0 else 1.0 - Dot(q, Vector(n)) / (sqrt(Dot(q, q)) * norm)
  {
    hide Dot, Dequantized, Reals;
    var qRoot, root := sqrt(Dot(q, q)), sqrt(n.sumSq);
    NullRoots(n, root, norm);
    if qRoot > 0.0 && root > 0.0 {
      assert Mul(root, root) == root * root && Mul(norm, norm) == norm * norm;
      CosineScaleCancels(q, n.ivec, n.scale, qRoot, root, norm);
    }
  }

  lemma NullRoots(n: Node, root: real, norm: real)
    requires Normed(n) && IsRoot(root, n.sumSq) && IsRoot(norm, Dot(Vector(n), Vector(n)))
    ensures root == 0.0 <==> norm == 0.0
  {
    hide Dot, Times, Reals, Mul, IsRoot;
    NormTimes(n.scale, Reals(n.ivec));
    var square, scaled := n.sumSq, Dot(Vector(n), Vector(n));
    ScaledZero(n.scale, square, scaled);
    RootZero(root, square);
    RootZero(norm, scaled);
  }

  lemma RootZero(a: real, square: real)
    requires IsRoot(a, square)
    ensures a >= 0.0
    ensures a == 0.0 ==> square == 0.0
    ensures a > 0.0 ==> square > 0.0
  {
    if a > 0.0 {
      Positive(a, a);
    }
  }

  lemma ScaledZero(s: real, x: real, y: real)
    requires s > 0.0 && y == Mul(s, Mul(s, x))
    ensures x == 0.0 <==> y == 0.0
  {
    var z := Mul(s, x);
    assert x != 0.0 ==> z != 0.0;
    assert z != 0.0 ==> s * z != 0.0;
  }

  /** Between nodes, L2 is the squared distance of their vectors and inner product the negated one. */
  lemma NodeDistances(sqrt: real -> real, a: Node, b: Node)
    requires |a.ivec| == |b.ivec| && Normed(a) && Normed(b)
    ensures NodeDist(L2, sqrt, a, b) == DistSq(Vector(a), Vector(b)) == NodeDist(L2, sqrt, b, a)
    ensures NodeDist(InnerProduct, sqrt, a, b) == -Dot(Vector(a), Vector(b))
  {
    hide Dot, DistSq, Dequantized, Reals;
    NodeL2Exact(a.ivec, a.scale, b.ivec, b.scale);
    NodeL2Exact(b.ivec, b.scale, a.ivec, a.scale);
    DistSqSymmetric(Vector(a), Vector(b));
    DotVectors(a, b);
    NegatedProduct(a.scale, b.scale, Dot(Reals(a.ivec), Reals(b.ivec)));
  }

  lemma NegatedProduct(s: real, t: real, d: real)
    ensures -s * t * d == -Mul(s, Mul(t, d))
  {
  }

  lemma DotVectors(a: Node, b: Node)
    requires |a.ivec| == |b.ivec|
    ensures Dot(Vector(a), Vector(b)) == Mul(a.scale, Mul(b.scale, Dot(Reals(a.ivec), Reals(b.ivec))))
  {
    hide Dot, Times, Reals;
    var x, y := Reals(a.ivec), Reals(b.ivec);
    DotTimes(b.scale, Times(a.scale, x), y);
    DotSymmetric(Times(a.scale, x), y);
    DotTimes(a.scale, y, x);
    DotSymmetric(y, x);
    MulSwap(b.scale, a.scale, Dot(x, y));
  }

  lemma MulSwap(s: real, t: real, d: real)
    ensures Mul(s, Mul(t, d)) == Mul(t, Mul(s, d))
  {
  }

  /** Cosine between nodes: one minus the cosine of their vectors, or 1 when either is null. */
  lemma NodeCosine(sqrt: real -> real, a: Node, b: Node, normA: real, normB: real)
    requires |a.ivec| == |b.ivec| && Normed(a) && Normed(b)
    requires IsRoot(sqrt(Mul(a.sumSq, b.sumSq)), Mul(a.sumSq, b.sumSq))
    requires IsRoot(normA, Dot(Vector(a), Vector(a))) && IsRoot(normB, Dot(Vector(b), Vector(b)))
    ensures NodeDist(Cosine, sqrt, a, b) == if Mul(normA, normB) == 0.0 then 1.0 else 1.0 - Dot(Vector(a), Vector(b)) / Mul(normA, normB)
  {
    hide Mul, Dot, Times, Reals, IsRoot;
    NormTimes(a.scale, Reals(a.ivec));
    NormTimes(b.scale, Reals(b.ivec));
    DotVectors(a, b);
    var dot := Dot(Reals(a.ivec), Reals(b.ivec));
    CosineFormula(a.scale, b.scale, a.sumSq, b.sumSq, dot, Dot(Vector(a), Vector(b)), normA, normB, sqrt(Mul(a.sumSq, b.sumSq)),
                  Dot(Vector(a), Vector(a)), Dot(Vector(b), Vector(b)));
  }

  lemma CosineFormula(s: real, t: real, sumA: real, sumB: real, dot: real, scaledDot: real, normA: real, normB: real, root: real,
                      squareA: real, squareB: real)
    requires s > 0.0 && t > 0.0 && IsRoot(root, Mul(sumA, sumB)) && IsRoot(normA, squareA) && IsRoot(normB, squareB)
    requires squareA == Mul(s, Mul(s, sumA)) && squareB == Mul(t, Mul(t, sumB)) && scaledDot == Mul(s, Mul(t, dot))
    ensures (if root == 0.0 then 1.0 else 1.0 - dot / root) ==
            if Mul(normA, normB) == 0.0 then 1.0 else 1.0 - scaledDot / Mul(normA, normB)
  {
    var st := s * t;
    Positive(s, t);
    assert normA * normB == st * root by { RootProduct(s, t, sumA, sumB, normA, normB, root); }
    assert scaledDot == st * dot;
    if root != 0.0 {
      assert root > 0.0;
      Positive(st, root);
      var x := dot / root;
      assert x * root == dot;
      assert x * (st * root) == st * dot;
    }
  }

  lemma RootProduct(s: real, t: real, sumA: real, sumB: real, normA: real, normB: real, root: real)
    requires s > 0.0 && t > 0.0 && IsRoot(root, Mul(sumA, sumB))
    requires IsRoot(normA, Mul(s, Mul(s, sumA))) && IsRoot(normB, Mul(t, Mul(t, sumB)))
    ensures normA * normB == s * t * root
  {
    var x, y := normA * normB, s * t * root;
    assert x * x == (normA * normA) * (normB * normB);
    assert y * y == s * s * (t * t) * (root * root);
    assert (s * (s * sumA)) * (t * (t * sumB)) == s * s * (t * t) * (sumA * sumB);
    SquareRootUnique(x, y);
  }

  lemma {:induction false} DistSqSymmetric(a: seq<real>, b: seq<real>)
    requires |a| == |b|
    ensures DistSq(a, b) == DistSq(b, a)
  {
    if a != [] {
      DistSqSymmetric(a[1..], b[1..]);
      assert (a[0] - b[0]) * (a[0] - b[0]) == (b[0] - a[0]) * (b[0] - a[0]);
    }
  }

  // ---- What the distances of a graph measure ----

  ghost predicate Roots(sqrt: real -> real) { forall x: real | x >= 0.0 :: IsRoot(sqrt(x), x) }

  function CosineDistance(sqrt: real -> real, a: seq<real>, b: seq<real>): real
    requires |a| == |b|
  {
    var norms := Mul(sqrt(Dot(a, a)), sqrt(Dot(b, b)));
    if norms == 0.0 then 1.0 else 1.0 - Dot(a, b) / norms
  }

  /** `d` is the distance of the two vectors. */
  ghost predicate Measured(metric: Metric, sqrt: real -> real, a: seq<real>, b: seq<real>, d: real)
    requires |a| == |b|
  {
    match metric
    case L2 => d == DistSq(a, b)
    case InnerProduct => d == -Dot(a, b)
    case Cosine => Roots(sqrt) ==> d == CosineDistance(sqrt, a, b)
  }

  /** `dist` is the distance of the query to the vector of every node. */
  ghost predicate Measures(metric: Metric, sqrt: real -> real, nodes: seq<Node>, q: seq<real>, dist: Dist) {
    forall i: nat | i < |nodes| && |nodes[i].ivec| == |q| :: Measured(metric, sqrt, q, Vector(nodes[i]), dist(i))
  }

  /** `between` is the distance of the vectors of any two nodes. */
  ghost predicate MeasuresPairs(metric: Metric, sqrt: real -> real, nodes: seq<Node>, between: (nat, nat) -> real) {
    forall a: nat, b: nat | a < |nodes| && b < |nodes| && |nodes[a].ivec| == |nodes[b].ivec| ::
      Measured(metric, sqrt, Vector(nodes[a]), Vector(nodes[b]), between(a, b))
  }

  lemma {:induction false} DotSelf(a: seq<real>)
    ensures Dot(a, a) >= 0.0
  {
    if a != [] {
      DotSelf(a[1..]);
      assert a[0] * a[0] >= 0.0;
    }
  }

  lemma QueryMeasured(metric: Metric, sqrt: real -> real, q: seq<real>, n: Node)
    requires |q| == |n.ivec| && Normed(n)
    ensures Measured(metric, sqrt, q, Vector(n), QDist(metric, sqrt, q, Dot(q, q), n))
  {
    hide Dot, DistSq, Vector, Reals, QDist, Mul, IsRoot;
    match metric {
      case Cosine =>
        if Roots(sqrt) {
          DotSelf(q);
          DotSelf(Reals(n.ivec));
          DotSelf(Vector(n));
          var norm := sqrt(Dot(Vector(n), Vector(n)));
          QueryCosine(sqrt, q, n, norm);
          MulIs(sqrt(Dot(q, q)), norm);
        }
      case _ => QueryDistances(sqrt, q, n);
    }
  }

  lemma MulIs(a: real, b: real)
    ensures Mul(a, b) == a * b
  {
  }

  lemma NodeMeasured(metric: Metric, sqrt: real -> real, a: Node, b: Node)
    requires |a.ivec| == |b.ivec| && Normed(a) && Normed(b)
    ensures Measured(metric, sqrt, Vector(a), Vector(b), NodeDist(metric, sqrt, a, b))
  {
    hide Dot, DistSq, Vector, Reals, NodeDist, Mul, IsRoot;
    match metric {
      case Cosine =>
        if Roots(sqrt) {
          DotSelf(Reals(a.ivec));
          DotSelf(Reals(b.ivec));
          DotSelf(Vector(a));
          DotSelf(Vector(b));
          NotNegative(a.sumSq, b.sumSq);
          NodeCosine(sqrt, a, b, sqrt(Dot(Vector(a), Vector(a))), sqrt(Dot(Vector(b), Vector(b))));
        }
      case _ => NodeDistances(sqrt, a, b);
    }
  }

  lemma NotNegative(a: real, b: real)
    requires a >= 0.0 && b >= 0.0
    ensures Mul(a, b) >= 0.0
  {
  }

  /** The distances the index computes are those of the vectors its nodes stand for. */
  lemma GraphMeasured(metric: Metric, sqrt: real -> real, nodes: seq<Node>, q: seq<real>)
    requires forall i | 0 <= i < |nodes| :: Normed(nodes[i])
    ensures Measures(metric, sqrt, nodes, q, FromQuery(metric, sqrt, nodes, q))
    ensures MeasuresPairs(metric, sqrt, nodes, BetweenNodes(metric, sqrt, nodes))
  {
    hide Measured, QDist, NodeDist, Dot, Normed, Vector;
    forall i: nat | i < |nodes| && |nodes[i].ivec| == |q|
      ensures Measured(metric, sqrt, q, Vector(nodes[i]), FromQuery(metric, sqrt, nodes, q)(i))
    {
      QueryMeasured(metric, sqrt, q, nodes[i]);
    }
    forall a: nat, b: nat | a < |nodes| && b < |nodes| && |nodes[a].ivec| == |nodes[b].ivec|
      ensures Measured(metric, sqrt, Vector(nodes[a]), Vector(nodes[b]), BetweenNodes(metric, sqrt, nodes)(a, b))
    {
      NodeMeasured(metric, sqrt, nodes[a], nodes[b]);
    }
  }
}
