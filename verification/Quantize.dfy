/**
 The int8 quantisation of vectors and the distances computed on it (`vector.rs`),
 over exact reals. Square roots are witnesses: a non-negative number whose square
 is given.
 */
module Quantize {

  function Abs(x: real): real { if x < 0.0 then -x else x }

  /** A named product, so that equal factors give equal terms. */
  function Mul(a: real, b: real): real { a * b }

  /** `f32::round`: to the nearest integer, halves away from zero. */
  function Round(x: real): int {
    if x >= 0.0 then (x + 0.5).Floor else -((-x + 0.5).Floor)
  }

  function MaxAbs(v: seq<real>): (m: real)
    ensures m >= 0.0
    ensures forall i | 0 <= i < |v| :: Abs(v[i]) <= m
    ensures m == 0.0 || exists i :: 0 <= i < |v| && Abs(v[i]) == m
  {
    if v == [] then 0.0
    else
      var rest := MaxAbs(v[..|v| - 1]);
      if Abs(v[|v| - 1]) > rest then Abs(v[|v| - 1]) else rest
  }

  /** The largest component maps to 127; the zero vector keeps scale 1. */
  function Scale(v: seq<real>): (s: real)
    ensures s > 0.0
  {
    if MaxAbs(v) == 0.0 then 1.0 else MaxAbs(v) / 127.0
  }

  function Clamp(n: int): int {
    if n < -128 then -128 else if n > 127 then 127 else n
  }

  function Component(x: real, s: real): int
    requires s > 0.0
  {
    Clamp(Round(x / s))
  }

  function Quantized(v: seq<real>): (iv: seq<int>)
    ensures |iv| == |v|
  {
    seq(|v|, i requires 0 <= i < |v| => Component(v[i], Scale(v)))
  }

  lemma RoundError(x: real)
    ensures Abs(Round(x) as real - x) <= 0.5
  {
  }

  /** Halves are rounded away from zero. */
  lemma RoundHalf(k: nat)
    ensures Round(k as real + 0.5) == k + 1 && Round(-(k as real) - 0.5) == -(k + 1)
  {
  }

  lemma RoundRange(x: real)
    requires -127.0 <= x <= 127.0
    ensures -127 <= Round(x) <= 127
  {
  }

  lemma ScaleDiv(x: real, s: real, k: real)
    requires s > 0.0 && k >= 0.0 && Abs(x) <= k * s
    ensures -k <= x / s <= k
  {
    var y := x / s;
    assert y * s == x;
    assert y > k ==> y * s > k * s;
    assert y < -k ==> (-y) * s > k * s;
  }

  lemma ScaleError(n: real, x: real, s: real)
    requires s > 0.0 && Abs(n - x / s) <= 0.5
    ensures Abs(Mul(n, s) - x) <= s / 2.0
  {
    var y := x / s;
    assert y * s == x;
    assert n * s - x == (n - y) * s;
    HalfStep(n - y, s);
  }

  lemma HalfStep(e: real, s: real)
    requires s > 0.0 && Abs(e) <= 0.5
    ensures Abs(e * s) <= s / 2.0
  {
    assert e <= 0.5 ==> e * s <= 0.5 * s;
    assert -e <= 0.5 ==> (-e) * s <= 0.5 * s;
  }

  lemma ScaleCovers(v: seq<real>, i: nat)
    requires i < |v|
    ensures Abs(v[i]) <= 127.0 * Scale(v)
    ensures MaxAbs(v) > 0.0 ==> MaxAbs(v) == 127.0 * Scale(v)
  {
    var m := MaxAbs(v);
    assert 127.0 * (m / 127.0) == m;
  }

  lemma ComponentError(x: real, s: real, n: int)
    requires s > 0.0 && Abs(x) <= 127.0 * s && n == Component(x, s)
    ensures -127 <= n <= 127
    ensures Abs(Mul(n as real, s) - x) <= s / 2.0
  {
    hide Abs, Round, Mul;
    ScaleDiv(x, s, 127.0);
    RoundRange(x / s);
    RoundError(x / s);
    ScaleError(n as real, x, s);
  }

  /** Each component is at most half a step off, and fits a symmetric int8. */
  lemma QuantizeError(v: seq<real>, i: nat)
    requires i < |v|
    ensures -127 <= Quantized(v)[i] <= 127
    ensures Abs(Quantized(v)[i] as real * Scale(v) - v[i]) <= Scale(v) / 2.0
  {
    hide Scale, Abs, Component;
    ScaleCovers(v, i);
    assert Mul(Quantized(v)[i] as real, Scale(v)) == Quantized(v)[i] as real * Scale(v);
    ComponentError(v[i], Scale(v), Quantized(v)[i]);
  }

  lemma GridExact(x: real, s: real, n: int, k: int)
    requires -127 <= k <= 127 && s > 0.0 && x == Mul(k as real, s) && n == Component(x, s)
    ensures n == k && Mul(n as real, s) == x
  {
    var y := x / s;
    assert y * s == x;
    assert (y - k as real) * s == 0.0;
    assert y == k as real;
  }

  /** A component of largest magnitude is represented exactly. */
  lemma LargestExact(v: seq<real>, i: nat)
    requires i < |v| && Abs(v[i]) == MaxAbs(v) && MaxAbs(v) > 0.0
    ensures Quantized(v)[i] == (if v[i] > 0.0 then 127 else -127)
    ensures Quantized(v)[i] as real * Scale(v) == v[i]
  {
    ScaleCovers(v, i);
    hide Scale, MaxAbs, Component;
    var k := if v[i] > 0.0 then 127 else -127;
    assert v[i] == Mul(k as real, Scale(v));
    GridExact(v[i], Scale(v), Quantized(v)[i], k);
    assert Mul(Quantized(v)[i] as real, Scale(v)) == Quantized(v)[i] as real * Scale(v);
  }

  /** `quantize`: a pass for the largest magnitude, and one for the components. */
  lemma ZeroComponent(v: seq<real>, i: nat)
    requires i < |v| && MaxAbs(v) == 0.0
    ensures Component(v[i], 1.0) == 0
  {
    assert v[i] == 0.0;
  }

  method LargestAbs(v: seq<real>) returns (max: real)
    ensures max == MaxAbs(v)
  {
    max := 0.0;
    for i := 0 to |v|
      invariant max == MaxAbs(v[..i])
    {
      assert v[..i + 1][..i] == v[..i];
      if Abs(v[i]) > max {
        max := Abs(v[i]);
      }
    }
    assert v[..|v|] == v;
  }

  method QuantizeVector(v: seq<real>) returns (iv: seq<int>, scale: real)
    ensures iv == Quantized(v) && scale == Scale(v)
  {
    hide Round, Clamp, MaxAbs;
    var max := LargestAbs(v);
    iv := [];
    if max == 0.0 {
      scale := 1.0;
      for i := 0 to |v|
        invariant iv == Quantized(v)[..i]
      {
        ZeroComponent(v, i);
        iv := iv + [0];
      }
    } else {
      scale := max / 127.0;
      for i := 0 to |v|
        invariant iv == Quantized(v)[..i]
      {
        iv := iv + [Clamp(Round(v[i] / scale))];
      }
    }
  }

  // ---- Distances on quantised vectors ----

  function Dot(a: seq<real>, b: seq<real>): real
    requires |a| == |b|
  {
    if a == [] then 0.0 else Mul(a[0], b[0]) + Dot(a[1..], b[1..])
  }

  function DistSq(a: seq<real>, b: seq<real>): real
    requires |a| == |b|
  {
    if a == [] then 0.0 else (a[0] - b[0]) * (a[0] - b[0]) + DistSq(a[1..], b[1..])
  }

  function AbsSum(a: seq<real>): real {
    if a == [] then 0.0 else Abs(a[0]) + AbsSum(a[1..])
  }

  function Reals(iv: seq<int>): (r: seq<real>)
    ensures |r| == |iv|
  {
    if iv == [] then [] else [iv[0] as real] + Reals(iv[1..])
  }

  function Times(s: real, a: seq<real>): (r: seq<real>)
    ensures |r| == |a|
  {
    if a == [] then [] else [Mul(s, a[0])] + Times(s, a[1..])
  }

  lemma {:induction false} DotTimes(s: real, a: seq<real>, b: seq<real>)
    requires |a| == |b|
    ensures Dot(a, Times(s, b)) == Mul(s, Dot(a, b))
  {
    if a != [] {
      DotTimes(s, a[1..], b[1..]);
      assert a[0] * (s * b[0]) == s * (a[0] * b[0]);
      Distribute(s, Mul(a[0], b[0]), Dot(a[1..], b[1..]));
    }
  }

  lemma {:induction false} DotSymmetric(a: seq<real>, b: seq<real>)
    requires |a| == |b|
    ensures Dot(a, b) == Dot(b, a)
  {
    if a != [] {
      DotSymmetric(a[1..], b[1..]);
    }
  }

  /** The binomial formula, component by component. */
  lemma {:induction false} Binomial(a: seq<real>, b: seq<real>)
    requires |a| == |b|
    ensures DistSq(a, b) == Dot(a, a) + Dot(b, b) - 2.0 * Dot(a, b)
  {
    if a != [] {
      Binomial(a[1..], b[1..]);
      var x, y := a[0], b[0];
      assert (x - y) * (x - y) == x * x + y * y - 2.0 * (x * y);
    }
  }

  lemma NormTimes(s: real, b: seq<real>)
    ensures Dot(Times(s, b), Times(s, b)) == Mul(s, Mul(s, Dot(b, b)))
  {
    DotTimes(s, Times(s, b), b);
    DotSymmetric(Times(s, b), b);
    DotTimes(s, b, b);
  }

  /** A stored vector: its components over a common scale. */
  function Dequantized(iv: seq<int>, s: real): (r: seq<real>)
    ensures |r| == |iv|
  {
    Times(s, Reals(iv))
  }

  lemma Regroup(a: real, b: real, c: real)
    ensures a * b * c == a * (b * c) == b * (a * c)
  {
  }

  /** The asymmetric L2 formula is the squared distance to the dequantised vector. */
  lemma L2Exact(q: seq<real>, iv: seq<int>, s: real)
    requires |q| == |iv|
    ensures Dot(q, q) + s * s * Dot(Reals(iv), Reals(iv)) - 2.0 * s * Dot(q, Reals(iv)) ==
            DistSq(q, Dequantized(iv, s))
  {
    hide Dot, DistSq, Times, Reals;
    Binomial(q, Dequantized(iv, s));
    DotTimes(s, q, Reals(iv));
    NormTimes(s, Reals(iv));
    Regroup(2.0, s, Dot(q, Reals(iv)));
  }

  lemma NodeL2Exact(iv: seq<int>, s: real, jv: seq<int>, t: real)
    requires |iv| == |jv|
    ensures s * s * Dot(Reals(iv), Reals(iv)) + t * t * Dot(Reals(jv), Reals(jv)) - 2.0 * s * t * Dot(Reals(iv), Reals(jv))
            == DistSq(Dequantized(iv, s), Dequantized(jv, t))
  {
    hide Dot, DistSq, Times, Reals;
    var a, b := Reals(iv), Reals(jv);
    Binomial(Times(s, a), Times(t, b));
    NormTimes(s, a);
    NormTimes(t, b);
    DotTimes(t, Times(s, a), b);
    DotSymmetric(Times(s, a), b);
    DotTimes(s, b, a);
    DotSymmetric(b, a);
    var d := Dot(a, b);
    Regroup(t, s, d);
    Regroup(2.0 * s, t, d);
    Regroup(2.0, s, t * d);
  }

  lemma SquareRootUnique(a: real, b: real)
    requires a >= 0.0 && b >= 0.0 && a * a == b * b
    ensures a == b
  {
    assert (a - b) * (a + b) == 0.0;
    assert a + b > 0.0 ==> a - b == 0.0;
  }

  lemma ScaledRoot(s: real, norm: real, square: real, scaledNorm: real)
    requires s > 0.0 && norm > 0.0 && scaledNorm >= 0.0
    requires norm * norm == square && scaledNorm * scaledNorm == s * s * square
    ensures scaledNorm == s * norm
  {
    Positive(s, norm);
    assert (s * norm) * (s * norm) == s * s * (norm * norm);
    SquareRootUnique(scaledNorm, s * norm);
  }

  lemma Positive(a: real, b: real)
    requires a > 0.0 && b > 0.0
    ensures a * b > 0.0 && Mul(a, b) > 0.0
  {
  }

  lemma ScaledFraction(s: real, dot: real, scaledDot: real, qNorm: real, norm: real, scaledNorm: real)
    requires s > 0.0 && qNorm > 0.0 && norm > 0.0 && scaledDot == s * dot && scaledNorm == s * norm
    ensures qNorm * norm > 0.0 && qNorm * scaledNorm > 0.0
    ensures scaledDot / (qNorm * scaledNorm) == dot / (qNorm * norm)
  {
    Positive(qNorm, norm);
    Positive(s, norm);
    Positive(qNorm, scaledNorm);
    var whole := qNorm * norm;
    assert qNorm * scaledNorm == s * whole;
    var x := dot / whole;
    assert x * whole == dot;
    assert x * (s * whole) == s * dot;
  }

  /** The scale cancels: cosine on the integers is cosine on the dequantised vector. */
  lemma CosineScaleCancels(q: seq<real>, iv: seq<int>, s: real, qNorm: real, norm: real, scaledNorm: real)
    requires |q| == |iv| && s > 0.0 && qNorm > 0.0 && norm > 0.0 && scaledNorm >= 0.0
    requires norm * norm == Dot(Reals(iv), Reals(iv))
    requires scaledNorm * scaledNorm == Dot(Dequantized(iv, s), Dequantized(iv, s))
    ensures qNorm * norm > 0.0 && qNorm * scaledNorm > 0.0
    ensures Dot(q, Dequantized(iv, s)) / (qNorm * scaledNorm) == Dot(q, Reals(iv)) / (qNorm * norm)
  {
    hide Dot, Times, Reals;
    NormTimes(s, Reals(iv));
    ScaledRoot(s, norm, Dot(Reals(iv), Reals(iv)), scaledNorm);
    DotTimes(s, q, Reals(iv));
    ScaledFraction(s, Dot(q, Reals(iv)), Dot(q, Dequantized(iv, s)), qNorm, norm, scaledNorm);
  }

  lemma Distribute(e: real, a: real, b: real)
    ensures Mul(e, a + b) == Mul(e, a) + Mul(e, b)
    ensures Mul(e, a - b) == Mul(e, a) - Mul(e, b)
  {
  }

  lemma ErrorStep(q: real, w: real, v: real, e: real, restW: real, restV: real, rest: real, sum: real)
    requires Abs(w - v) <= e && Abs(restW - restV) <= Mul(e, rest) && sum == Abs(q) + rest
    ensures Abs((Mul(q, w) + restW) - (Mul(q, v) + restV)) <= Mul(e, sum)
  {
    TermError(q, w - v, e);
    Distribute(q, w, v);
    Distribute(e, Abs(q), rest);
  }

  lemma {:induction false} DotError(q: seq<real>, v: seq<real>, w: seq<real>, e: real)
    requires |q| == |v| == |w|
    requires forall i | 0 <= i < |v| :: Abs(w[i] - v[i]) <= e
    ensures Abs(Dot(q, w) - Dot(q, v)) <= Mul(e, AbsSum(q))
  {
    if q != [] {
      DotError(q[1..], v[1..], w[1..], e);
      hide Abs, Mul;
      ErrorStep(q[0], w[0], v[0], e, Dot(q[1..], w[1..]), Dot(q[1..], v[1..]), AbsSum(q[1..]), AbsSum(q));
    }
  }

  lemma TermError(q: real, d: real, e: real)
    requires Abs(d) <= e
    ensures Abs(Mul(q, d)) <= Mul(e, Abs(q))
  {
    if q >= 0.0 {
      assert q * d <= q * e && q * d >= q * (-e);
    } else {
      assert (-q) * d <= (-q) * e && (-q) * d >= (-q) * (-e);
    }
  }

  lemma {:induction false} DequantizedAt(iv: seq<int>, s: real, i: nat)
    requires i < |iv|
    ensures Dequantized(iv, s)[i] == Mul(iv[i] as real, s)
  {
    if i > 0 {
      DequantizedAt(iv[1..], s, i - 1);
    }
  }

  lemma DotDequantized(q: seq<real>, iv: seq<int>, s: real)
    requires |q| == |iv|
    ensures Dot(q, Dequantized(iv, s)) == Mul(s, Dot(q, Reals(iv)))
  {
    hide Dot, Times, Reals;
    DotTimes(s, q, Reals(iv));
  }

  lemma StoredError(v: seq<real>, i: nat)
    requires i < |v|
    ensures Abs(Dequantized(Quantized(v), Scale(v))[i] - v[i]) <= Scale(v) / 2.0
  {
    hide Scale, Abs, Component, Dequantized, Mul;
    ScaleCovers(v, i);
    ComponentError(v[i], Scale(v), Quantized(v)[i]);
    DequantizedAt(Quantized(v), Scale(v), i);
  }

  /** The quantised inner product is off by at most half a step per unit of the query. */
  lemma InnerProductError(q: seq<real>, v: seq<real>)
    requires |q| == |v|
    ensures Abs(Scale(v) * Dot(q, Reals(Quantized(v))) - Dot(q, v)) <= Scale(v) / 2.0 * AbsSum(q)
  {
    hide Scale, Abs, Dot, Dequantized, Reals, AbsSum, Quantized;
    var stored := Dequantized(Quantized(v), Scale(v));
    forall i | 0 <= i < |v| ensures Abs(stored[i] - v[i]) <= Scale(v) / 2.0 {
      StoredError(v, i);
    }
    DotError(q, v, stored, Scale(v) / 2.0);
    DotDequantized(q, Quantized(v), Scale(v));
    assert Mul(Scale(v) / 2.0, AbsSum(q)) == Scale(v) / 2.0 * AbsSum(q);
    assert Mul(Scale(v), Dot(q, Reals(Quantized(v)))) == Scale(v) * Dot(q, Reals(Quantized(v)));
  }
}
