/** The brute-force similarity score over the reals, with the square root as a parameter. */
module Cosine {
  import opened TenantState

  function Dot(a: seq<real>, b: seq<real>): real
    requires |a| == |b|
  {
    if a == [] then 0.0 else Dot(a[..|a| - 1], b[..|b| - 1]) + a[|a| - 1] * b[|b| - 1]
  }

  function SumSq(a: seq<real>): (r: real) { Dot(a, a) }

  /** `x` is a non-negative root of `y`. */
  predicate IsRoot(x: real, y: real) { x >= 0.0 && x * x == y }

  lemma {:induction false} SumSqNonNegative(a: seq<real>)
    ensures SumSq(a) >= 0.0
  {
    if a == [] {
    } else {
      SumSqNonNegative(a[..|a| - 1]);
      SquareNonNegative(a[|a| - 1]);
    }
  }

  lemma SquareNonNegative(x: real)
    ensures x * x >= 0.0
  {
  }

  /** The sum of (a[i]*y - b[i]*x)^2, multiplied out. */
  lemma {:induction false} CrossTerm(a: seq<real>, b: seq<real>, x: real, y: real)
    requires |a| == |b|
    ensures (y * y) * SumSq(a) - 2.0 * (x * y) * Dot(a, b) + (x * x) * SumSq(b) >= 0.0
  {
    if a == [] {
    } else {
      var n := |a| - 1;
      var s, t := a[n], b[n];
      CrossTerm(a[..n], b[..n], x, y);
      SquareNonNegative(s * y - t * x);
      var p, q, d := SumSq(a[..n]), SumSq(b[..n]), Dot(a[..n], b[..n]);
      assert (s * y - t * x) * (s * y - t * x)
             == (y * y) * (s * s) - 2.0 * (x * y) * (s * t) + (x * x) * (t * t);
      assert (y * y) * (p + s * s) == (y * y) * p + (y * y) * (s * s);
      assert (x * x) * (q + t * t) == (x * x) * q + (x * x) * (t * t);
      assert (x * y) * (d + s * t) == (x * y) * d + (x * y) * (s * t);
    }
  }

  /** Cauchy-Schwarz for the three accumulators of the loop. */
  lemma {:induction false} CauchySchwarz(a: seq<real>, b: seq<real>)
    requires |a| == |b|
    ensures Dot(a, b) * Dot(a, b) <= SumSq(a) * SumSq(b)
  {
    if a == [] {
    } else {
      var n := |a| - 1;
      var s, t := a[n], b[n];
      CauchySchwarz(a[..n], b[..n]);
      CrossTerm(a[..n], b[..n], s, t);
      var p, q, d := SumSq(a[..n]), SumSq(b[..n]), Dot(a[..n], b[..n]);
      assert (d + s * t) * (d + s * t) == d * d + 2.0 * (s * t) * d + (s * t) * (s * t);
      assert (p + s * s) * (q + t * t) == p * q + (t * t) * p + (s * s) * q + (s * t) * (s * t);
    }
  }

  /** The score the loop returns for roots `ra`, `rb` of the two squared norms. */
  function Score(a: seq<real>, b: seq<real>, ra: real, rb: real): real
    requires |a| == |b|
  {
    if SumSq(a) == 0.0 || SumSq(b) == 0.0 || ra * rb == 0.0 then 0.0 else Dot(a, b) / (ra * rb)
  }

  /** The score times the two norms is the inner product, sign and all. */
  lemma ScoreTimesNorms(a: seq<real>, b: seq<real>, ra: real, rb: real)
    requires |a| == |b| && IsRoot(ra, SumSq(a)) && IsRoot(rb, SumSq(b))
    requires SumSq(a) != 0.0 && SumSq(b) != 0.0
    ensures Score(a, b, ra, rb) * (ra * rb) == Dot(a, b)
  {
    SumSqNonNegative(a);
    SumSqNonNegative(b);
    RootProduct(ra, rb, SumSq(a), SumSq(b));
    Undivide(Dot(a, b), ra * rb);
  }

  lemma Undivide(d: real, m: real)
    requires m != 0.0
    ensures d / m * m == d
  {
  }

  lemma RootProduct(ra: real, rb: real, p: real, q: real)
    requires IsRoot(ra, p) && IsRoot(rb, q) && p > 0.0 && q > 0.0
    ensures ra * rb > 0.0 && (ra * rb) * (ra * rb) == p * q
  {
    assert ra > 0.0 && rb > 0.0;
    assert (ra * rb) * (ra * rb) == (ra * ra) * (rb * rb);
  }

  lemma PositiveProduct(x: real, y: real)
    requires x > 0.0 && y > 0.0
    ensures x * y > 0.0
  {
  }

  function Times(x: real, y: real): real { x * y }

  lemma TimesPositive(x: real, y: real)
    ensures x > 0.0 && y > 0.0 ==> Times(x, y) > 0.0
  {
  }

  lemma ZeroProduct(d: real, p: real, q: real)
    requires d * d <= p * q && (p == 0.0 || q == 0.0)
    ensures d <= 0.0
  {
    assert Times(p, q) == 0.0;
    assert Times(d, d) <= Times(p, q);
    TimesPositive(d, d);
  }

  lemma QuotientSign(d: real, m: real)
    requires m > 0.0
    ensures d / m > 0.0 <==> d > 0.0
  {
    var z := d / m;
    assert z * m == d;
    if z > 0.0 { PositiveProduct(z, m); }
    if z < 0.0 {
      PositiveProduct(-z, m);
      assert (-z) * m == -d;
    }
  }

  lemma RootsBound(d: real, m: real)
    requires m > 0.0 && d * d <= m * m
    ensures d <= m
  {
    assert (d - m) * (d + m) == d * d - m * m;
    if d > m {
      PositiveProduct(d - m, d + m);
    }
  }

  lemma QuotientBound(d: real, m: real)
    requires m > 0.0 && d * d <= m * m
    ensures -1.0 <= d / m <= 1.0
  {
    RootsBound(d, m);
    assert (-d) * (-d) == d * d;
    RootsBound(-d, m);
    assert d / m * m == d;
  }

  /** The score is a cosine: between -1 and 1, zero for a zero vector, positive exactly when the
      inner product is. */
  lemma ScoreIsBounded(a: seq<real>, b: seq<real>, ra: real, rb: real)
    requires |a| == |b| && IsRoot(ra, SumSq(a)) && IsRoot(rb, SumSq(b))
    ensures -1.0 <= Score(a, b, ra, rb) <= 1.0
    ensures SumSq(a) == 0.0 || SumSq(b) == 0.0 ==> Score(a, b, ra, rb) == 0.0
    ensures Score(a, b, ra, rb) > 0.0 <==> Dot(a, b) > 0.0
  {
    SumSqNonNegative(a);
    SumSqNonNegative(b);
    CauchySchwarz(a, b);
    var d := Dot(a, b);
    if SumSq(a) == 0.0 || SumSq(b) == 0.0 {
      ZeroProduct(d, SumSq(a), SumSq(b));
    } else {
      RootProduct(ra, rb, SumSq(a), SumSq(b));
      var m := ra * rb;
      QuotientBound(d, m);
      QuotientSign(d, m);
    }
  }

  /** A vector scores 1 against itself unless it is zero. */
  lemma ScoreOfItself(a: seq<real>, ra: real)
    requires IsRoot(ra, SumSq(a)) && SumSq(a) != 0.0
    ensures Score(a, a, ra, ra) == 1.0
  {
    var m := ra * ra;
    assert m == Dot(a, a) && m != 0.0;
    assert m / m == 1.0;
  }

  /** The scoring loop; `sqrt` is only asked for the two squared norms. */
  method Cosine(a: Vec, b: Vec, sqrt: real -> real) returns (score: real)
    requires |a| == |b|
    requires IsRoot(sqrt(SumSq(a)), SumSq(a)) && IsRoot(sqrt(SumSq(b)), SumSq(b))
    ensures score == Score(a, b, sqrt(SumSq(a)), sqrt(SumSq(b)))
    ensures -1.0 <= score <= 1.0
    ensures score > 0.0 <==> Dot(a, b) > 0.0
  {
    var dot, na, nb := 0.0, 0.0, 0.0;
    for i := 0 to |a|
      invariant dot == Dot(a[..i], b[..i]) && na == SumSq(a[..i]) && nb == SumSq(b[..i])
    {
      assert a[..i + 1][..i] == a[..i] && b[..i + 1][..i] == b[..i];
      dot := dot + a[i] * b[i];
      na := na + a[i] * a[i];
      nb := nb + b[i] * b[i];
    }
    assert a[..|a|] == a && b[..|b|] == b;
    SumSqNonNegative(a);
    SumSqNonNegative(b);
    ScoreIsBounded(a, b, sqrt(na), sqrt(nb));
    if na == 0.0 || nb == 0.0 {
      return 0.0;
    }
    RootProduct(sqrt(na), sqrt(nb), na, nb);
    score := dot / (sqrt(na) * sqrt(nb));
  }
}
