/** Cosine similarity and the consensus centroid, over the reals. The square root is a
    parameter: any function that `IsRoot` accepts. */
module Similarity {

  type Vector = seq<real>

  ghost predicate IsRoot(sqrt: real -> real) {
    forall x | x >= 0.0 :: sqrt(x) >= 0.0 && sqrt(x) * sqrt(x) == x
  }

  // A name for the product of two components, so that sums of products stay linear.
  function Times(x: real, y: real): real {
    x * y
  }

  function Dot(a: Vector, b: Vector): real
    requires |a| == |b|
  {
    if |a| == 0 then 0.0
    else Dot(a[..|a| - 1], b[..|b| - 1]) + Times(a[|a| - 1], b[|b| - 1])
  }

  ghost function Sum(column: seq<real>): real {
    if column == [] then 0.0 else Sum(column[..|column| - 1]) + column[|column| - 1]
  }

  lemma {:induction false} DotIsSum(a: Vector, b: Vector, products: seq<real>)
    requires |a| == |b| == |products| && forall i | 0 <= i < |a| :: products[i] == a[i] * b[i]
    ensures Dot(a, b) == Sum(products)
  {
    if |a| > 0 {
      var n := |a| - 1;
      DotIsSum(a[..n], b[..n], products[..n]);
    }
  }

  function Clamp(x: real, low: real, high: real): real {
    if x < low then low else if x > high then high else x
  }

  /** `cosine_similarity`: 0 for mismatched, empty or zero vectors. */
  function Cosine(sqrt: real -> real, a: Vector, b: Vector): real {
    if |a| != |b| || |a| == 0 then 0.0
    else
      var na, nb := sqrt(Dot(a, a)), sqrt(Dot(b, b));
      if na == 0.0 || nb == 0.0 then 0.0
      else Clamp(Dot(a, b) / (na * nb), -1.0, 1.0)
  }

  lemma {:induction false} DotSymmetric(a: Vector, b: Vector)
    requires |a| == |b|
    ensures Dot(a, b) == Dot(b, a)
  {
    if |a| > 0 {
      DotSymmetric(a[..|a| - 1], b[..|b| - 1]);
    }
  }

  lemma DotOfPairs(a: Vector, b: Vector)
    requires |a| == |b| == 2
    ensures Dot(a, b) == a[0] * b[0] + a[1] * b[1]
  {
    assert a[..1][0] == a[0] && b[..1][0] == b[0];
    assert Dot(a[..1], b[..1]) == Dot(a[..1][..0], b[..1][..0]) + Times(a[0], b[0]);
  }

  lemma CosineSymmetric(sqrt: real -> real, a: Vector, b: Vector)
    ensures Cosine(sqrt, a, b) == Cosine(sqrt, b, a)
  {
    if |a| == |b| {
      DotSymmetric(a, b);
    }
  }

  lemma TimesPositive(x: real, y: real)
    requires (x > 0.0 && y > 0.0) || (x < 0.0 && y < 0.0)
    ensures Times(x, y) > 0.0
  {
    if x < 0.0 {
      assert Times(x, y) == (-x) * (-y);
    }
  }

  lemma SquareSign(x: real)
    ensures Times(x, x) >= 0.0
    ensures x != 0.0 ==> Times(x, x) > 0.0
  {
    if x != 0.0 {
      TimesPositive(x, x);
    }
  }

  lemma {:induction false} DotSelf(a: Vector)
    ensures Dot(a, a) >= 0.0
    ensures Dot(a, a) == 0.0 ==> forall i | 0 <= i < |a| :: a[i] == 0.0
  {
    if |a| > 0 {
      var front, x := a[..|a| - 1], a[|a| - 1];
      DotSelf(front);
      SquareSign(x);
      assert a == front + [x];
    }
  }

  lemma {:induction false} DotZero(a: Vector, b: Vector)
    requires |a| == |b| && forall i | 0 <= i < |a| :: a[i] == 0.0
    ensures Dot(a, b) == 0.0
  {
    if |a| > 0 {
      DotZero(a[..|a| - 1], b[..|b| - 1]);
    }
  }

  lemma NonZeroNorm(sqrt: real -> real, a: Vector, b: Vector)
    requires IsRoot(sqrt) && |a| == |b| && Dot(a, b) != 0.0
    ensures Dot(a, a) > 0.0 && sqrt(Dot(a, a)) > 0.0
  {
    DotSelf(a);
    assert Dot(a, a) != 0.0 by {
      if Dot(a, a) == 0.0 {
        DotZero(a, b);
      }
    }
    assert sqrt(Dot(a, a)) * sqrt(Dot(a, a)) != 0.0;
  }

  lemma SameSign(x: real, y: real)
    requires y > 0.0
    ensures x / y > 0.0 <==> x > 0.0
  {
    assert x == x / y * y;
  }

  /** The cosine has the sign of the dot product, whatever the norms. */
  lemma CosinePositive(sqrt: real -> real, a: Vector, b: Vector)
    requires IsRoot(sqrt) && |a| == |b|
    ensures Cosine(sqrt, a, b) > 0.0 <==> Dot(a, b) > 0.0
  {
    DotSelf(a);
    DotSelf(b);
    var na, nb := sqrt(Dot(a, a)), sqrt(Dot(b, b));
    if Dot(a, b) != 0.0 {
      NonZeroNorm(sqrt, a, b);
      DotSymmetric(a, b);
      NonZeroNorm(sqrt, b, a);
      assert na * nb > 0.0;
      SameSign(Dot(a, b), na * nb);
    }
  }

  // ----- What the cosine measures

  /** Of two numbers whose sum is not negative, twice the root of their product is at most
      that sum. */
  lemma MeansOfTwo(p: real, q: real, r: real)
    requires p >= 0.0 && q >= 0.0 && Times(r, r) <= Times(p, q)
    ensures -(p + q) <= 2.0 * r <= p + q
  {
    assert Times(p + q, p + q) == 4.0 * Times(p, q) + Times(p - q, p - q);
    assert Times(2.0 * r, 2.0 * r) == 4.0 * Times(r, r);
    SquareSign(p - q);
    WithinRoot(2.0 * r, p + q);
  }

  lemma WithinRoot(x: real, y: real)
    requires y >= 0.0 && Times(x, x) <= Times(y, y)
    ensures -y <= x <= y
  {
    assert Times(x - y, x + y) == Times(x, x) - Times(y, y);
    if x > y {
      TimesPositive(x - y, x + y);
    } else if -x > y {
      TimesPositive(x - y, x + y);
    }
  }

  lemma ProductOfSquares(d: real, a: real, b: real, x: real, y: real)
    requires a >= 0.0 && b >= 0.0 && Times(d, d) <= Times(a, b)
    ensures
      var r, p, q := Times(d, Times(x, y)), Times(a, Times(y, y)), Times(b, Times(x, x));
      p >= 0.0 && q >= 0.0 && Times(r, r) <= Times(p, q)
  {
    SquareSign(Times(x, y));
    SquareSign(x);
    SquareSign(y);
    FourFactors(d, Times(x, y), d, Times(x, y));
    FourFactors(a, Times(y, y), b, Times(x, x));
    FourFactors(y, y, x, x);
    NotNegative(a, Times(y, y));
    NotNegative(b, Times(x, x));
    ScaledOrder(Times(d, d), Times(a, b), Times(Times(x, y), Times(x, y)));
    assert Times(y, x) == Times(x, y);
    hide Times;
  }

  lemma FourFactors(a: real, b: real, c: real, d: real)
    ensures Times(Times(a, b), Times(c, d)) == Times(Times(a, c), Times(b, d))
  {
    assert (a * b) * (c * d) == (a * c) * (b * d);
  }

  lemma NotNegative(x: real, y: real)
    requires x >= 0.0 && y >= 0.0
    ensures Times(x, y) >= 0.0
  {
  }

  lemma ScaledOrder(x: real, y: real, s: real)
    requires x <= y && s >= 0.0
    ensures Times(x, s) <= Times(y, s)
  {
    NotNegative(y - x, s);
    assert Times(y - x, s) == Times(y, s) - Times(x, s);
  }

  /** The inequality of Cauchy and Schwarz. */
  lemma {:induction false} DotIsBounded(a: Vector, b: Vector)
    requires |a| == |b|
    ensures Times(Dot(a, b), Dot(a, b)) <= Times(Dot(a, a), Dot(b, b))
  {
    if |a| > 0 {
      var n := |a| - 1;
      var fa, fb, x, y := a[..n], b[..n], a[n], b[n];
      DotIsBounded(fa, fb);
      DotSelf(fa);
      DotSelf(fb);
      OneMoreComponent(Dot(fa, fb), Dot(fa, fa), Dot(fb, fb), x, y);
    }
  }

  lemma OneMoreComponent(d: real, a: real, b: real, x: real, y: real)
    requires a >= 0.0 && b >= 0.0 && Times(d, d) <= Times(a, b)
    ensures Times(d + Times(x, y), d + Times(x, y)) <= Times(a + Times(x, x), b + Times(y, y))
  {
    var r, p, q := Times(d, Times(x, y)), Times(a, Times(y, y)), Times(b, Times(x, x));
    ProductOfSquares(d, a, b, x, y);
    MeansOfTwo(p, q, r);
    assert Times(d + Times(x, y), d + Times(x, y)) == Times(d, d) + 2.0 * r + Times(Times(x, y), Times(x, y));
    assert Times(a + Times(x, x), b + Times(y, y)) == Times(a, b) + p + q + Times(Times(x, x), Times(y, y));
    assert Times(Times(x, x), Times(y, y)) == Times(Times(x, y), Times(x, y));
  }

  /** Vectors the cosine is defined for. */
  ghost predicate Comparable(a: Vector, b: Vector) {
    |a| == |b| && (exists i | 0 <= i < |a| :: a[i] != 0.0) && exists i | 0 <= i < |b| :: b[i] != 0.0
  }

  lemma {:induction false} NonZeroSelf(a: Vector, i: nat)
    requires i < |a| && a[i] != 0.0
    ensures Dot(a, a) > 0.0
  {
    DotSelf(a);
  }

  lemma NormsBound(sqrt: real -> real, a: Vector, b: Vector)
    requires IsRoot(sqrt) && Comparable(a, b)
    ensures
      var na, nb := sqrt(Dot(a, a)), sqrt(Dot(b, b));
      na > 0.0 && nb > 0.0 && -Times(na, nb) <= Dot(a, b) <= Times(na, nb)
  {
    hide Dot, Times;
    var i :| 0 <= i < |a| && a[i] != 0.0;
    var j :| 0 <= j < |b| && b[j] != 0.0;
    NonZeroSelf(a, i);
    NonZeroSelf(b, j);
    DotIsBounded(a, b);
    BoundedByRoots(Dot(a, b), Dot(a, a), Dot(b, b), sqrt(Dot(a, a)), sqrt(Dot(b, b)));
  }

  lemma BoundedByRoots(d: real, a: real, b: real, na: real, nb: real)
    requires a > 0.0 && b > 0.0 && na >= 0.0 && nb >= 0.0 && na * na == a && nb * nb == b
    requires Times(d, d) <= Times(a, b)
    ensures na > 0.0 && nb > 0.0 && -Times(na, nb) <= d <= Times(na, nb)
  {
    TimesPositive(na, nb);
    var m := Times(na, nb);
    assert Times(m, m) == Times(na * na, nb * nb);
    WithinRoot(d, m);
  }

  /** The cosine is the dot product over the product of the norms, so the bounds it is clamped
      to never bind; without two vectors of one length, neither of them zero, it is 0. */
  lemma CosineMeaning(sqrt: real -> real, a: Vector, b: Vector)
    requires IsRoot(sqrt)
    ensures if Comparable(a, b) then Cosine(sqrt, a, b) * Times(sqrt(Dot(a, a)), sqrt(Dot(b, b))) == Dot(a, b)
            else Cosine(sqrt, a, b) == 0.0
  {
    hide Dot;
    if Comparable(a, b) {
      var na, nb := sqrt(Dot(a, a)), sqrt(Dot(b, b));
      NormsBound(sqrt, a, b);
      Quotient(Dot(a, b), na, nb);
    } else if |a| == |b| {
      ZeroHasNoNorm(sqrt, if forall i | 0 <= i < |a| :: a[i] == 0.0 then a else b);
    }
  }

  lemma ZeroHasNoNorm(sqrt: real -> real, a: Vector)
    requires IsRoot(sqrt) && forall i | 0 <= i < |a| :: a[i] == 0.0
    ensures sqrt(Dot(a, a)) == 0.0
  {
    DotZero(a, a);
    var root := sqrt(0.0);
    SquareSign(root);
    assert root * root == Times(root, root);
  }

  lemma Quotient(d: real, x: real, y: real)
    requires x > 0.0 && y > 0.0 && -Times(x, y) <= d <= Times(x, y)
    ensures x * y > 0.0 && -1.0 <= d / (x * y) <= 1.0 && d / (x * y) * Times(x, y) == d
  {
    TimesPositive(x, y);
    var m := Times(x, y);
    var q := d / m;
    assert q * m == d;
    assert (q - 1.0) * m == d - m && (q + 1.0) * m == d + m;
  }

  // ----- The centroid of the agreeing vectors

  /** What an embedder hands back: vectors of one dimensionality. */
  ghost predicate SameDims(vectors: seq<Vector>) {
    forall i, j | 0 <= i < |vectors| && 0 <= j < |vectors| :: |vectors[i]| == |vectors[j]|
  }

  function Add(a: Vector, b: Vector): Vector
    requires |a| == |b|
  {
    seq(|a|, i requires 0 <= i < |a| => a[i] + b[i])
  }

  function DivideBy(a: Vector, d: real): Vector
    requires d != 0.0
  {
    seq(|a|, i requires 0 <= i < |a| => a[i] / d)
  }

  function SumOf(agreeing: seq<nat>, vectors: seq<Vector>, dims: nat): (sum: Vector)
    requires forall k | 0 <= k < |agreeing| :: agreeing[k] < |vectors| && |vectors[agreeing[k]]| == dims
    ensures |sum| == dims
  {
    if agreeing == [] then seq(dims, _ => 0.0)
    else
      var last := |agreeing| - 1;
      Add(SumOf(agreeing[..last], vectors, dims), vectors[agreeing[last]])
  }

  function Dims(vectors: seq<Vector>): nat {
    if vectors == [] then 0 else |vectors[0]|
  }

  /** The mean of the agreeing vectors (the zero vector when there are none). */
  function CentroidOf(agreeing: seq<nat>, vectors: seq<Vector>): (center: Vector)
    requires SameDims(vectors) && forall k | 0 <= k < |agreeing| :: agreeing[k] < |vectors|
    ensures |center| == Dims(vectors)
  {
    var denom := if |agreeing| == 0 then 1 else |agreeing|;
    DivideBy(SumOf(agreeing, vectors, Dims(vectors)), denom as real)
  }

  /** `centroid`, accumulating in place. */
  method Centroid(agreeing: seq<nat>, vectors: seq<Vector>) returns (center: Vector)
    requires SameDims(vectors) && forall k | 0 <= k < |agreeing| :: agreeing[k] < |vectors|
    ensures center == CentroidOf(agreeing, vectors)
  {
    var dims := if |vectors| == 0 then 0 else |vectors[0]|;
    var acc := new real[dims](_ => 0.0);
    for k := 0 to |agreeing|
      invariant acc[..] == SumOf(agreeing[..k], vectors, dims)
    {
      assert agreeing[..k + 1][..k] == agreeing[..k];
      var v := vectors[agreeing[k]];
      ghost var before := acc[..];
      for d := 0 to dims
        invariant forall e | 0 <= e < d :: acc[e] == before[e] + v[e]
        invariant forall e | d <= e < dims :: acc[e] == before[e]
      {
        acc[d] := acc[d] + v[d];
      }
    }
    assert agreeing[..|agreeing|] == agreeing;
    var denom := (if |agreeing| == 0 then 1 else |agreeing|) as real;
    ghost var sum := acc[..];
    for d := 0 to dims
      invariant forall e | 0 <= e < d :: acc[e] == sum[e] / denom
      invariant forall e | d <= e < dims :: acc[e] == sum[e]
    {
      acc[d] := acc[d] / denom;
    }
    center := acc[..];
  }

  lemma {:induction false} SumOfColumn(agreeing: seq<nat>, vectors: seq<Vector>, dims: nat, column: seq<real>, d: nat)
    requires forall k | 0 <= k < |agreeing| :: agreeing[k] < |vectors| && |vectors[agreeing[k]]| == dims
    requires d < dims && |column| == |agreeing|
    requires forall k | 0 <= k < |agreeing| :: column[k] == vectors[agreeing[k]][d]
    ensures SumOf(agreeing, vectors, dims)[d] == Sum(column)
  {
    if agreeing != [] {
      var last := |agreeing| - 1;
      SumOfColumn(agreeing[..last], vectors, dims, column[..last], d);
    }
  }

  /** In each dimension the centroid is the mean of the agreeing vectors, and of them alone. */
  lemma CentroidIsMean(agreeing: seq<nat>, vectors: seq<Vector>, column: seq<real>, d: nat)
    requires SameDims(vectors) && forall k | 0 <= k < |agreeing| :: agreeing[k] < |vectors|
    requires d < |CentroidOf(agreeing, vectors)| && |column| == |agreeing| > 0
    requires forall k | 0 <= k < |agreeing| :: column[k] == vectors[agreeing[k]][d]
    ensures CentroidOf(agreeing, vectors)[d] * |agreeing| as real == Sum(column)
  {
    SumOfColumn(agreeing, vectors, Dims(vectors), column, d);
    var sum, n := SumOf(agreeing, vectors, Dims(vectors))[d], |agreeing| as real;
    assert sum / n * n == sum;
  }

  lemma {:induction false} DotAdd(a: Vector, b: Vector, v: Vector)
    requires |a| == |b| == |v|
    ensures Dot(Add(a, b), v) == Dot(a, v) + Dot(b, v)
  {
    if |a| > 0 {
      var n := |a| - 1;
      assert Add(a, b)[..n] == Add(a[..n], b[..n]);
      DotAdd(a[..n], b[..n], v[..n]);
    }
  }

  lemma {:induction false} DotDivide(a: Vector, d: real, v: Vector)
    requires |a| == |v| && d != 0.0
    ensures Dot(DivideBy(a, d), v) * d == Dot(a, v)
  {
    if |a| > 0 {
      var n := |a| - 1;
      assert DivideBy(a, d)[..n] == DivideBy(a[..n], d);
      DotDivide(a[..n], d, v[..n]);
      assert a[n] / d * d == a[n];
    }
  }

  /** Every vector that has a positive dot product with each summand has one with their sum. */
  lemma {:induction false} DotSum(agreeing: seq<nat>, vectors: seq<Vector>, dims: nat, v: Vector)
    requires |v| == dims
    requires forall k | 0 <= k < |agreeing| ::
      agreeing[k] < |vectors| && |vectors[agreeing[k]]| == dims && Dot(vectors[agreeing[k]], v) > 0.0
    ensures Dot(SumOf(agreeing, vectors, dims), v) >= 0.0
    ensures agreeing != [] ==> Dot(SumOf(agreeing, vectors, dims), v) > 0.0
  {
    if agreeing == [] {
      DotZero(SumOf(agreeing, vectors, dims), v);
    } else {
      var last := |agreeing| - 1;
      DotSum(agreeing[..last], vectors, dims, v);
      DotAdd(SumOf(agreeing[..last], vectors, dims), vectors[agreeing[last]], v);
    }
  }

  /** Members of a set whose pairs all have positive cosine point the same way as the
      centroid of the set. */
  lemma CentroidPointsAtMembers(sqrt: real -> real, agreeing: seq<nat>, vectors: seq<Vector>, k: nat)
    requires IsRoot(sqrt) && SameDims(vectors) && |agreeing| >= 2 && k < |agreeing|
    requires forall a | 0 <= a < |agreeing| :: agreeing[a] < |vectors|
    requires forall a, b | 0 <= a < b < |agreeing| ::
      Cosine(sqrt, vectors[agreeing[a]], vectors[agreeing[b]]) > 0.0
    ensures Cosine(sqrt, CentroidOf(agreeing, vectors), vectors[agreeing[k]]) > 0.0
  {
    var v, dims, center := vectors[agreeing[k]], Dims(vectors), CentroidOf(agreeing, vectors);
    forall a | 0 <= a < |agreeing|
      ensures Dot(vectors[agreeing[a]], v) > 0.0
    {
      MemberDotPositive(sqrt, agreeing, vectors, a, k);
    }
    DotSum(agreeing, vectors, dims, v);
    DotDivide(SumOf(agreeing, vectors, dims), |agreeing| as real, v);
    assert Dot(center, v) > 0.0;
    CosinePositive(sqrt, center, v);
  }

  lemma MemberDotPositive(sqrt: real -> real, agreeing: seq<nat>, vectors: seq<Vector>, a: nat, k: nat)
    requires IsRoot(sqrt) && SameDims(vectors) && |agreeing| >= 2 && a < |agreeing| && k < |agreeing|
    requires forall a | 0 <= a < |agreeing| :: agreeing[a] < |vectors|
    requires forall a, b | 0 <= a < b < |agreeing| ::
      Cosine(sqrt, vectors[agreeing[a]], vectors[agreeing[b]]) > 0.0
    ensures Dot(vectors[agreeing[a]], vectors[agreeing[k]]) > 0.0
  {
    var v := vectors[agreeing[k]];
    if a == k {
      var other := vectors[agreeing[if k == 0 then 1 else 0]];
      CosineSymmetric(sqrt, v, other);
      CosinePositive(sqrt, v, other);
      NonZeroNorm(sqrt, v, other);
    } else {
      CosineSymmetric(sqrt, v, vectors[agreeing[a]]);
      CosinePositive(sqrt, vectors[agreeing[a]], v);
    }
  }
}
