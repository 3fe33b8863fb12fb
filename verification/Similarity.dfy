/** Cosine similarity, over exact reals. */
module Similarity {

  /** The sum of the first n numbers. */
  function Sum(s: seq<real>, n: nat): real
    requires n <= |s|
  {
    if n == 0 then 0.0 else Sum(s, n - 1) + s[n - 1]
  }

  function Terms(a: seq<real>, b: seq<real>): seq<real>
    requires |a| == |b|
  {
    seq(|a|, i requires 0 <= i < |a| => a[i] * b[i])
  }

  function Dot(a: seq<real>, b: seq<real>): real
    requires |a| == |b|
  {
    Sum(Terms(a, b), |a|)
  }

  /** y is the square root math.Sqrt stands for. */
  predicate IsRoot(y: real, x: real) {
    y >= 0.0 && y * y == x
  }

  /** Cosine. math.Sqrt is a parameter, exact on what it is given. */
  method Cosine(a: seq<real>, b: seq<real>, sqrt: real -> real) returns (c: real)
    requires forall x :: x >= 0.0 ==> IsRoot(sqrt(x), x)
    ensures |a| != |b| ==> c == 0.0
    ensures |a| == |b| && (Dot(a, a) == 0.0 || Dot(b, b) == 0.0) ==> c == 0.0
    ensures |a| == |b| && Dot(a, a) != 0.0 && Dot(b, b) != 0.0 ==>
              sqrt(Dot(a, a)) * sqrt(Dot(b, b)) > 0.0 && c * (sqrt(Dot(a, a)) * sqrt(Dot(b, b))) == Dot(a, b)
    ensures -1.0 <= c <= 1.0
    ensures a == b && Dot(a, a) != 0.0 ==> c == 1.0
  {
    if |a| != |b| || |a| == 0 {
      return 0.0;
    }
    var dot, magA, magB := Accumulate(a, b);
    if magA == 0.0 || magB == 0.0 {
      return 0.0;
    }
    var rootA, rootB := sqrt(magA), sqrt(magB);
    NormPositive(a);
    NormPositive(b);
    assert IsRoot(rootA, magA) && IsRoot(rootB, magB);
    CosineBounds(a, b, rootA, rootB);
    c := dot / (rootA * rootB);
  }

  /** The loop of Cosine. */
  method Accumulate(a: seq<real>, b: seq<real>) returns (dot: real, magA: real, magB: real)
    requires |a| == |b|
    ensures dot == Dot(a, b) && magA == Dot(a, a) && magB == Dot(b, b)
  {
    dot, magA, magB := 0.0, 0.0, 0.0;
    for i := 0 to |a|
      invariant dot == Sum(Terms(a, b), i) && magA == Sum(Terms(a, a), i) && magB == Sum(Terms(b, b), i)
    {
      dot := dot + a[i] * b[i];
      magA := magA + a[i] * a[i];
      magB := magB + b[i] * b[i];
    }
  }

  lemma CosineBounds(a: seq<real>, b: seq<real>, rootA: real, rootB: real)
    requires |a| == |b| && Dot(a, a) > 0.0 && Dot(b, b) > 0.0
    requires IsRoot(rootA, Dot(a, a)) && IsRoot(rootB, Dot(b, b))
    ensures rootA * rootB > 0.0
    ensures var c := Dot(a, b) / (rootA * rootB);
      -1.0 <= c <= 1.0 && c * (rootA * rootB) == Dot(a, b) && (a == b ==> c == 1.0)
  {
    ProductPositive(rootA, rootB, Dot(a, a), Dot(b, b));
    CauchySchwarz(a, b);
    RatioBound(Dot(a, b), rootA * rootB);
    if a == b {
      SameRoot(rootA, rootB, Dot(a, a));
    }
  }

  lemma SameRoot(x: real, y: real, square: real)
    requires IsRoot(x, square) && IsRoot(y, square) && square > 0.0
    ensures x * y == square
  {
    assert (x - y) * (x + y) == x * x - y * y;
    if x > y { Positive(x - y, x + y); }
    if x < y { assert (y - x) * (x + y) == y * y - x * x; Positive(y - x, x + y); }
  }

  lemma ProductPositive(rootA: real, rootB: real, magA: real, magB: real)
    requires IsRoot(rootA, magA) && IsRoot(rootB, magB) && magA > 0.0 && magB > 0.0
    ensures rootA > 0.0 && rootB > 0.0 && rootA * rootB > 0.0
    ensures rootA * rootB * (rootA * rootB) == magA * magB
  {
    assert rootA != 0.0 && rootB != 0.0;
    assert rootA * rootB * (rootA * rootB) == (rootA * rootA) * (rootB * rootB);
  }

  lemma {:induction false} SumPositive(s: seq<real>, n: nat)
    requires n <= |s| && forall i :: 0 <= i < n ==> s[i] >= 0.0
    ensures Sum(s, n) >= 0.0
  {
    if n > 0 { SumPositive(s, n - 1); }
  }

  lemma NormPositive(a: seq<real>)
    ensures Dot(a, a) >= 0.0
  {
    forall i | 0 <= i < |a| ensures Terms(a, a)[i] >= 0.0 { SquareNotNegative(a[i]); }
    SumPositive(Terms(a, a), |a|);
  }

  lemma SquareNotNegative(x: real)
    ensures x * x >= 0.0
  {
  }

  /** The vector a - t b. */
  function Minus(a: seq<real>, t: real, b: seq<real>): seq<real>
    requires |a| == |b|
  {
    seq(|a|, i requires 0 <= i < |a| => a[i] - t * b[i])
  }

  lemma {:induction false} SumOfThree(p: seq<real>, x: seq<real>, y: seq<real>, z: seq<real>, n: nat)
    requires n <= |p| && n <= |x| && n <= |y| && n <= |z|
    requires forall i :: 0 <= i < n ==> p[i] == x[i] + y[i] + z[i]
    ensures Sum(p, n) == Sum(x, n) + Sum(y, n) + Sum(z, n)
  {
    if n > 0 { SumOfThree(p, x, y, z, n - 1); }
  }

  function Scaled(u: real, s: seq<real>): seq<real> {
    seq(|s|, i requires 0 <= i < |s| => u * s[i])
  }

  lemma {:induction false} SumScaled(u: real, s: seq<real>, n: nat)
    requires n <= |s|
    ensures Sum(Scaled(u, s), n) == u * Sum(s, n)
  {
    if n > 0 {
      SumScaled(u, s, n - 1);
      Distribute(u, Sum(s, n - 1), s[n - 1]);
    }
  }

  lemma MinusNorm(a: seq<real>, t: real, b: seq<real>)
    requires |a| == |b|
    ensures Dot(Minus(a, t, b), Minus(a, t, b)) == Quadratic(Dot(a, a), Dot(a, b), Dot(b, b), t)
  {
    var d := Minus(a, t, b);
    var x, y, z := Terms(a, a), Scaled(-2.0 * t, Terms(a, b)), Scaled(t * t, Terms(b, b));
    forall i | 0 <= i < |a| ensures Terms(d, d)[i] == x[i] + y[i] + z[i] { OneSquare(t, a[i], b[i]); }
    SumOfThree(Terms(d, d), x, y, z, |a|);
    SumScaled(-2.0 * t, Terms(a, b), |a|);
    SumScaled(t * t, Terms(b, b), |a|);
  }

  function Quadratic(aa: real, ab: real, bb: real, t: real): real {
    aa + -2.0 * t * ab + t * t * bb
  }

  lemma OneSquare(t: real, x: real, y: real)
    ensures (x - t * y) * (x - t * y) == x * x + -2.0 * t * (x * y) + t * t * (y * y)
  {
    Difference(x, t * y);
    assert x * (t * y) == t * (x * y);
    assert (t * y) * (t * y) == t * t * (y * y);
  }

  lemma Difference(x: real, u: real)
    ensures (x - u) * (x - u) == x * x - 2.0 * (x * u) + u * u
  {
  }

  lemma Distribute(u: real, p: real, q: real)
    ensures u * (p + q) == u * p + u * q
  {
  }

  /** The square of the dot product never exceeds the product of the squared magnitudes. */
  lemma CauchySchwarz(a: seq<real>, b: seq<real>)
    requires |a| == |b|
    ensures Dot(a, b) * Dot(a, b) <= Dot(a, a) * Dot(b, b)
  {
    var ab, aa, bb := Dot(a, b), Dot(a, a), Dot(b, b);
    NormPositive(b);
    if bb > 0.0 {
      var t := ab / bb;
      NormPositive(Minus(a, t, b));
      MinusNorm(a, t, b);
      Discriminant(ab, aa, bb, t);
    } else {
      ZeroNorm(a, b);
    }
  }

  lemma Discriminant(ab: real, aa: real, bb: real, t: real)
    requires bb > 0.0 && t == ab / bb && Quadratic(aa, ab, bb, t) >= 0.0
    ensures ab * ab <= aa * bb
  {
    assert t * bb == ab;
    assert t * t * bb == t * ab;
    assert aa - t * ab >= 0.0;
    assert (aa - t * ab) * bb >= 0.0;
    assert (aa - t * ab) * bb == aa * bb - ab * ab;
  }

  lemma Positive(x: real, y: real)
    requires x > 0.0 && y > 0.0
    ensures x * y > 0.0
  {
  }

  lemma SquarePositive(y: real, square: real)
    requires y != 0.0 && square == y * y
    ensures square > 0.0
  {
    var z := -y;
    assert z * z == square;
    if y > 0.0 { ProductIsPositive(y, y, square); } else { ProductIsPositive(z, z, square); }
  }

  lemma ProductIsPositive(x: real, y: real, product: real)
    requires x > 0.0 && y > 0.0 && product == x * y
    ensures product > 0.0
  {
  }

  /** A vector of zero magnitude is orthogonal to everything. */
  lemma {:induction false} SumZero(s: seq<real>, z: seq<real>, n: nat)
    requires n <= |s| && n <= |z| && Sum(s, n) <= 0.0 && forall i :: 0 <= i < n ==> s[i] >= 0.0
    requires forall i :: 0 <= i < n && s[i] == 0.0 ==> z[i] == 0.0
    ensures Sum(z, n) == 0.0
  {
    if n > 0 {
      SumPositive(s, n - 1);
      SumZero(s, z, n - 1);
    }
  }

  lemma ZeroNorm(a: seq<real>, b: seq<real>)
    requires |a| == |b| && Dot(b, b) <= 0.0
    ensures Dot(a, b) == 0.0
  {
    forall i | 0 <= i < |b| ensures Terms(b, b)[i] >= 0.0 && (Terms(b, b)[i] == 0.0 ==> Terms(a, b)[i] == 0.0) {
      SquareNotNegative(b[i]);
      if b[i] != 0.0 { SquarePositive(b[i], b[i] * b[i]); }
    }
    SumZero(Terms(b, b), Terms(a, b), |b|);
  }

  lemma RatioBound(dot: real, r: real)
    requires r > 0.0 && dot * dot <= r * r
    ensures var c := dot / r; -1.0 <= c <= 1.0 && c * r == dot
    ensures dot == r ==> dot / r == 1.0
  {
    var c := dot / r;
    assert c * r == dot;
    SquareBound(dot, r);
    assert (c - 1.0) * r == dot - r && (-1.0 - c) * r == -r - dot;
    if c > 1.0 { Positive(c - 1.0, r); }
    if c < -1.0 { Positive(-1.0 - c, r); }
    if dot == r { UnitRatio(c, r); }
  }

  lemma SquareBound(x: real, r: real)
    requires r > 0.0 && x * x <= r * r
    ensures -r <= x <= r
  {
    assert (x - r) * (x + r) == x * x - r * r;
    if x > r { Positive(x - r, x + r); }
    assert (-x - r) * (-x + r) == (x - r) * (x + r);
    if x < -r { Positive(-x - r, -x + r); }
  }

  lemma UnitRatio(c: real, r: real)
    requires r > 0.0 && c * r == r
    ensures c == 1.0
  {
    assert (c - 1.0) * r == 0.0 && (1.0 - c) * r == 0.0;
    if c > 1.0 { Positive(c - 1.0, r); }
    if c < 1.0 { Positive(1.0 - c, r); }
  }
}
