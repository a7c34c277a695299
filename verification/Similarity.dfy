/** Cosine similarity over the reals; `root` is the square root. */
module Similarity {

  /** `r` is the square root of `x`. */
  predicate IsRootOf(r: real, x: real) {
    r >= 0.0 && r * r == x
  }

  ghost predicate IsRoot(root: real -> real) {
    forall x | x >= 0.0 :: IsRootOf(root(x), x)
  }

  /** The sum of the first `n` products. */
  function Dot(a: seq<real>, b: seq<real>, n: nat): real
    requires n <= |a| && n <= |b|
  {
    if n == 0 then 0.0 else Dot(a, b, n - 1) + a[n - 1] * b[n - 1]
  }

  lemma SquareIsPositive(x: real)
    ensures x * x >= 0.0
  {
  }

  lemma {:induction false} NormIsPositive(a: seq<real>, n: nat)
    requires n <= |a|
    ensures Dot(a, a, n) >= 0.0
  {
    if n > 0 {
      NormIsPositive(a, n - 1);
      SquareIsPositive(a[n - 1]);
    }
  }

  lemma RootOfNorm(a: seq<real>, root: real -> real)
    requires IsRoot(root)
    ensures var x := Dot(a, a, |a|); x >= 0.0 && IsRootOf(root(x), x) && (x != 0.0 ==> root(x) > 0.0)
  {
    hide Dot, IsRootOf;
    NormIsPositive(a, |a|);
    var x := Dot(a, a, |a|);
    if x != 0.0 {
      RootIsPositive(root(x), x);
    }
  }

  lemma RootIsPositive(r: real, x: real)
    requires IsRootOf(r, x) && x != 0.0
    ensures r > 0.0
  {
  }

  lemma PositiveProduct(x: real, y: real)
    requires x > 0.0 && y > 0.0
    ensures x * y > 0.0
  {
  }

  /** A square vanishes only with its root. */
  lemma SquareIs(r: real, x: real)
    requires x == r * r
    ensures if r == 0.0 then x == 0.0 else x > 0.0
  {
    if r > 0.0 {
      PositiveFactors(r, r, x);
    } else if r < 0.0 {
      PositiveFactors(-r, -r, x);
    }
  }

  lemma PositiveFactors(r: real, s: real, x: real)
    requires r > 0.0 && s > 0.0 && x == r * s
    ensures x > 0.0
  {
    PositiveProduct(r, s);
  }

  function Normalise(d: real, r: real, s: real): real
    requires r > 0.0 && s > 0.0
  {
    PositiveProduct(r, s);
    d / (r * s)
  }

  function Cosine(a: seq<real>, b: seq<real>, root: real -> real): real
    requires IsRoot(root)
  {
    if |a| != |b| || |a| == 0 then 0.0
    else
      var x, y := Dot(a, a, |a|), Dot(b, b, |b|);
      RootOfNorm(a, root);
      RootOfNorm(b, root);
      if x == 0.0 || y == 0.0 then 0.0 else Normalise(Dot(a, b, |a|), root(x), root(y))
  }

  /** What one more coordinate adds: twice the mixed product is at most the two squares. */
  lemma CrossTerm(d: real, p: real, q: real, u: real, v: real)
    requires p >= 0.0 && q >= 0.0 && d * d <= p * q
    ensures 2.0 * d * u * v <= p * (v * v) + q * (u * u)
  {
    var s, t := p * (v * v), q * (u * u);
    var c, w := d * (u * v), u * v;
    SquareIsPositive(v);
    SquareIsPositive(u);
    SquareIsPositive(w);
    ProductIsPositive(p, v * v);
    ProductIsPositive(q, u * u);
    calc {
      c * c;
      (d * d) * (w * w);
    <= { ScaleUp(d * d, p * q, w * w); }
      (p * q) * (w * w);
      { Regroup(p, q, u, v); }
      s * t;
    }
    TwiceRootOfProduct(c, s, t);
    assert 2.0 * d * u * v == 2.0 * c;
  }

  lemma Regroup(p: real, q: real, u: real, v: real)
    ensures (p * q) * ((u * v) * (u * v)) == (p * (v * v)) * (q * (u * u))
  {
    var uu, vv := u * u, v * v;
    assert (u * v) * (u * v) == uu * vv;
    assert (p * q) * (uu * vv) == (p * vv) * (q * uu);
  }

  lemma ProductIsPositive(x: real, y: real)
    requires x >= 0.0 && y >= 0.0
    ensures x * y >= 0.0
  {
  }

  lemma ScaleUp(x: real, y: real, k: real)
    requires x <= y && k >= 0.0
    ensures x * k <= y * k
  {
  }

  /** The arithmetic and geometric means. */
  lemma TwiceRootOfProduct(c: real, s: real, t: real)
    requires s >= 0.0 && t >= 0.0 && c * c <= s * t
    ensures 2.0 * c <= s + t
  {
    var m := s + t;
    SquareIsPositive(s - t);
    assert m * m == (s - t) * (s - t) + 4.0 * (s * t);
    assert (2.0 * c) * (2.0 * c) <= m * m by {
      assert (2.0 * c) * (2.0 * c) == 4.0 * (c * c);
    }
    if 2.0 * c > m {
      LargerSquare(m, 2.0 * c);
    }
  }

  lemma LargerSquare(x: real, y: real)
    requires 0.0 <= x < y
    ensures x * x < y * y
  {
    assert y * y - x * x == (y - x) * (y + x);
    PositiveProduct(y - x, y + x);
  }

  lemma DotNext(a: seq<real>, b: seq<real>, n: nat)
    requires 0 < n <= |a| && n <= |b|
    ensures Dot(a, b, n) == Dot(a, b, n - 1) + a[n - 1] * b[n - 1]
  {
  }

  /** The Cauchy-Schwarz inequality. */
  lemma {:induction false} CauchySchwarz(a: seq<real>, b: seq<real>, n: nat)
    requires n <= |a| && n <= |b|
    ensures Dot(a, b, n) * Dot(a, b, n) <= Dot(a, a, n) * Dot(b, b, n)
  {
    if n > 0 {
      hide Dot;
      CauchySchwarz(a, b, n - 1);
      NormIsPositive(a, n - 1);
      NormIsPositive(b, n - 1);
      DotNext(a, b, n);
      DotNext(a, a, n);
      DotNext(b, b, n);
      var d, p, q, u, v := Dot(a, b, n - 1), Dot(a, a, n - 1), Dot(b, b, n - 1), a[n - 1], b[n - 1];
      CrossTerm(d, p, q, u, v);
      Expand(d, p, q, u, v);
    }
  }

  lemma Expand(d: real, p: real, q: real, u: real, v: real)
    requires d * d <= p * q && 2.0 * d * u * v <= p * (v * v) + q * (u * u)
    ensures (d + u * v) * (d + u * v) <= (p + u * u) * (q + v * v)
  {
    var w, uu, vv := u * v, u * u, v * v;
    assert (d + w) * (d + w) == d * d + 2.0 * (d * w) + w * w;
    assert (p + uu) * (q + vv) == p * q + p * vv + uu * q + uu * vv;
    assert w * w == uu * vv;
    assert 2.0 * d * u * v == 2.0 * (d * w);
  }

  /** `d` is at most the product of the roots of `x` and `y`. */
  predicate Bounded(d: real, x: real, y: real) {
    d * d <= x * y
  }

  lemma DotIsBounded(a: seq<real>, b: seq<real>)
    requires |a| == |b|
    ensures Bounded(Dot(a, b, |a|), Dot(a, a, |a|), Dot(b, b, |b|))
  {
    hide Dot;
    CauchySchwarz(a, b, |a|);
  }

  lemma Normalised(d: real, x: real, y: real, r: real, s: real)
    requires Bounded(d, x, y) && r > 0.0 && s > 0.0 && IsRootOf(r, x) && IsRootOf(s, y)
    ensures -1.0 <= Normalise(d, r, s) <= 1.0
  {
    var m := r * s;
    PositiveProduct(r, s);
    assert m * m == x * y by {
      assert m * m == (r * r) * (s * s);
    }
    if d > m {
      LargerSquare(m, d);
    }
    assert (-d) * (-d) == d * d;
    if -d > m {
      LargerSquare(m, -d);
    }
    assert -m <= d <= m;
    Quotient(d, m);
  }

  lemma Quotient(d: real, m: real)
    requires m > 0.0 && -m <= d <= m
    ensures -1.0 <= d / m <= 1.0
  {
  }

  /** Every similarity lies between -1 and 1. */
  lemma CosineInRange(a: seq<real>, b: seq<real>, root: real -> real)
    requires IsRoot(root)
    ensures -1.0 <= Cosine(a, b, root) <= 1.0
  {
    hide Dot, IsRoot, IsRootOf, Normalise, Bounded;
    var x, y := Dot(a, a, |a|), Dot(b, b, |b|);
    if |a| == |b| && |a| != 0 && x != 0.0 && y != 0.0 {
      RootOfNorm(a, root);
      RootOfNorm(b, root);
      DotIsBounded(a, b);
      Normalised(Dot(a, b, |a|), x, y, root(x), root(y));
    }
  }

  /** The similarity times both lengths is the dot product, and it is 0 when a length vanishes or the dimensions differ. */
  lemma CosineExactly(a: seq<real>, b: seq<real>, root: real -> real)
    requires IsRoot(root)
    ensures var c := Cosine(a, b, root);
            if |a| != |b| || Dot(a, a, |a|) == 0.0 || Dot(b, b, |b|) == 0.0 then c == 0.0
            else var x, y := root(Dot(a, a, |a|)), root(Dot(b, b, |b|));
                 IsRootOf(x, Dot(a, a, |a|)) && IsRootOf(y, Dot(b, b, |b|)) && c * (x * y) == Dot(a, b, |a|)
  {
    hide Dot, IsRoot, IsRootOf, Normalise;
    var x, y := Dot(a, a, |a|), Dot(b, b, |b|);
    if |a| == |b| && x != 0.0 && y != 0.0 {
      NotEmpty(a);
      RootOfNorm(a, root);
      RootOfNorm(b, root);
      NormaliseTimes(Dot(a, b, |a|), root(x), root(y));
    }
  }

  lemma NormaliseTimes(d: real, r: real, s: real)
    requires r > 0.0 && s > 0.0
    ensures Normalise(d, r, s) * (r * s) == d
  {
    PositiveProduct(r, s);
    QuotientTimes(d, r * s);
  }

  lemma QuotientTimes(d: real, n: real)
    requires n > 0.0
    ensures d / n * n == d
  {
  }

  /** An embedding other than the zero vector has similarity 1 with itself. */
  lemma SelfSimilarity(a: seq<real>, root: real -> real)
    requires IsRoot(root) && Dot(a, a, |a|) != 0.0
    ensures Cosine(a, a, root) == 1.0
  {
    hide Dot, IsRoot, IsRootOf, Normalise;
    NotEmpty(a);
    RootOfNorm(a, root);
    NormaliseSelf(Dot(a, a, |a|), root(Dot(a, a, |a|)));
  }

  lemma NormaliseSelf(x: real, r: real)
    requires r > 0.0 && IsRootOf(r, x)
    ensures Normalise(x, r, r) == 1.0
  {
    SquareIs(r, x);
    QuotientOfItself(x);
  }

  lemma QuotientOfItself(x: real)
    requires x > 0.0
    ensures x / x == 1.0
  {
    var q := x / x;
    assert q * x == x;
  }

  lemma NotEmpty(a: seq<real>)
    requires Dot(a, a, |a|) != 0.0
    ensures |a| > 0
  {
  }

  method CosineSimilarity(a: seq<real>, b: seq<real>, root: real -> real) returns (r: real)
    requires IsRoot(root)
    ensures r == Cosine(a, b, root)
  {
    if |a| != |b| || |a| == 0 {
      return 0.0;
    }
    var dotProduct, normA, normB := 0.0, 0.0, 0.0;
    for i := 0 to |a|
      invariant dotProduct == Dot(a, b, i) && normA == Dot(a, a, i) && normB == Dot(b, b, i)
    {
      dotProduct := dotProduct + a[i] * b[i];
      normA := normA + a[i] * a[i];
      normB := normB + b[i] * b[i];
    }
    if normA == 0.0 || normB == 0.0 {
      return 0.0;
    }
    RootOfNorm(a, root);
    RootOfNorm(b, root);
    PositiveProduct(root(normA), root(normB));
    return dotProduct / (root(normA) * root(normB));
  }
}
