/** The number of end-to-end slots as the code computes it, with the IEEE 754 double that is nearest to 0.05 and the
    product rounded to a double again. The rounding never changes the number. */
module DoubleProduct {

  /** The double nearest to 0.05 is TWENTIETH / 2^57. */
  const TWENTIETH: nat := 7205759403792794
  const SCALE: nat := 0x200_0000_0000_0000

  function Pow2(k: nat): (p: nat)
    ensures p >= 1
  {
    if k == 0 then 1 else 2 * Pow2(k - 1)
  }

  /** The spacing exponent of the doubles around `p`: `p` has at most 53 binary digits above it. */
  function Exponent(p: nat): (k: nat)
    ensures p < 0x20_0000_0000_0000 * Pow2(k)
    ensures k > 0 ==> p >= 0x10_0000_0000_0000 * Pow2(k)
  {
    if p < 0x20_0000_0000_0000 then 0 else 1 + Exponent(p / 2)
  }

  /** The multiple of `g` nearest to `p`; of two, the even one. */
  function Nearest(p: nat, g: nat): nat
    requires g > 0
  {
    var q, r := p / g, p % g;
    if 2 * r < g || (2 * r == g && q % 2 == 0) then q * g else (q + 1) * g
  }

  /** `size * 0.05` as a double, in units of 1 / 2^57. */
  function Product(n: nat): nat {
    Nearest(n * TWENTIETH, Pow2(Exponent(n * TWENTIETH)))
  }

  /** `Math.ceil(size * 0.05)`. */
  function CeilOfProduct(n: nat): nat {
    (Product(n) + SCALE - 1) / SCALE
  }

  lemma NearestIsClose(p: nat, g: nat)
    requires g > 0
    ensures 2 * p <= 2 * Nearest(p, g) + g && 2 * Nearest(p, g) <= 2 * p + g
  {
    var q, r := p / g, p % g;
    assert p == q * g + r;
    assert (q + 1) * g == q * g + g;
  }

  lemma ProductGrows(a: nat, b: nat, g: nat)
    requires a < b
    ensures a * g + g <= b * g
  {
    assert b * g == a * g + (b - a) * g;
    assert (b - a) * g == g + (b - a - 1) * g;
  }

  lemma QuotientIsUnique(a: nat, b: nat, g: nat, r: nat, t: nat)
    requires a * g + r == b * g + t && r < g && t < g
    ensures a == b && r == t
  {
    if a < b {
      ProductGrows(a, b, g);
    } else if b < a {
      ProductGrows(b, a, g);
    }
  }

  lemma NearestMultiple(m: nat, g: nat, r: nat)
    requires g > 0 && 2 * r < g
    ensures Nearest(m * g + r, g) == m * g
  {
    var p := m * g + r;
    var q, t := p / g, p % g;
    assert p == q * g + t;
    QuotientIsUnique(q, m, g, t, r);
  }

  /** Smaller powers of two divide larger ones. */
  lemma {:induction false} Pow2Divides(k: nat, n: nat) returns (m: nat)
    requires k <= n
    ensures Pow2(n) == m * Pow2(k)
  {
    if k == n {
      m := 1;
    } else {
      m := Pow2Divides(k, n - 1);
      m := 2 * m;
    }
  }

  lemma {:induction false} Pow2Grows(k: nat, n: nat)
    requires k <= n
    ensures Pow2(k) <= Pow2(n)
  {
    if k < n {
      Pow2Grows(k, n - 1);
    }
  }

  lemma SomePowers()
    ensures Pow2(34) == 0x4_0000_0000 && Pow2(57) == SCALE
  {
    assert Pow2(10) == 0x400;
    assert Pow2(20) == 0x10_0000;
    assert Pow2(30) == 0x4000_0000;
    assert Pow2(40) == 0x100_0000_0000;
    assert Pow2(50) == 0x4_0000_0000_0000;
  }

  /** For counts below 2^32 the doubles around the product are at most 2^33 units apart. */
  lemma Spacing(n: nat) returns (k: nat)
    requires 0 < n < 0x1_0000_0000
    ensures k == Exponent(n * TWENTIETH) && k < 34 && Pow2(k) <= 0x4_0000_0000
  {
    k := Exponent(n * TWENTIETH);
    SomePowers();
    if k >= 34 {
      Pow2Grows(34, k);
    }
    Pow2Grows(k, 34);
  }

  /** At a multiple of twenty the product is the exact twentieth. */
  lemma WholeTwentieth(c: nat)
    requires 0 < 20 * c < 0x1_0000_0000
    ensures Product(20 * c) == c * SCALE
  {
    hide Exponent, Pow2, Nearest;
    var p := 20 * c * TWENTIETH;
    var k := Spacing(20 * c);
    SomePowers();
    var m := Pow2Divides(k, 57);
    var g := Pow2(k);
    assert p == c * SCALE + 8 * c;
    assert c * SCALE == c * (m * g) == (c * m) * g;
    NearestMultiple(c * m, g, 8 * c);
  }

  /** Rounding up the double product is rounding up the exact twentieth. */
  lemma CeilIsExact(n: nat)
    requires n < 0x1_0000_0000
    ensures CeilOfProduct(n) == (n + 19) / 20
  {
    hide Exponent, Pow2, Nearest, Product;
    if n == 0 {
      NothingTimes();
    } else if n % 20 == 0 {
      WholeTwentieth(n / 20);
      assert (n / 20 * SCALE + SCALE - 1) / SCALE == n / 20;
    } else {
      BetweenTwentieths(n);
    }
  }

  lemma NothingTimes()
    ensures Product(0) == 0
  {
  }

  lemma BetweenTwentieths(n: nat)
    requires 0 < n < 0x1_0000_0000 && n % 20 != 0
    ensures CeilOfProduct(n) == (n + 19) / 20
  {
    hide Exponent, Pow2, Nearest;
    var k := Spacing(n);
    NearestIsClose(n * TWENTIETH, Pow2(k));
    var c := (n + 19) / 20;
    assert 20 * (c - 1) < n < 20 * c;
    assert (c - 1) * SCALE < Product(n) <= c * SCALE;
  }
}
