/** Bounds on logarithms of fractions, without logarithms: (n / d)^e against a power of two. */
module LogBounds {
  import opened Powers

  /** (n / d)^e <= 2^(a - b): e times the binary logarithm of n / d is at most a - b. */
  ghost predicate LogLe(n: nat, d: nat, e: nat, a: nat, b: nat)
  {
    Pow2(b) * Pow(n, e) <= Pow2(a) * Pow(d, e)
  }

  // ---- Powers ----

  lemma {:induction false} PowMonotone(x: nat, y: nat, e: nat)
    requires x <= y
    ensures Pow(x, e) <= Pow(y, e)
    ensures x < y && e > 0 ==> Pow(x, e) < Pow(y, e)
  {
    if e > 0 {
      PowMonotone(x, y, e - 1);
      MulMono(x, Pow(x, e - 1), x, Pow(y, e - 1));
      if x < y {
        PowPositive(y, e - 1);
        MulMono(x + 1, Pow(y, e - 1), y, Pow(y, e - 1));
      }
    }
  }

  lemma {:induction false} PowProduct(x: nat, y: nat, e: nat)
    ensures Pow(x * y, e) == Pow(x, e) * Pow(y, e)
  {
    if e > 0 {
      PowProduct(x, y, e - 1);
      Interchange(x, y, Pow(x, e - 1), Pow(y, e - 1));
    }
  }

  lemma Interchange(a: nat, b: nat, c: nat, d: nat)
    ensures (a * b) * (c * d) == (a * c) * (b * d)
  {
    MulAssoc(a * b, c, d);
    MulAssoc(a, b, c);
    MulAssoc(a, c, b);
    MulAssoc(a * c, b, d);
  }

  lemma {:induction false} PowPower(x: nat, e: nat, k: nat)
    ensures Pow(x, e * k) == Pow(Pow(x, e), k)
    decreases k
  {
    if k > 0 {
      PowPower(x, e, k - 1);
      assert e * k == e + e * (k - 1);
      PowAdd(x, e, e * (k - 1));
    } else {
      assert e * k == 0;
    }
  }

  lemma {:induction false} Pow2Power(a: nat, k: nat)
    ensures Pow2(a * k) == Pow(Pow2(a), k)
    decreases k
  {
    if k > 0 {
      Pow2Power(a, k - 1);
      assert a * k == a + a * (k - 1);
      Pow2Add(a, a * (k - 1));
    } else {
      assert a * k == 0;
    }
  }

  lemma {:induction false} Pow2Grows(a: nat, b: nat)
    requires a <= b
    ensures Pow2(a) <= Pow2(b)
    decreases b - a
  {
    if a < b {
      Pow2Grows(a, b - 1);
    }
  }

  lemma MulStrict(p: nat, a: nat, b: nat)
    requires p > 0 && a < b
    ensures p * a < p * b
  {
    MulLeft(p, a + 1, b);
  }

  // ---- Calculating with bounds ----

  /** Fractions multiply, bounds add. */
  lemma Times(n1: nat, d1: nat, a1: nat, b1: nat, n2: nat, d2: nat, a2: nat, b2: nat, e: nat)
    requires LogLe(n1, d1, e, a1, b1) && LogLe(n2, d2, e, a2, b2)
    ensures LogLe(n1 * n2, d1 * d2, e, a1 + a2, b1 + b2)
  {
    PowProduct(n1, n2, e);
    PowProduct(d1, d2, e);
    Pow2Add(a1, a2);
    Pow2Add(b1, b2);
    hide Pow, Pow2;
    Interchange(Pow2(b1), Pow2(b2), Pow(n1, e), Pow(n2, e));
    Interchange(Pow2(a1), Pow2(a2), Pow(d1, e), Pow(d2, e));
    MulMono(Pow2(b1) * Pow(n1, e), Pow2(b2) * Pow(n2, e), Pow2(a1) * Pow(d1, e), Pow2(a2) * Pow(d2, e));
  }

  lemma Raise(n: nat, d: nat, e: nat, a: nat, b: nat, k: nat)
    requires LogLe(n, d, e, a, b)
    ensures LogLe(n, d, e * k, a * k, b * k)
  {
    PowPower(n, e, k);
    PowPower(d, e, k);
    Pow2Power(a, k);
    Pow2Power(b, k);
    PowProduct(Pow2(b), Pow(n, e), k);
    PowProduct(Pow2(a), Pow(d, e), k);
    PowMonotone(Pow2(b) * Pow(n, e), Pow2(a) * Pow(d, e), k);
  }

  /** A bound on a fraction bounds every smaller one. */
  lemma Smaller(n': nat, d': nat, n: nat, d: nat, e: nat, a: nat, b: nat)
    requires LogLe(n, d, e, a, b) && d > 0 && n' * d <= n * d'
    ensures LogLe(n', d', e, a, b)
  {
    PowMonotone(n' * d, n * d', e);
    PowProduct(n', d, e);
    PowProduct(n, d', e);
    PowPositive(d, e);
    hide Pow, Pow2;
    CancelBase(Pow2(b), Pow2(a), Pow(n', e), Pow(d', e), Pow(n, e), Pow(d, e));
  }

  lemma CancelBase(p: nat, q: nat, n': nat, d': nat, n: nat, d: nat)
    requires d > 0 && n' * d <= n * d' && p * n <= q * d
    ensures p * n' <= q * d'
  {
    MulLeft(p, n' * d, n * d');
    MulAssoc(p, n', d);
    MulAssoc(p, n, d');
    MulLeft(d', p * n, q * d);
    assert (p * n') * d <= (q * d) * d';
    MulAssoc(q, d, d');
    MulAssoc(q, d', d);
    assert (p * n') * d <= (q * d') * d;
    Cancel(p * n', q * d', d);
  }

  /** A fraction above one has a positive logarithm. */
  lemma Compare(n: nat, d: nat, e: nat, a: nat, b: nat)
    requires LogLe(n, d, e, a, b) && 0 < d <= n
    ensures b <= a
    ensures d < n && e > 0 ==> b < a
  {
    PowMonotone(d, n, e);
    PowPositive(d, e);
    if a <= b {
      Pow2Grows(a, b);
      hide Pow, Pow2;
      MulMono(Pow2(a), Pow(d, e), Pow2(b), Pow(d, e));
      if d < n && e > 0 {
        MulStrict(Pow2(b), Pow(d, e), Pow(n, e));
      }
    }
    if a < b {
      assert Pow2(b) == 2 * Pow2(b - 1);
      Pow2Grows(a, b - 1);
      hide Pow, Pow2;
      MulMono(Pow2(a) + 1, Pow(d, e), Pow2(b), Pow(n, e));
    }
  }

  /** Bernoulli's inequality, for d = n - g: (d / n)^e >= 1 - e * g / n. */
  lemma {:induction false} Bernoulli(n: nat, g: nat, e: nat)
    requires g <= n
    ensures n * Pow(n - g, e) >= Pow(n, e) * (n - e * g)
  {
    if e > 0 {
      Bernoulli(n, g, e - 1);
      BernoulliStep(n, g, e - 1, Pow(n, e - 1), Pow(n - g, e - 1));
    }
  }

  lemma BernoulliStep(n: nat, g: nat, f: nat, p: nat, q: nat)
    requires g <= n && n * q >= p * (n - f * g)
    ensures n * ((n - g) * q) >= (n * p) * (n - (f + 1) * g)
  {
    var d, h := n - g, f * g;
    assert (f + 1) * g == h + g;
    MulLeft(d, p * (n - h), n * q);
    SwapFactors(n, d, q);
    SwapFactors(d, p, n - h);
    ExpandProduct(n, g, h);
    MulMono(0, 0, g, h);
    MulLeft(p, n * (n - (h + g)), d * (n - h));
    MulAssoc(p, n, n - (h + g));
  }

  lemma SwapFactors(a: int, b: int, c: int)
    ensures a * (b * c) == b * (a * c)
  {
  }

  lemma ExpandProduct(n: int, g: int, h: int)
    ensures (n - g) * (n - h) == n * (n - (h + g)) + g * h
  {
  }

  /** Raised to a power this small, a fraction just above one does not double. */
  lemma AtMostDoubles(n: nat, d: nat, e: nat)
    requires 0 < d <= n && 2 * (e * (n - d)) <= n
    ensures LogLe(n, d, e, 1, 0)
  {
    Bernoulli(n, n - d, e);
    assert Pow2(1) == 2 && Pow2(0) == 1;
    var p, q, r := Pow(n, e), Pow(d, e), n - e * (n - d);
    hide Pow, Pow2;
    HalfAtLeast(n, p, q, r);
  }

  lemma HalfAtLeast(n: nat, p: nat, q: nat, r: nat)
    requires 0 < n <= 2 * r && p * r <= n * q
    ensures p <= 2 * q
  {
    MulLeft(p, n, 2 * r);
    SwapFactors(p, 2, r);
    MulAssoc(2, q, n);
    Cancel(p, 2 * q, n);
  }

  lemma LogOfTwo(e: nat)
    ensures LogLe(2, 1, e, e, 0) && LogLe(1, 2, e, 0, e)
  {
    Pow2Power(1, e);
    PowOfOne(e);
  }

  lemma {:induction false} PowOfOne(e: nat)
    ensures Pow(1, e) == 1
  {
    if e > 0 {
      PowOfOne(e - 1);
    }
  }

  /** The square of a fraction, raised to `e`, is the fraction raised to `2 * e`. */
  lemma Square(n: nat, d: nat, e: nat, a: nat, b: nat)
    requires LogLe(n * n, d * d, e, a, b)
    ensures LogLe(n, d, 2 * e, a, b)
  {
    PowProduct(n, n, e);
    PowProduct(d, d, e);
    PowAdd(n, e, e);
    PowAdd(d, e, e);
  }

  lemma DropBits(n: nat, d: nat, e: nat, a: nat, b: nat, c: nat)
    requires LogLe(n, d, e, a + c, b + c)
    ensures LogLe(n, d, e, a, b)
  {
    Pow2Add(a, c);
    Pow2Add(b, c);
    hide Pow, Pow2;
    var p, q, r, x, y := Pow2(a), Pow2(b), Pow2(c), Pow(n, e), Pow(d, e);
    MulAssoc(r, q, x);
    MulAssoc(r, p, y);
    Cancel(q * x, p * y, r);
  }
}
