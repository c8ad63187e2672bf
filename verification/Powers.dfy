/** Powers of natural numbers and the bitwise operators the fixed-point and bitmap code uses. */
module Powers {

  function Pow2(n: nat): (r: nat)
    ensures r >= 1
  {
    if n == 0 then 1 else 2 * Pow2(n - 1)
  }

  function Pow(b: nat, e: nat): nat
  {
    if e == 0 then 1 else b * Pow(b, e - 1)
  }

  lemma {:induction false} Pow2Add(m: nat, n: nat)
    ensures Pow2(m + n) == Pow2(m) * Pow2(n)
  {
    if m > 0 {
      Pow2Add(m - 1, n);
      assert Pow2(m + n) == 2 * Pow2(m - 1 + n);
    }
  }

  lemma {:induction false} PowPositive(b: nat, e: nat)
    requires b >= 1
    ensures Pow(b, e) >= 1
  {
    if e > 0 {
      PowPositive(b, e - 1);
      assert b * Pow(b, e - 1) >= 1 * Pow(b, e - 1);
    }
  }

  lemma {:induction false} PowAdd(b: nat, m: nat, n: nat)
    ensures Pow(b, m + n) == Pow(b, m) * Pow(b, n)
  {
    if m > 0 {
      PowAdd(b, m - 1, n);
      var p, q := Pow(b, m - 1), Pow(b, n);
      assert Pow(b, m) == b * p && Pow(b, m + n) == b * Pow(b, m - 1 + n);
      hide Pow;
      MulAssoc(b, p, q);
    }
  }

  /** Bitwise or, bit by bit from the least significant end. */
  function Or(a: nat, b: nat): nat
    decreases a + b
  {
    if a == 0 && b == 0 then 0
    else (if a % 2 == 1 || b % 2 == 1 then 1 else 0) + 2 * Or(a / 2, b / 2)
  }

  /** Bitwise and. */
  function And(a: nat, b: nat): nat
    decreases a + b
  {
    if a == 0 && b == 0 then 0
    else (if a % 2 == 1 && b % 2 == 1 then 1 else 0) + 2 * And(a / 2, b / 2)
  }

  /** Bitwise exclusive or. */
  function Xor(a: nat, b: nat): nat
    decreases a + b
  {
    if a == 0 && b == 0 then 0
    else (if a % 2 != b % 2 then 1 else 0) + 2 * Xor(a / 2, b / 2)
  }

  /** Shift right. */
  function Shr(a: nat, i: nat): nat
  {
    DivNonnegative(a, Pow2(i));
    a / Pow2(i)
  }

  lemma DivNonnegative(a: int, d: int)
    requires a >= 0 && d > 0
    ensures a / d >= 0
  {
  }

  /** Whether bit `i` of `a` is set. */
  predicate Bit(a: nat, i: nat)
  {
    Shr(a, i) % 2 == 1
  }

  lemma HalfDiv(a: nat, i: nat)
    requires i >= 1
    ensures a / Pow2(i) == a / 2 / Pow2(i - 1)
  {
    var p := Pow2(i - 1);
    var q := a / 2 / p;
    DivBounds(a / 2, p);
    assert Pow2(i) * q == 2 * (p * q) <= a;
    assert Pow2(i) * (q + 1) == 2 * (p * (q + 1)) > a;
    DivUnique(a, Pow2(i), q);
  }

  lemma MulLeft(p: nat, a: int, b: int)
    requires a <= b
    ensures p * a <= p * b
  {
  }

  lemma MulMono(a: nat, b: nat, c: nat, d: nat)
    requires a <= c && b <= d
    ensures a * b <= c * d
  {
    MulLeft(a, b, d);
    MulLeft(d, a, c);
  }

  lemma Cancel(a: nat, b: nat, d: nat)
    requires d > 0 && a * d <= b * d
    ensures a <= b
  {
    if b < a {
      MulLeft(d, b + 1, a);
    }
  }

  lemma MulAssoc(a: int, b: int, c: int)
    ensures a * (b * c) == (a * b) * c
  {
  }

  lemma DivBounds(a: int, d: int)
    requires d > 0
    ensures d * (a / d) <= a < d * (a / d + 1)
  {
    assert a == d * (a / d) + a % d;
  }

  lemma DivUnique(a: int, d: int, q: int)
    requires d > 0
    requires d * q <= a < d * (q + 1)
    ensures a / d == q
  {
    var e := a / d;
    DivBounds(a, d);
    if e + 1 <= q {
      MulLeft(d, e + 1, q);
    } else if q + 1 <= e {
      MulLeft(d, q + 1, e);
    }
  }

  lemma {:induction false} OrZero(a: nat)
    ensures Or(a, 0) == a && Or(0, a) == a
    decreases a
  {
    if a > 0 {
      OrZero(a / 2);
    }
  }

  /** Or-ing in a bit above which nothing below is set is an addition: the bit is fresh. */
  lemma {:induction false} OrFreshBit(a: nat, k: nat)
    requires a % Pow2(k + 1) == 0
    ensures Or(a, Pow2(k)) == a + Pow2(k)
    decreases k
  {
    var q := a / Pow2(k + 1);
    assert a == Pow2(k + 1) * q;
    if k == 0 {
      OrZero(a / 2);
    } else {
      assert Pow2(k) == 2 * Pow2(k - 1) && Pow2(k + 1) == 2 * Pow2(k);
      assert a == 2 * (Pow2(k) * q);
      assert a / 2 == Pow2(k) * q;
      MultipleMod(Pow2(k), q);
      OrFreshBit(a / 2, k - 1);
    }
  }

  lemma MultipleMod(d: nat, q: nat)
    requires d > 0
    ensures (d * q) % d == 0
    ensures (d * q) / d == q
  {
    assert d * (q + 1) == d * q + d;
    DivUnique(d * q, d, q);
  }

  // ---- Single bits ----

  lemma BitZero(a: nat)
    ensures Bit(a, 0) <==> a % 2 == 1
  {
    assert Pow2(0) == 1;
  }

  lemma BitHalf(a: nat, i: nat)
    requires i >= 1
    ensures Bit(a, i) <==> Bit(a / 2, i - 1)
  {
    HalfDiv(a, i);
  }

  /** Shifting one further halves. */
  lemma ShiftHalf(a: nat, i: nat)
    ensures Shr(a, i + 1) == Shr(a, i) / 2
  {
    var p, q := Pow2(i), a / Pow2(i) / 2;
    DivBounds(a, p);
    DivBounds(a / p, 2);
    MulLeft(p, 2 * q, a / p);
    MulLeft(p, a / p + 1, 2 * (q + 1));
    assert p * (2 * q) == (2 * p) * q && p * (2 * (q + 1)) == (2 * p) * (q + 1);
    DivUnique(a, 2 * p, q);
  }

  /** Nothing left after a shift: no bit at or above it. */
  lemma {:induction false} ShiftedOut(a: nat, i: nat, k: nat)
    requires Shr(a, i) == 0 && i <= k
    ensures !Bit(a, k)
    decreases k
  {
    if i < k {
      ShiftedOutAll(a, i, k);
    }
  }

  lemma {:induction false} ShiftedOutAll(a: nat, i: nat, k: nat)
    requires Shr(a, i) == 0 && i <= k
    ensures Shr(a, k) == 0
    decreases k
  {
    if i < k {
      ShiftedOutAll(a, i, k - 1);
      ShiftHalf(a, k - 1);
    }
  }

  /** The remainder modulo 2^(k+1) is nonzero exactly when one of the bits 0..k is set. */
  lemma {:induction false} LowBits(a: nat, k: nat)
    ensures a % Pow2(k + 1) > 0 <==> exists i :: 0 <= i <= k && Bit(a, i)
    decreases k
  {
    if k == 0 {
      BitZero(a);
      assert Pow2(1) == 2;
    } else {
      LowBits(a / 2, k - 1);
      HalfMod(a, Pow2(k));
      BitZero(a);
      if a % 2 == 1 {
        assert Bit(a, 0);
      }
      forall i | 1 <= i <= k ensures Bit(a, i) <==> Bit(a / 2, i - 1) {
        BitHalf(a, i);
      }
      if a / 2 % Pow2(k) > 0 {
        var i :| 0 <= i <= k - 1 && Bit(a / 2, i);
        assert Bit(a, i + 1);
      }
    }
  }

  lemma HalfMod(a: nat, p: nat)
    requires p > 0
    ensures a % (2 * p) == 2 * (a / 2 % p) + a % 2
  {
    var q := a / 2 / p;
    DivBounds(a / 2, p);
    assert a == 2 * (a / 2) + a % 2;
    assert (2 * p) * q == 2 * (p * q) && (2 * p) * (q + 1) == 2 * (p * (q + 1));
    DivUnique(a, 2 * p, q);
    assert a % (2 * p) == a - (2 * p) * q;
    assert a / 2 % p == a / 2 - p * q;
  }

  lemma {:induction false} AndZero(a: nat)
    ensures And(a, 0) == 0 && And(0, a) == 0
    decreases a
  {
    if a > 0 {
      AndZero(a / 2);
    }
  }

  /** Masking with a single bit tests it. */
  lemma {:induction false} AndMask(a: nat, k: nat)
    ensures And(a, Pow2(k)) == 0 <==> !Bit(a, k)
    decreases k
  {
    if k == 0 {
      BitZero(a);
      AndZero(a / 2);
    } else {
      AndMask(a / 2, k - 1);
      BitHalf(a, k);
      assert Pow2(k) / 2 == Pow2(k - 1);
    }
  }

  lemma {:induction false} XorZero(a: nat)
    ensures Xor(a, 0) == a
    decreases a
  {
    if a > 0 {
      XorZero(a / 2);
    }
  }

  /** Exclusive or with a single bit flips it and leaves the others. */
  lemma {:induction false} XorFlips(a: nat, k: nat, i: nat)
    ensures Bit(Xor(a, Pow2(k)), i) <==> (if i == k then !Bit(a, i) else Bit(a, i))
    decreases k
  {
    var x := Xor(a, Pow2(k));
    assert Pow2(k) > 0;
    if k == 0 {
      XorZero(a / 2);
      assert x / 2 == a / 2;
    } else {
      assert Pow2(k) / 2 == Pow2(k - 1) && Pow2(k) % 2 == 0;
      assert x / 2 == Xor(a / 2, Pow2(k - 1)) && x % 2 == a % 2;
      if i > 0 {
        XorFlips(a / 2, k - 1, i - 1);
      }
    }
    if i == 0 {
      BitZero(a);
      BitZero(x);
    } else {
      BitHalf(a, i);
      BitHalf(x, i);
    }
  }

  lemma {:induction false} XorBound(a: nat, b: nat, n: nat)
    requires a < Pow2(n) && b < Pow2(n)
    ensures Xor(a, b) < Pow2(n)
    decreases n
  {
    if n > 0 && (a > 0 || b > 0) {
      XorBound(a / 2, b / 2, n - 1);
    }
  }
}
