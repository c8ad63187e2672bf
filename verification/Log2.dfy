/** The fixed-point binary logarithm behind tick lookup (log.rs). Integers are u64/u128 in the
    source; every bound that keeps an operation inside its width is a precondition or is proved. */
module Log2 {
  import opened Common
  import opened Powers

  /** LOG2_ONE: 1.0 in 32-bit fixed point. */
  const ONE: nat := 0x1_0000_0000
  const HALF: nat := 0x8000_0000
  /** LOG2_ACCURACY: the loop stops when `delta` reaches it. */
  const ACCURACY: nat := 0x1_0000
  /** Number of squaring passes, hence of fractional bits. */
  const PASSES: nat := 15
  /** Accumulated truncation, in units of 2^-32, after all the passes. */
  const DRIFT: nat := 294904

  lemma Pow2Small()
    ensures Pow2(0) == 1 && Pow2(1) == 2 && Pow2(2) == 4 && Pow2(3) == 8 && Pow2(4) == 16 && Pow2(5) == 32
    ensures Pow2(8) == 256
  {
  }

  lemma Pow2Values()
    ensures Pow2(0) == 1 && Pow2(1) == 2 && Pow2(2) == 4 && Pow2(3) == 8 && Pow2(4) == 16 && Pow2(5) == 32
    ensures Pow2(8) == 256 && Pow2(14) == 0x4000 && Pow2(15) == 0x8000 && Pow2(16) == ACCURACY
    ensures Pow2(31) == HALF && Pow2(32) == ONE && Pow2(64) == U64
  {
    hide Pow2;
    Pow2Small();
    Pow2Add(4, 4);
    Pow2Add(8, 4);
    Pow2Add(12, 2);
    Pow2Add(14, 1);
    Pow2Add(8, 8);
    Pow2Add(15, 16);
    Pow2Add(16, 16);
    Pow2Add(32, 32);
  }

  /** `x0 >> msb` is `x`. */
  ghost predicate Shifted(x0: nat, msb: nat, x: nat)
  {
    Pow2(msb) * x <= x0 < Pow2(msb) * (x + 1)
  }

  lemma ShiftMore(x0: nat, msb: nat, x: nat, k: nat)
    requires Shifted(x0, msb, x)
    ensures Shifted(x0, msb + k, x / Pow2(k))
  {
    Pow2Add(msb, k);
    ShiftArithmetic(x0, Pow2(msb), x, Pow2(k));
  }

  lemma ShiftArithmetic(x0: nat, p: nat, x: nat, q: nat)
    requires q > 0 && p * x <= x0 < p * (x + 1)
    ensures (p * q) * (x / q) <= x0 < (p * q) * (x / q + 1)
  {
    var y := x / q;
    DivBounds(x, q);
    MulLeft(p, q * y, x);
    MulLeft(p, x + 1, q * (y + 1));
    MulAssoc(p, q, y);
    MulAssoc(p, q, y + 1);
  }

  /** The search state: `x0` shifted down by `msb` leaves `x`, which has at most `width` bits. */
  ghost predicate Narrowed(x0: nat, msb: nat, x: nat, width: nat, bound: nat)
    requires width > 0
  {
    && Shifted(x0, msb, x) && x < bound
    && msb % width == 0 && msb + width <= 64
    && (x == 0 ==> x0 == 0 && msb == 0)
  }

  /** One halving of the width: the or-ed bit is fresh, and the state is kept. */
  lemma NarrowStep(x0: nat, msb: nat, x: nat, b: nat, k: nat, p: nat)
    requires k == Pow2(b) && p == Pow2(k)
    requires Narrowed(x0, msb, x, 2 * k, p * p)
    ensures x >= p ==>
              && Or(msb, k) == msb + k
              && Narrowed(x0, Or(msb, k), x / p, k, p)
    ensures x < p ==> Narrowed(x0, msb, x, k, p)
  {
    WidthDivides(msb, k);
    if x >= p {
      OrFreshBit(msb, b);
      ShiftMore(x0, msb, x, k);
      QuotientBounds(x, p);
    }
  }

  lemma WidthDivides(msb: nat, k: nat)
    requires k > 0 && msb % (2 * k) == 0
    ensures msb % k == 0 && (msb + k) % k == 0
  {
    var q := msb / (2 * k);
    DivBounds(msb, 2 * k);
    assert msb == k * (2 * q);
    MultipleMod(k, 2 * q);
    MultipleMod(k, 2 * q + 1);
  }

  lemma QuotientBounds(x: nat, p: nat)
    requires 1 <= p <= x < p * p
    ensures 1 <= x / p < p
  {
    var d := x / p;
    DivBounds(x, p);
    if d >= p {
      MulLeft(p, p, d);
    } else if d < 1 {
      MulLeft(p, d + 1, 1);
    }
  }

  /** One of the six conditional shifts of the search. */
  method ShiftIfWide(ghost x0: nat, x: nat, msb: nat, ghost b: nat, k: nat, p: nat) returns (x': nat, msb': nat)
    requires k == Pow2(b) && p == Pow2(k)
    requires Narrowed(x0, msb, x, 2 * k, p * p)
    ensures Narrowed(x0, msb', x', k, p)
  {
    NarrowStep(x0, msb, x, b, k, p);
    x', msb' := x, msb;
    if x >= p {
      x', msb' := x / p, Or(msb, k);
    }
  }

  /** Position of the highest set bit, by binary search over 32, 16, 8, 4, 2, 1. */
  method Log2FloorX32(sqrtPriceX32: nat) returns (msb: nat)
    requires sqrtPriceX32 < U64
    ensures msb < 64
    ensures sqrtPriceX32 == 0 ==> msb == 0
    ensures sqrtPriceX32 > 0 ==> Pow2(msb) <= sqrtPriceX32 < Pow2(msb + 1)
  {
    Pow2Values();
    var x;
    x, msb := ShiftIfWide(sqrtPriceX32, sqrtPriceX32, 0, 5, 32, 0x1_0000_0000);
    x, msb := ShiftIfWide(sqrtPriceX32, x, msb, 4, 16, 0x1_0000);
    x, msb := ShiftIfWide(sqrtPriceX32, x, msb, 3, 8, 256);
    x, msb := ShiftIfWide(sqrtPriceX32, x, msb, 2, 4, 16);
    x, msb := ShiftIfWide(sqrtPriceX32, x, msb, 1, 2, 4);
    x, msb := ShiftIfWide(sqrtPriceX32, x, msb, 0, 1, 2);
  }

  // ---- The squaring passes ----

  /** After `k` passes on the magnitude `m`: writing N = 2^k, the value 2^r * ONE^(N-1) * y
      is at most m^N, and exceeds m^N / (1 + c / ONE). */
  ghost predicate Bracket(m: nat, k: nat, r: nat, y: nat, c: nat)
  {
    && ONE <= y < 2 * ONE
    && Scale(k, r) * y <= Pow(m, Pow2(k))
    && Pow(m, Pow2(k)) * ONE <= Scale(k, r) * (y * (ONE + c))
  }

  ghost function Scale(k: nat, r: nat): nat
  {
    Pow2(r) * Pow(ONE, Pow2(k) - 1)
  }

  /** Truncation bound after `k` passes: it doubles and gains a constant at each pass. */
  ghost function Drift(k: nat): nat
  {
    if k == 0 then 1 else 2 * Drift(k - 1) + 8
  }

  lemma {:induction false} DriftBound(k: nat)
    ensures Drift(k) + 8 == 9 * Pow2(k)
  {
    if k > 0 {
      DriftBound(k - 1);
    }
  }

  lemma ScaleSquared(k: nat, r: nat)
    ensures Scale(k + 1, 2 * r) == Scale(k, r) * Scale(k, r) * ONE
    ensures Scale(k + 1, 2 * r + 1) == 2 * Scale(k + 1, 2 * r)
  {
    var n := Pow2(k);
    var a, b := Pow2(r), Pow(ONE, n - 1);
    Pow2Add(r, r);
    PowAdd(ONE, n - 1, n - 1);
    assert Pow2(k + 1) - 1 == (n - 1 + (n - 1)) + 1;
    assert Pow(ONE, Pow2(k + 1) - 1) == ONE * (b * b);
    assert (a * a) * (ONE * (b * b)) == (a * b) * (a * b) * ONE;
    assert Pow2(2 * r + 1) == 2 * Pow2(2 * r);
    MulAssoc(2, Pow2(2 * r), Pow(ONE, Pow2(k + 1) - 1));
  }

  lemma PowSquared(m: nat, k: nat)
    ensures Pow(m, Pow2(k + 1)) == Pow(m, Pow2(k)) * Pow(m, Pow2(k))
  {
    PowAdd(m, Pow2(k), Pow2(k));
  }

  lemma SquareLower(p: nat, y: nat, pow: nat, y': nat, s: nat)
    requires p * y <= pow && s * y' <= y * y
    ensures (p * p * s) * y' <= pow * pow
  {
    MulLeft(p * p, s * y', y * y);
    MulMono(p * y, p * y, pow, pow);
    assert (p * p * s) * y' == (p * p) * (s * y');
    assert (p * p) * (y * y) == (p * y) * (p * y);
  }

  /** Squaring multiplies the relative error by at most (1 + 1/s)^2 (1 + c/s)^2. */
  lemma SquareUpper(p: nat, y: nat, pow: nat, y': nat, s: nat, c: nat, c': nat)
    requires s > 0 && pow * s <= p * (y * (s + c))
    requires (y * y) * s <= y' * ((s + 1) * (s + 1))
    requires ((s + 1) * (s + 1)) * ((s + c) * (s + c)) <= (s * s * s) * (s + c')
    ensures (pow * pow) * s <= (p * p * s) * (y' * (s + c'))
  {
    var a, b, q := (s + 1) * (s + 1), (s + c) * (s + c), p * p;
    var d := s * s * s;
    SquareBoth(p, y, pow, s, s + c);
    MulLeft(q * b, (y * y) * s, y' * a);
    CrossFactors(q, b, y', a);
    MulLeft(q * y', a * b, d * (s + c'));
    LastFactorFirst(q * y', d, s + c');
    Cancel(pow * pow, (q * y') * (s + c'), d);
    MulLeft(s, pow * pow, (q * y') * (s + c'));
    ScalePair(q, s, y', s + c');
  }

  lemma SquareBoth(p: nat, y: nat, pow: nat, s: nat, t: nat)
    requires pow * s <= p * (y * t)
    ensures (pow * pow) * (s * s * s) <= ((p * p) * (t * t)) * ((y * y) * s)
  {
    var u, v := pow * s, p * (y * t);
    MulMono(u, u, v, v);
    MulLeft(s, u * u, v * v);
    SquareExpand(p, y, s, t);
    CubeExpand(pow, s);
  }

  lemma CubeExpand(a: nat, s: nat)
    ensures (a * a) * (s * s * s) == s * ((a * s) * (a * s))
  {
  }

  lemma SquareExpand(p: nat, y: nat, s: nat, t: nat)
    ensures s * ((p * (y * t)) * (p * (y * t))) == ((p * p) * (t * t)) * ((y * y) * s)
  {
    SquareOfProduct(y, t);
    SquareOfProduct(p, y * t);
    ScaleInside(p * p, y * y, t * t, s);
  }

  lemma SquareOfProduct(a: nat, b: nat)
    ensures (a * b) * (a * b) == (a * a) * (b * b)
  {
  }

  lemma CrossFactors(q: nat, b: nat, y: nat, a: nat)
    ensures (q * b) * (y * a) == (q * y) * (a * b)
  {
  }

  lemma LastFactorFirst(a: nat, b: nat, c: nat)
    ensures a * (b * c) == (a * c) * b
  {
  }

  lemma ScalePair(q: nat, s: nat, y: nat, t: nat)
    ensures ((q * y) * t) * s == (q * s) * (y * t)
  {
  }

  lemma ScaleInside(p: nat, y: nat, t: nat, s: nat)
    ensures s * (p * (y * t)) == (p * t) * (y * s)
  {
  }

  /** The error constants absorb one pass. */
  lemma DriftStep(c: nat)
    requires c <= 147456
    ensures ((ONE + 1) * (ONE + 1)) * ((ONE + c) * (ONE + c)) <= (ONE * ONE * ONE) * (ONE + (2 * c + 8))
  {
    MulLeft(c, c, 147456);
  }

  /** One pass of the loop keeps the bracket, whichever branch it takes. */
  lemma PassKeepsBracket(m: nat, k: nat, r: nat, y: nat, c: nat)
    requires c <= 147456 && Bracket(m, k, r, y, c)
    ensures var y1 := y * y / ONE;
            if y1 >= 2 * ONE then Bracket(m, k + 1, 2 * r + 1, y1 / 2, 2 * c + 8)
            else Bracket(m, k + 1, 2 * r, y1, 2 * c + 8)
  {
    ScaleSquared(k, r);
    PowSquared(m, k);
    PassArithmetic(Scale(k, r), Pow(m, Pow2(k)), y, c);
  }

  lemma PassArithmetic(p: nat, pow: nat, y: nat, c: nat)
    requires c <= 147456 && ONE <= y < 2 * ONE
    requires p * y <= pow && pow * ONE <= p * (y * (ONE + c))
    ensures var y1 := y * y / ONE;
            var p2 := p * p * ONE;
            if y1 >= 2 * ONE then
              && ONE <= y1 / 2 < 2 * ONE
              && (2 * p2) * (y1 / 2) <= pow * pow
              && (pow * pow) * ONE <= (2 * p2) * ((y1 / 2) * (ONE + (2 * c + 8)))
            else
              && ONE <= y1 < 2 * ONE
              && p2 * y1 <= pow * pow
              && (pow * pow) * ONE <= p2 * (y1 * (ONE + (2 * c + 8)))
  {
    var y1 := y * y / ONE;
    DriftStep(c);
    PassValue(y);
    if y1 >= 2 * ONE {
      var y2 := y1 / 2;
      SquareLower(p, y, pow, 2 * y2, ONE);
      SquareUpper(p, y, pow, 2 * y2, ONE, c, 2 * c + 8);
      MulAssoc(p * p * ONE, 2, y2);
      MoveTwo(p * p * ONE, y2, ONE + (2 * c + 8));
    } else {
      SquareLower(p, y, pow, y1, ONE);
      SquareUpper(p, y, pow, y1, ONE, c, 2 * c + 8);
    }
  }

  lemma MoveTwo(p: nat, y: nat, t: nat)
    ensures p * ((2 * y) * t) == (2 * p) * (y * t)
  {
  }

  /** The squared value, renormalised, stays in [ONE, 2*ONE); what truncation lost is bounded. */
  lemma PassValue(y: nat)
    requires ONE <= y < 2 * ONE
    ensures var y1 := y * y / ONE;
            && ONE <= y1 < 4 * ONE
            && ONE * y1 <= y * y
            && (y * y) * ONE <= y1 * ((ONE + 1) * (ONE + 1))
            && (y1 >= 2 * ONE ==>
                  && ONE <= y1 / 2 < 2 * ONE
                  && ONE * (2 * (y1 / 2)) <= y * y
                  && (y * y) * ONE <= (2 * (y1 / 2)) * ((ONE + 1) * (ONE + 1)))
  {
    MulMono(ONE, ONE, y, y);
    MulMono(y, y, 2 * ONE - 1, 2 * ONE - 1);
  }

  /** The value whose logarithm is computed: the input when it is at least 1.0, otherwise its
      reciprocal (rounded down, and truncated to 64 bits as the cast does). */
  function Magnitude(sqrtPriceX32: nat): nat
  {
    if sqrtPriceX32 >= ONE then sqrtPriceX32 else (U64 / (sqrtPriceX32 + 1)) % U64
  }

  lemma MagnitudeRange(x: nat)
    requires x < U64
    ensures x > 0 ==> ONE <= Magnitude(x) < U64
    ensures x == 0 ==> Magnitude(x) == 0
  {
    if 0 < x < ONE {
      DivBounds(U64, x + 1);
      var q := U64 / (x + 1);
      assert q >= ONE by {
        if q + 1 <= ONE { MulMono(x + 1, q + 1, ONE, ONE); }
      }
      assert q < U64 by {
        if U64 <= q { MulMono(2, U64, x + 1, q); }
      }
    }
  }

  /** Two-sided accuracy: with N = 2^passes and `units` the logarithm in units of 1/N,
      2^units <= (m / ONE)^N < 2^(units + 1) * (1 + DRIFT / ONE). */
  ghost predicate LogWithin(m: nat, passes: nat, units: nat)
  {
    && Pow2(units) * Pow(ONE, Pow2(passes)) <= Pow(m, Pow2(passes))
    && Pow(m, Pow2(passes)) * ONE < (Pow2(units + 1) * Pow(ONE, Pow2(passes))) * (ONE + DRIFT)
  }

  lemma BracketToLog(m: nat, k: nat, r: nat, y: nat, c: nat)
    requires Bracket(m, k, r, y, c) && c <= DRIFT
    ensures LogWithin(m, k, r)
  {
    var p, q := Scale(k, r), Pow(ONE, Pow2(k) - 1);
    assert Pow(ONE, Pow2(k)) == ONE * q;
    assert Pow2(r) * (ONE * q) == p * ONE;
    MulLeft(p, ONE, y);
    PowPositive(ONE, Pow2(k) - 1);
    MulMono(1, 1, Pow2(r), q);
    MulMono(y, ONE + c, 2 * ONE - 1, ONE + DRIFT);
    MulLeft(p, y * (ONE + c), (2 * ONE - 1) * (ONE + DRIFT));
    assert p * ((2 * ONE - 1) * (ONE + DRIFT)) < p * (2 * ONE * (ONE + DRIFT));
    assert Pow2(r + 1) * (ONE * q) == 2 * (p * ONE);
    MoveTwoOut(p, ONE, ONE + DRIFT);
  }

  lemma MoveTwoOut(p: nat, s: nat, t: nat)
    ensures p * (2 * s * t) == (2 * (p * s)) * t
  {
  }

  lemma NextDrift(k: nat)
    ensures Drift(k + 1) == 2 * Drift(k) + 8
  {
  }

  /** Where the code returns early, further passes would have changed nothing. */
  lemma {:induction false} OneIsFixed(m: nat, k: nat, r: nat, n: nat)
    requires Bracket(m, k, r, ONE, Drift(k)) && k + n <= PASSES
    ensures Bracket(m, k + n, r * Pow2(n), ONE, Drift(k + n))
    decreases n
  {
    hide Bracket, Drift;
    if n > 0 {
      NextDrift(k);
      DriftUnder(k);
      PassKeepsBracket(m, k, r, ONE, Drift(k));
      MulAssoc(r, 2, Pow2(n - 1));
      OneIsFixed(m, k + 1, 2 * r, n - 1);
    }
  }

  lemma {:induction false} DriftUnder(k: nat)
    requires k < PASSES
    ensures Drift(k) <= 147456
    ensures Drift(PASSES) == DRIFT
  {
    DriftBound(k);
    DriftBound(PASSES);
    Pow2Add(k, 14 - k);
    Pow2Values();
    MulLeft(Pow2(k), 1, Pow2(14 - k));
  }

  /** Splitting off the integer part of the logarithm. */
  lemma FirstBracket(m: nat, f: nat)
    requires ONE <= m < U64
    requires Pow2(f) <= m / ONE < Pow2(f + 1)
    ensures Bracket(m, 0, f, m / Pow2(f), Drift(0))
  {
    var p := Pow2(f);
    var y := m / p;
    DivBounds(m, ONE);
    DivBounds(m, p);
    FirstValue(m, p, y);
    assert Pow(m, 1) == m * Pow(m, 0);
    assert Scale(0, f) == p;
  }

  lemma FirstValue(m: nat, p: nat, y: nat)
    requires p * ONE <= m < 2 * p * ONE && p * y <= m < p * (y + 1)
    ensures ONE <= y < 2 * ONE && m * ONE <= p * (y * (ONE + 1))
  {
    if y + 1 <= ONE {
      MulLeft(p, y + 1, ONE);
    } else if 2 * ONE <= y {
      MulLeft(p, 2 * ONE, y);
    }
    MulLeft(p, (y + 1) * ONE, y * (ONE + 1));
  }

  /** The loop's state after `k` passes on `x`, `r` being the logarithm in units of 2^-k. */
  ghost predicate PassState(x: nat, k: nat, r: nat, y: nat, result: nat, delta: nat)
  {
    && k <= PASSES && delta == Pow2(31 - k) && result == Pow2(32 - k) * r
    && (x == 0 ==> y == 0 && r == 0)
    && (x > 0 ==> Bracket(x, k, r, y, Drift(k)))
  }

  /** The result in units half as large. */
  lemma ResultStep(unit: nat, r: nat)
    ensures (2 * unit) * r == unit * (2 * r) && unit * (2 * r + 1) == unit * (2 * r) + unit
  {
    MulAssoc(unit, 2, r);
  }

  lemma PassStep(x: nat, k: nat, r: nat, y: nat, result: nat, delta: nat)
    requires PassState(x, k, r, y, result, delta) && delta > ACCURACY
    ensures var y1 := y * y / ONE;
            if y1 >= 2 * ONE then
              && Or(result, delta) == result + delta
              && PassState(x, k + 1, 2 * r + 1, y1 / 2, Or(result, delta), delta / 2)
            else PassState(x, k + 1, 2 * r, y1, result, delta / 2)
  {
    hide Bracket, Pow2, Drift, Or;
    DeltaPositive(k);
    MultipleMod(Pow2(32 - k), r);
    OrFreshBit(result, 31 - k);
    ResultStep(Pow2(31 - k), r);
    NextDrift(k);
    if x > 0 {
      DriftUnder(k);
      PassKeepsBracket(x, k, r, y, Drift(k));
    }
  }

  /** `(sign, result)`: the sign and, in 32-bit fixed point, the size of log2 of the input. */
  method Log2IterativeApproximationX32(sqrtPriceX32: nat) returns (sign: bool, result: nat)
    requires sqrtPriceX32 < U64
    ensures sign == (sqrtPriceX32 >= ONE)
    ensures result % 0x2_0000 == 0
    ensures sqrtPriceX32 == 0 ==> result == 0
    ensures sqrtPriceX32 > 0 ==> LogWithin(Magnitude(sqrtPriceX32), PASSES, result / 0x2_0000)
  {
    hide Bracket, LogWithin, PassState;
    var x := sqrtPriceX32;
    sign := true;
    if x < ONE {
      sign := false;
      x := (U64 / (x + 1)) % U64;
    }
    MagnitudeRange(sqrtPriceX32);
    var log2Floor := Log2FloorX32(x / ONE);
    result := log2Floor * ONE;
    var y: nat := x / Pow2(log2Floor);
    StartState(x, log2Floor);
    if y == ONE {
      EarlyResult(x, log2Floor);
      return;
    }
    var delta: nat := HALF;
    ghost var k: nat, r: nat := 0, log2Floor;
    while delta > ACCURACY
      invariant PassState(x, k, r, y, result, delta)
      decreases delta
    {
      PassStep(x, k, r, y, result, delta);
      y := y * y / ONE;
      k, r := k + 1, 2 * r + (if y >= 2 * ONE then 1 else 0);
      if y >= 2 * ONE {
        result := Or(result, delta);
        y := y / 2;
      }
      delta := delta / 2;
    }
    FinalResult(x, k, r, y, result, delta);
  }

  lemma StartState(x: nat, f: nat)
    requires x == 0 || ONE <= x < U64
    requires x == 0 ==> f == 0
    requires x > 0 ==> Pow2(f) <= x / ONE < Pow2(f + 1)
    ensures PassState(x, 0, f, x / Pow2(f), f * ONE, HALF)
    ensures x > 0 ==> Bracket(x, 0, f, x / Pow2(f), Drift(0))
  {
    hide Bracket;
    Pow2Values();
    if x > 0 {
      FirstBracket(x, f);
    }
  }

  lemma DeltaPositive(k: nat)
    requires k <= PASSES && Pow2(31 - k) > ACCURACY
    ensures k < PASSES
    ensures Pow2(31 - k) == 2 * Pow2(31 - k - 1) && Pow2(32 - k) == 2 * Pow2(31 - k)
  {
    Pow2Values();
  }

  lemma FinalResult(x: nat, k: nat, r: nat, y: nat, result: nat, delta: nat)
    requires PassState(x, k, r, y, result, delta) && delta <= ACCURACY
    ensures result % 0x2_0000 == 0
    ensures x == 0 ==> result == 0
    ensures x > 0 ==> LogWithin(x, PASSES, result / 0x2_0000)
  {
    hide Bracket, LogWithin;
    LastPass(k);
    MultipleMod(0x2_0000, r);
    if x > 0 {
      DriftUnder(0);
      BracketToLog(x, k, r, y, Drift(k));
    }
  }

  lemma LastPass(k: nat)
    requires k <= PASSES && Pow2(31 - k) <= ACCURACY
    ensures k == PASSES && Pow2(32 - k) == 0x2_0000
  {
    Pow2Values();
    if k < PASSES {
      Pow2Add(16, 15 - k);
      MulLeft(Pow2(16), 2, Pow2(15 - k));
    }
  }

  lemma EarlyResult(m: nat, f: nat)
    requires Bracket(m, 0, f, ONE, Drift(0))
    ensures (f * ONE) % 0x2_0000 == 0
    ensures LogWithin(m, PASSES, (f * ONE) / 0x2_0000)
  {
    hide Bracket, LogWithin, Pow2, Drift;
    Pow2Values();
    OneIsFixed(m, 0, f, PASSES);
    DriftUnder(0);
    BracketToLog(m, PASSES, f * Pow2(PASSES), ONE, Drift(PASSES));
    MultipleMod(0x2_0000, f * 0x8000);
  }
}
