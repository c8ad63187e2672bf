/** The square root of the price at a tick (calculate_price_sqrt in math.rs) and the tick at a square
    root of a price (get_tick_at_sqrt_price in log.rs), which undoes it. */
module TickPrices {
  import opened Common
  import opened Powers
  import opened LogBounds
  import opened Log2
  import opened Tickmap

  /** 1.0 with the 12 decimals of FixedPoint. Price has 24. */
  const FIXED_ONE: nat := 1_000000_000000

  /** The constants of the source: 1.0001 to the power 2^i / 2. */
  function Factor(i: nat): (r: nat)
    requires i < 18
    ensures r >= FIXED_ONE
  {
    if i == 0 then 1000049998750
    else if i == 1 then 1000100000000
    else if i == 2 then 1000200010000
    else if i == 3 then 1000400060004
    else if i == 4 then 1000800280056
    else if i == 5 then 1001601200560
    else if i == 6 then 1003204964963
    else if i == 7 then 1006420201726
    else if i == 8 then 1012881622442
    else if i == 9 then 1025929181080
    else if i == 10 then 1052530684591
    else if i == 11 then 1107820842005
    else if i == 12 then 1227267017980
    else if i == 13 then 1506184333421
    else if i == 14 then 2268591246242
    else if i == 15 then 5146506242525
    else if i == 16 then 26486526504348
    else 701536086265529
  }

  /** The product of the factors of the bits of `n` below `i`, each multiplication truncated. */
  function Product(n: nat, i: nat): (r: nat)
    requires i <= 18
    ensures r >= FIXED_ONE
  {
    if i == 0 then FIXED_ONE
    else if And(n, Pow2(i - 1)) != 0 then
      MulFixedAbove(Product(n, i - 1), Factor(i - 1));
      MulFixed(Product(n, i - 1), Factor(i - 1))
    else Product(n, i - 1)
  }

  function MulFixed(a: nat, b: nat): nat
  {
    DivNonnegative(a * b, FIXED_ONE);
    a * b / FIXED_ONE
  }

  lemma MulFixedAbove(a: nat, b: nat)
    requires a >= FIXED_ONE && b >= FIXED_ONE
    ensures MulFixed(a, b) >= FIXED_ONE
    ensures FIXED_ONE * MulFixed(a, b) <= a * b < FIXED_ONE * (MulFixed(a, b) + 1)
  {
    MulMono(FIXED_ONE, FIXED_ONE, a, b);
    DivBounds(a * b, FIXED_ONE);
    DivAtLeast(a * b, FIXED_ONE, FIXED_ONE);
  }

  /** calculate_price_sqrt, which panics for larger ticks. */
  function PriceSqrt(tick: int): nat
    requires -MAX_TICK <= tick <= MAX_TICK
  {
    FixedPrice(tick) * FIXED_ONE
  }

  /** The price before it is extended to 24 decimals. */
  function FixedPrice(tick: int): nat
  {
    if tick >= 0 then Product(tick, 18)
    else
      DivNonnegative(FIXED_ONE * FIXED_ONE, Product(-tick, 18));
      FIXED_ONE * FIXED_ONE / Product(-tick, 18)
  }

  // ---- The logarithm of the factors ----

  /** Scale of the mantissas below. */
  const SCALE: nat := 1_000000_000000_000000

  /** 2^35 times the binary logarithm of the square root of 1.0001 lies between UNITS and UNITS + 1,
      and UNITS + 1 is eight times LOG2_SQRT_10001. */
  const UNITS: nat := 2478407

  /** An exponent x and bounds l, u with 2^x * l / SCALE <= 1.0001^(2^k / 2) <= 2^x * u / SCALE. Each row is the
      square of the row before; the exponent of the last is UNITS. */
  function Row(k: nat): (nat, nat, nat)
    requires k <= 35
  {
    if k == 0 then (0, 1000049998748062396, 1000049998752062597)
    else if k == 1 then (0, 1000099999995999599, 1000100000004000402)
    else if k == 2 then (0, 1000200009991998397, 1000200010008001605)
    else if k == 3 then (0, 1000400059987993693, 1000400060020006511)
    else if k == 4 then (0, 1000800280023981379, 1000800280088032630)
    else if k == 5 then (0, 1001601200496079541, 1001601200624284562)
    else if k == 6 then (0, 1003204964835187727, 1003204965092008334)
    else if k == 7 then (0, 1006420201469970243, 1006420201985257660)
    else if k == 8 then (0, 1012881621926855494, 1012881622964046827)
    else if k == 9 then (0, 1025929180037177432, 1025929182138281513)
    else if k == 10 then (0, 1052530682451755224, 1052530686762923204)
    else if k == 11 then (0, 1107820837502357592, 1107820846577630764)
    else if k == 12 then (0, 1227267008004424985, 1227267028111978520)
    else if k == 13 then (0, 1506184308936133340, 1506184358290807875)
    else if k == 14 then (1, 1134295586242708779, 1134295660579946355)
    else if k == 15 then (2, 1286626476969690389, 1286626645610496868)
    else if k == 16 then (4, 1655407691239437232, 1655408125194919100)
    else if k == 17 then (9, 1370187312107341975, 1370188030480678475)
    else if k == 18 then (18, 1877413270259942568, 1877415238872520686)
    else if k == 19 then (37, 1762340293674066076, 1762343989575381954)
    else if k == 20 then (75, 1552921655353596730, 1552928168796236989)
    else if k == 21 then (151, 1205782833833077531, 1205792948720416961)
    else if k == 22 then (302, 1453912242366527060, 1453936635183878087)
    else if k == 23 then (605, 1056930404251631461, 1056965869564908700)
    else if k == 24 then (1210, 1117101879431517099, 1117176849425103592)
    else if k == 25 then (2420, 1247916609029427765, 1248084112891400584)
    else if k == 26 then (4840, 1557295863091505674, 1557713952851914358)
    else if k == 27 then (9681, 1212585202600958792, 1213236379454768034)
    else if k == 28 then (19362, 1470362873566808280, 1471942512432513887)
    else if k == 29 then (38725, 1080983489981820915, 1083307379953070650)
    else if k == 30 then (77450, 1168525305613277518, 1173554879460786578)
    else if k == 31 then (154900, 1365451389858603622, 1377231055106221315)
    else if k == 32 then (309800, 1864457498066792338, 1896765379148995613)
    else if k == 33 then (619601, 1738100881048741477, 1798859451769116541)
    else if k == 34 then (1239203, 1510497336351205684, 1617947663609543260)
    else (2478407, 1140801101562043698, 1308877321089789878)
  }

  /** Squaring a row stays inside the next one. */
  lemma RowsFit(k: nat)
    requires k < 35
    ensures var (x, l, u) := Row(k);
            var (x', l', u') := Row(k + 1);
            && l > 0 && l' > 0 && 2 * x <= x' <= 2 * x + 1
            && var two := if x' == 2 * x then 1 else 2;
               u * u <= (two * u') * SCALE && (two * l') * SCALE <= l * l
  {
  }

  /** Raised to 2^(35 - k), a row is bounded by powers of two that do not depend on k. */
  lemma {:induction false} RowUpper(k: nat)
    requires k <= 35
    ensures LogLe(Row(k).2, SCALE, Pow2(35 - k), UNITS + 1, Row(k).0 * Pow2(35 - k))
    decreases 35 - k
  {
    if k == 35 {
      LastRow();
    } else {
      var (x, l, u) := Row(k);
      var (x', l', u') := Row(k + 1);
      var e := Pow2(35 - (k + 1));
      RowsFit(k);
      RowUpper(k + 1);
      Pow2Next(34 - k);
      hide Row, Pow2;
      UpperStep(u, u', x, x', e);
    }
  }

  lemma {:induction false} RowLower(k: nat)
    requires k <= 35
    ensures LogLe(SCALE, Row(k).1, Pow2(35 - k), Row(k).0 * Pow2(35 - k), UNITS)
    decreases 35 - k
  {
    if k == 35 {
      LastRow();
    } else {
      var (x, l, u) := Row(k);
      var (x', l', u') := Row(k + 1);
      var e := Pow2(35 - (k + 1));
      RowsFit(k);
      RowLower(k + 1);
      Pow2Next(34 - k);
      hide Row, Pow2;
      LowerStep(l, l', x, x', e);
    }
  }

  lemma LastRow()
    ensures LogLe(Row(35).2, SCALE, Pow2(0), UNITS + 1, Row(35).0 * Pow2(0))
    ensures LogLe(SCALE, Row(35).1, Pow2(0), Row(35).0 * Pow2(0), UNITS)
  {
    var (x, l, u) := Row(35);
    assert x == UNITS && SCALE <= l && u <= 2 * SCALE && Pow2(0) == 1;
    PowOfFirst(SCALE);
    PowOfFirst(l);
    PowOfFirst(u);
    Pow2Next(UNITS);
    hide Row, Pow, Pow2;
    MulLeft(Pow2(x), SCALE, l);
    MulLeft(Pow2(x), u, 2 * SCALE);
    MulAssoc(Pow2(x), 2, SCALE);
  }

  lemma UpperStep(u: nat, u': nat, x: nat, x': nat, e: nat)
    requires LogLe(u', SCALE, e, UNITS + 1, x' * e)
    requires 2 * x <= x' <= 2 * x + 1 && u * u <= ((if x' == 2 * x then 1 else 2) * u') * SCALE
    ensures LogLe(u, SCALE, 2 * e, UNITS + 1, x * (2 * e))
  {
    hide LogLe;
    assert x' == 2 * x ==> x' * e == x * (2 * e);
    if x' == 2 * x {
      SmallerSquare(u, SCALE, u', SCALE, e, UNITS + 1, x * (2 * e));
    } else {
      assert x' * e == x * (2 * e) + e;
      LogOfTwo(e);
      Times(u', SCALE, UNITS + 1, x' * e, 2, 1, e, 0, e);
      DropBits(u' * 2, SCALE * 1, e, UNITS + 1, x * (2 * e), e);
      SmallerSquare(u, SCALE, u' * 2, SCALE, e, UNITS + 1, x * (2 * e));
    }
  }

  lemma LowerStep(l: nat, l': nat, x: nat, x': nat, e: nat)
    requires LogLe(SCALE, l', e, x' * e, UNITS) && l' > 0
    requires 2 * x <= x' <= 2 * x + 1 && ((if x' == 2 * x then 1 else 2) * l') * SCALE <= l * l
    ensures LogLe(SCALE, l, 2 * e, x * (2 * e), UNITS)
  {
    hide LogLe;
    if x' == 2 * x {
      assert x' * e == x * (2 * e);
      SmallerSquare(SCALE, l, SCALE, l', e, x * (2 * e), UNITS);
    } else {
      assert x' * e == x * (2 * e) + e;
      LogOfTwo(e);
      Times(SCALE, l', x' * e, UNITS, 1, 2, 0, e, e);
      DropBits(SCALE * 1, l' * 2, e, x * (2 * e), UNITS, e);
      SmallerSquare(SCALE, l, SCALE, l' * 2, e, x * (2 * e), UNITS);
    }
  }

  /** (n / d)^2 <= n' / d', where one side of both fractions is SCALE. */
  lemma SmallerSquare(n: nat, d: nat, n': nat, d': nat, e: nat, a: nat, b: nat)
    requires LogLe(n', d', e, a, b) && d' > 0 && (n * n) * d' <= n' * (d * d)
    ensures LogLe(n, d, 2 * e, a, b)
  {
    Smaller(n * n, d * d, n', d', e, a, b);
    Square(n, d, e, a, b);
  }

  lemma PowOfFirst(n: nat)
    ensures Pow(n, 1) == n
  {
  }

  lemma ModSplit(n: nat, i: nat)
    ensures n % Pow2(i + 1) == n % Pow2(i) + (if Bit(n, i) then Pow2(i) else 0)
  {
    var p := Pow2(i);
    hide Pow2;
    assert Pow2(i + 1) == 2 * p by {
      Pow2Next(i);
    }
    var q := n / p;
    DivBounds(n, p);
    assert n == p * q + n % p;
    var h := q / 2;
    assert q == 2 * h + q % 2;
    assert p * q == (2 * p) * h + p * (q % 2) by {
      Distribute(p, 2 * h, q % 2);
      MulAssoc(p, 2, h);
    }
    var r := n % p + p * (q % 2);
    assert n == (2 * p) * h + r && 0 <= r < 2 * p;
    DivUnique(n, 2 * p, h);
    DivBounds(n, 2 * p);
  }

  lemma Pow2Next(i: nat)
    ensures Pow2(i + 1) == 2 * Pow2(i)
  {
  }

  lemma Distribute(a: int, b: int, c: int)
    ensures a * (b + c) == a * b + a * c
  {
  }

  lemma DivAtLeast(a: int, d: int, q: int)
    requires d > 0 && d * q <= a
    ensures a / d >= q
  {
    DivBounds(a, d);
    if a / d + 1 <= q {
      MulLeft(d, a / d + 1, q);
    }
  }

  /** The factors against their rows. */
  lemma FactorFits(i: nat)
    requires i < 18
    ensures var (x, l, u) := Row(i);
            && l > 0 && x <= 9
            && var p := Pow2(x); Factor(i) * SCALE <= (u * p) * FIXED_ONE && (l * p) * FIXED_ONE <= Factor(i) * SCALE
  {
    var x := Row(i).0;
    assert x in {0, 1, 2, 4, 9};
    assert Pow2(0) == 1 && Pow2(1) == 2 && Pow2(2) == 4 && Pow2(4) == 16 && Pow2(9) == 512;
  }

  lemma PowerOfTwo(x: nat, e: nat)
    ensures LogLe(Pow2(x), 1, e, x * e, 0) && LogLe(1, Pow2(x), e, 0, x * e)
  {
    Pow2Power(x, e);
    PowOfOne(e);
    assert Pow2(0) == 1;
    hide Pow, Pow2;
  }

  /** 2^35 times the logarithm of factor `i` is between 2^i * UNITS and 2^i * (UNITS + 1). */
  lemma FactorBounds(i: nat)
    requires i < 18
    ensures LogLe(Factor(i), FIXED_ONE, Pow2(35), (UNITS + 1) * Pow2(i), 0)
    ensures LogLe(FIXED_ONE, Factor(i), Pow2(35), 0, UNITS * Pow2(i))
  {
    hide Row, Factor, LogLe, Pow2;
    FactorFits(i);
    RowUpper(i);
    RowLower(i);
    Pow2Add(35 - i, i);
    var (x, l, u) := Row(i);
    FactorFromRow(Factor(i), x, l, u, Pow2(35 - i), Pow2(i));
  }

  lemma FactorFromRow(c: nat, x: nat, l: nat, u: nat, e: nat, k: nat)
    requires LogLe(u, SCALE, e, UNITS + 1, x * e) && LogLe(SCALE, l, e, x * e, UNITS)
    requires l > 0 && c * SCALE <= (u * Pow2(x)) * FIXED_ONE && (l * Pow2(x)) * FIXED_ONE <= c * SCALE
    ensures LogLe(c, FIXED_ONE, e * k, (UNITS + 1) * k, 0) && LogLe(FIXED_ONE, c, e * k, 0, UNITS * k)
  {
    hide LogLe, Pow2;
    var p := Pow2(x);
    PowerOfTwo(x, e);
    Times(u, SCALE, UNITS + 1, x * e, p, 1, x * e, 0, e);
    DropBits(u * p, SCALE * 1, e, UNITS + 1, 0, x * e);
    Smaller(c, FIXED_ONE, u * p, SCALE, e, UNITS + 1, 0);
    Raise(c, FIXED_ONE, e, UNITS + 1, 0, k);
    Times(SCALE, l, x * e, UNITS, 1, p, 0, x * e, e);
    DropBits(SCALE * 1, l * p, e, 0, UNITS, x * e);
    MulMono(1, 1, l, p);
    Smaller(FIXED_ONE, c, SCALE, l * p, e, 0, UNITS);
    Raise(FIXED_ONE, c, e, 0, UNITS, k);
  }

  // ---- The logarithm of a price ----

  /** One bit more. */
  lemma ProductStep(n: nat, i: nat)
    requires i < 18
    ensures var p, r, m := Product(n, i), Product(n, i + 1), n % Pow2(i);
            && p >= FIXED_ONE && r >= FIXED_ONE
            && if Bit(n, i) then
                 && n % Pow2(i + 1) == m + Pow2(i)
                 && FIXED_ONE * r <= p * Factor(i) < FIXED_ONE * (r + 1)
               else n % Pow2(i + 1) == m && r == p
  {
    hide Factor, Pow2, Bit;
    ModSplit(n, i);
    AndMask(n, i);
    MulFixedAbove(Product(n, i), Factor(i));
  }

  lemma ProductStart(n: nat)
    ensures Product(n, 0) == FIXED_ONE && n % Pow2(0) == 0
    ensures LogLe(FIXED_ONE, FIXED_ONE, Pow2(35), 0, 0)
  {
    assert Pow2(0) == 1;
    hide Pow, Pow2;
  }

  lemma {:induction false} ProductUpper(n: nat, i: nat)
    requires i <= 18
    ensures LogLe(Product(n, i), FIXED_ONE, Pow2(35), (UNITS + 1) * (n % Pow2(i)), 0)
  {
    hide LogLe, Factor, Pow2, Product, Bit;
    if i == 0 {
      ProductStart(n);
    } else {
      ProductUpper(n, i - 1);
      ProductStep(n, i - 1);
      if Bit(n, i - 1) {
        var m, q := n % Pow2(i - 1), Pow2(i - 1);
        FactorBounds(i - 1);
        Distribute(UNITS + 1, m, q);
        UpperTruncated(Product(n, i - 1), Factor(i - 1), Product(n, i), (UNITS + 1) * m, (UNITS + 1) * q, Pow2(35));
      }
    }
  }

  lemma UpperTruncated(p: nat, c: nat, r: nat, a: nat, a': nat, e: nat)
    requires LogLe(p, FIXED_ONE, e, a, 0) && LogLe(c, FIXED_ONE, e, a', 0) && FIXED_ONE * r <= p * c
    ensures LogLe(r, FIXED_ONE, e, a + a', 0)
  {
    hide LogLe;
    Times(p, FIXED_ONE, a, 0, c, FIXED_ONE, a', 0, e);
    Smaller(r, FIXED_ONE, p * c, FIXED_ONE * FIXED_ONE, e, a + a', 0);
  }

  /** Truncation costs at most one unit for each factor. */
  lemma {:induction false} ProductLower(n: nat, i: nat)
    requires i <= 18
    ensures LogLe(FIXED_ONE, Product(n, i), Pow2(35), i, UNITS * (n % Pow2(i)))
  {
    hide LogLe, Factor, Pow2, Product, Bit;
    if i == 0 {
      ProductStart(n);
    } else {
      ProductLower(n, i - 1);
      ProductStep(n, i - 1);
      var m, q := n % Pow2(i - 1), Pow2(i - 1);
      if Bit(n, i - 1) {
        FactorBounds(i - 1);
        Distribute(UNITS, m, q);
        LowerTruncated(Product(n, i - 1), Factor(i - 1), Product(n, i), i - 1, UNITS * m, UNITS * q);
      } else {
        Slack(FIXED_ONE, Product(n, i), Pow2(35), i - 1, UNITS * m);
      }
    }
  }

  lemma Slack(n: nat, d: nat, e: nat, a: nat, b: nat)
    requires LogLe(n, d, e, a, b)
    ensures LogLe(n, d, e, a + 1, b)
  {
    Pow2Next(a);
  }

  lemma LowerTruncated(p: nat, c: nat, r: nat, a: nat, b: nat, b': nat)
    requires LogLe(FIXED_ONE, p, Pow2(35), a, b) && LogLe(FIXED_ONE, c, Pow2(35), 0, b')
    requires r >= FIXED_ONE && p >= FIXED_ONE && c >= FIXED_ONE && p * c < FIXED_ONE * (r + 1)
    ensures LogLe(FIXED_ONE, r, Pow2(35), a + 1, b + b')
  {
    Powers35();
    hide LogLe, Pow2;
    AtMostDoubles(FIXED_ONE + 1, FIXED_ONE, Pow2(35));
    Times(FIXED_ONE, p, a, b, FIXED_ONE, c, 0, b', Pow2(35));
    Times(FIXED_ONE * FIXED_ONE, p * c, a, b + b', FIXED_ONE + 1, FIXED_ONE, 1, 0, Pow2(35));
    // With one for FIXED_ONE: one / r <= (one * one / (p * c)) * ((one + 1) / one), because
    // p * c <= one * (r + 1) <= (one + 1) * r.
    var n, d := (FIXED_ONE * FIXED_ONE) * (FIXED_ONE + 1), (p * c) * FIXED_ONE;
    MulMono(FIXED_ONE, FIXED_ONE, p, c);
    assert FIXED_ONE * (p * c) <= FIXED_ONE * (FIXED_ONE * (r + 1)) <= FIXED_ONE * ((FIXED_ONE + 1) * r);
    MulLeft(FIXED_ONE, FIXED_ONE * (p * c), FIXED_ONE * ((FIXED_ONE + 1) * r));
    assert FIXED_ONE * d == FIXED_ONE * (FIXED_ONE * (p * c));
    assert n * r == FIXED_ONE * (FIXED_ONE * ((FIXED_ONE + 1) * r));
    Smaller(FIXED_ONE, r, n, d, Pow2(35), a + 1, b + b');
  }

  lemma Powers35()
    ensures Pow2(15) == 0x8000 && Pow2(18) == 0x4_0000 && Pow2(20) == 0x10_0000 && Pow2(35) == 0x8_0000_0000
  {
    Pow2Values();
    Pow2Add(15, 3);
    Pow2Add(15, 5);
    Pow2Add(15, 20);
  }

  /** The price of a tick: its logarithm is that many ticks, and it is below 2^16. */
  lemma PriceOfTick(n: nat)
    requires n <= MAX_TICK
    ensures LogLe(Product(n, 18), FIXED_ONE, Pow2(35), (UNITS + 1) * n, 0)
    ensures LogLe(FIXED_ONE, Product(n, 18), Pow2(35), 18, UNITS * n)
    ensures FIXED_ONE <= Product(n, 18) < 0x1_0000 * FIXED_ONE
  {
    hide LogLe, Pow2, Product;
    ProductUpper(n, 18);
    ProductLower(n, 18);
    Powers35();
    var r := Product(n, 18);
    if r >= 0x1_0000 * FIXED_ONE {
      PowerOfTwo(16, Pow2(35));
      Pow2Values();
      Times(r, FIXED_ONE, (UNITS + 1) * n, 0, 1, 0x1_0000, 0, 16 * Pow2(35), Pow2(35));
      Compare(r * 1, FIXED_ONE * 0x1_0000, Pow2(35), (UNITS + 1) * n, 16 * Pow2(35));
      assert false;
    }
  }

  /** The relative distance of neighbours. */
  lemma Neighbours(n: nat, e: nat, k: nat)
    requires n > 0 && 2 * e <= n + 1 && e * k == 0x8_0000_0000
    ensures LogLe(n + 1, n, Pow2(35), k, 0)
  {
    hide LogLe, Pow2;
    Powers35();
    AtMostDoubles(n + 1, n, e);
    Raise(n + 1, n, e, 1, 0, k);
  }

  /** The accuracy of the computed logarithm, in these terms. */
  lemma ComputedLog(m: nat, u: nat)
    requires m > 0 && LogWithin(m, PASSES, u)
    ensures LogLe(ONE, m, Pow2(35), 0, u * 0x10_0000)
    ensures LogLe(m, ONE, Pow2(35), (u + 1) * 0x10_0000 + 256, 0)
  {
    var e, k := Pow2(PASSES), 0x10_0000;
    hide Pow, Pow2;
    Powers35();
    PowPositive(ONE, e);
    WithoutScale(m, e, u);
    Raise(ONE, m, e, 0, u, k);
    DriftRaised(Pow(m, e), Pow(ONE, e), u + 1);
    PowPower(m, e, k);
    PowPower(ONE, e, k);
  }

  lemma WithoutScale(m: nat, e: nat, u: nat)
    requires Pow2(u) * Pow(ONE, e) <= Pow(m, e)
    ensures LogLe(ONE, m, e, 0, u)
  {
    assert Pow2(0) == 1;
    hide Pow, Pow2;
  }

  lemma DriftRaised(x: nat, y: nat, a: nat)
    requires y > 0 && x * ONE < (Pow2(a) * y) * (ONE + DRIFT)
    ensures LogLe(x, y, 0x10_0000, a * 0x10_0000 + 256, 0)
  {
    var k, z := 0x10_0000, ONE + DRIFT;
    hide LogLe, Pow2;
    MulAssoc(Pow2(a), y, z);
    OneStep(x * ONE, y * z, a);
    Raise(x * ONE, y * z, 1, a, 0, k);
    AtMostDoubles(z, ONE, 4096);
    Raise(z, ONE, 4096, 1, 0, 256);
    Times(x * ONE, y * z, a * k, 0, z, ONE, 256, 0, k);
    SameFraction(x, y, ONE, z);
    MulMono(1, 1, y, z * ONE);
    Smaller(x, y, (x * ONE) * z, (y * z) * ONE, k, a * k + 256, 0);
  }

  lemma OneStep(n: nat, d: nat, a: nat)
    requires n <= Pow2(a) * d
    ensures LogLe(n, d, 1, a, 0)
  {
    assert Pow2(0) == 1;
    PowOfFirst(n);
    PowOfFirst(d);
    hide Pow, Pow2;
  }

  lemma SameFraction(x: nat, y: nat, a: nat, b: nat)
    ensures x * ((y * b) * a) == ((x * a) * b) * y
    ensures (y * b) * a == y * (b * a)
  {
  }

  // ---- From the logarithm to a tick ----

  const PRICE_DENOMINATOR: nat := 1_000000_000000_000000_000000
  const LOG2_SQRT_10001: nat := 309801
  const LOG2_NEGATIVE_MAX_LOSE: nat := 300000

  /** `tick` is the one whose interval holds the price; the last interval is a point. */
  predicate Holds(tick: int, sqrtPrice: nat)
  {
    && -MAX_TICK <= tick <= MAX_TICK && PriceSqrt(tick) <= sqrtPrice
    && if tick < MAX_TICK then sqrtPrice < PriceSqrt(tick + 1) else sqrtPrice == PriceSqrt(tick)
  }

  /** From 1.0 on, the logarithm is short of the tick's by less than one tick, and never beyond the
      next tick's. */
  lemma AboveOne(p: nat, t: nat, x: nat, u: nat)
    requires Holds(t, p) && x == p * ONE / PRICE_DENOMINATOR && x >= ONE
    requires LogWithin(x, PASSES, u)
    ensures LOG2_SQRT_10001 * (t - 1) <= u * 0x2_0000 < LOG2_SQRT_10001 * (t + 1)
    ensures t == MAX_TICK ==> u * 0x2_0000 < LOG2_SQRT_10001 * t
  {
    hide LogLe, Pow2, Product, LogWithin;
    DivBounds(p * ONE, PRICE_DENOMINATOR);
    Powers35();
    ComputedLog(x, u);
    PriceOfTick(t);
    AboveLower(Product(t, 18), p, t, x, u);
    if t < MAX_TICK {
      PriceOfTick(t + 1);
      AboveUpper(Product(t + 1, 18), p, t + 1, x, u);
    } else {
      AboveUpper(Product(t, 18), p, t, x, u);
    }
  }

  lemma AboveLower(r: nat, p: nat, t: nat, x: nat, u: nat)
    requires LogLe(FIXED_ONE, r, Pow2(35), 18, UNITS * t) && FIXED_ONE <= r && r * FIXED_ONE <= p && t <= MAX_TICK
    requires LogLe(x, ONE, Pow2(35), (u + 1) * 0x10_0000 + 256, 0)
    requires x >= ONE && p * ONE < PRICE_DENOMINATOR * (x + 1)
    ensures LOG2_SQRT_10001 * (t - 1) <= u * 0x2_0000
  {
    hide LogLe, Pow2;
    Powers35();
    Neighbours(x, 0x8000_0000, 16);
    Times(x, ONE, (u + 1) * 0x10_0000 + 256, 0, x + 1, x, 16, 0, Pow2(35));
    Times(x * (x + 1), ONE * x, (u + 1) * 0x10_0000 + 272, 0, FIXED_ONE, r, 18, UNITS * t, Pow2(35));
    assert ONE * r < FIXED_ONE * (x + 1);
    MulMono(x, ONE * r, x, FIXED_ONE * (x + 1));
    assert (ONE * x) * r == x * (ONE * r);
    assert (x * (x + 1)) * FIXED_ONE == x * (FIXED_ONE * (x + 1));
    MulMono(1, 1, x, r);
    Compare((x * (x + 1)) * FIXED_ONE, (ONE * x) * r, Pow2(35), (u + 1) * 0x10_0000 + 290, UNITS * t);
  }

  lemma AboveUpper(r: nat, p: nat, t: nat, x: nat, u: nat)
    requires LogLe(r, FIXED_ONE, Pow2(35), (UNITS + 1) * t, 0) && p <= r * FIXED_ONE && 0 < t <= MAX_TICK
    requires LogLe(ONE, x, Pow2(35), 0, u * 0x10_0000)
    requires x >= ONE && PRICE_DENOMINATOR * x <= p * ONE
    ensures u * 0x2_0000 <= LOG2_SQRT_10001 * t
    ensures p < r * FIXED_ONE || t == MAX_TICK ==> u * 0x2_0000 < LOG2_SQRT_10001 * t
  {
    hide LogLe, Pow2;
    Powers35();
    Times(ONE, x, 0, u * 0x10_0000, r, FIXED_ONE, (UNITS + 1) * t, 0, Pow2(35));
    assert x * FIXED_ONE <= ONE * r;
    Compare(ONE * r, x * FIXED_ONE, Pow2(35), (UNITS + 1) * t, u * 0x10_0000);
  }

  /** Below 1.0, the logarithm of the reciprocal, raised by the allowance, is short of the tick's by
      less than one tick, and never beyond the next tick's. */
  lemma BelowOne(p: nat, n: nat, x: nat, m: nat, u: nat)
    requires 0 < n && Holds(0 - n, p) && x == p * ONE / PRICE_DENOMINATOR && m == U64 / (x + 1)
    requires m >= ONE && LogWithin(m, PASSES, u)
    ensures LOG2_SQRT_10001 * (n - 1) <= u * 0x2_0000 + LOG2_NEGATIVE_MAX_LOSE < LOG2_SQRT_10001 * (n + 1)
  {
    hide LogLe, Pow2, Product, LogWithin, FixedPrice;
    DivBounds(p * ONE, PRICE_DENOMINATOR);
    DivBounds(U64, x + 1);
    ComputedLog(m, u);
    PriceOfTick(n);
    PriceOfTick(n - 1);
    ThisPrice(n);
    PreviousPrice(n);
    hide Holds;
    BelowUpper(Product(n, 18), FixedPrice(0 - n), p, n, x, m, u);
    BelowLower(Product(n - 1, 18), FixedPrice(1 - n), p, n - 1, x, m, u, FixedPrice(0 - n));
  }

  lemma ThisPrice(n: nat)
    requires 0 < n <= MAX_TICK
    ensures FIXED_ONE * FIXED_ONE < Product(n, 18) * (FixedPrice(0 - n) + 1) && FixedPrice(0 - n) >= 15258788
  {
    hide Product, LogLe;
    PriceOfTick(n);
    DivBounds(FIXED_ONE * FIXED_ONE, Product(n, 18));
    ReciprocalAtLeast(Product(n, 18), FixedPrice(0 - n));
  }

  lemma PreviousPrice(n: nat)
    requires 0 < n <= MAX_TICK
    ensures FixedPrice(1 - n) * Product(n - 1, 18) <= FIXED_ONE * FIXED_ONE
  {
    hide Product;
    DivBounds(FIXED_ONE * FIXED_ONE, Product(n - 1, 18));
    if n == 1 {
      ProductOfZero();
    }
  }

  lemma ProductOfZero()
    ensures Product(0, 18) == FIXED_ONE
  {
    hide LogLe, Pow2, Product;
    PriceOfTick(0);
    Powers35();
    if Product(0, 18) > FIXED_ONE {
      Compare(Product(0, 18), FIXED_ONE, Pow2(35), 0, 0);
      assert false;
    }
  }

  lemma ReciprocalAtLeast(r: nat, f: nat)
    requires FIXED_ONE <= r < 0x1_0000 * FIXED_ONE && FIXED_ONE * FIXED_ONE < r * (f + 1)
    ensures f >= 15258788
  {
    if f + 1 <= 15258788 {
      MulMono(r, f + 1, 0x1_0000 * FIXED_ONE, 15258788);
      assert false;
    }
  }

  lemma BelowUpper(r: nat, f: nat, p: nat, n: nat, x: nat, m: nat, u: nat)
    requires LogLe(r, FIXED_ONE, Pow2(35), (UNITS + 1) * n, 0) && r >= FIXED_ONE && f >= 15258788
               && FIXED_ONE * FIXED_ONE < r * (f + 1)
    requires LogLe(ONE, m, Pow2(35), 0, u * 0x10_0000) && m > 0
    requires f * FIXED_ONE <= p && p * ONE < PRICE_DENOMINATOR * (x + 1) && (x + 1) * m <= U64
    ensures u * 0x2_0000 + LOG2_NEGATIVE_MAX_LOSE < LOG2_SQRT_10001 * (n + 1)
  {
    hide LogLe, Pow2;
    Powers35();
    Neighbours(f, 0x40_0000, 0x2000);
    Times(ONE, m, 0, u * 0x10_0000, r, FIXED_ONE, (UNITS + 1) * n, 0, Pow2(35));
    Times(ONE * r, m * FIXED_ONE, (UNITS + 1) * n, u * 0x10_0000, f + 1, f, 0x2000, 0, Pow2(35));
    ReciprocalBelow(r, f, x, m);
    Compare((ONE * r) * (f + 1), (m * FIXED_ONE) * f, Pow2(35), (UNITS + 1) * n + 0x2000, u * 0x10_0000);
  }

  lemma ReciprocalBelow(r: nat, f: nat, x: nat, m: nat)
    requires FIXED_ONE * FIXED_ONE < r * (f + 1) && f > 0 && m > 0
    requires f * ONE < FIXED_ONE * (x + 1) && (x + 1) * m <= U64
    ensures 0 < (m * FIXED_ONE) * f < (ONE * r) * (f + 1)
  {
    MulStrict(m, f * ONE, FIXED_ONE * (x + 1));
    assert m * (FIXED_ONE * (x + 1)) == FIXED_ONE * ((x + 1) * m);
    MulLeft(FIXED_ONE, (x + 1) * m, U64);
    assert (m * f) * ONE < (FIXED_ONE * ONE) * ONE;
    assert m * f < FIXED_ONE * ONE;
    MulStrict(FIXED_ONE, m * f, FIXED_ONE * ONE);
    assert (m * FIXED_ONE) * f == FIXED_ONE * (m * f);
    MulMono(1, 1, m, f);
    MulLeft(ONE, FIXED_ONE * FIXED_ONE, r * (f + 1));
    MulAssoc(ONE, r, f + 1);
  }

  lemma BelowLower(r: nat, f': nat, p: nat, n: nat, x: nat, m: nat, u: nat, f: nat)
    requires LogLe(FIXED_ONE, r, Pow2(35), 18, UNITS * n) && r >= FIXED_ONE && f' * r <= FIXED_ONE * FIXED_ONE
               && n <= MAX_TICK
    requires LogLe(m, ONE, Pow2(35), (u + 1) * 0x10_0000 + 256, 0) && m >= ONE
    requires p < f' * FIXED_ONE && PRICE_DENOMINATOR * x <= p * ONE && U64 < (x + 1) * (m + 1)
    requires f >= 15258788 && f * FIXED_ONE <= p && p * ONE < PRICE_DENOMINATOR * (x + 1)
    ensures LOG2_SQRT_10001 * n <= u * 0x2_0000 + LOG2_NEGATIVE_MAX_LOSE
  {
    hide LogLe, Pow2;
    Powers35();
    assert x >= 0xFFFF;
    Neighbours(x, 0x8000, 0x10_0000);
    Neighbours(m, 0x8000_0000, 16);
    Times(m, ONE, (u + 1) * 0x10_0000 + 256, 0, m + 1, m, 16, 0, Pow2(35));
    Times(x + 1, x, 0x10_0000, 0, FIXED_ONE, r, 18, UNITS * n, Pow2(35));
    Times(m * (m + 1), ONE * m, (u + 1) * 0x10_0000 + 272, 0, (x + 1) * FIXED_ONE, x * r, 0x10_0012, UNITS * n,
          Pow2(35));
    ReciprocalAbove(r, f', x, m);
    Compare((m * (m + 1)) * ((x + 1) * FIXED_ONE), (ONE * m) * (x * r), Pow2(35), (u + 1) * 0x10_0000 + 0x10_0122,
            UNITS * n);
  }

  lemma ReciprocalAbove(r: nat, f': nat, x: nat, m: nat)
    requires r > 0 && x > 0 && m > 0 && f' * r <= FIXED_ONE * FIXED_ONE && FIXED_ONE * x <= f' * ONE
               && U64 < (x + 1) * (m + 1)
    ensures 0 < (ONE * m) * (x * r) <= (m * (m + 1)) * ((x + 1) * FIXED_ONE)
  {
    MulLeft(r, FIXED_ONE * x, f' * ONE);
    assert r * (FIXED_ONE * x) == FIXED_ONE * (x * r);
    assert r * (f' * ONE) == (f' * r) * ONE;
    assert FIXED_ONE * (x * r) <= FIXED_ONE * (FIXED_ONE * ONE);
    assert x * r <= FIXED_ONE * ONE;
    MulLeft(ONE, x * r, FIXED_ONE * ONE);
    assert ONE * (x * r) <= FIXED_ONE * U64;
    MulLeft(FIXED_ONE, U64, (x + 1) * (m + 1));
    MulLeft(m, ONE * (x * r), FIXED_ONE * ((x + 1) * (m + 1)));
    assert (ONE * m) * (x * r) == m * (ONE * (x * r));
    SameProduct(m, m + 1, x + 1, FIXED_ONE);
    MulMono(1, 1, x, r);
    MulMono(1, 1, m, x * r);
  }

  lemma SameProduct(a: nat, b: nat, c: nat, d: nat)
    ensures a * (d * (c * b)) == (a * b) * (c * d)
  {
    assert d * (c * b) == b * (c * d);
    MulAssoc(a, b, c * d);
  }

  /** The source takes the truncating remainder of a positive tick and the Euclidean one of any
      other; both are this remainder. */
  function AlignTickToSpacing(accurateTick: int, tickSpacing: nat): int
    requires tickSpacing > 0
  {
    accurateTick - accurateTick % tickSpacing
  }

  lemma AlignIsFloor(t: int, s: nat)
    requires s > 0
    ensures AlignTickToSpacing(t, s) % s == 0
    ensures AlignTickToSpacing(t, s) <= t < AlignTickToSpacing(t, s) + s
  {
    DivMod(t, s);
    Multiple(s, t / s);
  }

  lemma DivMod(t: int, s: nat)
    requires s > 0
    ensures t == (t / s) * s + t % s && 0 <= t % s < s
  {
  }

  lemma AlignTwice(t: int, s: nat)
    requires s > 0
    ensures AlignTickToSpacing(AlignTickToSpacing(t, s), s) == AlignTickToSpacing(t, s)
    ensures AlignTickToSpacing(t, s) % s == 0
  {
    AlignIsFloor(t, s);
  }

  function AbsFloorTick(sign: bool, log: nat): nat
  {
    if sign then log / LOG2_SQRT_10001 else (log + LOG2_NEGATIVE_MAX_LOSE) / LOG2_SQRT_10001
  }

  /** One of the two candidates holds the price, and the one whose price is computed has one. */
  lemma CandidateHolds(t: int, p: nat, x: nat, log: nat)
    requires Holds(t, p) && x == p * ONE / PRICE_DENOMINATOR && 0 < x < U64
    requires log % 0x2_0000 == 0 && LogWithin(Magnitude(x), PASSES, log / 0x2_0000)
    ensures var k := AbsFloorTick(x >= ONE, log);
            if x >= ONE then t in {k, k + 1} && k + 1 <= MAX_TICK else -t in {k, k + 1} && k <= MAX_TICK
  {
    hide LogWithin, PriceSqrt;
    SignOfTick(t, p, x);
    MagnitudeRange(x);
    var u := log / 0x2_0000;
    if t >= 0 {
      AboveOne(p, t, x, u);
    } else {
      BelowOne(p, -t, x, U64 / (x + 1), u);
    }
  }

  lemma SignOfTick(t: int, p: nat, x: nat)
    requires Holds(t, p) && x == p * ONE / PRICE_DENOMINATOR
    ensures x >= ONE <==> t >= 0
  {
    hide Product;
    if t < 0 {
      var r := Product(-(t + 1), 18);
      DivBounds(FIXED_ONE * FIXED_ONE, r);
      if t + 1 == 0 {
        ProductOfZero();
      } else if FIXED_ONE + 1 <= FIXED_ONE * FIXED_ONE / r {
        MulMono(FIXED_ONE, FIXED_ONE + 1, r, FIXED_ONE * FIXED_ONE / r);
        assert false;
      }
    }
  }

  /** The scaled price is positive and no multiplication or cast overflows. */
  lemma ScaledRange(t: int, p: nat)
    requires Holds(t, p)
    ensures 0 < p * ONE / PRICE_DENOMINATOR < U64 && p * ONE < U128
  {
    hide Product, LogLe;
    if t < 0 {
      ThisPrice(-t);
      SignOfTick(t, p, p * ONE / PRICE_DENOMINATOR);
    } else {
      PriceOfTick(if t < MAX_TICK then t + 1 else t);
    }
  }

  // ---- The prices increase ----

  lemma PriceIncreases(t: int)
    requires -MAX_TICK <= t < MAX_TICK
    ensures PriceSqrt(t) < PriceSqrt(t + 1)
  {
    hide Product;
    if t >= 0 {
      ProductIncreases(t);
    } else {
      ReciprocalIncreases(-t);
    }
  }

  lemma {:induction false} PricesOrdered(s: int, t: int)
    requires -MAX_TICK <= s < t <= MAX_TICK
    ensures PriceSqrt(s) < PriceSqrt(t)
    decreases t - s
  {
    hide PriceSqrt;
    PriceIncreases(t - 1);
    if s < t - 1 {
      PricesOrdered(s, t - 1);
    }
  }

  lemma ProductIncreases(n: nat)
    requires n < MAX_TICK
    ensures Product(n, 18) < Product(n + 1, 18)
  {
    hide Product, LogLe, Pow2;
    PriceOfTick(n);
    PriceOfTick(n + 1);
    var r, r' := Product(n, 18), Product(n + 1, 18);
    Times(r, FIXED_ONE, (UNITS + 1) * n, 0, FIXED_ONE, r', 18, UNITS * (n + 1), Pow2(35));
    if r' <= r {
      MulMono(FIXED_ONE, r', FIXED_ONE, r);
      Compare(r * FIXED_ONE, FIXED_ONE * r', Pow2(35), (UNITS + 1) * n + 18, UNITS * (n + 1));
      assert false;
    }
  }

  lemma ReciprocalIncreases(n: nat)
    requires 0 < n <= MAX_TICK
    ensures FixedPrice(0 - n) < FixedPrice(1 - n)
  {
    hide Product, LogLe, Pow2, FixedPrice;
    var f, f', r, r' := FixedPrice(0 - n), FixedPrice(1 - n), Product(n, 18), Product(n - 1, 18);
    PriceOfTick(n);
    PriceOfTick(n - 1);
    ThisPrice(n);
    Reciprocals(n);
    Neighbours(f, 0x40_0000, 0x2000);
    Times(f + 1, f, 0x2000, 0, r', FIXED_ONE, (UNITS + 1) * (n - 1), 0, Pow2(35));
    Times((f + 1) * r', f * FIXED_ONE, 0x2000 + (UNITS + 1) * (n - 1), 0, FIXED_ONE, r, 18, UNITS * n, Pow2(35));
    if f' <= f {
      MulMono(f' + 1, r', f + 1, r');
      MulMono(f * r, FIXED_ONE, (f + 1) * r', FIXED_ONE);
      assert (f * FIXED_ONE) * r == (f * r) * FIXED_ONE;
      MulMono(1, 1, f, FIXED_ONE);
      MulMono(1, 1, f * FIXED_ONE, r);
      Compare(((f + 1) * r') * FIXED_ONE, (f * FIXED_ONE) * r, Pow2(35), 0x2000 + (UNITS + 1) * (n - 1) + 18,
              UNITS * n);
      assert false;
    }
  }

  lemma Reciprocals(n: nat)
    requires 0 < n <= MAX_TICK
    ensures FixedPrice(0 - n) * Product(n, 18) <= FIXED_ONE * FIXED_ONE < (FixedPrice(1 - n) + 1) * Product(n - 1, 18)
  {
    hide Product;
    DivBounds(FIXED_ONE * FIXED_ONE, Product(n, 18));
    DivBounds(FIXED_ONE * FIXED_ONE, Product(n - 1, 18));
    if n == 1 {
      ProductOfZero();
    }
  }

  /** A tick's own price lies in its interval, so looking it up gives the tick back. */
  lemma OwnPrice(t: int)
    requires -MAX_TICK <= t <= MAX_TICK
    ensures Holds(t, PriceSqrt(t))
  {
    hide PriceSqrt;
    if t < MAX_TICK {
      PriceIncreases(t);
    }
  }

  /** The intervals cover all prices from the least to the greatest. */
  lemma {:induction false} SomeTickHolds(p: nat, lo: int)
    requires -MAX_TICK <= lo <= MAX_TICK && PriceSqrt(lo) <= p <= PriceSqrt(MAX_TICK)
    ensures exists t :: Holds(t, p)
    decreases MAX_TICK - lo
  {
    hide PriceSqrt;
    if lo < MAX_TICK && PriceSqrt(lo + 1) <= p {
      SomeTickHolds(p, lo + 1);
    } else {
      assert Holds(lo, p);
    }
  }

  // ---- The price of a tick, stated in plain terms ----

  /** 1.0001 to the powers 1/2, 1, 2, 4 and so on, with 12 decimals: the first is the square root rounded
      down, the second exact, and each later one the square of the one before, rounded down. */
  ghost predicate FactorLaw(c: seq<nat>): (y: bool)
    ensures y ==> |c| == 18
  {
    && |c| == 18
    && c[0] * c[0] * 10000 <= 10001 * 1000000000000 * 1000000000000 < (c[0] + 1) * (c[0] + 1) * 10000
    && c[1] == 1000100000000
    && forall i :: 1 <= i < 17 ==> c[i + 1] == c[i] * c[i] / 1000000000000
  }

  /** The factors of the bits of `n`, multiplied one after the other, each product rounded down. */
  ghost predicate Multiplied(n: nat, c: seq<nat>, r: seq<nat>): (y: bool)
    ensures y ==> |c| == 18 && |r| == 19
  {
    && |c| == 18 && |r| == 19 && r[0] == 1000000000000
    && forall i :: 0 <= i < 18 ==> r[i + 1] == if n / Pow2(i) % 2 == 1 then r[i] * c[i] / 1000000000000 else r[i]
  }

  /** The square root of the price at a tick: that product for ticks from 0 on, and its reciprocal with 12
      decimals below 0; either extended to 24 decimals. */
  ghost predicate IsPriceOf(t: int, price: nat)
  {
    exists c, r :: FactorLaw(c) && Multiplied(if t >= 0 then t else -t, c, r) && r[18] > 0
      && price == (if t >= 0 then r[18] else 1000000000000 * 1000000000000 / r[18]) * 1000000000000
  }

  ghost function Factors(): (c: seq<nat>)
    ensures |c| == 18 && forall i :: 0 <= i < 18 ==> c[i] == Factor(i)
  {
    seq(18, i requires 0 <= i < 18 => Factor(i))
  }

  lemma FactorsLaw()
    ensures FactorLaw(Factors())
  {
    forall i | 1 <= i < 17 ensures Factor(i + 1) == Factor(i) * Factor(i) / 1000000000000 {
      FactorSquare(i);
    }
  }

  lemma FactorSquare(i: nat)
    requires 1 <= i < 17
    ensures Factor(i + 1) == Factor(i) * Factor(i) / 1000000000000
  {
  }

  /** The law leaves no choice. */
  lemma {:induction false} FactorsUnique(c: seq<nat>, i: nat)
    requires FactorLaw(c) && i < 18
    ensures c[i] == Factor(i)
  {
    if i == 0 {
      RootUnique(c[0], Factor(0));
    } else if i > 1 {
      FactorsUnique(c, i - 1);
      FactorSquare(i - 1);
      assert c[i - 1 + 1] == c[i - 1] * c[i - 1] / 1000000000000;
    }
  }

  lemma RootUnique(a: nat, b: nat)
    requires a * a * 10000 <= 10001 * 1000000000000 * 1000000000000 < (a + 1) * (a + 1) * 10000
    requires b * b * 10000 <= 10001 * 1000000000000 * 1000000000000 < (b + 1) * (b + 1) * 10000
    ensures a == b
  {
    if a + 1 <= b {
      MulMono(a + 1, a + 1, b, b);
    } else if b + 1 <= a {
      MulMono(b + 1, b + 1, a, a);
    }
  }

  lemma {:induction false} MultipliedIs(n: nat, c: seq<nat>, r: seq<nat>, i: nat)
    requires FactorLaw(c) && Multiplied(n, c, r) && i <= 18
    ensures r[i] == Product(n, i)
  {
    hide FactorLaw, Factor, Pow2;
    if i > 0 {
      MultipliedIs(n, c, r, i - 1);
      FactorsUnique(c, i - 1);
      AndMask(n, i - 1);
      var j := i - 1;
      assert r[j + 1] == if n / Pow2(j) % 2 == 1 then r[j] * c[j] / 1000000000000 else r[j];
    }
  }

  lemma MultipliedExists(n: nat)
    ensures Multiplied(n, Factors(), seq(19, i requires 0 <= i < 19 => Product(n, i)))
  {
    hide Factor, Pow2, Product;
    var r := seq(19, i requires 0 <= i < 19 => Product(n, i));
    forall i | 0 <= i < 18
      ensures r[i + 1] == if n / Pow2(i) % 2 == 1 then r[i] * Factors()[i] / 1000000000000 else r[i]
    {
      ProductNext(n, i);
    }
    assert Product(n, 0) == 1000000000000 by { ProductStart(n); }
  }

  lemma ProductNext(n: nat, i: nat)
    requires i < 18
    ensures Product(n, i + 1)
            == if n / Pow2(i) % 2 == 1 then Product(n, i) * Factor(i) / 1000000000000 else Product(n, i)
  {
    hide Factor, Pow2;
    AndMask(n, i);
  }

  /** The price computed is the price of the tick, and there is no other. */
  lemma PriceIs(t: int, price: nat)
    requires -MAX_TICK <= t <= MAX_TICK
    ensures IsPriceOf(t, price) <==> price == PriceSqrt(t)
  {
    hide FactorLaw, Multiplied, Product;
    var n := if t >= 0 then t else -t;
    FactorsLaw();
    MultipliedExists(n);
    forall c, r | FactorLaw(c) && Multiplied(n, c, r) ensures |r| == 19 && r[18] == Product(n, 18) {
      MultipliedIs(n, c, r, 18);
    }
  }

  ghost predicate NotBelow(t: int, p: nat)
  {
    exists price: nat :: IsPriceOf(t, price) && price <= p
  }

  /** The price lies at the tick: not below the tick's own price, but below that of the next tick; at the
      last tick it is the tick's own. */
  ghost predicate LiesAt(t: int, p: nat)
  {
    && -221818 <= t <= 221818
    && if t < 221818 then NotBelow(t, p) && !NotBelow(t + 1, p) else IsPriceOf(t, p)
  }

  /** A price at a tick is looked up as the greatest multiple of the spacing up to that tick. */
  ghost predicate LooksUp(p: nat, tickSpacing: nat, tick: Option<int>)
    requires tickSpacing > 0
  {
    forall t :: LiesAt(t, p) ==>
      tick.Some? && tick.value % tickSpacing == 0 && tick.value <= t < tick.value + tickSpacing
  }

  lemma NotBelowIff(t: int, p: nat)
    requires -MAX_TICK <= t <= MAX_TICK
    ensures NotBelow(t, p) <==> PriceSqrt(t) <= p
  {
    hide PriceSqrt, IsPriceOf;
    PriceIs(t, PriceSqrt(t));
    forall price: nat | IsPriceOf(t, price) ensures price == PriceSqrt(t) {
      PriceIs(t, price);
    }
  }

  lemma LiesIff(t: int, p: nat)
    ensures LiesAt(t, p) <==> Holds(t, p)
  {
    hide PriceSqrt, IsPriceOf, NotBelow;
    if -MAX_TICK <= t < MAX_TICK {
      NotBelowIff(t, p);
      NotBelowIff(t + 1, p);
    } else if t == MAX_TICK {
      PriceIs(t, p);
    }
  }

  lemma LookedUp(p: nat, tickSpacing: nat, tick: Option<int>)
    requires tickSpacing > 0
    requires forall t :: Holds(t, p) ==> tick == Some(AlignTickToSpacing(t, tickSpacing))
    ensures LooksUp(p, tickSpacing, tick)
  {
    hide Holds, LiesAt, AlignTickToSpacing;
    forall t | LiesAt(t, p)
      ensures tick.Some? && tick.value % tickSpacing == 0 && tick.value <= t < tick.value + tickSpacing
    {
      LiesIff(t, p);
      AlignIsFloor(t, tickSpacing);
    }
  }

  // ---- The lookup ----

  /** The tick, aligned to the spacing, whose interval holds the price; None where the source panics.
      Every price between those of the least and the greatest tick is held by one. */
  method GetTickAtSqrtPrice(sqrtPrice: nat, tickSpacing: nat) returns (tick: Option<int>)
    requires 0 < tickSpacing < 0x1_0000
    ensures PriceSqrt(-MAX_TICK) <= sqrtPrice <= PriceSqrt(MAX_TICK) ==> exists t :: Holds(t, sqrtPrice)
    ensures forall t :: Holds(t, sqrtPrice) ==> tick == Some(AlignTickToSpacing(t, tickSpacing))
    ensures tick.Some? ==> tick.value % tickSpacing == 0
    ensures LooksUp(sqrtPrice, tickSpacing, tick)
  {
    hide Holds, PriceSqrt, LogWithin, AlignTickToSpacing, Magnitude, AbsFloorTick, LooksUp;
    if PriceSqrt(-MAX_TICK) <= sqrtPrice <= PriceSqrt(MAX_TICK) {
      SomeTickHolds(sqrtPrice, -MAX_TICK);
    }
    forall t | Holds(t, sqrtPrice)
      ensures 0 < sqrtPrice * ONE / PRICE_DENOMINATOR < U64 && sqrtPrice * ONE < U128
    {
      ScaledRange(t, sqrtPrice);
    }
    if sqrtPrice * ONE >= U128 {
      LookedUp(sqrtPrice, tickSpacing, None);
      return None;
    }
    var sqrtPriceX32 := sqrtPrice * ONE / PRICE_DENOMINATOR % U64;
    var sign, log := Log2IterativeApproximationX32(sqrtPriceX32);
    var absFloorTick: int := AbsFloorTick(sign, log);
    forall t | Holds(t, sqrtPrice)
      ensures if sign then t in {absFloorTick, absFloorTick + 1} else t in {-absFloorTick, -absFloorTick - 1}
      ensures (if sign then absFloorTick + 1 else absFloorTick) <= MAX_TICK
    {
      CandidateHolds(t, sqrtPrice, sqrtPriceX32, log);
    }
    var nearer: int := if sign then absFloorTick else -absFloorTick;
    var farther: int := if sign then absFloorTick + 1 else -absFloorTick - 1;
    tick := ChooseTick(sign, nearer, farther, tickSpacing, sqrtPrice);
    LookedUp(sqrtPrice, tickSpacing, tick);
  }

  /** The comparison of the two candidates against the price itself. */
  method ChooseTick(sign: bool, nearer: int, farther: int, tickSpacing: nat, sqrtPrice: nat) returns (tick: Option<int>)
    requires tickSpacing > 0 && farther == if sign then nearer + 1 else nearer - 1
    ensures tick.None? <==>
            && AlignTickToSpacing(nearer, tickSpacing) != AlignTickToSpacing(farther, tickSpacing)
            && !(-MAX_TICK <= (if sign then farther else nearer) <= MAX_TICK)
    ensures tick.Some? ==>
              && tick.value % tickSpacing == 0
              && (forall t :: t in {nearer, farther} && Holds(t, sqrtPrice) ==>
                    tick.value == AlignTickToSpacing(t, tickSpacing))
  {
    hide PriceSqrt, AlignTickToSpacing, Holds;
    AlignTwice(nearer, tickSpacing);
    AlignTwice(farther, tickSpacing);
    var fartherAligned := AlignTickToSpacing(farther, tickSpacing);
    var nearerAligned := AlignTickToSpacing(nearer, tickSpacing);
    if fartherAligned == nearerAligned {
      return Some(nearerAligned);
    }
    var compared := if sign then farther else nearer;
    if !(-MAX_TICK <= compared <= MAX_TICK) {
      return None;
    }
    var accurateTick;
    if sign {
      accurateTick := if sqrtPrice >= PriceSqrt(farther) then fartherAligned else nearerAligned;
    } else {
      accurateTick := if PriceSqrt(nearer) <= sqrtPrice then nearerAligned else fartherAligned;
    }
    forall t | t in {nearer, farther} && Holds(t, sqrtPrice)
      ensures accurateTick == AlignTickToSpacing(t, tickSpacing)
    {
      HoldsMeans(t, sqrtPrice);
    }
    tick := Some(if tickSpacing > 1 then AlignTickToSpacing(accurateTick, tickSpacing) else accurateTick);
  }

  lemma HoldsMeans(t: int, p: nat)
    requires Holds(t, p)
    ensures -MAX_TICK <= t <= MAX_TICK && PriceSqrt(t) <= p && (t < MAX_TICK ==> p < PriceSqrt(t + 1))
  {
    hide PriceSqrt;
  }
}
