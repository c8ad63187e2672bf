/** A pool, with positions, whose quote reads outside the window of the bitmap and panics. */
module LeavingPool {
  import opened Common
  import opened Powers
  import opened Tickmap
  import opened ClosestTicks
  import opened SwapLoop
  import opened WindowExits
  import opened StepFormulas
  import LogBounds
  import TickPrices

  // ---- The window ----

  /** The byte whose bits are the positions that satisfy `on`, as far as bit `n`. */
  function ByteOf(on: int -> bool, b: int, n: nat): nat
  {
    if n == 0 then 0
    else
      var rest := ByteOf(on, b, n - 1);
      if on(8 * b + n - 1) then Xor(rest, Pow2(n - 1)) else rest
  }

  lemma {:induction false} ByteBits(on: int -> bool, b: int, n: nat, i: nat)
    ensures ByteOf(on, b, n) < Pow2(n)
    ensures Bit(ByteOf(on, b, n), i) <==> i < n && on(8 * b + i)
  {
    hide Bit, Xor;
    if n == 0 {
      ZeroHasNoBits(i);
    } else {
      var rest := ByteOf(on, b, n - 1);
      ByteBits(on, b, n - 1, i);
      XorFlips(rest, n - 1, i);
      XorBound(rest, Pow2(n - 1), n);
    }
  }

  /** The window with exactly these positions set. */
  function WindowWith(on: int -> bool, offset: nat): (w: TickmapSlice)
    ensures |w.data| == SLICE_SIZE && w.offset == offset
    ensures forall p :: w.IsSet(p) <==> w.HasByte(p / 8) && on(p)
  {
    assert forall b :: ByteOf(on, b, 8) < 256 by {
      forall b ensures ByteOf(on, b, 8) < 256 {
        ByteBits(on, b, 8, 0);
      }
    }
    var w := TickmapSlice(seq(SLICE_SIZE, i => ByteOf(on, offset + i, 8)), offset);
    assert forall p :: w.IsSet(p) <==> w.HasByte(p / 8) && on(p) by {
      forall p ensures w.IsSet(p) <==> w.HasByte(p / 8) && on(p) {
        if w.HasByte(p / 8) {
          ByteBits(on, p / 8, 8, p % 8);
        }
      }
    }
    w
  }

  /** Ticks -256, -513, -770 and so on: after each crossing the next one is as far away as a search
      can see. */
  predicate Spread(p: int)
  {
    p <= TICK_LIMIT - 256 && (TICK_LIMIT - 256 - p) % 257 == 0
  }

  function SpreadWindow(): TickmapSlice
  {
    WindowWith(Spread, WindowStart(0, 1, true))
  }

  /** From tick -3598 the next set tick is behind the window's edge. */
  lemma SpreadEdge(w: TickmapSlice)
    requires w.offset == 5094 && forall p :: w.IsSet(p) ==> Spread(p)
    ensures PanicsFrom(w, TICK_LIMIT - 257 * 14, 1, true)
  {
    hide TickmapSlice.IsSet;
    assert !w.HasByte(5093);
    assert forall p :: 8 * 5093 + 8 <= p <= TICK_LIMIT - 257 * 14 ==> !Spread(p);
  }

  // ---- The pool ----

  /** Liquidity of each position: 1.0. */
  const LIQUIDITY: nat := 1_000000

  /** A fee of 0.01%. */
  const FEE: nat := 100_000000

  const INPUT: nat := 100

  /** Fifteen positions side by side. The first holds the pool's tick 0, each of the others the
      stretch below the one before. */
  const POSITIONS: nat := 15

  function Lower(j: nat): int { -256 - 257 * j }

  function Upper(j: nat): int { if j == 0 then 1000 else Lower(j - 1) }

  /** Liquidity of the first `n` positions at a tick. */
  ghost function Active(n: nat, tick: int): nat
  {
    if n == 0 then 0 else Active(n - 1, tick) + (if Lower(n - 1) <= tick < Upper(n - 1) then LIQUIDITY else 0)
  }

  /** What crossing a tick upwards adds to the liquidity: positions that begin less those that end. */
  ghost function NetChange(n: nat, tick: int): int
  {
    if n == 0 then 0
    else NetChange(n - 1, tick) + (if Lower(n - 1) == tick then LIQUIDITY else 0)
         - (if Upper(n - 1) == tick then LIQUIDITY else 0)
  }

  ghost predicate Bounds(tick: int)
  {
    exists j :: 0 <= j < POSITIONS && (tick == Lower(j) || tick == Upper(j))
  }

  /** The positions account for the pool: its liquidity at tick 0, the set bits of its window, and
      net changes of zero at all of them. */
  lemma PositionsAccount(tick: int)
    ensures Active(POSITIONS, 0) == LIQUIDITY
    ensures SpreadWindow().HasByte(Position(tick, 1) / 8) ==>
              (SpreadWindow().IsSet(Position(tick, 1)) <==> Bounds(tick))
    ensures SpreadWindow().IsSet(Position(tick, 1)) ==> NetChange(POSITIONS, tick) == 0
  {
    hide TickmapSlice.IsSet;
    ActiveAtZero(POSITIONS);
    var w, p := SpreadWindow(), Position(tick, 1);
    assert p == tick + TICK_LIMIT && w.offset == 5094;
    if w.HasByte(p / 8) {
      if Spread(p) {
        var j := (TICK_LIMIT - 256 - p) / 257;
        assert tick == Lower(j) && j < POSITIONS - 1;
        NetOfLower(POSITIONS, j);
      } else {
        forall j | 0 <= j < POSITIONS ensures tick != Lower(j) && tick != Upper(j) {
          assert tick == Lower(j) ==> TICK_LIMIT - 256 - p == 257 * j;
        }
      }
    }
  }

  lemma {:induction false} ActiveAtZero(n: nat)
    requires n > 0
    ensures Active(n, 0) == LIQUIDITY
  {
    if n == 1 {
      assert Active(0, 0) == 0;
    } else {
      ActiveAtZero(n - 1);
    }
  }

  lemma {:induction false} NetOfLower(n: nat, j: nat)
    ensures NetChange(n, Lower(j)) == (if j < n then LIQUIDITY else 0) - (if j + 1 < n then LIQUIDITY else 0)
  {
    if n > 0 {
      NetOfLower(n - 1, j);
    }
  }

  /** A loaded edge of that pool: the closest ticks of its window, the source's own formulas, prices
      and limits, and a swap of some input from tick 0 downwards. */
  ghost function SpreadQuote(tickAt: (nat, Spacing) -> int): Swap
  {
    var closest := Closest(SpreadWindow(), TICK_LIMIT, true, TICK_CROSSES_PER_IX);
    var ticks := seq(|closest|, i requires 0 <= i < |closest| => Tick(TickAt(closest[i], 1), false, 0));
    Swap(QuoteMath(SourceFormulas(), tickAt), ticks, SpreadWindow(), 1, FEE, 0, true, INPUT, QuoteLimit(1, true), true)
  }

  // ---- Its steps ----

  /** In this range of prices a step costs at most three tokens and a fee of one. */
  predicate PriceNear(price: nat) { PRICE_ONE <= 2 * price && price <= PRICE_ONE }

  lemma DeltaSmall(a: nat, b: nat)
    requires PriceNear(a) && PriceNear(b)
    ensures GetDeltaX(a, b, LIQUIDITY, true).Some? && GetDeltaX(a, b, LIQUIDITY, true).value <= 3
    ensures GetDeltaY(a, b, LIQUIDITY, false) == Some(0)
  {
    var d := Difference(a, b);
    hide ToToken;
    DivUnique(d * LIQUIDITY, LIQUIDITY, d);
    ProductLarge(a, b);
    TokenSmall(d, DivDown(a * b, PRICE_ONE));
    DivUnique(d, PRICE_ONE, 0);
  }

  lemma ProductLarge(a: nat, b: nat)
    requires PriceNear(a) && PriceNear(b)
    ensures PRICE_ONE < 4 * (DivDown(a * b, PRICE_ONE) + 1) && DivDown(a * b, PRICE_ONE) <= PRICE_ONE
  {
    var product := a * b;
    MulMono(PRICE_ONE, PRICE_ONE, 2 * a, 2 * b);
    assert (2 * a) * (2 * b) == 4 * product;
    MulMono(a, b, PRICE_ONE, PRICE_ONE);
    DivBounds(product, PRICE_ONE);
  }

  lemma DivUpAtMost(a: nat, b: nat, k: nat)
    requires b > 0 && a <= b * k
    ensures DivUp(a, b) <= k
  {
    DivBounds(a + b - 1, b);
    if k + 1 <= DivUp(a, b) {
      MulLeft(b, k + 1, DivUp(a, b));
    }
  }

  lemma TokenSmall(d: nat, denominator: nat)
    requires 2 * d <= PRICE_ONE && PRICE_ONE < 4 * (denominator + 1) && denominator <= PRICE_ONE
    ensures ToToken(d, denominator, true).Some? && ToToken(d, denominator, true).value <= 3
  {
    hide DivUp, DivDown;
    DivUpAtMost(d * PRICE_ONE, denominator, 3 * PRICE_ONE);
    DivUpAtMost(DivUp(d * PRICE_ONE, denominator), PRICE_ONE, 3);
  }

  lemma AfterFeeIs(amount: nat)
    requires 0 < amount <= INPUT
    ensures AfterFee(amount, FEE) == Some(amount - 1)
  {
    DivUnique(amount * (FEE_ONE - FEE), FEE_ONE, amount - 1);
  }

  lemma FeeSmall(amount: nat)
    requires amount <= 3
    ensures FeeUp(amount, FEE) <= 1
  {
    DivUpAtMost(amount * FEE, FEE_ONE, 1);
  }

  /** What is left would move the price further. */
  lemma PricePushed(price: nat, amount: nat)
    requires PriceNear(price) && 0 < amount <= INPUT
    ensures var next := NextPriceFromInput(price, LIQUIDITY, amount, true);
            next.Some? && next.value != price
  {
    hide DivUp, DivDown;
    var denominator := PRICE_ONE + price * amount;
    MulMono(1, price, amount, price);
    SameScale(price);
    MulMono(price, amount, PRICE_ONE, INPUT);
    assert price * (price * amount) >= price * price >= price;
    PushedBelow(price, amount, denominator);
  }

  lemma SameScale(price: nat)
    ensures DivUp(price * LIQUIDITY, LIQUIDITY_ONE) == price
  {
    DivUnique(price * LIQUIDITY + LIQUIDITY_ONE - 1, LIQUIDITY_ONE, price);
  }

  lemma PushedBelow(price: nat, amount: nat, denominator: nat)
    requires PriceNear(price) && 0 < amount <= INPUT && denominator == PRICE_ONE + price * amount
    ensures DivUp(price * PRICE_ONE, denominator) < price
  {
    hide DivUp;
    MulLeft(price, 1, amount);
    MulMono(price, 2, denominator - PRICE_ONE, price - 1);
    assert denominator * (price - 1) == PRICE_ONE * (price - 1) + (denominator - PRICE_ONE) * (price - 1);
    DivUpAtMost(price * PRICE_ONE, denominator, price - 1);
  }

  /** A whole step between two such prices reaches the lower one for at most four tokens. */
  lemma StepSmall(current: nat, target: nat, amount: nat)
    requires PriceNear(current) && PriceNear(target) && target <= current && 8 <= amount <= INPUT
    ensures var r := ComputeSwapStep(SourceFormulas(), current, target, LIQUIDITY, amount, true, FEE);
            && r.Some? && r.value.nextPrice == target && r.value.amountOut == 0
            && r.value.amountIn <= 3 && r.value.feeAmount <= 1
  {
    hide GetDeltaX, GetDeltaY, AfterFee, FeeUp, NextPriceFromInput, NextPriceFromOutput;
    DeltaSmall(target, current);
    AfterFeeIs(amount);
    FeeSmall(GetDeltaX(target, current, LIQUIDITY, true).value);
  }

  lemma PushesOn(price: nat, amount: nat)
    requires PriceNear(price) && 2 <= amount <= INPUT
    ensures IsEnoughAmountToPushPrice(SourceFormulas(), amount, price, LIQUIDITY, FEE, true, true) == Some(true)
  {
    hide GetDeltaX, GetDeltaY, AfterFee, FeeUp, NextPriceFromInput, NextPriceFromOutput;
    AfterFeeIs(amount);
    PricePushed(price, amount - 1);
  }

  /** The price of tick 0 is one; those of the ticks crossed are at least half. */
  lemma PriceInRange(n: nat)
    requires n <= 4000
    ensures PriceNear(TickPrices.PriceSqrt(0 - n))
  {
    hide TickPrices.Product, TickPrices.FixedPrice, LogBounds.LogLe, Pow2;
    var f := TickPrices.FixedPrice(0 - n);
    if n == 0 {
      PriceOfZero();
    } else {
      FixedInRange(n, TickPrices.Product(n, 18), f);
    }
    MulMono(FEE_ONE, FEE_ONE, 2 * f, FEE_ONE);
    MulMono(f, FEE_ONE, FEE_ONE, FEE_ONE);
  }

  lemma PriceOfZero()
    ensures TickPrices.FixedPrice(0) == FEE_ONE
  {
    hide TickPrices.Product;
    TickPrices.ProductOfZero();
  }

  lemma FixedInRange(n: nat, r: nat, f: nat)
    requires 0 < n <= 4000 && r == TickPrices.Product(n, 18) && f == TickPrices.FixedPrice(0 - n)
    ensures FEE_ONE <= 2 * f && f <= FEE_ONE
  {
    hide TickPrices.Product, TickPrices.FixedPrice, LogBounds.LogLe, Pow2;
    TickPrices.PriceOfTick(n);
    TickPrices.ThisPrice(n);
    TickPrices.Reciprocals(n);
    BelowTwo(n, r);
    MulMono(FEE_ONE, f, r, f);
    if 2 * f < FEE_ONE {
      MulLeft(r, f + 1, 500000_000000);
      assert false;
    }
  }

  lemma BelowTwo(n: nat, r: nat)
    requires n <= 4000 && LogBounds.LogLe(r, FEE_ONE, Pow2(35), (TickPrices.UNITS + 1) * n, 0)
    ensures r < 2 * FEE_ONE
  {
    hide LogBounds.LogLe, Pow2;
    if r >= 2 * FEE_ONE {
      var e := Pow2(35);
      TickPrices.Powers35();
      LogBounds.LogOfTwo(e);
      LogBounds.Times(r, FEE_ONE, (TickPrices.UNITS + 1) * n, 0, 1, 2, 0, e, e);
      LogBounds.Compare(r * 1, FEE_ONE * 2, e, (TickPrices.UNITS + 1) * n, e);
      assert false;
    }
  }

  // ---- Its run ----

  /** After `k` crossings. */
  ghost predicate Crossed(sw: Swap, s: State, k: nat)
  {
    && k <= 14 && s.tick == -257 * k && |s.usedTicks| == k && s.virtualCrosses == 0 && s.liquidity == LIQUIDITY
    && s.sqrtPrice == TickPrices.PriceSqrt(if k == 0 then 0 else 1 - 257 * k)
    && INPUT - 4 * k <= s.remaining <= INPUT && s.totalIn + s.remaining == INPUT
    && s.totalOut == 0 && s.totalFee <= k
  }

  /** The limit after `k` crossings is the next tick, 256 below. */
  lemma SpreadLimit(tickAt: (nat, Spacing) -> int, k: nat)
    requires k < 14
    ensures CloserLimit(SpreadQuote(tickAt), -257 * k)
            == Limit(TickPrices.PriceSqrt(-257 * k - 256), Some((-257 * k - 256, true)))
    ensures AtTickLimit(SpreadQuote(tickAt), -257 * k) == Some(false)
    ensures TickPrices.PriceSqrt(-257 * k - 256) != SpreadQuote(tickAt).sqrtPriceLimit
  {
    hide TickmapSlice.IsSet, PanicsFrom, Closest, LimitFrom, TickPrices.PriceSqrt, LastSet, FirstSet;
    var sw, q := SpreadQuote(tickAt), TICK_LIMIT - 257 * k;
    assert Position(-257 * k, 1) == q;
    SpreadFound(k);
    LimitRange(q, 1, true);
    TickPrices.PricesOrdered(-44363, -257 * k - 256);
  }

  lemma SpreadFound(k: nat)
    requires k < 14
    ensures var w, q := SpreadWindow(), TICK_LIMIT - 257 * k;
            Found(w, q, LimitFrom(q, 1, false), true) == Some(q - 256) && !PanicsFrom(w, q, 1, true)
  {
    var w, q := SpreadWindow(), TICK_LIMIT - 257 * k;
    SpreadBits(k);
    hide TickmapSlice.IsSet, PanicsFrom, SpreadWindow, LimitFrom, Spread;
    LimitRange(q, 1, true);
    LowestEnd();
    LastSetIs(w, LimitFrom(q, 1, false), q, q - 256);
    FoundDeeper(w, 1, q, q, q - 256);
  }

  lemma LowestEnd()
    ensures LowEnd(1) == 1
  {
  }

  lemma SpreadBits(k: nat)
    requires k < 14
    ensures var w, q := SpreadWindow(), TICK_LIMIT - 257 * k;
            && w.IsSet(q - 256) && (forall p :: q - 256 < p <= q ==> !w.IsSet(p))
            && q < 8 * (w.offset + |w.data|)
  {
    hide TickmapSlice.IsSet;
    var w, q := SpreadWindow(), TICK_LIMIT - 257 * k;
    assert w.offset == 5094;
    forall p | q - 256 < p <= q ensures !w.IsSet(p) {
      Between(k, q - p);
    }
    Between(k, 256);
  }

  lemma Between(k: nat, i: nat)
    requires i <= 256
    ensures Spread(TICK_LIMIT - 257 * k - i) <==> i == 256
  {
    assert (257 * k + i - 256) % 257 == if i == 256 then 0 else i + 1;
  }

  lemma SpreadStep(tickAt: (nat, Spacing) -> int, s: State, k: nat)
    requires k < 14 && Crossed(SpreadQuote(tickAt), s, k)
    ensures var turn := TurnOf(SpreadQuote(tickAt), s);
            turn.Next? && Crossed(SpreadQuote(tickAt), turn.state, k + 1)
  {
    hide CloserLimit, AtTickLimit, SpreadWindow, Closest, ComputeSwapStep, IsEnoughAmountToPushPrice, QuoteLimit,
         TickPrices.PriceSqrt, PriceNear;
    var sw := SpreadQuote(tickAt);
    var n := 257 * k + 256;
    SpreadLimit(tickAt, k);
    PriceInRange(n);
    PriceInRange(if k == 0 then 0 else 257 * k - 1);
    TickPrices.PricesOrdered(-n, if k == 0 then 0 else 1 - 257 * k);
    StepSmall(s.sqrtPrice, TickPrices.PriceSqrt(-n), s.remaining);
    var r := ComputeSwapStep(SourceFormulas(), s.sqrtPrice, TickPrices.PriceSqrt(-n), LIQUIDITY, s.remaining, true,
      FEE);
    PushesOn(TickPrices.PriceSqrt(-n), s.remaining - (r.value.amountIn + r.value.feeAmount));
    assert sw.math.swapStep(s.sqrtPrice, TickPrices.PriceSqrt(-n), s.liquidity, s.remaining, sw.byAmountIn, sw.fee)
      == r;
    assert Book(s, r.value).Some?;
    assert TickToCross(sw, s.arrayIndex, -n).liquidityChange == 0;
  }

  lemma {:induction false} SpreadRun(tickAt: (nat, Spacing) -> int, s: State, k: nat)
    requires Crossed(SpreadQuote(tickAt), s, k)
    ensures OutcomeFrom(SpreadQuote(tickAt), s) == Panicked
    decreases 14 - k
  {
    hide SpreadQuote, TurnOf, CloserLimit, TickPrices.PriceSqrt;
    if k < 14 {
      SpreadStep(tickAt, s, k);
      SpreadRun(tickAt, TurnOf(SpreadQuote(tickAt), s).state, k + 1);
    } else {
      SpreadStops(tickAt, s);
    }
  }

  lemma SpreadStops(tickAt: (nat, Spacing) -> int, s: State)
    requires s.tick == -257 * 14
    ensures TurnOf(SpreadQuote(tickAt), s) == Stop(Panicked)
  {
    hide PanicsFrom, TickmapSlice.IsSet, Closest, QuoteLimit, QuoteMath, NearestTick, TurnOf;
    var w, sw := SpreadWindow(), SpreadQuote(tickAt);
    assert w.offset == 5094;
    SpreadEdge(w);
    assert Position(s.tick, 1) == TICK_LIMIT - 257 * 14;
    assert CloserLimit(sw, s.tick).Panic?;
    PanicStops(sw, s);
  }

  lemma PanicStops(sw: Swap, s: State)
    requires CloserLimit(sw, s.tick).Panic?
    ensures TurnOf(sw, s) == Stop(Panicked)
  {
    hide CloserLimit;
  }

  /** This quote, from the price of tick 0 and with the liquidity of the position there, panics: all
      its steps reach their limits, it crosses fourteen ticks, and the next search finds nothing
      before the window's edge. */
  lemma SpreadQuotePanics(tickAt: (nat, Spacing) -> int)
    ensures var sw := SpreadQuote(tickAt);
            && SourceQuote(sw, SourceFormulas()) && Loaded(sw, TICK_CROSSES_PER_IX)
            && StepContract(sw) && Cut(sw.bitmap, 1, 0, true)
            && Simulated(sw, TickPrices.PriceSqrt(0), LIQUIDITY) == Panicked
  {
    var sw := SpreadQuote(tickAt);
    hide Closest, SpreadWindow, QuoteLimit, ComputeSwapStep, StepContract, OutcomeFrom, TickPrices.PriceSqrt;
    SpreadCut();
    ComputeSwapStepMeetsContract(sw, SourceFormulas());
    SpreadRun(tickAt, StartState(sw, TickPrices.PriceSqrt(0), LIQUIDITY, Skips(sw, 0)), 0);
  }

  lemma SpreadCut()
    ensures Cut(SpreadWindow(), 1, 0, true)
  {
  }
}
