/** The simulated swap through an Invariant pool (invariant_edge.rs, swap.rs, and from math.rs
    the search for the next limit and the crossing of a tick). The price arithmetic of math.rs is
    a parameter; nothing is assumed of it except where a lemma names a contract. */
module SwapLoop {
  import opened Common
  import opened Powers
  import opened Tickmap
  import opened ClosestTicks

  datatype StepResult = StepResult(nextPrice: nat, amountIn: nat, amountOut: nat, feeAmount: nat)

  datatype Tick = Tick(index: int, sign: bool, liquidityChange: nat)

  /** The functions of math.rs and log.rs the loop calls; None is an error return. */
  datatype PriceMath = PriceMath(
    /** calculate_price_sqrt */
    priceOf: int -> nat,
    /** compute_swap_step: price, limit, liquidity, amount, by amount in, fee */
    swapStep: (nat, nat, nat, nat, bool, nat) -> Option<StepResult>,
    /** is_enough_amount_to_push_price: amount, price, liquidity, fee, by amount in, x to y */
    pushesPrice: (nat, nat, nat, nat, bool, bool) -> Option<bool>,
    /** get_tick_at_sqrt_price */
    tickAt: (nat, Spacing) -> int)

  /** Everything a simulation is given. */
  datatype Swap = Swap(
    math: PriceMath,
    ticks: seq<Tick>,
    bitmap: TickmapSlice,
    spacing: Spacing,
    fee: nat,
    startTick: int,
    xToY: bool,
    inAmount: nat,
    sqrtPriceLimit: nat,
    byAmountIn: bool)

  /** The variables of the loop. */
  datatype State = State(
    sqrtPrice: nat,
    liquidity: nat,
    tick: int,
    remaining: nat,
    totalIn: nat,
    totalOut: nat,
    totalFee: nat,
    usedTicks: seq<int>,
    virtualCrosses: nat,
    arrayIndex: nat)

  datatype Outcome =
    | Done(inAmount: nat, outAmount: nat, feeAmount: nat, endingPrice: nat, usedTicks: seq<int>)
    | Insufficient
    | Failed
    /** The search for the next limit panics. */
    | Panicked
    /** The tick has left the bitmap; what the source does there is not modelled. */
    | OffMap

  /** Whether the crossing budget is used up; the sum of the counters must fit 16 bits. */
  function BreakSwapLoopEarly(ticksUsed: nat, virtualTicksCrossed: nat): Option<bool>
  {
    if ticksUsed + virtualTicksCrossed >= U16 then None
    else Some(ticksUsed + virtualTicksCrossed >= TICK_CROSSES_PER_IX + MAX_VIRTUAL_CROSS
              || TICK_CROSSES_PER_IX <= ticksUsed)
  }

  // ---- The next limit ----

  datatype Closer = Panic | OffMap | LimitReached | Limit(price: nat, tick: Option<(int, bool)>)

  /** The price a limit tick imposes, unless the caller's own limit comes first. */
  function CapLimit(sw: Swap, index: int, initialized: bool): Closer
  {
    var price := sw.math.priceOf(index);
    if (sw.xToY && price > sw.sqrtPriceLimit) || (!sw.xToY && price < sw.sqrtPriceLimit)
    then Limit(price, Some((index, initialized)))
    else Limit(sw.sqrtPriceLimit, None)
  }

  /** The nearest initialized tick in swap direction, by the reference searches. */
  function NearestTick(sw: Swap, tick: int): Option<int>
  {
    if sw.xToY then PrevTick(sw.bitmap, tick, sw.spacing) else NextTick(sw.bitmap, tick, sw.spacing)
  }

  function CloserLimit(sw: Swap, tick: int): Closer
  {
    if tick % sw.spacing != 0 then Closer.Panic
    else if !OnGrid(tick, sw.spacing) then Closer.OffMap
    else if SearchPanics(sw.bitmap, tick, sw.spacing, sw.xToY) then Closer.Panic
    else
      var closest := NearestTick(sw, tick);
      if closest.Some? then CapLimit(sw, closest.value, true)
      else
        var index := GetSearchLimit(tick, sw.spacing, !sw.xToY);
        if tick == index then LimitReached else CapLimit(sw, index, false)
  }

  /** get_closer_limit, with the bit-level searches. */
  method GetCloserLimit(sw: Swap, tick: int) returns (r: Closer)
    ensures r == CloserLimit(sw, tick)
  {
    hide NextTick, PrevTick, NextSearch, PrevSearch, LimitFrom, Position, PanicsFrom;
    if tick % sw.spacing != 0 {
      return Closer.Panic;
    }
    if !OnGrid(tick, sw.spacing) {
      return Closer.OffMap;
    }
    SearchesOnGrid(sw.bitmap, tick, sw.spacing);
    var search: Search;
    if sw.xToY {
      search := PrevInitialized(sw.bitmap, tick, sw.spacing);
    } else {
      search := NextInitialized(sw.bitmap, tick, sw.spacing);
    }
    if search.Panic? {
      return Closer.Panic;
    }
    match search.tick
    case Some(index) =>
      r := CapLimit(sw, index, true);
    case None =>
      var index := GetSearchLimit(tick, sw.spacing, !sw.xToY);
      if tick == index {
        return LimitReached;
      }
      r := CapLimit(sw, index, false);
  }

  // ---- One iteration ----

  datatype Turn = Next(state: State) | Stop(outcome: Outcome)

  /** The liquidity after crossing a tick; None when it does not fit. */
  function CrossTick(t: Tick, poolTick: int, liquidity: nat): Option<nat>
  {
    if (poolTick >= t.index) != t.sign then
      (if liquidity + t.liquidityChange < U128 then Some(liquidity + t.liquidityChange) else None)
    else
      (if liquidity >= t.liquidityChange then Some(liquidity - t.liquidityChange) else None)
  }

  /** The loaded tick when it is the one reached, otherwise an empty tick. */
  function TickToCross(sw: Swap, arrayIndex: nat, index: int): Tick
  {
    if arrayIndex < |sw.ticks| && sw.ticks[arrayIndex].index == index then sw.ticks[arrayIndex]
    else Tick(index, false, 0)
  }

  /** After the step's amounts are booked and the limit's tick was reached. */
  function Crossing(sw: Swap, s: State, index: int, initialized: bool): Turn
  {
    var enough := sw.math.pushesPrice(s.remaining, s.sqrtPrice, s.liquidity, sw.fee, sw.byAmountIn, sw.xToY);
    if enough.None? then Stop(Failed)
    else
      var tick' := if sw.xToY && enough.value then index - sw.spacing else index;
      if initialized then
        var t := TickToCross(sw, s.arrayIndex, index);
        var loaded := s.arrayIndex < |sw.ticks| && sw.ticks[s.arrayIndex].index == index;
        var arrayIndex := if loaded then s.arrayIndex + 1 else s.arrayIndex;
        var s1 := s.(usedTicks := s.usedTicks + [index], arrayIndex := arrayIndex);
        if !sw.xToY || enough.value then
          var liquidity := CrossTick(t, s.tick, s.liquidity);
          if liquidity.None? then Stop(Insufficient)
          else Next(s1.(liquidity := liquidity.value, tick := tick'))
        else if s.remaining != 0 then
          if s.totalIn + s.remaining >= U64 then Stop(Failed)
          else Next(s1.(totalIn := s.totalIn + s.remaining, remaining := 0, tick := tick'))
        else Next(s1.(tick := tick'))
      else VirtualCross(s, tick')
  }

  /** Count a virtual crossing and move on, unless the budget is used up. */
  function VirtualCross(s: State, tick': int): Turn
  {
    if s.virtualCrosses + 1 >= U16 then Stop(Failed)
    else
      var early := BreakSwapLoopEarly(|s.usedTicks| % U16, s.virtualCrosses + 1);
      if early.None? then Stop(Failed)
      else if early.value then Stop(Insufficient)
      else Next(s.(virtualCrosses := s.virtualCrosses + 1, tick := tick'))
  }

  /** Book the amounts of a step; every sum and difference is checked. */
  function Book(s: State, step: StepResult): Option<State>
  {
    if step.amountIn + step.feeAmount >= U64 || s.remaining < step.amountIn + step.feeAmount
       || s.totalIn + step.amountIn + step.feeAmount >= U64
       || s.totalOut + step.amountOut >= U64 || s.totalFee + step.feeAmount >= U64
    then None
    else Some(s.(remaining := s.remaining - (step.amountIn + step.feeAmount),
                 sqrtPrice := step.nextPrice,
                 totalIn := s.totalIn + step.amountIn + step.feeAmount,
                 totalOut := s.totalOut + step.amountOut,
                 totalFee := s.totalFee + step.feeAmount))
  }

  /** Whether a tick is at the end of the tick range; the end must fit 32 bits. */
  function TickEnd(tick: int, spacing: Spacing, xToY: bool): Option<bool>
  {
    var bound := if xToY then GetMinTick(spacing) else GetMaxTick(spacing);
    if bound.None? then None else Some(if xToY then tick <= bound.value else tick >= bound.value)
  }

  /** Whether the tick the iteration started from is there. */
  function AtTickLimit(sw: Swap, tick: int): Option<bool>
  {
    TickEnd(tick, sw.spacing, sw.xToY)
  }

  /** One pass through the loop body, in the source's order. */
  method Iterate(sw: Swap, s: State) returns (turn: Turn)
    ensures turn == TurnOf(sw, s)
  {
    hide CloserLimit, Crossing, VirtualCross, Book, AtTickLimit;
    var closer := GetCloserLimit(sw, s.tick);
    if closer.Panic? {
      return Stop(Panicked);
    }
    if closer.OffMap? {
      return Stop(Outcome.OffMap);
    }
    if closer.LimitReached? {
      return Stop(Insufficient);
    }
    var swapLimit, limitingTick := closer.price, closer.tick;
    var result := sw.math.swapStep(s.sqrtPrice, swapLimit, s.liquidity, s.remaining, sw.byAmountIn, sw.fee);
    if result.None? {
      return Stop(Failed);
    }
    var booked := Book(s, result.value);
    if booked.None? {
      return Stop(Failed);
    }
    var s1 := booked.value;
    if s1.sqrtPrice == sw.sqrtPriceLimit && s1.remaining != 0 {
      return Stop(Insufficient);
    }
    var reachedTickLimit := AtTickLimit(sw, s1.tick);
    if reachedTickLimit.None? {
      return Stop(Failed);
    }
    if reachedTickLimit.value {
      return Stop(Insufficient);
    }
    if result.value.nextPrice == swapLimit && limitingTick.Some? {
      turn := Crossing(sw, s1, limitingTick.value.0, limitingTick.value.1);
    } else {
      if s1.tick % sw.spacing != 0 {
        return Stop(Failed);
      }
      turn := VirtualCross(s1, sw.math.tickAt(result.value.nextPrice, sw.spacing));
    }
  }

  ghost function TurnOf(sw: Swap, s: State): Turn
  {
    var closer := CloserLimit(sw, s.tick);
    if closer.Panic? then Stop(Panicked)
    else if closer.OffMap? then Stop(Outcome.OffMap)
    else if closer.LimitReached? then Stop(Insufficient)
    else
      var result := sw.math.swapStep(s.sqrtPrice, closer.price, s.liquidity, s.remaining, sw.byAmountIn, sw.fee);
      if result.None? || Book(s, result.value).None? then Stop(Failed)
      else
        var s1 := Book(s, result.value).value;
        if s1.sqrtPrice == sw.sqrtPriceLimit && s1.remaining != 0 then Stop(Insufficient)
        else if AtTickLimit(sw, s1.tick).None? then Stop(Failed)
        else if AtTickLimit(sw, s1.tick).value then Stop(Insufficient)
        else if result.value.nextPrice == closer.price && closer.tick.Some? then
          Crossing(sw, s1, closer.tick.value.0, closer.tick.value.1)
        else if s1.tick % sw.spacing != 0 then Stop(Failed)
        else VirtualCross(s1, sw.math.tickAt(result.value.nextPrice, sw.spacing))
  }

  // ---- The same turn, stated in plain terms ----

  /** The tick a turn may run up to: the nearest initialized one, or else the end of the search, which
      must not be where the pool stands. */
  ghost predicate StopsAt(sw: Swap, tick: int, index: int, initialized: bool)
  {
    && tick % sw.spacing == 0 && OnGrid(tick, sw.spacing) && !SearchPanics(sw.bitmap, tick, sw.spacing, sw.xToY)
    && var nearest := if sw.xToY then PrevTick(sw.bitmap, tick, sw.spacing) else NextTick(sw.bitmap, tick, sw.spacing);
       if initialized then nearest == Some(index)
       else nearest == None && index == GetSearchLimit(tick, sw.spacing, !sw.xToY) && index != tick
  }

  /** Its price is the target, unless the caller's limit comes first. */
  ghost predicate Towards(sw: Swap, tick: int, price: nat, at: Option<(int, bool)>)
  {
    exists index, initialized :: StopsAt(sw, tick, index, initialized)
      && if (if sw.xToY then sw.math.priceOf(index) > sw.sqrtPriceLimit else sw.math.priceOf(index) < sw.sqrtPriceLimit)
         then price == sw.math.priceOf(index) && at == Some((index, initialized))
         else price == sw.sqrtPriceLimit && at == None
  }

  /** The step's amounts are booked: what it takes is no longer there, and nothing exceeds 64 bits. */
  ghost predicate Books(s: State, step: StepResult, b: State)
  {
    && b.remaining + step.amountIn + step.feeAmount == s.remaining
    && b.totalIn == s.totalIn + step.amountIn + step.feeAmount < 18446744073709551616
    && b.totalOut == s.totalOut + step.amountOut < 18446744073709551616
    && b.totalFee == s.totalFee + step.feeAmount < 18446744073709551616
    && b.sqrtPrice == step.nextPrice
    && b.liquidity == s.liquidity && b.tick == s.tick && b.arrayIndex == s.arrayIndex
    && b.usedTicks == s.usedTicks && b.virtualCrosses == s.virtualCrosses
  }

  /** A turn's step towards its target, booked. */
  ghost predicate Takes(sw: Swap, s: State, price: nat, at: Option<(int, bool)>, step: StepResult, b: State)
  {
    && Towards(sw, s.tick, price, at)
    && sw.math.swapStep(s.sqrtPrice, price, s.liquidity, s.remaining, sw.byAmountIn, sw.fee) == Some(step)
    && Books(s, step, b)
  }

  ghost predicate LimitHit(sw: Swap, b: State)
  {
    b.sqrtPrice == sw.sqrtPriceLimit && b.remaining != 0
  }

  /** The extreme ticks fit 32 bits. */
  ghost predicate ExtremesFit(sw: Swap)
  {
    if sw.xToY then 44363 * sw.spacing <= 2147483648 else 44363 * sw.spacing < 2147483648
  }

  ghost predicate AtExtreme(sw: Swap, tick: int)
  {
    if sw.xToY then tick <= -44363 * sw.spacing || tick <= -221818 else tick >= 44363 * sw.spacing || tick >= 221818
  }

  /** The tick at hand is the one reached. */
  ghost predicate AtHand(sw: Swap, b: State, index: int)
  {
    b.arrayIndex < |sw.ticks| && sw.ticks[b.arrayIndex].index == index
  }

  /** Coming from below, a positive net change is added; from above, a negative one is. A tick that is not
      loaded changes nothing. */
  ghost predicate Adds(sw: Swap, b: State, index: int)
  {
    (b.tick >= index) != (AtHand(sw, b, index) && sw.ticks[b.arrayIndex].sign)
  }

  /** The liquidity beyond a tick. */
  ghost function Beyond(sw: Swap, b: State, index: int): int
  {
    var change := if AtHand(sw, b, index) then sw.ticks[b.arrayIndex].liquidityChange else 0;
    if Adds(sw, b, index) then b.liquidity + change else b.liquidity - change
  }

  ghost predicate BeyondFits(sw: Swap, b: State, index: int)
  {
    && Beyond(sw, b, index) >= 0
    && (Adds(sw, b, index) ==> Beyond(sw, b, index) < 340282366920938463463374607431768211456)
  }

  /** An initialized tick is reached: it is used up, and crossed unless a downward swap has too little
      left to push the price, in which case the rest is taken. */
  ghost predicate Crosses(sw: Swap, b: State, index: int, enough: bool, s': State)
  {
    && s'.sqrtPrice == b.sqrtPrice && s'.totalOut == b.totalOut && s'.totalFee == b.totalFee
    && s'.virtualCrosses == b.virtualCrosses && s'.usedTicks == b.usedTicks + [index]
    && s'.arrayIndex == (if AtHand(sw, b, index) then b.arrayIndex + 1 else b.arrayIndex)
    && s'.tick == (if sw.xToY && enough then index - sw.spacing else index)
    && if sw.xToY && !enough then
         && s'.liquidity == b.liquidity && s'.remaining == 0 && s'.totalIn == b.totalIn + b.remaining
         && (b.remaining == 0 || s'.totalIn < 18446744073709551616)
       else
         && BeyondFits(sw, b, index) && s'.liquidity == Beyond(sw, b, index)
         && s'.remaining == b.remaining && s'.totalIn == b.totalIn
  }

  /** The crossings allowed: fewer than four ticks used, and fewer than fourteen crossings in all. */
  ghost predicate SpentCrossings(b: State)
  {
    |b.usedTicks| % 65536 >= 4 || |b.usedTicks| % 65536 + b.virtualCrosses + 1 >= 14
  }

  ghost predicate CountsFit(b: State)
  {
    |b.usedTicks| % 65536 + b.virtualCrosses + 1 < 65536
  }

  ghost predicate Pushes(sw: Swap, b: State, enough: bool)
  {
    sw.math.pushesPrice(b.remaining, b.sqrtPrice, b.liquidity, sw.fee, sw.byAmountIn, sw.xToY) == Some(enough)
  }

  /** No initialized tick is reached, and the turn ends at `tick`. */
  ghost predicate EndsUninitialized(sw: Swap, price: nat, at: Option<(int, bool)>, b: State, tick: int)
  {
    if at.Some? && b.sqrtPrice == price then
      && !at.value.1
      && exists enough ::
           Pushes(sw, b, enough) && tick == if sw.xToY && enough then at.value.0 - sw.spacing else at.value.0
    else b.tick % sw.spacing == 0 && tick == sw.math.tickAt(b.sqrtPrice, sw.spacing)
  }

  /** After a booked step that neither stops at the caller's price nor at the end of the ticks. */
  ghost predicate GoesTo(sw: Swap, price: nat, at: Option<(int, bool)>, b: State, s': State)
  {
    if at.Some? && at.value.1 && b.sqrtPrice == price then
      exists enough :: Pushes(sw, b, enough) && Crosses(sw, b, at.value.0, enough, s')
    else
      && EndsUninitialized(sw, price, at, b, s'.tick) && CountsFit(b) && !SpentCrossings(b)
      && s' == b.(virtualCrosses := b.virtualCrosses + 1, tick := s'.tick)
  }

  ghost predicate CannotGo(sw: Swap, price: nat, at: Option<(int, bool)>, b: State)
  {
    if at.Some? && at.value.1 && b.sqrtPrice == price then
      !BeyondFits(sw, b, at.value.0) && (Pushes(sw, b, true) || (!sw.xToY && Pushes(sw, b, false)))
    else
      CountsFit(b) && SpentCrossings(b) && exists tick :: EndsUninitialized(sw, price, at, b, tick)
  }

  /** A turn that does not end the loop. */
  ghost predicate MovesOn(sw: Swap, s: State, s': State)
  {
    exists price, at, step, b :: Takes(sw, s, price, at, step, b) && GoesOnFrom(sw, s.tick, price, at, b, s')
  }

  ghost predicate GoesOnFrom(sw: Swap, tick: int, price: nat, at: Option<(int, bool)>, b: State, s': State)
  {
    !LimitHit(sw, b) && ExtremesFit(sw) && !AtExtreme(sw, tick) && GoesTo(sw, price, at, b, s')
  }

  /** Why a swap is given up: the ticks end, at once or after a step; the caller's price is reached with
      something left; the liquidity beyond a tick to cross does not fit; or the crossings allowed are
      spent. */
  ghost predicate GivesUp(sw: Swap, s: State)
  {
    || StuckAtEnd(sw, s.tick)
    || exists price, at, step, b :: Takes(sw, s, price, at, step, b) && GivesUpFrom(sw, s.tick, price, at, b)
  }

  ghost predicate GivesUpFrom(sw: Swap, tick: int, price: nat, at: Option<(int, bool)>, b: State)
  {
    LimitHit(sw, b) || (ExtremesFit(sw) && (AtExtreme(sw, tick) || CannotGo(sw, price, at, b)))
  }

  /** Nothing is initialized up to the end of the search, and the pool stands there. */
  ghost predicate StuckAtEnd(sw: Swap, tick: int)
  {
    && tick % sw.spacing == 0 && OnGrid(tick, sw.spacing) && !SearchPanics(sw.bitmap, tick, sw.spacing, sw.xToY)
    && (if sw.xToY then PrevTick(sw.bitmap, tick, sw.spacing) else NextTick(sw.bitmap, tick, sw.spacing)) == None
    && tick == GetSearchLimit(tick, sw.spacing, !sw.xToY)
  }

  lemma TowardsIff(sw: Swap, tick: int, price: nat, at: Option<(int, bool)>)
    ensures Towards(sw, tick, price, at) <==> CloserLimit(sw, tick) == Limit(price, at)
    ensures StuckAtEnd(sw, tick) <==> CloserLimit(sw, tick).LimitReached?
  {
    hide OnGrid, SearchPanics, PrevTick, NextTick, GetSearchLimit;
    var closer := CloserLimit(sw, tick);
    if closer == Limit(price, at) {
      var nearest := NearestTick(sw, tick);
      if nearest.Some? {
        assert StopsAt(sw, tick, nearest.value, true);
      } else {
        assert StopsAt(sw, tick, GetSearchLimit(tick, sw.spacing, !sw.xToY), false);
      }
    }
  }

  lemma BooksIff(s: State, step: StepResult, b: State)
    ensures Books(s, step, b) <==> Book(s, step) == Some(b)
  {
  }

  lemma ExtremeIff(sw: Swap, tick: int)
    ensures AtTickLimit(sw, tick) == if ExtremesFit(sw) then Some(AtExtreme(sw, tick)) else None
  {
  }

  lemma CrossesIff(sw: Swap, b: State, index: int, s': State)
    ensures Crossing(sw, b, index, true) == Next(s') <==>
              exists enough :: Pushes(sw, b, enough) && Crosses(sw, b, index, enough, s')
    ensures Crossing(sw, b, index, true) == Stop(Insufficient) <==>
              !BeyondFits(sw, b, index) && (Pushes(sw, b, true) || (!sw.xToY && Pushes(sw, b, false)))
  {
    var pushes := sw.math.pushesPrice(b.remaining, b.sqrtPrice, b.liquidity, sw.fee, sw.byAmountIn, sw.xToY);
    var next := Crossing(sw, b, index, true);
    if pushes.Some? {
      assert Pushes(sw, b, pushes.value);
    }
    if next == Next(s') {
      assert Crosses(sw, b, index, pushes.value, s');
    }
    if enough :| Pushes(sw, b, enough) && Crosses(sw, b, index, enough, s') {
      assert next.Next? && next.state == s';
    }
  }

  lemma VirtualIff(b: State, tick: int, s': State)
    ensures VirtualCross(b, tick) == Next(s') <==>
              CountsFit(b) && !SpentCrossings(b) && s' == b.(virtualCrosses := b.virtualCrosses + 1, tick := tick)
    ensures VirtualCross(b, tick) == Stop(Insufficient) <==> CountsFit(b) && SpentCrossings(b)
  {
  }

  lemma GoesIff(sw: Swap, price: nat, at: Option<(int, bool)>, b: State, s': State)
    ensures GoesTo(sw, price, at, b, s') <==> Moved(sw, price, at, b) == Next(s')
    ensures CannotGo(sw, price, at, b) <==> Moved(sw, price, at, b) == Stop(Insufficient)
  {
    hide Crosses, VirtualCross, BeyondFits, CountsFit, SpentCrossings;
    if at.Some? && b.sqrtPrice == price {
      if at.value.1 {
        hide Crossing;
        CrossesIff(sw, b, at.value.0, s');
      } else {
        UninitializedIff(sw, price, at.value.0, b, s');
      }
    } else {
      var t := sw.math.tickAt(b.sqrtPrice, sw.spacing);
      VirtualIff(b, t, s');
      assert b.tick % sw.spacing == 0 ==> EndsUninitialized(sw, price, at, b, t);
    }
  }

  lemma UninitializedIff(sw: Swap, price: nat, index: int, b: State, s': State)
    requires b.sqrtPrice == price
    ensures GoesTo(sw, price, Some((index, false)), b, s') <==> Crossing(sw, b, index, false) == Next(s')
    ensures CannotGo(sw, price, Some((index, false)), b) <==> Crossing(sw, b, index, false) == Stop(Insufficient)
  {
    hide VirtualCross, CountsFit, SpentCrossings;
    var pushes := sw.math.pushesPrice(b.remaining, b.sqrtPrice, b.liquidity, sw.fee, sw.byAmountIn, sw.xToY);
    if pushes.Some? {
      var t := if sw.xToY && pushes.value then index - sw.spacing else index;
      VirtualIff(b, t, s');
      assert Pushes(sw, b, pushes.value);
      assert EndsUninitialized(sw, price, Some((index, false)), b, t);
      assert forall u :: EndsUninitialized(sw, price, Some((index, false)), b, u) ==> u == t;
    }
  }

  /** How a turn goes on from a booked step. */
  ghost function Moved(sw: Swap, price: nat, at: Option<(int, bool)>, b: State): Turn
  {
    if b.sqrtPrice == price && at.Some? then Crossing(sw, b, at.value.0, at.value.1)
    else if b.tick % sw.spacing != 0 then Stop(Failed)
    else VirtualCross(b, sw.math.tickAt(b.sqrtPrice, sw.spacing))
  }

  lemma TakesIff(sw: Swap, s: State, price: nat, at: Option<(int, bool)>, step: StepResult, b: State)
    ensures Takes(sw, s, price, at, step, b) <==>
              && CloserLimit(sw, s.tick) == Limit(price, at)
              && sw.math.swapStep(s.sqrtPrice, price, s.liquidity, s.remaining, sw.byAmountIn, sw.fee) == Some(step)
              && Book(s, step) == Some(b)
  {
    hide CloserLimit, Towards, Book, Books;
    TowardsIff(sw, s.tick, price, at);
    BooksIff(s, step, b);
  }

  /** What one turn does, exactly: it leads to `s'`, or gives up, as the plain statement says. */
  lemma TurnIff(sw: Swap, s: State, s': State)
    ensures MovesOn(sw, s, s') <==> TurnOf(sw, s) == Next(s')
    ensures GivesUp(sw, s) <==> TurnOf(sw, s) == Stop(Insufficient)
  {
    hide CloserLimit, Takes, Book, GoesOnFrom, GivesUpFrom, ExtremesFit, AtExtreme, AtTickLimit, GoesTo, CannotGo,
         Crossing, VirtualCross,
         StuckAtEnd, Towards;
    var closer := CloserLimit(sw, s.tick);
    TowardsIff(sw, s.tick, 0, None);
    forall price, at, step, b
      ensures Takes(sw, s, price, at, step, b) <==>
                && closer == Limit(price, at)
                && sw.math.swapStep(s.sqrtPrice, price, s.liquidity, s.remaining, sw.byAmountIn, sw.fee) == Some(step)
                && Book(s, step) == Some(b)
    {
      TakesIff(sw, s, price, at, step, b);
    }
    if closer.Limit? {
      var r := sw.math.swapStep(s.sqrtPrice, closer.price, s.liquidity, s.remaining, sw.byAmountIn, sw.fee);
      if r.Some? && Book(s, r.value).Some? {
        var b := Book(s, r.value).value;
        assert Takes(sw, s, closer.price, closer.tick, r.value, b);
        BookKeeps(s, r.value);
        BookedIff(sw, s, closer.price, closer.tick, b, s');
        assert MovesOn(sw, s, s') <==> GoesOnFrom(sw, s.tick, closer.price, closer.tick, b, s');
        assert GivesUp(sw, s) <==> GivesUpFrom(sw, s.tick, closer.price, closer.tick, b);
      }
    }
  }

  lemma BookKeeps(s: State, step: StepResult)
    requires Book(s, step).Some?
    ensures Book(s, step).value.tick == s.tick && Book(s, step).value.sqrtPrice == step.nextPrice
  {
  }

  /** The turn from its booked step on. */
  lemma BookedIff(sw: Swap, s: State, price: nat, at: Option<(int, bool)>, b: State, s': State)
    requires b.tick == s.tick
    ensures var turn := if LimitHit(sw, b) then Stop(Insufficient)
                        else if AtTickLimit(sw, b.tick).None? then Stop(Failed)
                        else if AtTickLimit(sw, b.tick).value then Stop(Insufficient)
                        else Moved(sw, price, at, b);
            && (GoesOnFrom(sw, s.tick, price, at, b, s') <==> turn == Next(s'))
            && (GivesUpFrom(sw, s.tick, price, at, b) <==> turn == Stop(Insufficient))
  {
    hide LimitHit, ExtremesFit, AtExtreme, AtTickLimit, GoesTo, CannotGo, Moved;
    ExtremeIff(sw, b.tick);
    GoesIff(sw, price, at, b, s');
  }

  // ---- What every iteration keeps ----

  /** Nothing is lost: what is left and what was taken add up to the request. */
  ghost predicate Conserved(sw: Swap, s: State)
  {
    s.remaining + s.totalIn == sw.inAmount && s.totalFee <= s.totalIn
  }

  lemma IterationConserves(sw: Swap, s: State)
    requires Conserved(sw, s) && TurnOf(sw, s).Next?
    ensures Conserved(sw, TurnOf(sw, s).state)
    ensures TurnOf(sw, s).state.totalOut >= s.totalOut && TurnOf(sw, s).state.totalFee >= s.totalFee
  {
    hide CloserLimit, AtTickLimit, TickToCross, CrossTick, BreakSwapLoopEarly;
  }

  /** Positions left in swap direction. */
  function Left(sw: Swap, tick: int): nat
  {
    if !OnGrid(tick, sw.spacing) then 0
    else if sw.xToY then Position(tick, sw.spacing) + 1
    else TICKMAP_SIZE - Position(tick, sw.spacing) + 1
  }

  /** Each iteration uses up the amount, or a virtual crossing, or moves on in swap direction. */
  lemma IterationProgress(sw: Swap, s: State)
    requires s.virtualCrosses <= 13 && TurnOf(sw, s).Next?
    ensures var s' := TurnOf(sw, s).state;
            && s.virtualCrosses <= s'.virtualCrosses <= 13
            && (s'.remaining == 0 || s'.virtualCrosses > s.virtualCrosses || Left(sw, s'.tick) < Left(sw, s.tick))
  {
    hide AtTickLimit, CrossTick, Left, CloserLimit, OnGrid;
    var closer := CloserLimit(sw, s.tick);
    if closer.tick.Some? && closer.tick.value.1 {
      ReachedTick(sw, s.tick);
    }
  }

  /** A limit that is an initialized tick is the nearest one in swap direction. */
  lemma ReachedTick(sw: Swap, tick: int)
    requires CloserLimit(sw, tick).Limit? && CloserLimit(sw, tick).tick.Some? && CloserLimit(sw, tick).tick.value.1
    ensures var t := CloserLimit(sw, tick).tick.value.0;
            && OnGrid(tick, sw.spacing) && NearestTick(sw, tick) == Some(t)
            && OnGrid(t, sw.spacing) && sw.bitmap.IsSet(Position(t, sw.spacing))
            && TickAt(Position(t, sw.spacing), sw.spacing) == t
            && ToCome(Position(t, sw.spacing), Position(tick, sw.spacing), sw.xToY)
            && Position(t - sw.spacing, sw.spacing) == Position(t, sw.spacing) - 1 && (t - sw.spacing) % sw.spacing == 0
            && Left(sw, if sw.xToY then t - sw.spacing else t) < Left(sw, tick)
  {
    hide NearestTick, SearchPanics, OnGrid, Left;
    NearestAhead(sw, tick, CloserLimit(sw, tick).tick.value.0);
  }

  lemma NearestAhead(sw: Swap, tick: int, t: int)
    requires OnGrid(tick, sw.spacing) && NearestTick(sw, tick) == Some(t)
    ensures OnGrid(t, sw.spacing) && sw.bitmap.IsSet(Position(t, sw.spacing))
              && TickAt(Position(t, sw.spacing), sw.spacing) == t
    ensures ToCome(Position(t, sw.spacing), Position(tick, sw.spacing), sw.xToY)
    ensures Position(t - sw.spacing, sw.spacing) == Position(t, sw.spacing) - 1 && (t - sw.spacing) % sw.spacing == 0
    ensures Left(sw, if sw.xToY then t - sw.spacing else t) < Left(sw, tick)
  {
    hide TruncDiv, LimitPosition, TickAt, TickmapSlice.IsSet;
    LimitInBitmap(tick, sw.spacing, !sw.xToY);
    var p := FoundPosition(sw, tick).value;
    TickPosition(p, sw.spacing);
    TickPosition(p - 1, sw.spacing);
  }

  /** Position of the nearest initialized tick. */
  ghost function FoundPosition(sw: Swap, tick: int): Option<int>
  {
    Found(sw.bitmap, Position(tick, sw.spacing), LimitPosition(tick, sw.spacing, !sw.xToY), sw.xToY)
  }

  // ---- The loaded ticks are the ticks crossed ----

  /** compute_swap_step, fixing the input: a step that stops short of its limit takes everything. */
  ghost predicate StepContract(sw: Swap)
  {
    sw.byAmountIn &&
    forall price, limit, liquidity, amount, fee ::
      var r := sw.math.swapStep(price, limit, liquidity, amount, true, fee);
      r.Some? && r.value.nextPrice != limit ==> r.value.amountIn + r.value.feeAmount == amount
  }

  /** The amount and price formulas of math.rs, with their error returns. */
  datatype Formulas = Formulas(
    /** get_delta_x and get_delta_y: two prices, liquidity, round up */
    deltaX: (nat, nat, nat, bool) -> Option<nat>,
    deltaY: (nat, nat, nat, bool) -> Option<nat>,
    /** amount less the fee rate */
    afterFee: (nat, nat) -> Option<nat>,
    /** get_next_sqrt_price_from_input and _from_output: price, liquidity, amount, x to y */
    fromInput: (nat, nat, nat, bool) -> Option<nat>,
    fromOutput: (nat, nat, nat, bool) -> Option<nat>,
    /** fee on an amount, rounded up */
    feeUp: (nat, nat) -> nat)

  function OrMax(a: Option<nat>): nat { if a.Some? then a.value else U64 - 1 }

  /** compute_swap_step: how its branches combine the formulas. */
  function ComputeSwapStep(f: Formulas, current: nat, target: nat, liquidity: nat, amount: nat, byAmountIn: bool,
                           fee: nat)
    : Option<StepResult>
  {
    if liquidity == 0 then Some(StepResult(target, 0, 0, 0))
    else
      var xToY := current >= target;
      var fullIn := OrMax(if xToY then f.deltaX(target, current, liquidity, true)
        else f.deltaY(current, target, liquidity, true));
      var fullOut := OrMax(if xToY then f.deltaY(target, current, liquidity, false)
        else f.deltaX(current, target, liquidity, false));
      var after := f.afterFee(amount, fee);
      if byAmountIn && after.None? then None
      else
        var next :=
          if byAmountIn then (if after.value >= fullIn then Some(target)
                              else f.fromInput(current, liquidity, after.value, xToY))
          else (if amount >= fullOut then Some(target) else f.fromOutput(current, liquidity, amount, xToY));
        if next.None? then None
        else
          var notMax := target != next.value;
          var amountIn :=
            if notMax || !byAmountIn then
              (if xToY then f.deltaX(next.value, current, liquidity, true)
               else f.deltaY(current, next.value, liquidity, true))
            else Some(fullIn);
          var amountOut :=
            if notMax || byAmountIn then
              (if xToY then f.deltaY(next.value, current, liquidity, false)
               else f.deltaX(current, next.value, liquidity, false))
            else Some(fullOut);
          if amountIn.None? || amountOut.None? then None
          else
            var out := if !byAmountIn && amountOut.value > amount then amount else amountOut.value;
            if byAmountIn && notMax then
              (if amount < amountIn.value then None
               else Some(StepResult(next.value, amountIn.value, out, amount - amountIn.value)))
            else Some(StepResult(next.value, amountIn.value, out, f.feeUp(amountIn.value, fee)))
  }

  /** is_enough_amount_to_push_price, in the same way. */
  function IsEnoughAmountToPushPrice(f: Formulas, amount: nat, current: nat, liquidity: nat, fee: nat, byAmountIn: bool,
                                     xToY: bool): Option<bool>
  {
    if liquidity == 0 then Some(true)
    else
      var after := if byAmountIn then f.afterFee(amount, fee) else Some(amount);
      if after.None? then None
      else
        var next := if byAmountIn then f.fromInput(current, liquidity, after.value, xToY)
                    else f.fromOutput(current, liquidity, after.value, xToY);
        if next.None? then None else Some(current != next.value)
  }

  /** What moving the price from `current` to `next` costs, and what it yields. */
  ghost function Cost(f: Formulas, current: nat, next: nat, liquidity: nat, down: bool): Option<nat>
  {
    if down then f.deltaX(next, current, liquidity, true) else f.deltaY(current, next, liquidity, true)
  }

  ghost function Yield(f: Formulas, current: nat, next: nat, liquidity: nat, down: bool): Option<nat>
  {
    if down then f.deltaY(next, current, liquidity, false) else f.deltaX(current, next, liquidity, false)
  }

  ghost function OrLargest(a: Option<nat>): nat
  {
    if a.Some? then a.value else 18446744073709551615
  }

  /** A step in plain terms. Its price is the target when the amount suffices for that, and otherwise what
      the amount buys. It costs and yields what moving the price there does, a yield asked for being never
      exceeded. An input that falls short is used up, the fee being the rest of it. */
  ghost predicate IsStep(f: Formulas, current: nat, target: nat, liquidity: nat, amount: nat, byAmountIn: bool,
                         fee: nat, r: StepResult)
  {
    var down, after := current >= target, f.afterFee(amount, fee);
    && (byAmountIn ==> after.Some?)
    && (if byAmountIn then
          if OrLargest(Cost(f, current, target, liquidity, down)) <= after.value then r.nextPrice == target
          else f.fromInput(current, liquidity, after.value, down) == Some(r.nextPrice)
        else
          if OrLargest(Yield(f, current, target, liquidity, down)) <= amount then r.nextPrice == target
          else f.fromOutput(current, liquidity, amount, down) == Some(r.nextPrice))
    && var cost := Cost(f, current, r.nextPrice, liquidity, down);
       var yielded := Yield(f, current, r.nextPrice, liquidity, down);
       && (if byAmountIn && r.nextPrice == target then r.amountIn == OrLargest(cost) else cost == Some(r.amountIn))
       && (if byAmountIn then yielded == Some(r.amountOut)
           else
             && (yielded.Some? || r.nextPrice == target)
             && r.amountOut == if OrLargest(yielded) > amount then amount else OrLargest(yielded))
       && if byAmountIn && r.nextPrice != target then r.amountIn + r.feeAmount == amount
          else r.feeAmount == f.feeUp(r.amountIn, fee)
  }

  lemma ComputeSwapStepMeaning(f: Formulas, current: nat, target: nat, liquidity: nat, amount: nat, byAmountIn: bool,
                               fee: nat, r: StepResult)
    ensures ComputeSwapStep(f, current, target, liquidity, amount, byAmountIn, fee) == Some(r) <==>
            if liquidity == 0 then r == StepResult(target, 0, 0, 0)
            else IsStep(f, current, target, liquidity, amount, byAmountIn, fee, r)
  {
  }

  /** What is left pushes the price, unless spending it leaves the price where it is. */
  lemma IsEnoughMeaning(f: Formulas, amount: nat, current: nat, liquidity: nat, fee: nat, byAmountIn: bool, xToY: bool,
                        enough: bool)
    ensures IsEnoughAmountToPushPrice(f, amount, current, liquidity, fee, byAmountIn, xToY) == Some(enough) <==>
            if liquidity == 0 then enough
            else if byAmountIn then
              && f.afterFee(amount, fee).Some?
              && exists next: nat :: f.fromInput(current, liquidity, f.afterFee(amount, fee).value, xToY) == Some(next)
                                     && (enough <==> current != next)
            else
              exists next: nat :: f.fromOutput(current, liquidity, amount, xToY) == Some(next)
                                  && (enough <==> current != next)
  {
  }

  /** Whatever the formulas compute, the branches of compute_swap_step meet the contract. */
  lemma ComputeSwapStepMeetsContract(sw: Swap, f: Formulas)
    requires sw.byAmountIn
    requires forall price, limit, liquidity, amount, byAmountIn, fee ::
               sw.math.swapStep(price, limit, liquidity, amount, byAmountIn, fee)
               == ComputeSwapStep(f, price, limit, liquidity, amount, byAmountIn, fee)
    ensures StepContract(sw)
  {
    forall price, limit, liquidity, amount, fee
      ensures var r := sw.math.swapStep(price, limit, liquidity, amount, true, fee);
              r.Some? && r.value.nextPrice != limit ==> r.value.amountIn + r.value.feeAmount == amount
    {
      assert sw.math.swapStep(price, limit, liquidity, amount, true, fee)
             == ComputeSwapStep(f, price, limit, liquidity, amount, true, fee);
    }
  }

  ghost function StartPosition(sw: Swap): int { Position(sw.startTick, sw.spacing) }

  /** The list of `n` loaded ticks is the one found for the pool's tick and the swap's window. */
  ghost predicate Loaded(sw: Swap, n: nat)
  {
    var closest := Closest(sw.bitmap, StartPosition(sw), sw.xToY, n);
    && |sw.ticks| == |closest|
    && forall i :: 0 <= i < |closest| ==> sw.ticks[i].index == TickAt(closest[i], sw.spacing)
  }

  ghost function AheadOf(sw: Swap, n: nat): seq<int>
  {
    Ahead(sw.bitmap, StartPosition(sw), sw.xToY, n)
  }

  ghost function Skipped(sw: Swap): nat
  {
    |Opt(Behind(sw.bitmap, StartPosition(sw), sw.xToY))|
  }

  ghost function Least(a: nat, b: nat): nat { if a < b then a else b }

  /** The ticks used so far are set, in swap order without repetition, and as long as the list
      lasts they are its entries. */
  ghost predicate UsedInOrder(sw: Swap, n: nat, used: seq<int>)
  {
    && (forall k :: 0 <= k < |used| ==> OnGrid(used[k], sw.spacing) && sw.bitmap.IsSet(Position(used[k], sw.spacing)))
    && (forall k, l :: 0 <= k < l < |used| ==>
          (if sw.xToY then Position(used[k], sw.spacing) > Position(used[l], sw.spacing)
           else Position(used[k], sw.spacing) < Position(used[l], sw.spacing)))
    && (forall k :: 0 <= k < |used| && k < |AheadOf(sw, n)| ==> Position(used[k], sw.spacing) == AheadOf(sw, n)[k])
  }

  /** While something remains, the array index points at the next entry still to come. */
  ghost predicate OnTrack(sw: Swap, n: nat, s: State)
  {
    var q := Position(s.tick, sw.spacing);
    && (if sw.xToY then q <= StartPosition(sw) else q >= StartPosition(sw))
    && s.arrayIndex == Skipped(sw) + Least(|s.usedTicks|, |AheadOf(sw, n)|)
    && Pointer(AheadOf(sw, n), Least(|s.usedTicks|, |AheadOf(sw, n)|), q, sw.xToY)
    && (forall k :: 0 <= k < |s.usedTicks| ==> !ToCome(Position(s.usedTicks[k], sw.spacing), q, sw.xToY))
  }

  ghost predicate Tracked(sw: Swap, n: nat, s: State)
  {
    UsedInOrder(sw, n, s.usedTicks) && (s.remaining != 0 ==> OnTrack(sw, n, s))
  }

  /** At an initialized crossing the loaded tick is at hand exactly while the list lasts. */
  lemma LoadedTickAtHand(sw: Swap, n: nat, s: State)
    requires Loaded(sw, n) && OnTrack(sw, n, s)
    requires CloserLimit(sw, s.tick).Limit? && CloserLimit(sw, s.tick).tick.Some?
               && CloserLimit(sw, s.tick).tick.value.1
    ensures var t, u := CloserLimit(sw, s.tick).tick.value.0, |s.usedTicks|;
            && (u < |AheadOf(sw, n)| ==>
                  && Position(t, sw.spacing) == AheadOf(sw, n)[u]
                  && s.arrayIndex < |sw.ticks| && sw.ticks[s.arrayIndex].index == t)
            && (u >= |AheadOf(sw, n)| ==> s.arrayIndex == |sw.ticks|)
  {
    hide CloserLimit, OnGrid, TickmapSlice.IsSet, NearestTick, AheadOf, Skipped, FoundPosition, Left, TickAt, Position,
         Loaded, Pointer, ToCome;
    var t, u := CloserLimit(sw, s.tick).tick.value.0, |s.usedTicks|;
    ReachedTick(sw, s.tick);
    FoundAtPosition(sw, s.tick, t);
    LoadedEntry(sw, n, u);
    if u < |AheadOf(sw, n)| {
      NextEntryFound(sw, n, s, t);
    }
  }

  /** The list after its skipped head is what is ahead. */
  lemma LoadedEntry(sw: Swap, n: nat, u: nat)
    requires Loaded(sw, n)
    ensures |sw.ticks| == Skipped(sw) + |AheadOf(sw, n)|
    ensures u < |AheadOf(sw, n)| ==> sw.ticks[Skipped(sw) + u].index == TickAt(AheadOf(sw, n)[u], sw.spacing)
  {
    hide Ahead, Behind, TickAt, TruncDiv;
    if u < |AheadOf(sw, n)| {
      assert Closest(sw.bitmap, StartPosition(sw), sw.xToY, n)[Skipped(sw) + u] == AheadOf(sw, n)[u];
    }
  }

  lemma NextEntryFound(sw: Swap, n: nat, s: State, t: int)
    requires OnTrack(sw, n, s) && FoundPosition(sw, s.tick) == Some(Position(t, sw.spacing))
    requires |s.usedTicks| < |AheadOf(sw, n)|
    ensures Position(t, sw.spacing) == AheadOf(sw, n)[|s.usedTicks|]
  {
    hide TickmapSlice.IsSet, Ahead, Found, TruncDiv, LimitPosition, Pointer;
    SearchFindsNextEntry(sw.bitmap, StartPosition(sw), sw.xToY, n, AheadOf(sw, n), |s.usedTicks|,
                         Position(s.tick, sw.spacing), LimitPosition(s.tick, sw.spacing, !sw.xToY));
  }

  lemma FoundAtPosition(sw: Swap, tick: int, t: int)
    requires OnGrid(t, sw.spacing) && NearestTick(sw, tick) == Some(t)
    ensures FoundPosition(sw, tick) == Some(Position(t, sw.spacing))
  {
    hide TruncDiv, LimitPosition, TickAt, TickmapSlice.IsSet;
    TickPosition(FoundPosition(sw, tick).value, sw.spacing);
  }

  /** An initialized crossing keeps the track. */
  lemma CrossingTracks(sw: Swap, n: nat, s: State, s1: State)
    requires Loaded(sw, n) && UsedInOrder(sw, n, s.usedTicks) && OnTrack(sw, n, s)
    requires CloserLimit(sw, s.tick).Limit? && CloserLimit(sw, s.tick).tick.Some?
               && CloserLimit(sw, s.tick).tick.value.1
    requires s1.tick == s.tick && s1.usedTicks == s.usedTicks && s1.arrayIndex == s.arrayIndex
    requires Crossing(sw, s1, CloserLimit(sw, s.tick).tick.value.0, true).Next?
    ensures Tracked(sw, n, Crossing(sw, s1, CloserLimit(sw, s.tick).tick.value.0, true).state)
  {
    hide CloserLimit, NearestTick, Crossing, UsedInOrder, OnTrack, Loaded, Left, FoundPosition, AheadOf, Position,
         OnGrid, TickmapSlice.IsSet, Pointer, ToCome;
    var t := CloserLimit(sw, s.tick).tick.value.0;
    var s' := Crossing(sw, s1, t, true).state;
    ReachedTick(sw, s.tick);
    FoundAtPosition(sw, s.tick, t);
    LoadedTickAtHand(sw, n, s);
    CrossingUses(sw, s1, t);
    UsedOneMore(sw, n, s, t);
    if s'.remaining != 0 {
      CrossedPointer(sw, n, s, t);
      CrossedOnTrack(sw, n, s, t, s');
    }
  }

  lemma CrossingUses(sw: Swap, s1: State, t: int)
    requires Crossing(sw, s1, t, true).Next?
    ensures var s' := Crossing(sw, s1, t, true).state;
            && s'.usedTicks == s1.usedTicks + [t]
            && s'.arrayIndex == (if s1.arrayIndex < |sw.ticks| && sw.ticks[s1.arrayIndex].index == t
                                 then s1.arrayIndex + 1 else s1.arrayIndex)
            && (s'.remaining != 0 ==> s'.tick == if sw.xToY then t - sw.spacing else t)
  {
  }

  lemma UsedOneMore(sw: Swap, n: nat, s: State, t: int)
    requires UsedInOrder(sw, n, s.usedTicks) && OnTrack(sw, n, s)
    requires OnGrid(t, sw.spacing) && sw.bitmap.IsSet(Position(t, sw.spacing))
    requires ToCome(Position(t, sw.spacing), Position(s.tick, sw.spacing), sw.xToY)
    requires |s.usedTicks| < |AheadOf(sw, n)| ==> Position(t, sw.spacing) == AheadOf(sw, n)[|s.usedTicks|]
    ensures UsedInOrder(sw, n, s.usedTicks + [t])
  {
    hide OnGrid, TickmapSlice.IsSet, AheadOf, Position, Pointer;
  }

  lemma CrossedOnTrack(sw: Swap, n: nat, s: State, t: int, s': State)
    requires OnTrack(sw, n, s) && ToCome(Position(t, sw.spacing), Position(s.tick, sw.spacing), sw.xToY)
    requires Position(t - sw.spacing, sw.spacing) == Position(t, sw.spacing) - 1
    requires s'.usedTicks == s.usedTicks + [t] && s'.tick == if sw.xToY then t - sw.spacing else t
    requires s'.arrayIndex == if |s.usedTicks| < |AheadOf(sw, n)| then s.arrayIndex + 1 else s.arrayIndex
    requires Pointer(AheadOf(sw, n), Least(|s.usedTicks| + 1, |AheadOf(sw, n)|),
                     Position(t, sw.spacing) - (if sw.xToY then 1 else 0), sw.xToY)
    ensures OnTrack(sw, n, s')
  {
    hide AheadOf, Position, Pointer, Skipped;
  }

  lemma CrossedPointer(sw: Swap, n: nat, s: State, t: int)
    requires OnTrack(sw, n, s) && FoundPosition(sw, s.tick) == Some(Position(t, sw.spacing))
    ensures Pointer(AheadOf(sw, n), Least(|s.usedTicks| + 1, |AheadOf(sw, n)|),
                    Position(t, sw.spacing) - (if sw.xToY then 1 else 0), sw.xToY)
  {
    hide TickmapSlice.IsSet, Ahead, Found, TruncDiv, LimitPosition;
    var list := AheadOf(sw, n);
    PointerCrosses(sw.bitmap, StartPosition(sw), sw.xToY, n, list, Least(|s.usedTicks|, |list|),
                   Position(s.tick, sw.spacing), LimitPosition(s.tick, sw.spacing, !sw.xToY));
  }

  /** A virtual crossing moves over positions where nothing is set. */
  lemma VirtualTracks(sw: Swap, n: nat, s: State, s': State)
    requires OnTrack(sw, n, s) && OnGrid(s.tick, sw.spacing) && NearestTick(sw, s.tick).None?
    requires AtTickLimit(sw, s.tick) == Some(false)
    requires s'.usedTicks == s.usedTicks && s'.arrayIndex == s.arrayIndex
    requires var limit := GetSearchLimit(s.tick, sw.spacing, !sw.xToY);
             s'.tick == limit || (sw.xToY && s'.tick == limit - sw.spacing)
    ensures OnTrack(sw, n, s')
  {
    hide AheadOf, Skipped, Pointer, TickmapSlice.IsSet, TruncDiv, LimitPosition, TickAt, NearestTick, AtTickLimit,
         OnGrid;
    var q, q', l := Position(s.tick, sw.spacing), Position(s'.tick, sw.spacing),
      LimitPosition(s.tick, sw.spacing, !sw.xToY);
    TickPosition(l, sw.spacing);
    TickPosition(l - 1, sw.spacing);
    LimitAhead(sw, s.tick);
    NothingSet(sw, s.tick);
    EmptyStretch(sw, n, s, q');
  }

  lemma NothingSet(sw: Swap, tick: int)
    requires NearestTick(sw, tick).None?
    ensures var q, l := Position(tick, sw.spacing), LimitPosition(tick, sw.spacing, !sw.xToY);
            forall p :: (if sw.xToY then l <= p <= q else q < p <= l) ==> !sw.bitmap.IsSet(p)
  {
    hide TickmapSlice.IsSet, TruncDiv, LimitPosition, TickAt;
  }

  lemma EmptyStretch(sw: Swap, n: nat, s: State, q': int)
    requires OnTrack(sw, n, s)
    requires var q := Position(s.tick, sw.spacing);
             if sw.xToY then q' <= q && forall p :: q' < p <= q ==> !sw.bitmap.IsSet(p)
             else q <= q' && forall p :: q < p <= q' ==> !sw.bitmap.IsSet(p)
    ensures Pointer(AheadOf(sw, n), Least(|s.usedTicks|, |AheadOf(sw, n)|), q', sw.xToY)
    ensures if sw.xToY then q' <= StartPosition(sw) else q' >= StartPosition(sw)
    ensures forall k :: 0 <= k < |s.usedTicks| ==> !ToCome(Position(s.usedTicks[k], sw.spacing), q', sw.xToY)
  {
    hide Ahead, TickmapSlice.IsSet, TruncDiv;
    PointerMoves(sw.bitmap, StartPosition(sw), sw.xToY, n, AheadOf(sw, n), Least(|s.usedTicks|, |AheadOf(sw, n)|),
                 Position(s.tick, sw.spacing), q');
  }

  /** Away from the end of the range, the search limit lies in swap direction. */
  lemma LimitAhead(sw: Swap, tick: int)
    requires OnGrid(tick, sw.spacing) && AtTickLimit(sw, tick) == Some(false)
    ensures var q, l := Position(tick, sw.spacing), LimitPosition(tick, sw.spacing, !sw.xToY);
            if sw.xToY then l <= q else q <= l
  {
    var k := TruncDiv(tick, sw.spacing);
    PositionTick(tick, sw.spacing);
    assert tick == k * sw.spacing;
    if sw.xToY {
      LimitIndex(-k, sw.spacing);
    } else {
      LimitIndex(k, sw.spacing);
    }
  }

  lemma LimitIndex(k: int, s: Spacing)
    requires k * s < (TICK_LIMIT - 1) * s && k * s < MAX_TICK
    ensures k <= TICK_LIMIT - 1 && k <= MAX_TICK / s
  {
    MulLess(s, k, TICK_LIMIT - 1);
    DivBounds(MAX_TICK, s);
    MulLess(s, k, MAX_TICK / s + 1);
  }

  lemma MulLess(s: int, a: int, b: int)
    requires s > 0 && a * s < b * s
    ensures a < b
  {
    if b <= a {
      MulLeft(s, b, a);
    }
  }

  /** The last kind of turn, which recomputes the tick from the price, leaves nothing to swap. */
  lemma RecomputedTickIsLast(sw: Swap, s: State)
    requires StepContract(sw) && TurnOf(sw, s).Next?
    requires var closer := CloserLimit(sw, s.tick);
             var result := sw.math.swapStep(s.sqrtPrice, closer.price, s.liquidity, s.remaining, sw.byAmountIn, sw.fee);
             !(result.value.nextPrice == closer.price && closer.tick.Some?)
    ensures TurnOf(sw, s).state.remaining == 0 && TurnOf(sw, s).state.usedTicks == s.usedTicks
  {
    hide AtTickLimit, SearchPanics, OnGrid, NearestTick, GetSearchLimit, Crossing;
  }

  /** Every iteration keeps the track. */
  lemma IterationTracks(sw: Swap, n: nat, s: State)
    requires StepContract(sw) && Loaded(sw, n) && Tracked(sw, n, s) && s.remaining != 0
    requires TurnOf(sw, s).Next?
    ensures Tracked(sw, n, TurnOf(sw, s).state)
  {
    hide StepContract, Loaded, UsedInOrder, OnTrack, AtTickLimit, CloserLimit, Crossing;
    var closer := CloserLimit(sw, s.tick);
    var result := sw.math.swapStep(s.sqrtPrice, closer.price, s.liquidity, s.remaining, sw.byAmountIn, sw.fee);
    var s1 := Book(s, result.value).value;
    if result.value.nextPrice == closer.price && closer.tick.Some? {
      if closer.tick.value.1 {
        CrossingTracks(sw, n, s, s1);
      } else {
        VirtualCrossingTracks(sw, n, s, s1);
      }
    } else {
      RecomputedTickIsLast(sw, s);
    }
  }

  lemma VirtualCrossingTracks(sw: Swap, n: nat, s: State, s1: State)
    requires UsedInOrder(sw, n, s.usedTicks) && OnTrack(sw, n, s)
    requires CloserLimit(sw, s.tick).Limit? && CloserLimit(sw, s.tick).tick.Some?
               && !CloserLimit(sw, s.tick).tick.value.1
    requires AtTickLimit(sw, s.tick) == Some(false)
    requires s1.tick == s.tick && s1.usedTicks == s.usedTicks && s1.arrayIndex == s.arrayIndex
    requires Crossing(sw, s1, CloserLimit(sw, s.tick).tick.value.0, false).Next?
    ensures Tracked(sw, n, Crossing(sw, s1, CloserLimit(sw, s.tick).tick.value.0, false).state)
  {
    hide UsedInOrder, OnTrack, AtTickLimit, OnGrid, SearchPanics, NearestTick, GetSearchLimit;
    VirtualTracks(sw, n, s, Crossing(sw, s1, CloserLimit(sw, s.tick).tick.value.0, false).state);
  }

  // ---- The liquidity along the way ----

  /** Going up adds the net liquidity of a tick, going down takes it back; the sign says whether
      the net change is positive. */
  ghost function NetCrossing(sw: Swap, t: Tick, liquidity: nat): Option<nat>
  {
    var after := if t.sign != sw.xToY then liquidity + t.liquidityChange else liquidity - t.liquidityChange;
    if 0 <= after < U128 then Some(after) else None
  }

  /** The `k`-th tick crossed: the loaded one while the list lasts, afterwards an empty one. */
  ghost function TickUsed(sw: Swap, n: nat, k: nat, index: int): Tick
  {
    if k < |AheadOf(sw, n)| && Skipped(sw) + k < |sw.ticks| then sw.ticks[Skipped(sw) + k] else Tick(index, false, 0)
  }

  ghost function LiquidityAfter(sw: Swap, n: nat, liquidity: nat, used: seq<int>): Option<nat>
  {
    if used == [] then Some(liquidity)
    else
      var k := |used| - 1;
      var before := LiquidityAfter(sw, n, liquidity, used[..k]);
      if before.None? then None else NetCrossing(sw, TickUsed(sw, n, k, used[k]), before.value)
  }

  ghost predicate LiquidityRight(sw: Swap, n: nat, liquidity: nat, s: State)
  {
    s.liquidity < U128 && (s.remaining != 0 ==> LiquidityAfter(sw, n, liquidity, s.usedTicks) == Some(s.liquidity))
  }

  lemma CrossingLiquidity(sw: Swap, n: nat, liquidity: nat, s: State, s1: State)
    requires Loaded(sw, n) && OnTrack(sw, n, s) && LiquidityAfter(sw, n, liquidity, s.usedTicks) == Some(s.liquidity)
    requires s.liquidity < U128
    requires CloserLimit(sw, s.tick).Limit? && CloserLimit(sw, s.tick).tick.Some?
               && CloserLimit(sw, s.tick).tick.value.1
    requires s1.tick == s.tick && s1.usedTicks == s.usedTicks && s1.arrayIndex == s.arrayIndex
               && s1.liquidity == s.liquidity
    requires Crossing(sw, s1, CloserLimit(sw, s.tick).tick.value.0, true).Next?
    ensures LiquidityRight(sw, n, liquidity, Crossing(sw, s1, CloserLimit(sw, s.tick).tick.value.0, true).state)
  {
    hide CloserLimit, OnGrid, TickmapSlice.IsSet, NearestTick, Position, TickAt, Loaded, Left, OnTrack, TickToCross,
         TickUsed, ToCome;
    var t := CloserLimit(sw, s.tick).tick.value.0;
    var u, s' := |s.usedTicks|, Crossing(sw, s1, t, true).state;
    ReachedTick(sw, s.tick);
    CrossedIsUsed(sw, n, s);
    CrossedTickSide(sw, s.tick, t);
    CrossedIndex(sw, s.arrayIndex, t);
    assert s'.usedTicks == s.usedTicks + [t] && s'.usedTicks[..u] == s.usedTicks;
  }

  lemma CrossedIndex(sw: Swap, arrayIndex: nat, t: int)
    ensures TickToCross(sw, arrayIndex, t).index == t
  {
  }

  lemma CrossedIsUsed(sw: Swap, n: nat, s: State)
    requires Loaded(sw, n) && OnTrack(sw, n, s)
    requires CloserLimit(sw, s.tick).Limit? && CloserLimit(sw, s.tick).tick.Some?
               && CloserLimit(sw, s.tick).tick.value.1
    ensures var t := CloserLimit(sw, s.tick).tick.value.0;
            TickToCross(sw, s.arrayIndex, t) == TickUsed(sw, n, |s.usedTicks|, t)
  {
    hide CloserLimit, AheadOf, Skipped, Loaded, Pointer, Position, TickAt, ToCome;
    LoadedTickAtHand(sw, n, s);
    LoadedEntry(sw, n, |s.usedTicks|);
  }

  lemma CrossedTickSide(sw: Swap, tick: int, t: int)
    requires OnGrid(tick, sw.spacing) && OnGrid(t, sw.spacing)
    requires ToCome(Position(t, sw.spacing), Position(tick, sw.spacing), sw.xToY)
    ensures tick >= t <==> sw.xToY
  {
    hide TruncDiv;
    TickOrder(tick, t, sw.spacing);
  }

  lemma IterationLiquidity(sw: Swap, n: nat, liquidity: nat, s: State)
    requires StepContract(sw) && Loaded(sw, n) && Tracked(sw, n, s) && s.remaining != 0
    requires LiquidityRight(sw, n, liquidity, s) && TurnOf(sw, s).Next?
    ensures LiquidityRight(sw, n, liquidity, TurnOf(sw, s).state)
  {
    hide StepContract, Loaded, UsedInOrder, OnTrack, AtTickLimit, CloserLimit, LiquidityAfter, TickToCross, CrossTick;
    var closer := CloserLimit(sw, s.tick);
    var result := sw.math.swapStep(s.sqrtPrice, closer.price, s.liquidity, s.remaining, sw.byAmountIn, sw.fee);
    var s1 := Book(s, result.value).value;
    if result.value.nextPrice == closer.price && closer.tick.Some? && closer.tick.value.1 {
      CrossingLiquidity(sw, n, liquidity, s, s1);
    }
  }

  // ---- How far the searches reach ----

  /** After `turns` iterations the position is still on the grid, and within that many steps of
      the start. */
  ghost predicate Near(sw: Swap, s: State, turns: nat)
  {
    var c, q := StartPosition(sw), Position(s.tick, sw.spacing);
    && turns == |s.usedTicks| + s.virtualCrosses
    && (s.remaining != 0 ==>
          && OnGrid(s.tick, sw.spacing)
          && (if sw.xToY then c - 257 * turns <= q <= c else c <= q <= c + 256 * turns))
  }

  lemma IterationNear(sw: Swap, s: State, turns: nat)
    requires StepContract(sw) && Near(sw, s, turns) && s.remaining != 0 && TurnOf(sw, s).Next?
    ensures Near(sw, TurnOf(sw, s).state, turns + 1)
  {
    hide StepContract, AtTickLimit, CloserLimit, OnGrid, TickToCross, CrossTick, StartPosition, Position;
    var closer := CloserLimit(sw, s.tick);
    var result := sw.math.swapStep(s.sqrtPrice, closer.price, s.liquidity, s.remaining, sw.byAmountIn, sw.fee);
    if result.value.nextPrice == closer.price && closer.tick.Some? {
      LimitTickNear(sw, s.tick);
    } else {
      RecomputedTickIsLast(sw, s);
    }
  }

  /** The tick a limit stands for is on the grid, ahead, and at most a search range away; so is the
      tick below it after a downward crossing. */
  lemma LimitTickNear(sw: Swap, tick: int)
    requires CloserLimit(sw, tick).Limit? && CloserLimit(sw, tick).tick.Some? && AtTickLimit(sw, tick) == Some(false)
    ensures var t, s := CloserLimit(sw, tick).tick.value.0, sw.spacing;
            var q, p := Position(tick, s), Position(t, s);
            && OnGrid(t, s)
            && (if sw.xToY then q - 256 <= p <= q else q <= p <= q + 256)
            && (sw.xToY ==> OnGrid(t - s, s) && Position(t - s, s) == p - 1)
  {
    hide AtTickLimit, SearchPanics, TruncDiv, LimitPosition, TickAt, TickmapSlice.IsSet;
    LimitAhead(sw, tick);
    LimitInBitmap(tick, sw.spacing, !sw.xToY);
    var p := if NearestTick(sw, tick).Some? then FoundPosition(sw, tick).value
      else LimitPosition(tick, sw.spacing, !sw.xToY);
    TickPosition(p, sw.spacing);
    TickPosition(p - 1, sw.spacing);
  }

  /** With the window cut for the swap's own tick, the first fourteen searches stay inside it. */
  lemma NearIsCovered(sw: Swap, s: State, turns: nat)
    requires OnGrid(sw.startTick, sw.spacing) && Near(sw, s, turns) && s.remaining != 0 && turns <= 13
    requires |sw.bitmap.data| == SLICE_SIZE && sw.bitmap.offset == WindowStart(sw.startTick, sw.spacing, sw.xToY)
    ensures !CloserLimit(sw, s.tick).Panic?
  {
    hide TruncDiv, SearchCovered, SearchPanics, WindowStart, NearestTick, Position;
    NearInWindow(sw.bitmap, sw.startTick, sw.spacing, sw.xToY, s.tick);
    CoveredSearch(sw.bitmap, s.tick, sw.spacing, sw.xToY);
  }

  // ---- The whole simulation ----

  /** A loaded tick the swap starts beyond. */
  predicate StartsBeyond(sw: Swap, index: int)
  {
    if sw.xToY then index > sw.startTick else index <= sw.startTick
  }

  /** The first loaded tick the swap does not start beyond. */
  ghost predicate SkipPoint(sw: Swap, k: nat)
  {
    && k <= |sw.ticks|
    && (forall i :: 0 <= i < k ==> StartsBeyond(sw, sw.ticks[i].index))
    && (k < |sw.ticks| ==> !StartsBeyond(sw, sw.ticks[k].index))
  }

  /** How many of the loaded ticks from `k` on are skipped, and those before it. */
  ghost function Skips(sw: Swap, k: nat): nat
    requires k <= |sw.ticks|
    decreases |sw.ticks| - k
  {
    if k < |sw.ticks| && StartsBeyond(sw, sw.ticks[k].index) then Skips(sw, k + 1) else k
  }

  /** The loop that skips the loaded ticks behind the current one. */
  method SkipBehind(sw: Swap) returns (k: nat)
    ensures SkipPoint(sw, k) && k == Skips(sw, 0)
  {
    k := 0;
    while k < |sw.ticks|
      invariant k <= |sw.ticks| && Skips(sw, k) == Skips(sw, 0)
      invariant forall i :: 0 <= i < k ==> StartsBeyond(sw, sw.ticks[i].index)
    {
      if StartsBeyond(sw, sw.ticks[k].index) {
        k := k + 1;
      } else {
        break;
      }
    }
  }

  lemma SkipsToAhead(sw: Swap, n: nat, k: nat)
    requires Loaded(sw, n) && OnGrid(sw.startTick, sw.spacing)
    requires SkipPoint(sw, k)
    ensures k == Skipped(sw) && Pointer(AheadOf(sw, n), 0, StartPosition(sw), sw.xToY)
  {
    hide Closest, Ahead, Behind, TruncDiv, TickAt;
    var closest := Closest(sw.bitmap, StartPosition(sw), sw.xToY, n);
    SkipStopsAhead(sw.bitmap, StartPosition(sw), sw.xToY, n);
    LoadedEntry(sw, n, 0);
    forall i | 0 <= i < |sw.ticks|
      ensures StartsBeyond(sw, sw.ticks[i].index) <==> !ToCome(closest[i], StartPosition(sw), sw.xToY)
    {
      TickPosition(closest[i], sw.spacing);
      TickOrder(sw.startTick, TickAt(closest[i], sw.spacing), sw.spacing);
    }
  }

  /** The state after `k` complete iterations, if none of them stops the loop. */
  ghost function StateAfter(sw: Swap, s0: State, k: nat): Option<State>
  {
    if k == 0 then Some(s0)
    else
      var s := StateAfter(sw, s0, k - 1);
      if s.None? || s.value.remaining == 0 || TurnOf(sw, s.value).Stop? then None else Some(TurnOf(sw, s.value).state)
  }

  /** How the loop ends from state `s`. */
  ghost function OutcomeFrom(sw: Swap, s: State): Outcome
    requires s.virtualCrosses <= 13
    decreases s.remaining != 0, 14 - s.virtualCrosses, Left(sw, s.tick)
  {
    if s.remaining == 0 then Done(s.totalIn, s.totalOut, s.totalFee, s.sqrtPrice, s.usedTicks)
    else
      match TurnOf(sw, s)
      case Stop(outcome) => outcome
      case Next(s') => IterationProgress(sw, s); OutcomeFrom(sw, s')
  }

  /** The simulation as a function of the pool and the swap. */
  ghost function Simulated(sw: Swap, sqrtPrice: nat, liquidity: nat): Outcome
  {
    OutcomeFrom(sw, StartState(sw, sqrtPrice, liquidity, Skips(sw, 0)))
  }

  /** The price step an iteration from state `s` makes. */
  ghost function StepAt(sw: Swap, s: State): StepResult
  {
    var closer := CloserLimit(sw, s.tick);
    var limit := if closer.Limit? then closer.price else 0;
    var r := sw.math.swapStep(s.sqrtPrice, limit, s.liquidity, s.remaining, sw.byAmountIn, sw.fee);
    if r.Some? then r.value else StepResult(0, 0, 0, 0)
  }

  /** Sums of the outputs and of the fees of the first `k` steps. */
  ghost function StepTotals(sw: Swap, s0: State, k: nat): (nat, nat)
  {
    if k == 0 || StateAfter(sw, s0, k - 1).None? then (0, 0)
    else
      var before, step := StepTotals(sw, s0, k - 1), StepAt(sw, StateAfter(sw, s0, k - 1).value);
      (before.0 + step.amountOut, before.1 + step.feeAmount)
  }

  /** The booked output and fee are the sums over the steps. */
  lemma {:induction false} TotalsAreSums(sw: Swap, s0: State, k: nat)
    requires s0.totalOut == s0.totalFee == 0 && StateAfter(sw, s0, k).Some?
    ensures (StateAfter(sw, s0, k).value.totalOut, StateAfter(sw, s0, k).value.totalFee) == StepTotals(sw, s0, k)
  {
    hide TurnOf, CloserLimit;
    if k > 0 {
      TotalsAreSums(sw, s0, k - 1);
      TurnTotals(sw, StateAfter(sw, s0, k - 1).value);
    }
  }

  lemma TurnTotals(sw: Swap, s: State)
    requires TurnOf(sw, s).Next?
    ensures TurnOf(sw, s).state.totalOut == s.totalOut + StepAt(sw, s).amountOut
    ensures TurnOf(sw, s).state.totalFee == s.totalFee + StepAt(sw, s).feeAmount
  {
    hide CloserLimit, AtTickLimit, TickToCross, CrossTick, BreakSwapLoopEarly;
  }

  function StartState(sw: Swap, sqrtPrice: nat, liquidity: nat, k: nat): State
  {
    State(sqrtPrice, liquidity, sw.startTick, sw.inAmount, 0, 0, 0, [], 0, k)
  }

  ghost predicate LoopInvariant(sw: Swap, n: nat, liquidity: nat, s: State, turns: nat)
  {
    && Conserved(sw, s) && s.virtualCrosses <= 13
    && (StepContract(sw) && OnGrid(sw.startTick, sw.spacing) ==> Near(sw, s, turns))
    && (StepContract(sw) && OnGrid(sw.startTick, sw.spacing) && Loaded(sw, n) ==>
          Tracked(sw, n, s) && LiquidityRight(sw, n, liquidity, s))
  }

  lemma LoopStarts(sw: Swap, n: nat, sqrtPrice: nat, liquidity: nat, k: nat)
    requires liquidity < U128
    requires SkipPoint(sw, k)
    ensures LoopInvariant(sw, n, liquidity, StartState(sw, sqrtPrice, liquidity, k), 0)
  {
    hide StepContract, Loaded, OnGrid, Pointer, AheadOf, Skipped;
    if Loaded(sw, n) && OnGrid(sw.startTick, sw.spacing) {
      SkipsToAhead(sw, n, k);
    }
  }

  lemma LoopContinues(sw: Swap, n: nat, liquidity: nat, s: State, turns: nat)
    requires LoopInvariant(sw, n, liquidity, s, turns) && s.remaining != 0 && TurnOf(sw, s).Next?
    ensures LoopInvariant(sw, n, liquidity, TurnOf(sw, s).state, turns + 1)
    ensures var s' := TurnOf(sw, s).state;
            s'.remaining == 0 || s'.virtualCrosses > s.virtualCrosses
            || (s'.virtualCrosses == s.virtualCrosses && Left(sw, s'.tick) < Left(sw, s.tick))
  {
    hide StepContract, Loaded, OnGrid, Conserved, Near, Tracked, LiquidityRight, TurnOf, Left;
    IterationConserves(sw, s);
    IterationProgress(sw, s);
    if StepContract(sw) && OnGrid(sw.startTick, sw.spacing) {
      IterationNear(sw, s, turns);
      if Loaded(sw, n) {
        TrackedBoth(sw, n, liquidity, s);
      }
    }
  }

  lemma TrackedBoth(sw: Swap, n: nat, liquidity: nat, s: State)
    requires StepContract(sw) && Loaded(sw, n) && Tracked(sw, n, s) && s.remaining != 0
    requires LiquidityRight(sw, n, liquidity, s) && TurnOf(sw, s).Next?
    ensures Tracked(sw, n, TurnOf(sw, s).state) && LiquidityRight(sw, n, liquidity, TurnOf(sw, s).state)
  {
    hide StepContract, Loaded, Tracked, LiquidityRight, TurnOf;
    IterationTracks(sw, n, s);
    IterationLiquidity(sw, n, liquidity, s);
  }

  /** The iterations lead from the start to `final` in `turns` turns; the loop ends there because
      nothing remains, or because the next iteration stops with this outcome. */
  ghost predicate Ends(sw: Swap, sqrtPrice: nat, liquidity: nat, outcome: Outcome, final: State, turns: nat)
  {
    && SkipPoint(sw, Skips(sw, 0))
    && StateAfter(sw, StartState(sw, sqrtPrice, liquidity, Skips(sw, 0)), turns) == Some(final)
    && if outcome.Done? then
         && final.remaining == 0
         && outcome == Done(final.totalIn, final.totalOut, final.totalFee, final.sqrtPrice, final.usedTicks)
       else final.remaining != 0 && TurnOf(sw, final) == Stop(outcome)
  }

  /** The ticks crossed are initialized, in swap order, and the loaded ones while they last; the
      liquidity is what they leave of the pool's; the tick never leaves the bitmap, and the window
      is left only after at least fourteen crossings. `n` is the length asked for when the ticks
      were loaded. */
  ghost predicate EndsWell(sw: Swap, liquidity: nat, n: nat, outcome: Outcome, final: State, turns: nat)
  {
    && (Loaded(sw, n) ==>
          && UsedInOrder(sw, n, final.usedTicks)
          && (final.remaining != 0 ==> LiquidityAfter(sw, n, liquidity, final.usedTicks) == Some(final.liquidity)))
    && !outcome.OffMap?
    && (outcome.Panicked? && |sw.bitmap.data| == SLICE_SIZE
        && sw.bitmap.offset == WindowStart(sw.startTick, sw.spacing, sw.xToY) ==>
          turns == |final.usedTicks| + final.virtualCrosses && turns >= 14)
  }

  // ---- The whole simulation, stated in plain terms ----

  /** The loop begins at the pool's price, liquidity and tick; the loaded ticks it starts beyond are skipped. */
  ghost predicate Starts(sw: Swap, sqrtPrice: nat, liquidity: nat, s: State)
  {
    && s.sqrtPrice == sqrtPrice && s.liquidity == liquidity && s.tick == sw.startTick && s.remaining == sw.inAmount
    && s.totalIn == s.totalOut == s.totalFee == s.virtualCrosses == 0 && s.usedTicks == []
    && s.arrayIndex <= |sw.ticks|
    && (forall i :: 0 <= i < s.arrayIndex ==>
          if sw.xToY then sw.ticks[i].index > sw.startTick else sw.ticks[i].index <= sw.startTick)
    && (s.arrayIndex < |sw.ticks| ==>
          if sw.xToY then sw.ticks[s.arrayIndex].index <= sw.startTick else sw.ticks[s.arrayIndex].index > sw.startTick)
  }

  /** Turn follows turn while something remains. */
  ghost predicate Run(sw: Swap, sqrtPrice: nat, liquidity: nat, run: seq<State>)
  {
    && |run| >= 1 && Starts(sw, sqrtPrice, liquidity, run[0])
    && forall i :: 0 <= i < |run| - 1 ==> run[i].remaining != 0 && MovesOn(sw, run[i], run[i + 1])
  }

  /** The outcome of a run that ends in this state. */
  ghost predicate EndsAs(sw: Swap, s: State, outcome: Outcome)
  {
    match outcome
    case Done(inAmount, outAmount, feeAmount, endingPrice, usedTicks) =>
      && s.remaining == 0 && inAmount == s.totalIn && outAmount == s.totalOut && feeAmount == s.totalFee
      && endingPrice == s.sqrtPrice && usedTicks == s.usedTicks
    case Insufficient => s.remaining != 0 && GivesUp(sw, s)
    case Failed => s.remaining != 0 && !GivesUp(sw, s) && !SearchFails(sw, s) && (forall s' :: !MovesOn(sw, s, s'))
    case Panicked => s.remaining != 0 && SearchFails(sw, s) && (s.tick % sw.spacing == 0 ==> OnGrid(s.tick, sw.spacing))
    case OffMap => s.remaining != 0 && s.tick % sw.spacing == 0 && !OnGrid(s.tick, sw.spacing)
  }

  /** The search from the state's tick cannot be made: off the spacing or off the bitmap, or it leaves the window. */
  ghost predicate SearchFails(sw: Swap, s: State)
  {
    || s.tick % sw.spacing != 0 || !OnGrid(s.tick, sw.spacing)
    || SearchPanics(sw.bitmap, s.tick, sw.spacing, sw.xToY)
  }

  lemma StopIff(sw: Swap, s: State)
    requires s.remaining != 0 && TurnOf(sw, s).Stop?
    ensures EndsAs(sw, s, TurnOf(sw, s).outcome)
  {
    hide TurnOf, OnGrid, SearchPanics, CloserLimit, MovesOn, GivesUp;
    StopReasons(sw, s);
    StopKinds(sw, s);
    TurnIff(sw, s, s);
    forall s' ensures !MovesOn(sw, s, s') {
      TurnIff(sw, s, s');
    }
  }

  lemma StopKinds(sw: Swap, s: State)
    ensures CloserLimit(sw, s.tick).OffMap? <==> s.tick % sw.spacing == 0 && !OnGrid(s.tick, sw.spacing)
    ensures CloserLimit(sw, s.tick).Panic? || CloserLimit(sw, s.tick).OffMap? <==> SearchFails(sw, s)
  {
    hide OnGrid, SearchPanics, NearestTick, GetSearchLimit;
  }

  /** Runs are those of the loop, so the outcome of a run is the outcome of the simulation. */
  lemma {:induction false} RunsAgree(sw: Swap, sqrtPrice: nat, liquidity: nat, run: seq<State>, k: nat)
    requires Run(sw, sqrtPrice, liquidity, run) && k < |run|
    ensures StateAfter(sw, StartState(sw, sqrtPrice, liquidity, Skips(sw, 0)), k) == Some(run[k])
  {
    hide TurnOf, MovesOn;
    if k == 0 {
      StartIs(sw, sqrtPrice, liquidity, run[0]);
    } else {
      RunsAgree(sw, sqrtPrice, liquidity, run, k - 1);
      assert MovesOn(sw, run[k - 1], run[k - 1 + 1]);
      TurnIff(sw, run[k - 1], run[k]);
    }
  }

  /** A run that ends with an outcome is the simulation, whose outcome it is. */
  lemma RunOutcome(sw: Swap, sqrtPrice: nat, liquidity: nat, run: seq<State>, outcome: Outcome)
    requires Run(sw, sqrtPrice, liquidity, run) && EndsAs(sw, run[|run| - 1], outcome)
    ensures outcome == Simulated(sw, sqrtPrice, liquidity)
  {
    hide TurnOf, MovesOn, GivesUp, SearchFails, OnGrid;
    var s := run[|run| - 1];
    RunsAgree(sw, sqrtPrice, liquidity, run, |run| - 1);
    OutcomeAfter(sw, StartState(sw, sqrtPrice, liquidity, Skips(sw, 0)), |run| - 1);
    if s.remaining != 0 {
      StopKinds(sw, s);
      StopKindsAre(sw, s);
      TurnIff(sw, s, s);
      if TurnOf(sw, s).Next? {
        TurnIff(sw, s, TurnOf(sw, s).state);
      } else {
        StopReasons(sw, s);
      }
    }
  }

  lemma StopKindsAre(sw: Swap, s: State)
    ensures SearchFails(sw, s) ==>
              TurnOf(sw, s).Stop? && (TurnOf(sw, s).outcome.Panicked? || TurnOf(sw, s).outcome.OffMap?)
  {
    hide OnGrid, SearchPanics;
  }

  lemma {:induction false} OutcomeAfter(sw: Swap, s0: State, k: nat)
    requires s0.virtualCrosses <= 13 && StateAfter(sw, s0, k).Some?
    ensures StateAfter(sw, s0, k).value.virtualCrosses <= 13
    ensures OutcomeFrom(sw, StateAfter(sw, s0, k).value) == OutcomeFrom(sw, s0)
  {
    hide TurnOf, Left;
    if k > 0 {
      OutcomeAfter(sw, s0, k - 1);
      IterationProgress(sw, StateAfter(sw, s0, k - 1).value);
    }
  }

  lemma StartIs(sw: Swap, sqrtPrice: nat, liquidity: nat, s: State)
    ensures Starts(sw, sqrtPrice, liquidity, s) <==> s == StartState(sw, sqrtPrice, liquidity, Skips(sw, 0))
  {
    SkipsFrom(sw, 0);
  }

  lemma {:induction false} SkipsFrom(sw: Swap, k: nat)
    requires k <= |sw.ticks|
    ensures k <= Skips(sw, k) <= |sw.ticks|
    ensures forall i :: k <= i < Skips(sw, k) ==> StartsBeyond(sw, sw.ticks[i].index)
    ensures Skips(sw, k) < |sw.ticks| ==> !StartsBeyond(sw, sw.ticks[Skips(sw, k)].index)
    decreases |sw.ticks| - k
  {
    if k < |sw.ticks| && StartsBeyond(sw, sw.ticks[k].index) {
      SkipsFrom(sw, k + 1);
    }
  }

  lemma RunGrows(sw: Swap, sqrtPrice: nat, liquidity: nat, run: seq<State>, s': State)
    requires Run(sw, sqrtPrice, liquidity, run) && run[|run| - 1].remaining != 0
    requires TurnOf(sw, run[|run| - 1]) == Next(s')
    ensures Run(sw, sqrtPrice, liquidity, run + [s'])
  {
    hide TurnOf, MovesOn, Starts;
    TurnIff(sw, run[|run| - 1], s');
    var longer := run + [s'];
    forall i | 0 <= i < |longer| - 1 ensures longer[i].remaining != 0 && MovesOn(sw, longer[i], longer[i + 1]) {
      if i < |run| - 1 {
        assert MovesOn(sw, run[i], run[i + 1]);
      }
    }
  }

  method SimulateInvariantSwap(sw: Swap, sqrtPrice: nat, liquidity: nat, ghost n: nat) returns (outcome: Outcome)
    requires liquidity < U128
    // A successful simulation takes exactly the requested input, of which the fee is a part.
    ensures outcome.Done? ==> outcome.inAmount == sw.inAmount && outcome.feeAmount <= sw.inAmount
    ensures outcome == Simulated(sw, sqrtPrice, liquidity)
    ensures exists run: seq<State> ::
              && Run(sw, sqrtPrice, liquidity, run) && EndsAs(sw, run[|run| - 1], outcome)
              && Ends(sw, sqrtPrice, liquidity, outcome, run[|run| - 1], |run| - 1)
              && (StepContract(sw) && OnGrid(sw.startTick, sw.spacing) ==>
                  EndsWell(sw, liquidity, n, outcome, run[|run| - 1], |run| - 1))
  {
    hide LoopInvariant, StepContract, OnGrid, Loaded, TurnOf, Left, LiquidityAfter, UsedInOrder, WindowStart, Run,
         EndsAs;
    var k := SkipBehind(sw);
    var s := StartState(sw, sqrtPrice, liquidity, k);
    ghost var s0, run := s, [s];
    RunStarts(sw, sqrtPrice, liquidity, s);
    LoopStarts(sw, n, sqrtPrice, liquidity, k);
    while s.remaining != 0
      invariant Run(sw, sqrtPrice, liquidity, run) && |run| >= 1 && run[|run| - 1] == s
      invariant LoopInvariant(sw, n, liquidity, s, |run| - 1) && StateAfter(sw, s0, |run| - 1) == Some(s)
      invariant s.virtualCrosses <= 13 && OutcomeFrom(sw, s) == OutcomeFrom(sw, s0)
      decreases s.remaining != 0, 14 - s.virtualCrosses, Left(sw, s.tick)
    {
      LoopFacts(sw, n, liquidity, s, |run| - 1);
      var turn := Iterate(sw, s);
      if turn.Stop? {
        StopReasons(sw, s);
        StopIff(sw, s);
        assert Ends(sw, sqrtPrice, liquidity, turn.outcome, s, |run| - 1);
        return turn.outcome;
      }
      LoopContinues(sw, n, liquidity, s, |run| - 1);
      LoopFacts(sw, n, liquidity, turn.state, |run|);
      RunGrows(sw, sqrtPrice, liquidity, run, turn.state);
      s := turn.state;
      run := run + [s];
    }
    LoopFacts(sw, n, liquidity, s, |run| - 1);
    outcome := Done(s.totalIn, s.totalOut, s.totalFee, s.sqrtPrice, s.usedTicks);
    DoneEnds(sw, s);
    assert Ends(sw, sqrtPrice, liquidity, outcome, s, |run| - 1);
  }

  lemma RunStarts(sw: Swap, sqrtPrice: nat, liquidity: nat, s: State)
    requires s == StartState(sw, sqrtPrice, liquidity, Skips(sw, 0))
    ensures Run(sw, sqrtPrice, liquidity, [s])
  {
    hide Starts;
    StartIs(sw, sqrtPrice, liquidity, s);
  }

  lemma DoneEnds(sw: Swap, s: State)
    requires s.remaining == 0
    ensures EndsAs(sw, s, Done(s.totalIn, s.totalOut, s.totalFee, s.sqrtPrice, s.usedTicks))
  {
  }

  /** What the invariant gives at any point of the loop. */
  lemma LoopFacts(sw: Swap, n: nat, liquidity: nat, s: State, turns: nat)
    requires LoopInvariant(sw, n, liquidity, s, turns)
    ensures s.remaining + s.totalIn == sw.inAmount && s.totalFee <= s.totalIn && s.virtualCrosses <= 13
    ensures StepContract(sw) && OnGrid(sw.startTick, sw.spacing) && Loaded(sw, n) ==>
              && UsedInOrder(sw, n, s.usedTicks)
              && (s.remaining != 0 ==> LiquidityAfter(sw, n, liquidity, s.usedTicks) == Some(s.liquidity))
    ensures StepContract(sw) && OnGrid(sw.startTick, sw.spacing) && s.remaining != 0
            && |sw.bitmap.data| == SLICE_SIZE && sw.bitmap.offset == WindowStart(sw.startTick, sw.spacing, sw.xToY) ==>
              turns == |s.usedTicks| + s.virtualCrosses && (CloserLimit(sw, s.tick).Panic? ==> turns >= 14)
    ensures StepContract(sw) && OnGrid(sw.startTick, sw.spacing) && s.remaining != 0 ==>
              !CloserLimit(sw, s.tick).OffMap?
  {
    hide StepContract, SearchPanics, NearestTick, Loaded, UsedInOrder, LiquidityAfter, OnTrack, WindowStart, Position;
    if StepContract(sw) && OnGrid(sw.startTick, sw.spacing) && s.remaining != 0 && turns <= 13
       && |sw.bitmap.data| == SLICE_SIZE && sw.bitmap.offset == WindowStart(sw.startTick, sw.spacing, sw.xToY) {
      NearIsCovered(sw, s, turns);
    }
  }

  lemma StopReasons(sw: Swap, s: State)
    requires TurnOf(sw, s).Stop?
    ensures !TurnOf(sw, s).outcome.Done?
    ensures TurnOf(sw, s).outcome.Panicked? <==> CloserLimit(sw, s.tick).Panic?
    ensures TurnOf(sw, s).outcome.OffMap? <==> CloserLimit(sw, s.tick).OffMap?
  {
    hide CloserLimit, AtTickLimit, TickToCross, CrossTick, BreakSwapLoopEarly;
  }
}
