/** When a simulated swap reads outside its window of the bitmap (invariant_edge.rs, tickmap.rs): a
    condition on the window and the starting tick alone, and pools that meet it. */
module WindowExits {
  import opened Common
  import opened Powers
  import opened Tickmap
  import opened ClosestTicks
  import opened SwapLoop
  import TickPrices

  // ---- The chain of searches a window prescribes ----

  /** Where a swap goes on after the tick at position `p`. */
  function Past(p: int, xToY: bool): int { if xToY then p - 1 else p }

  function AtEnd(q: int, spacing: Spacing, xToY: bool): Option<bool>
  {
    TickEnd(TickAt(q, spacing), spacing, xToY)
  }

  /** Following the window from position `q`, with so many crossings made, some search leaves it.
      Set bits are always crossed; an empty range is crossed while the budget lasts. */
  predicate Leaves(w: TickmapSlice, spacing: Spacing, xToY: bool, q: int, used: nat, virtuals: nat)
    requires 0 <= q <= TICKMAP_SIZE && virtuals <= 13
    decreases 14 - virtuals, if xToY then q else TICKMAP_SIZE - q
  {
    LimitRange(q, spacing, xToY);
    var limit := LimitFrom(q, spacing, !xToY);
    if PanicsFrom(w, q, spacing, xToY) then true
    else if AtEnd(q, spacing, xToY) != Some(false) then false
    else
      match Found(w, q, limit, xToY)
      case Some(p) => Leaves(w, spacing, xToY, Past(p, xToY), used + 1, virtuals)
      case None =>
        if q == limit || BreakSwapLoopEarly(used % U16, virtuals + 1) != Some(false) then false
        else Leaves(w, spacing, xToY, Past(limit, xToY), used, virtuals + 1)
  }

  /** The last positions searches look at. */
  function LowEnd(spacing: Spacing): int { TICK_LIMIT + Max(-TICK_LIMIT + 1, -(MAX_TICK / spacing)) }

  function HighEnd(spacing: Spacing): int { TICK_LIMIT + Min(TICK_LIMIT - 1, MAX_TICK / spacing) }

  lemma LimitRange(q: int, spacing: Spacing, xToY: bool)
    ensures 1 <= LowEnd(spacing) <= TICK_LIMIT <= HighEnd(spacing) <= TICKMAP_SIZE
    ensures LimitFrom(q, spacing, false) == Max(LowEnd(spacing), q - 256)
    ensures LimitFrom(q, spacing, true) == Min(HighEnd(spacing), q + 256)
    ensures q <= TICKMAP_SIZE && xToY ==> 1 <= LimitFrom(q, spacing, !xToY) <= TICKMAP_SIZE
    ensures 0 <= q && !xToY ==> 0 <= LimitFrom(q, spacing, !xToY) <= TICKMAP_SIZE
  {
    DivBounds(MAX_TICK, spacing);
    assert MAX_TICK / spacing >= 0;
  }

  /** The end of the tick range is the end of the searches. */
  lemma EndRange(q: int, spacing: Spacing, xToY: bool)
    ensures AtEnd(q, spacing, xToY) == Some(true) ==> if xToY then q <= LowEnd(spacing) else q >= HighEnd(spacing)
    ensures AtEnd(q, spacing, xToY) == Some(false) ==> if xToY then q >= LowEnd(spacing) else q <= HighEnd(spacing)
  {
    var k, s := q - TICK_LIMIT, spacing;
    DivBounds(MAX_TICK, s);
    var m := MAX_TICK / s;
    if xToY {
      EndIndex(-k, s);
    } else {
      EndIndex(k, s);
    }
  }

  lemma EndIndex(k: int, s: Spacing)
    ensures k * s >= (TICK_LIMIT - 1) * s || k * s >= MAX_TICK ==> k >= Min(TICK_LIMIT - 1, MAX_TICK / s)
    ensures k * s < (TICK_LIMIT - 1) * s && k * s < MAX_TICK ==> k <= Min(TICK_LIMIT - 1, MAX_TICK / s)
  {
    DivBounds(MAX_TICK, s);
    var m := MAX_TICK / s;
    if k < m {
      MulLeft(s, k + 1, m);
    }
    if k > m {
      MulLeft(s, m + 1, k);
    }
    if k < TICK_LIMIT - 1 {
      MulLeft(s, k + 1, TICK_LIMIT - 1);
    }
    if k > TICK_LIMIT - 1 {
      MulLeft(s, TICK_LIMIT, k);
    }
  }

  // ---- Where the chain can go ----

  /** The window's lower edge lies above all that downward searches look at, and the chain has not
      gone below it by more than the step after a crossing; or the edge is never reached. */
  predicate Reach(w: TickmapSlice, spacing: Spacing, xToY: bool, q: int)
  {
    xToY ==> q < 8 * (w.offset + |w.data|) && (8 * w.offset <= LowEnd(spacing) || q >= 8 * w.offset - 1)
  }

  /** A downward search that does not panic has seen only bytes of the window. */
  lemma SeenDown(w: TickmapSlice, spacing: Spacing, q: int)
    requires q < 8 * (w.offset + |w.data|) && !PanicsFrom(w, q, spacing, true)
    ensures var limit := LimitFrom(q, spacing, false);
            limit <= q ==>
              && q >= 8 * w.offset
              && (Found(w, q, limit, true).None? ==> limit >= 8 * w.offset)
              && (Found(w, q, limit, true).Some? ==> Found(w, q, limit, true).value >= 8 * w.offset)
  {
    hide LimitFrom, Bit;
    var limit := LimitFrom(q, spacing, false);
    if limit <= q {
      var b, c := q / 8, limit / 8;
      assert w.HasByte(b) || exists p :: 8 * b + 8 <= p <= q && w.IsSet(p);
      assert w.HasByte(c) || exists p :: 8 * c + 8 <= p <= q && w.IsSet(p);
    }
  }

  /** A window that reaches down to the end of the searches is never left. */
  lemma {:induction false} NeverLeaves(w: TickmapSlice, spacing: Spacing, q: int, used: nat, v: nat)
    requires 0 <= q <= TICKMAP_SIZE && v <= 13
    requires 8 * w.offset <= LowEnd(spacing) && q < 8 * (w.offset + |w.data|)
    ensures !Leaves(w, spacing, true, q, used, v)
    decreases 14 - v, q
  {
    hide TickmapSlice.IsSet, AtEnd, LimitFrom, LowEnd;
    LimitRange(q, spacing, true);
    EndRange(q, spacing, true);
    var limit := LimitFrom(q, spacing, false);
    assert !PanicsFrom(w, q, spacing, true);
    if AtEnd(q, spacing, true) == Some(false) {
      match Found(w, q, limit, true)
      case Some(p) => NeverLeaves(w, spacing, p - 1, used + 1, v);
      case None =>
        if q != limit && BreakSwapLoopEarly(used % U16, v + 1) == Some(false) {
          NeverLeaves(w, spacing, limit - 1, used, v + 1);
        }
    }
  }

  /** A search that panics does so from further down as well, if nothing is set in between. */
  lemma PanicDeeper(w: TickmapSlice, spacing: Spacing, q: int, q': int)
    requires q' <= q < 8 * (w.offset + |w.data|) && 8 * w.offset > LowEnd(spacing) && q' >= 8 * w.offset - 1
    requires PanicsFrom(w, q, spacing, true)
    ensures PanicsFrom(w, q', spacing, true)
  {
    hide TickmapSlice.IsSet, LowEnd, LimitFrom;
    LimitRange(q, spacing, true);
    LimitRange(q', spacing, true);
    var b :| LimitFrom(q, spacing, false) / 8 <= b <= q / 8 && !w.HasByte(b)
             && forall p :: 8 * b + 8 <= p <= q ==> !w.IsSet(p);
  }

  /** A set bit met from further up is met from here. */
  lemma FoundDeeper(w: TickmapSlice, spacing: Spacing, q: int, q': int, p: int)
    requires q' <= q && Found(w, q, LimitFrom(q, spacing, false), true) == Some(p) && p <= q'
    ensures Found(w, q', LimitFrom(q', spacing, false), true) == Some(p)
    ensures q' < 8 * (w.offset + |w.data|) ==> !PanicsFrom(w, q', spacing, true)
  {
    hide Bit, LowEnd, LimitFrom;
    LimitRange(q, spacing, true);
    LimitRange(q', spacing, true);
    LastSetIs(w, LimitFrom(q', spacing, false), q', p);
  }

  /** The definition, one step of it. */
  lemma LeavesStep(w: TickmapSlice, spacing: Spacing, xToY: bool, q: int, used: nat, v: nat)
    requires 0 <= q <= TICKMAP_SIZE && v <= 13
    ensures PanicsFrom(w, q, spacing, xToY) ==> Leaves(w, spacing, xToY, q, used, v)
    ensures !PanicsFrom(w, q, spacing, xToY) && AtEnd(q, spacing, xToY) != Some(false) ==>
              !Leaves(w, spacing, xToY, q, used, v)
    ensures !PanicsFrom(w, q, spacing, xToY) && AtEnd(q, spacing, xToY) == Some(false) ==>
              var limit := LimitFrom(q, spacing, !xToY);
              match Found(w, q, limit, xToY)
              case Some(p) =>
                var p' := Past(p, xToY);
                0 <= p' <= TICKMAP_SIZE && (Leaves(w, spacing, xToY, q, used, v) <==>
                                            Leaves(w, spacing, xToY, p', used + 1, v))
              case None =>
                var p' := Past(limit, xToY);
                if q == limit || BreakSwapLoopEarly(used % U16, v + 1) != Some(false)
                then !Leaves(w, spacing, xToY, q, used, v)
                else
                  && 0 <= p' <= TICKMAP_SIZE && v + 1 <= 13
                  && (Leaves(w, spacing, xToY, q, used, v) <==> Leaves(w, spacing, xToY, p', used, v + 1))
  {
    hide TickmapSlice.IsSet, AtEnd, LimitFrom, LowEnd, HighEnd, PanicsFrom;
    LimitRange(q, spacing, xToY);
  }

  /** Starting lower, with nothing set in between and no more crossings made, a downward chain
      leaves the window too. */
  lemma {:induction false} Deeper(w: TickmapSlice, spacing: Spacing, q: int, q': int, used: nat, v: nat, v': nat)
    requires 0 <= q' <= q <= TICKMAP_SIZE && v' <= v <= 13
    requires Reach(w, spacing, true, q) && Reach(w, spacing, true, q')
    requires forall p :: q' < p <= q ==> !w.IsSet(p)
    requires Leaves(w, spacing, true, q, used, v)
    ensures Leaves(w, spacing, true, q', used, v')
    decreases 14 - v, q
  {
    hide TickmapSlice.IsSet, AtEnd, LimitFrom, LowEnd, PanicsFrom, Leaves;
    LimitRange(q, spacing, true);
    LimitRange(q', spacing, true);
    LeavesStep(w, spacing, true, q, used, v);
    LeavesStep(w, spacing, true, q', used, v');
    var limit, limit' := LimitFrom(q, spacing, false), LimitFrom(q', spacing, false);
    if 8 * w.offset <= LowEnd(spacing) {
      NeverLeaves(w, spacing, q, used, v);
      assert false;
    }
    if !PanicsFrom(w, q', spacing, true) {
      SeenDown(w, spacing, q');
      if PanicsFrom(w, q, spacing, true) {
        PanicDeeper(w, spacing, q, q');
        assert false;
      }
      SeenDown(w, spacing, q);
      NotAtEnd(q, q', spacing);
      match Found(w, q, limit, true)
      case Some(p) =>
        FoundDeeper(w, spacing, q, q', p);
        Deeper(w, spacing, p - 1, p - 1, used + 1, v, v');
      case None =>
        if q' < limit {
          Deeper(w, spacing, limit - 1, q', used, v + 1, v');
        } else {
          match Found(w, q', limit', true)
          case Some(p) =>
            LeavesStep(w, spacing, true, limit - 1, used, v + 1);
            FoundDeeper(w, spacing, q', limit - 1, p);
            Deeper(w, spacing, p - 1, p - 1, used + 1, v + 1, v');
          case None =>
            Deeper(w, spacing, limit - 1, limit' - 1, used, v + 1, v' + 1);
        }
    }
  }

  lemma NotAtEnd(q: int, q': int, spacing: Spacing)
    requires AtEnd(q, spacing, true) == Some(false) && q' > LowEnd(spacing)
    ensures AtEnd(q', spacing, true) == Some(false)
  {
    hide TickAt, LowEnd;
    EndRange(q', spacing, true);
  }

  // ---- Every run follows the chain, or a slower one ----

  /** What an iteration that does not end the swap did, by positions. */
  lemma ContinuingTurn(sw: Swap, s: State)
    requires StepContract(sw) && OnGrid(s.tick, sw.spacing)
    requires TurnOf(sw, s).Next? && TurnOf(sw, s).state.remaining != 0
    ensures var s', q := TurnOf(sw, s).state, Position(s.tick, sw.spacing);
            var limit, q' := LimitFrom(q, sw.spacing, !sw.xToY), Position(s'.tick, sw.spacing);
            && !PanicsFrom(sw.bitmap, q, sw.spacing, sw.xToY) && AtEnd(q, sw.spacing, sw.xToY) == Some(false)
            && OnGrid(s'.tick, sw.spacing)
            && match Found(sw.bitmap, q, limit, sw.xToY)
               case Some(p) =>
                 q' == Past(p, sw.xToY) && |s'.usedTicks| == |s.usedTicks| + 1 && s'.virtualCrosses == s.virtualCrosses
               case None =>
                 && q != limit && BreakSwapLoopEarly(|s.usedTicks| % U16, s.virtualCrosses + 1) == Some(false)
                 && q' in {limit, Past(limit, sw.xToY)}
                 && |s'.usedTicks| == |s.usedTicks| && s'.virtualCrosses == s.virtualCrosses + 1
  {
    hide StepContract, TickmapSlice.IsSet, PanicsFrom, LimitFrom, TickEnd, TruncDiv, TickAt, CrossTick, TickToCross,
         Found;
    var closer := CloserLimit(sw, s.tick);
    var result := sw.math.swapStep(s.sqrtPrice, closer.price, s.liquidity, s.remaining, sw.byAmountIn, sw.fee);
    if !(result.value.nextPrice == closer.price && closer.tick.Some?) {
      RecomputedTickIsLast(sw, s);
      assert false;
    }
    PositionTick(s.tick, sw.spacing);
    LimitTickNear(sw, s.tick);
    LimitTick(sw, s.tick);
  }

  /** The limit is the tick found, or the last one looked at. */
  lemma LimitTick(sw: Swap, tick: int)
    requires CloserLimit(sw, tick).Limit? && CloserLimit(sw, tick).tick.Some?
    ensures var t, initialized := CloserLimit(sw, tick).tick.value.0, CloserLimit(sw, tick).tick.value.1;
            var q := Position(tick, sw.spacing);
            var limit := LimitFrom(q, sw.spacing, !sw.xToY);
            var found := Found(sw.bitmap, q, limit, sw.xToY);
            && (initialized <==> found.Some?)
            && Position(t, sw.spacing) == (if found.Some? then found.value else limit)
            && (found.None? ==> q != limit)
  {
    hide TickmapSlice.IsSet, PanicsFrom, LimitFrom, TruncDiv, TickAt, FirstSet, LastSet;
    var q := Position(tick, sw.spacing);
    var limit := LimitFrom(q, sw.spacing, !sw.xToY);
    var found := Found(sw.bitmap, q, limit, sw.xToY);
    PositionTick(tick, sw.spacing);
    TickPosition(if found.Some? then found.value else limit, sw.spacing);
  }

  /** A run that panics does so where the chain leaves the window. */
  lemma {:induction false} PanicFollowsChain(sw: Swap, s: State)
    requires StepContract(sw) && s.virtualCrosses <= 13 && OnGrid(s.tick, sw.spacing)
    requires Reach(sw.bitmap, sw.spacing, sw.xToY, Position(s.tick, sw.spacing))
    requires OutcomeFrom(sw, s).Panicked?
    ensures Leaves(sw.bitmap, sw.spacing, sw.xToY, Position(s.tick, sw.spacing), |s.usedTicks|, s.virtualCrosses)
    decreases s.remaining != 0, 14 - s.virtualCrosses, Left(sw, s.tick)
  {
    hide StepContract, TurnOf, TickmapSlice.IsSet, PanicsFrom, LimitFrom, AtEnd, Position, Leaves, Left, Found, LowEnd;
    var w, spacing, xToY, q := sw.bitmap, sw.spacing, sw.xToY, Position(s.tick, sw.spacing);
    var u, v := |s.usedTicks|, s.virtualCrosses;
    LeavesStep(w, spacing, xToY, q, u, v);
    if TurnOf(sw, s).Stop? {
      PanicHere(sw, s);
    } else {
      var s' := TurnOf(sw, s).state;
      IterationProgress(sw, s);
      ContinuingTurn(sw, s);
      ReachKept(w, spacing, xToY, q);
      PanicFollowsChain(sw, s');
      var limit, q' := LimitFrom(q, spacing, !xToY), Position(s'.tick, spacing);
      if Found(w, q, limit, xToY).None? && q' != Past(limit, xToY) {
        NothingAtLimit(w, q, limit);
        Deeper(w, spacing, limit, limit - 1, u, v + 1, v + 1);
      }
    }
  }

  lemma PanicHere(sw: Swap, s: State)
    requires OnGrid(s.tick, sw.spacing) && TurnOf(sw, s) == Stop(Panicked)
    ensures PanicsFrom(sw.bitmap, Position(s.tick, sw.spacing), sw.spacing, sw.xToY)
  {
    hide PanicsFrom, NearestTick, Position;
    StopReasons(sw, s);
  }

  lemma NothingAtLimit(w: TickmapSlice, q: int, limit: int)
    requires limit <= q && Found(w, q, limit, true).None?
    ensures !w.IsSet(limit)
  {
  }

  /** Wherever a downward chain goes on, it stays in reach. */
  lemma ReachKept(w: TickmapSlice, spacing: Spacing, xToY: bool, q: int)
    requires Reach(w, spacing, xToY, q) && !PanicsFrom(w, q, spacing, xToY) && AtEnd(q, spacing, xToY) == Some(false)
    ensures var limit := LimitFrom(q, spacing, !xToY);
            var found := Found(w, q, limit, xToY);
            && (xToY ==> limit <= q)
            && (found.Some? ==> Reach(w, spacing, xToY, Past(found.value, xToY)))
            && (found.None? ==> Reach(w, spacing, xToY, limit) && Reach(w, spacing, xToY, Past(limit, xToY)))
  {
    if xToY {
      hide TickmapSlice.IsSet, PanicsFrom, LimitFrom, AtEnd, LowEnd;
      LimitRange(q, spacing, true);
      EndRange(q, spacing, true);
      SeenDown(w, spacing, q);
    }
  }

  // ---- A swap that nothing hinders follows the chain exactly ----

  /** Not behind the start. */
  predicate Onward(sw: Swap, tick: int)
  {
    if sw.xToY then tick <= sw.startTick else tick >= sw.startTick
  }

  /** From the start on, only the end of the tick range limits the price. */
  ghost predicate Unlimited(sw: Swap)
  {
    forall t: int :: TickEnd(t, sw.spacing, sw.xToY) == Some(false) && Onward(sw, t) ==>
      if sw.xToY then sw.math.priceOf(t) > sw.sqrtPriceLimit else sw.math.priceOf(t) < sw.sqrtPriceLimit
  }

  /** The step from this state reaches its limit with something left over, enough to go on, and the
      crossing leaves a liquidity that fits. */
  ghost predicate StepFlows(sw: Swap, s: State)
  {
    var closer := CloserLimit(sw, s.tick);
    closer.Limit? && AtTickLimit(sw, s.tick) == Some(false) ==>
      var r := sw.math.swapStep(s.sqrtPrice, closer.price, s.liquidity, s.remaining, sw.byAmountIn, sw.fee);
      && r.Some? && r.value.nextPrice == closer.price && Book(s, r.value).Some?
      && var s1 := Book(s, r.value).value;
         && s1.remaining != 0
         && (closer.tick.Some? ==>
               && sw.math.pushesPrice(s1.remaining, s1.sqrtPrice, s1.liquidity, sw.fee, sw.byAmountIn, sw.xToY)
                  == Some(true)
               && (closer.tick.value.1 ==>
                     CrossTick(TickToCross(sw, s1.arrayIndex, closer.tick.value.0), s1.tick, s1.liquidity).Some?))
  }

  /** So do all the steps from this state on. */
  ghost predicate Flows(sw: Swap, s: State)
    requires s.virtualCrosses <= 13
    decreases s.remaining != 0, 14 - s.virtualCrosses, Left(sw, s.tick)
  {
    && s.remaining != 0 && StepFlows(sw, s)
    && match TurnOf(sw, s)
       case Stop(_) => true
       case Next(s') => IterationProgress(sw, s); Flows(sw, s')
  }

  ghost predicate Underway(sw: Swap, s: State)
  {
    s.remaining != 0 && s.virtualCrosses <= 13 && OnGrid(s.tick, sw.spacing) && Onward(sw, s.tick)
  }

  /** A turn that goes on past position `p`, or stops because it is at the end of the ticks. */
  ghost predicate GoesTo(sw: Swap, turn: Turn, p: int, used: nat, v: nat)
  {
    if turn.Next? then
      && Underway(sw, turn.state)
      && Position(turn.state.tick, sw.spacing) == Past(p, sw.xToY)
      && |turn.state.usedTicks| == used && turn.state.virtualCrosses == v
    else !turn.outcome.Panicked? && AtEnd(p, sw.spacing, sw.xToY) == Some(true)
  }

  lemma FlowTurn(sw: Swap, s: State)
    requires Unlimited(sw) && Underway(sw, s) && StepFlows(sw, s)
    ensures var turn, q := TurnOf(sw, s), Position(s.tick, sw.spacing);
            var limit := LimitFrom(q, sw.spacing, !sw.xToY);
            if PanicsFrom(sw.bitmap, q, sw.spacing, sw.xToY) then turn == Stop(Panicked)
            else if AtEnd(q, sw.spacing, sw.xToY) != Some(false) then turn.Stop? && !turn.outcome.Panicked?
            else
              match Found(sw.bitmap, q, limit, sw.xToY)
              case Some(p) => GoesTo(sw, turn, p, |s.usedTicks| + 1, s.virtualCrosses)
              case None =>
                if q == limit || BreakSwapLoopEarly(|s.usedTicks| % U16, s.virtualCrosses + 1) != Some(false)
                then turn.Stop? && !turn.outcome.Panicked?
                else GoesTo(sw, turn, limit, |s.usedTicks|, s.virtualCrosses + 1)
  {
    hide TickmapSlice.IsSet, PanicsFrom, LimitFrom, TickEnd, TruncDiv, TickAt, Found, OnGrid, NearestTick,
         Unlimited, TickToCross, CrossTick;
    var closer := CloserLimit(sw, s.tick);
    PositionTickOnGrid(s.tick, sw.spacing);
    NearestIs(sw, s.tick);
    if closer.Limit? && AtTickLimit(sw, s.tick) == Some(false) {
      if closer.tick.Some? {
        var t := closer.tick.value.0;
        LimitTickNear(sw, s.tick);
        LimitTick(sw, s.tick);
        PositionTickOnGrid(t, sw.spacing);
        FoundOnward(sw, s.tick, Position(t, sw.spacing));
      } else {
        CappedAtEnd(sw, s.tick);
      }
    }
  }

  lemma PositionTickOnGrid(tick: int, spacing: Spacing)
    requires OnGrid(tick, spacing)
    ensures tick % spacing == 0 && TickAt(Position(tick, spacing), spacing) == tick
  {
    PositionTick(tick, spacing);
  }

  lemma NearestIs(sw: Swap, tick: int)
    requires OnGrid(tick, sw.spacing)
    ensures var q := Position(tick, sw.spacing);
            var limit := LimitFrom(q, sw.spacing, !sw.xToY);
            && (NearestTick(sw, tick).Some? <==> Found(sw.bitmap, q, limit, sw.xToY).Some?)
            && (q == limit <==> tick == GetSearchLimit(tick, sw.spacing, !sw.xToY))
  {
    hide TickmapSlice.IsSet, LimitFrom, TruncDiv, TickAt, FirstSet, LastSet, OnGrid;
    PositionTickOnGrid(tick, sw.spacing);
    TickPosition(LimitFrom(Position(tick, sw.spacing), sw.spacing, !sw.xToY), sw.spacing);
  }

  /** Only the end of the ticks is not beyond the caller's limit. */
  lemma CappedAtEnd(sw: Swap, tick: int)
    requires Unlimited(sw) && OnGrid(tick, sw.spacing) && Onward(sw, tick) && AtTickLimit(sw, tick) == Some(false)
    requires CloserLimit(sw, tick).Limit? && CloserLimit(sw, tick).tick.None?
    ensures var q := Position(tick, sw.spacing);
            var limit := LimitFrom(q, sw.spacing, !sw.xToY);
            var found := Found(sw.bitmap, q, limit, sw.xToY);
            && CloserLimit(sw, tick).price == sw.sqrtPriceLimit
            && (found.None? ==> q != limit)
            && AtEnd(if found.Some? then found.value else limit, sw.spacing, sw.xToY) == Some(true)
  {
    var q := Position(tick, sw.spacing);
    var limit := LimitFrom(q, sw.spacing, !sw.xToY);
    var found := Found(sw.bitmap, q, limit, sw.xToY);
    var p := if found.Some? then found.value else limit;
    hide TickmapSlice.IsSet, PanicsFrom, LimitFrom, TruncDiv, TickAt, FirstSet, LastSet, LowEnd, HighEnd, OnGrid,
         GetMinTick, GetMaxTick, Unlimited;
    PositionTickOnGrid(tick, sw.spacing);
    FoundOnward(sw, tick, p);
    if TickEnd(TickAt(p, sw.spacing), sw.spacing, sw.xToY) == Some(false) {
      BeyondLimit(sw, TickAt(p, sw.spacing));
    }
  }

  /** The tick at a limit is onward from there. */
  lemma FoundOnward(sw: Swap, tick: int, p: int)
    requires OnGrid(tick, sw.spacing) && Onward(sw, tick) && AtTickLimit(sw, tick) == Some(false)
    requires var q := Position(tick, sw.spacing);
             var limit := LimitFrom(q, sw.spacing, !sw.xToY);
             var found := Found(sw.bitmap, q, limit, sw.xToY);
             p == if found.Some? then found.value else limit
    ensures Onward(sw, TickAt(p, sw.spacing))
  {
    var q, s := Position(tick, sw.spacing), sw.spacing;
    hide TickmapSlice.IsSet, LimitFrom, TruncDiv, TickAt, LowEnd, HighEnd, OnGrid, GetMinTick, GetMaxTick;
    PositionTickOnGrid(tick, s);
    LimitRange(q, s, sw.xToY);
    EndRange(q, s, sw.xToY);
    if p < q {
      TickAtIncreasing(p, q, s);
    } else if q < p {
      TickAtIncreasing(q, p, s);
    }
  }

  lemma BeyondLimit(sw: Swap, t: int)
    requires Unlimited(sw) && Onward(sw, t) && TickEnd(t, sw.spacing, sw.xToY) == Some(false)
    ensures if sw.xToY then sw.math.priceOf(t) > sw.sqrtPriceLimit else sw.math.priceOf(t) < sw.sqrtPriceLimit
  {
  }

  /** Beyond the end of the ticks nothing is read. */
  lemma EndStops(w: TickmapSlice, spacing: Spacing, xToY: bool, p: int, used: nat, v: nat)
    requires (if xToY then LowEnd(spacing) <= p else p <= HighEnd(spacing)) && v <= 13
    requires AtEnd(p, spacing, xToY) == Some(true)
    ensures 0 <= Past(p, xToY) <= TICKMAP_SIZE && !Leaves(w, spacing, xToY, Past(p, xToY), used, v)
  {
    hide TickmapSlice.IsSet, LimitFrom, LowEnd, HighEnd, Leaves, GetMinTick, GetMaxTick, TickAt;
    LimitRange(p, spacing, xToY);
    LimitRange(Past(p, xToY), spacing, xToY);
    EndRange(p, spacing, xToY);
    TickPosition(p, spacing);
    LeavesStep(w, spacing, xToY, Past(p, xToY), used, v);
  }

  /** The simulation panics if and only if the chain leaves the window. */
  lemma {:induction false} FlowFollowsChain(sw: Swap, s: State)
    requires Unlimited(sw) && Underway(sw, s) && Flows(sw, s)
    ensures OutcomeFrom(sw, s).Panicked? <==>
            Leaves(sw.bitmap, sw.spacing, sw.xToY, Position(s.tick, sw.spacing), |s.usedTicks|, s.virtualCrosses)
    decreases s.remaining != 0, 14 - s.virtualCrosses, Left(sw, s.tick)
  {
    hide Unlimited, StepFlows, TurnOf, TickmapSlice.IsSet, PanicsFrom, LimitFrom, AtEnd, Position, OnGrid, Leaves,
         Left, Found, LowEnd, HighEnd;
    var w, spacing, xToY, q := sw.bitmap, sw.spacing, sw.xToY, Position(s.tick, sw.spacing);
    var u, v := |s.usedTicks|, s.virtualCrosses;
    GridRange(s.tick, spacing);
    LeavesStep(w, spacing, xToY, q, u, v);
    FlowTurn(sw, s);
    if TurnOf(sw, s).Next? {
      IterationProgress(sw, s);
      FlowFollowsChain(sw, TurnOf(sw, s).state);
    } else if !PanicsFrom(w, q, spacing, xToY) && AtEnd(q, spacing, xToY) == Some(false) {
      var limit := LimitFrom(q, spacing, !xToY);
      FoundRange(w, spacing, xToY, q);
      match Found(w, q, limit, xToY)
      case Some(p) => EndStops(w, spacing, xToY, p, u + 1, v);
      case None =>
        if q != limit && BreakSwapLoopEarly(u % U16, v + 1) == Some(false) {
          EndStops(w, spacing, xToY, limit, u, v + 1);
        }
    }
  }

  lemma GridRange(tick: int, spacing: Spacing)
    requires OnGrid(tick, spacing)
    ensures 0 <= Position(tick, spacing) <= TICKMAP_SIZE
  {
  }

  lemma FoundRange(w: TickmapSlice, spacing: Spacing, xToY: bool, q: int)
    requires AtEnd(q, spacing, xToY) == Some(false)
    ensures var limit := LimitFrom(q, spacing, !xToY);
            var found := Found(w, q, limit, xToY);
            && (if xToY then LowEnd(spacing) <= limit else limit <= HighEnd(spacing))
            && (found.Some? ==> if xToY then LowEnd(spacing) <= found.value else found.value <= HighEnd(spacing))
  {
    hide TickmapSlice.IsSet, AtEnd, LimitFrom, LowEnd, HighEnd;
    LimitRange(q, spacing, xToY);
    EndRange(q, spacing, xToY);
  }

  // ---- Pools without liquidity ----

  /** Without liquidity, prices move without taking anything. */
  ghost predicate Dry(sw: Swap)
  {
    && sw.byAmountIn && Unlimited(sw)
    && (forall price, limit, amount, fee ::
          sw.math.swapStep(price, limit, 0, amount, true, fee) == Some(StepResult(limit, 0, 0, 0)))
    && (forall amount, price, fee, xToY :: sw.math.pushesPrice(amount, price, 0, fee, true, xToY) == Some(true))
    && (forall i :: 0 <= i < |sw.ticks| ==> sw.ticks[i].liquidityChange == 0)
  }

  ghost predicate Untouched(s: State)
  {
    s.liquidity == 0 && s.totalIn == s.totalOut == s.totalFee == 0 && s.remaining != 0 && s.virtualCrosses <= 13
  }

  lemma DryStep(sw: Swap, s: State)
    requires Dry(sw) && Untouched(s)
    ensures StepFlows(sw, s)
    ensures TurnOf(sw, s).Next? ==> Untouched(TurnOf(sw, s).state)
  {
    hide CloserLimit, TickEnd, AtTickLimit, Unlimited;
  }

  lemma {:induction false} DryFlows(sw: Swap, s: State)
    requires Dry(sw) && Untouched(s)
    ensures Flows(sw, s)
    decreases s.remaining != 0, 14 - s.virtualCrosses, Left(sw, s.tick)
  {
    hide Dry, StepFlows, TurnOf, Left;
    DryStep(sw, s);
    if TurnOf(sw, s).Next? {
      IterationProgress(sw, s);
      DryFlows(sw, TurnOf(sw, s).state);
    }
  }

  /** The arithmetic of a quote: the source's price of a tick and its branches, around arbitrary
      amount and price formulas and an arbitrary lookup of a tick by price. */
  function QuoteMath(f: Formulas, tickAt: (nat, Spacing) -> int): PriceMath
  {
    PriceMath(
      t => if -MAX_TICK <= t <= MAX_TICK then TickPrices.PriceSqrt(t) else 0,
      (price: nat, limit: nat, liquidity: nat, amount: nat, byAmountIn: bool, fee: nat) =>
        ComputeSwapStep(f, price, limit, liquidity, amount, byAmountIn, fee),
      (amount: nat, price: nat, liquidity: nat, fee: nat, byAmountIn: bool, xToY: bool) =>
        IsEnoughAmountToPushPrice(f, amount, price, liquidity, fee, byAmountIn, xToY),
      tickAt)
  }

  /** The price limit of a quote: the end of the tick range. Without one the source does not
      simulate. */
  function QuoteLimit(spacing: Spacing, xToY: bool): nat
  {
    var bound := if xToY then GetMinTick(spacing) else GetMaxTick(spacing);
    if bound.None? then 0 else TickPrices.PriceSqrt(bound.value)
  }

  /** A quote of some input from a tick that has a price. */
  ghost predicate SourceQuote(sw: Swap, f: Formulas)
  {
    && sw.math == QuoteMath(f, sw.math.tickAt) && sw.sqrtPriceLimit == QuoteLimit(sw.spacing, sw.xToY)
    && sw.byAmountIn && sw.inAmount > 0
    && OnGrid(sw.startTick, sw.spacing) && -MAX_TICK <= sw.startTick <= MAX_TICK
  }

  /** Whatever the formulas and the pool: if each step reaches its limit with something left over and
      each crossing leaves a liquidity that fits, the quote panics if and only if the chain leaves
      the window. */
  lemma UnhinderedQuotePanics(sw: Swap, f: Formulas, sqrtPrice: nat, liquidity: nat)
    requires SourceQuote(sw, f) && Flows(sw, StartState(sw, sqrtPrice, liquidity, Skips(sw, 0)))
    ensures StepContract(sw)
    ensures Simulated(sw, sqrtPrice, liquidity).Panicked? <==>
            Leaves(sw.bitmap, sw.spacing, sw.xToY, Position(sw.startTick, sw.spacing), 0, 0)
  {
    hide Leaves, OutcomeFrom, Flows, ComputeSwapStep, StepContract, OnGrid, Position, Unlimited;
    ComputeSwapStepMeetsContract(sw, f);
    QuoteUnlimited(sw, f);
    FlowFollowsChain(sw, StartState(sw, sqrtPrice, liquidity, Skips(sw, 0)));
  }

  /** A pool without liquidity whose initialized ticks cancel out always meets that condition. */
  lemma EmptyPoolPanics(sw: Swap, f: Formulas, sqrtPrice: nat)
    requires SourceQuote(sw, f) && forall i :: 0 <= i < |sw.ticks| ==> sw.ticks[i].liquidityChange == 0
    ensures Simulated(sw, sqrtPrice, 0).Panicked? <==>
            Leaves(sw.bitmap, sw.spacing, sw.xToY, Position(sw.startTick, sw.spacing), 0, 0)
  {
    hide Leaves, OutcomeFrom, Flows, OnGrid, Position, Unlimited;
    QuoteUnlimited(sw, f);
    DryFlows(sw, StartState(sw, sqrtPrice, 0, Skips(sw, 0)));
    UnhinderedQuotePanics(sw, f, sqrtPrice, 0);
  }

  lemma QuoteUnlimited(sw: Swap, f: Formulas)
    requires SourceQuote(sw, f)
    ensures Unlimited(sw)
  {
    hide TickPrices.PriceSqrt;
    forall t: int | TickEnd(t, sw.spacing, sw.xToY) == Some(false) && Onward(sw, t)
      ensures if sw.xToY then sw.math.priceOf(t) > sw.sqrtPriceLimit else sw.math.priceOf(t) < sw.sqrtPriceLimit
    {
      if sw.xToY {
        TickPrices.PricesOrdered(GetMinTick(sw.spacing).value, t);
      } else {
        TickPrices.PricesOrdered(t, GetMaxTick(sw.spacing).value);
      }
    }
  }

  // ---- The condition ----

  /** The window a swap's edge holds: cut for its own tick and direction. */
  ghost predicate Cut(w: TickmapSlice, spacing: Spacing, startTick: int, xToY: bool)
  {
    |w.data| == SLICE_SIZE && w.offset == WindowStart(startTick, spacing, xToY)
  }

  /** No arithmetic, amount or pool makes a swap panic on a window whose chain stays inside. */
  lemma ChainInsideNeverPanics(sw: Swap, sqrtPrice: nat, liquidity: nat)
    requires StepContract(sw) && OnGrid(sw.startTick, sw.spacing) && Cut(sw.bitmap, sw.spacing, sw.startTick, sw.xToY)
    requires !Leaves(sw.bitmap, sw.spacing, sw.xToY, Position(sw.startTick, sw.spacing), 0, 0)
    ensures !Simulated(sw, sqrtPrice, liquidity).Panicked?
  {
    hide Leaves, OutcomeFrom, StepContract, OnGrid, Position, LowEnd, WindowStart;
    WindowBounds(sw.startTick, sw.spacing, sw.xToY);
    GridRange(sw.startTick, sw.spacing);
    var s := StartState(sw, sqrtPrice, liquidity, Skips(sw, 0));
    if OutcomeFrom(sw, s).Panicked? {
      PanicFollowsChain(sw, s);
    }
  }

  /** Some arithmetic, with which prices move freely. */
  function FreeSwap(w: TickmapSlice, spacing: Spacing, startTick: int, xToY: bool): Swap
  {
    var math := PriceMath(
      _ => 1,
      (_: nat, limit: nat, _: nat, _: nat, _: bool, _: nat) => Some(StepResult(limit, 0, 0, 0)),
      (_: nat, _: nat, _: nat, _: nat, _: bool, _: bool) => Some(true),
      (_: nat, _: Spacing) => 0);
    Swap(math, [], w, spacing, 0, startTick, xToY, 1, if xToY then 0 else 2, true)
  }

  ghost predicate SwapsOn(sw: Swap, w: TickmapSlice, spacing: Spacing, startTick: int, xToY: bool)
  {
    sw.bitmap == w && sw.spacing == spacing && sw.startTick == startTick && sw.xToY == xToY
  }

  /** Swaps from a tick can leave the window cut for it if and only if the chain does. */
  lemma LeftIffChainLeaves(w: TickmapSlice, spacing: Spacing, startTick: int, xToY: bool)
    requires OnGrid(startTick, spacing) && Cut(w, spacing, startTick, xToY)
    ensures (exists sw, sqrtPrice, liquidity ::
               SwapsOn(sw, w, spacing, startTick, xToY) && StepContract(sw)
                 && Simulated(sw, sqrtPrice, liquidity).Panicked?)
            <==> Leaves(w, spacing, xToY, Position(startTick, spacing), 0, 0)
  {
    hide Leaves, OutcomeFrom, OnGrid, Position, Cut, Simulated;
    GridRange(startTick, spacing);
    var free := FreeSwap(w, spacing, startTick, xToY);
    if Leaves(w, spacing, xToY, Position(startTick, spacing), 0, 0) {
      FreeSwapPanics(free);
      assert SwapsOn(free, w, spacing, startTick, xToY) && StepContract(free) && Simulated(free, 1, 0).Panicked?;
    }
    forall sw, sqrtPrice, liquidity |
      SwapsOn(sw, w, spacing, startTick, xToY) && StepContract(sw) && Simulated(sw, sqrtPrice, liquidity).Panicked?
      ensures Leaves(w, spacing, xToY, Position(startTick, spacing), 0, 0)
    {
      if !Leaves(w, spacing, xToY, Position(startTick, spacing), 0, 0) {
        ChainInsideNeverPanics(sw, sqrtPrice, liquidity);
      }
    }
  }

  lemma FreeSwapPanics(sw: Swap)
    requires sw == FreeSwap(sw.bitmap, sw.spacing, sw.startTick, sw.xToY) && OnGrid(sw.startTick, sw.spacing)
    requires Leaves(sw.bitmap, sw.spacing, sw.xToY, Position(sw.startTick, sw.spacing), 0, 0)
    ensures Simulated(sw, 1, 0).Panicked?
  {
    hide Leaves, OutcomeFrom, OnGrid, Position;
    DryFlows(sw, StartState(sw, 1, 0, Skips(sw, 0)));
    FlowFollowsChain(sw, StartState(sw, 1, 0, Skips(sw, 0)));
  }
}
