/** The cached prices of one edge (edge.rs). Quotes, the amounts derived from the warming amounts
    and the clock are parameters. */
module EdgeStates {
  import opened Common
  import Powers

  /** A price is output over input in floating point; with no input it is infinite, and with
      neither it is not a number. */
  datatype Price = Finite(value: real) | Infinite | NotANumber

  function PriceOf(inAmount: nat, outAmount: nat): Price
  {
    if inAmount > 0 then Finite(outAmount as real / inAmount as real)
    else if outAmount > 0 then Infinite else NotANumber
  }

  /** Price times input is output; infinite without input, and no number without either. */
  ghost predicate IsPriceOf(inAmount: nat, outAmount: nat, price: Price)
  {
    match price
    case Finite(value) => inAmount > 0 && value * (inAmount as real) == outAmount as real
    case Infinite => inAmount == 0 && outAmount > 0
    case NotANumber => inAmount == 0 && outAmount == 0
  }

  lemma PriceMeans(inAmount: nat, outAmount: nat)
    ensures IsPriceOf(inAmount, outAmount, PriceOf(inAmount, outAmount))
    ensures Above(PriceOf(inAmount, outAmount), 0.0000001) <==> 10000000 * outAmount > inAmount
  {
    if inAmount > 0 {
      var a, b := inAmount as real, outAmount as real;
      Quotient(a, b);
      CompareQuotient(a, b, b / a, 0.0000001);
      DustInIntegers(inAmount, outAmount);
    }
  }

  lemma Quotient(a: real, b: real)
    requires a > 0.0
    ensures (b / a) * a == b
  {
  }

  lemma CompareQuotient(a: real, b: real, q: real, bound: real)
    requires a > 0.0 && q * a == b
    ensures q > bound <==> b > bound * a
  {
    if q > bound {
      MulReal(a, bound, q);
    } else {
      MulRealLe(a, q, bound);
    }
  }

  lemma DustInIntegers(inAmount: nat, outAmount: nat)
    ensures outAmount as real > 0.0000001 * inAmount as real <==> 10000000 * outAmount > inAmount
  {
    assert (10000000 * outAmount) as real == 10000000.0 * outAmount as real;
  }

  lemma PriceKind(inAmount: nat, outAmount: nat, price: Price)
    requires IsPriceOf(inAmount, outAmount, price)
    ensures price.NotANumber? <==> inAmount == 0 && outAmount == 0
  {
  }

  lemma MulReal(a: real, x: real, y: real)
    requires a > 0.0 && x < y
    ensures x * a < y * a
  {
  }

  lemma MulRealLe(a: real, x: real, y: real)
    requires a > 0.0 && x <= y
    ensures x * a <= y * a
  {
  }

  predicate Above(p: Price, bound: real)
  {
    p.Infinite? || (p.Finite? && p.value > bound)
  }

  /** The quote for an amount gives a usable price. */
  predicate Usable(inAmount: nat, quote: Option<nat>)
  {
    quote.Some? && !PriceOf(inAmount, quote.value).NotANumber?
  }

  /** Some amount is too large for 64 bits, so the cast saturated. */
  predicate Overflowed(amounts: seq<nat>)
  {
    exists i :: 0 <= i < |amounts| && amounts[i] == U64 - 1
  }

  /** The usable prices of the first `n` quotes, in order. */
  function Prices(amounts: seq<nat>, quotes: seq<Option<nat>>, n: nat): (r: seq<(nat, Price)>)
    requires n <= |amounts| && n <= |quotes|
    ensures |r| <= n
  {
    if n == 0 then []
    else
      var amount, quote, rest := amounts[n - 1], quotes[n - 1], Prices(amounts, quotes, n - 1);
      if Usable(amount, quote) then rest + [(amount, PriceOf(amount, quote.value))] else rest
  }

  lemma {:induction false} AllUsable(amounts: seq<nat>, quotes: seq<Option<nat>>, n: nat)
    requires n <= |amounts| && n <= |quotes|
    ensures |Prices(amounts, quotes, n)| == n <==> forall i :: 0 <= i < n ==> Usable(amounts[i], quotes[i])
    ensures |Prices(amounts, quotes, n)| == n ==>
              forall i :: 0 <= i < n ==>
                Prices(amounts, quotes, n)[i] == (amounts[i], PriceOf(amounts[i], quotes[i].value))
  {
    if n > 0 {
      AllUsable(amounts, quotes, n - 1);
    }
  }

  class EdgeState {
    var cachedPrices: seq<(nat, Price)>
    var validFlag: bool
    var lastUpdate: nat
    var cooldownEvent: nat
    var cooldownUntil: Option<nat>

    /** A state flagged valid holds one price, which is a number, per warming amount. */
    ghost predicate Valid(warmingCount: nat)
      reads this
    {
      validFlag ==>
        && |cachedPrices| == warmingCount
        && forall i :: 0 <= i < warmingCount ==> !cachedPrices[i].1.NotANumber?
    }

    constructor ()
      ensures forall n :: Valid(n)
      ensures !validFlag
    {
      cachedPrices := [];
      validFlag := false;
      lastUpdate := 0;
      cooldownEvent := 0;
      cooldownUntil := None;
    }

    /** Requote the edge for all the amounts. It stays usable exactly when no amount overflowed,
        every quote gave a price, and some price is above the dust bound. */
    method UpdateInternal(amounts: seq<nat>, quotes: seq<Option<nat>>, now: nat)
      requires |quotes| == |amounts|
      modifies this
      ensures Valid(|amounts|)
      ensures validFlag <==>
                && (forall i :: 0 <= i < |amounts| ==> amounts[i] != U64 - 1 && Usable(amounts[i], quotes[i]))
                && (exists i :: 0 <= i < |amounts| && Above(PriceOf(amounts[i], quotes[i].value), 0.0000001))
      ensures validFlag ==> forall i :: 0 <= i < |amounts| ==>
                cachedPrices[i] == (amounts[i], PriceOf(amounts[i], quotes[i].value))
      // In plain terms: all quoted, no amount the largest, and some output more than a ten-millionth.
      ensures validFlag <==>
                && (forall i :: 0 <= i < |amounts| ==>
                      amounts[i] != 18446744073709551615 && quotes[i].Some? && (amounts[i] > 0 || quotes[i].value > 0))
                && (exists i :: 0 <= i < |amounts| && 10000000 * quotes[i].value > amounts[i])
      ensures validFlag ==>
                && |cachedPrices| == |amounts|
                && forall i :: 0 <= i < |amounts| ==>
                     cachedPrices[i].0 == amounts[i] && IsPriceOf(amounts[i], quotes[i].value, cachedPrices[i].1)
      ensures lastUpdate == now && cooldownEvent == old(cooldownEvent)
      ensures cachedPrices == if Overflowed(amounts) then [] else Prices(amounts, quotes, |amounts|)
      // Only an update without overflow ends a cooldown, and only one that is over.
      ensures var before := old(cooldownUntil);
              cooldownUntil == if !Overflowed(amounts) && before.Some? && before.value < now then None else before
    {
      hide PriceOf, IsPriceOf, Above;
      forall i | 0 <= i < |amounts| && quotes[i].Some?
        ensures IsPriceOf(amounts[i], quotes[i].value, PriceOf(amounts[i], quotes[i].value))
        ensures Above(PriceOf(amounts[i], quotes[i].value), 0.0000001) <==> 10000000 * quotes[i].value > amounts[i]
        ensures PriceOf(amounts[i], quotes[i].value).NotANumber? <==> amounts[i] == 0 && quotes[i].value == 0
      {
        PriceMeans(amounts[i], quotes[i].value);
        PriceKind(amounts[i], quotes[i].value, PriceOf(amounts[i], quotes[i].value));
      }
      lastUpdate := now;
      cachedPrices := [];
      if Overflowed(amounts) {
        validFlag := false;
        return;
      }
      validFlag := true;
      if cooldownUntil.Some? && cooldownUntil.value < lastUpdate {
        cooldownUntil := None;
      }
      ghost var cooldown := cooldownUntil;
      var hasAtLeastOneNonZero := false;
      var i := 0;
      while i < |amounts|
        invariant 0 <= i <= |amounts|
        invariant cachedPrices == Prices(amounts, quotes, i)
        invariant validFlag <==> |cachedPrices| == i
        invariant validFlag ==>
          (hasAtLeastOneNonZero <==>
             exists k :: 0 <= k < i && quotes[k].Some? && Above(PriceOf(amounts[k], quotes[k].value), 0.0000001))
        invariant lastUpdate == now && cooldownEvent == old(cooldownEvent) && cooldownUntil == cooldown
      {
        if quotes[i].Some? {
          var price := PriceOf(amounts[i], quotes[i].value);
          if price.NotANumber? {
            validFlag := false;
          } else {
            if Above(price, 0.0000001) {
              hasAtLeastOneNonZero := true;
            }
            cachedPrices := cachedPrices + [(amounts[i], price)];
          }
        } else {
          validFlag := false;
        }
        i := i + 1;
      }
      AllUsable(amounts, quotes, |amounts|);
      if !hasAtLeastOneNonZero {
        validFlag := false;
      }
    }

    /** No decimals or no price are known for the input mint. */
    method UpdateImpossible()
      modifies `validFlag
      ensures !validFlag && forall n :: Valid(n)
    {
      validFlag := false;
    }

    /** Usable, and not cooling down. */
    predicate IsValid()
      reads this
    {
      validFlag && cooldownUntil.None?
    }

    /** The price cached for the least amount that is large enough, or for the last amount. */
    method CachedPriceFor(inAmount: nat) returns (r: Option<Price>)
      ensures r.Some? <==> IsValid() && cachedPrices != []
      ensures r.Some? ==>
                exists k :: && 0 <= k < |cachedPrices| && r.value == cachedPrices[k].1
                            && (forall i :: 0 <= i < k ==> cachedPrices[i].0 < inAmount)
                            && (cachedPrices[k].0 >= inAmount || k == |cachedPrices| - 1)
    {
      if !IsValid() || cachedPrices == [] {
        return None;
      }
      var k := 0;
      while k < |cachedPrices| - 1 && cachedPrices[k].0 < inAmount
        invariant 0 <= k < |cachedPrices|
        invariant forall i :: 0 <= i < k ==> cachedPrices[i].0 < inAmount
      {
        k := k + 1;
      }
      r := Some(cachedPrices[k].1);
    }

    method ResetCooldown()
      modifies `cooldownUntil
      ensures cooldownUntil == None
    {
      cooldownUntil := None;
    }

    /** Disable the edge for a while, longer each time up to the fifth; a cooldown under way is
        never shortened. */
    method AddCooldown(durationMillis: nat, now: nat)
      modifies `cooldownEvent, `cooldownUntil
      ensures cooldownEvent == old(cooldownEvent) + 1 && !IsValid()
      ensures cooldownUntil.Some? && cooldownUntil.value >= now + durationMillis * CooldownFactor(cooldownEvent)
      ensures old(cooldownUntil).Some? ==> cooldownUntil.value >= old(cooldownUntil).value
      ensures cooldownUntil.value == now + durationMillis * CooldownFactor(cooldownEvent)
                || cooldownUntil == old(cooldownUntil)
      // The factor, written out.
      ensures var factor := if cooldownEvent < 5 then [0, 1, 3, 5, 8][cooldownEvent] else 12;
              cooldownUntil.value >= now + durationMillis * factor
              && (cooldownUntil.value == now + durationMillis * factor || cooldownUntil == old(cooldownUntil))
    {
      cooldownEvent := cooldownEvent + 1;
      var until := now + durationMillis * CooldownFactor(cooldownEvent);
      cooldownUntil := Some(if cooldownUntil.Some? && cooldownUntil.value > until then cooldownUntil.value else until);
    }
  }

  /** n * 1.2^n, rounded, for n up to five. */
  function CooldownFactor(event: nat): nat
  {
    if event == 0 then 0 else if event == 1 then 1 else if event == 2 then 3 else if event == 3 then 5
    else if event == 4 then 8 else 12
  }

  /** The factor is the integer nearest to n * (6/5)^n, with n at most five, and never falls. */
  lemma CooldownMeaning(event: nat, later: nat)
    ensures var n := if event < 5 then event else 5;
            var exact: int, unit: int := n * Powers.Pow(6, n), Powers.Pow(5, n);
            -unit < 2 * (CooldownFactor(event) * unit - exact) < unit
    ensures event <= later ==> CooldownFactor(event) <= CooldownFactor(later)
  {
    assert Powers.Pow(6, 1) == 6 && Powers.Pow(6, 2) == 36 && Powers.Pow(6, 3) == 216;
    assert Powers.Pow(6, 4) == 1296 && Powers.Pow(6, 5) == 7776;
    assert Powers.Pow(5, 1) == 5 && Powers.Pow(5, 2) == 25 && Powers.Pow(5, 3) == 125;
    assert Powers.Pow(5, 4) == 625 && Powers.Pow(5, 5) == 3125;
  }
}
