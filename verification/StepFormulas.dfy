/** The amount and price formulas of a swap step (math.rs, decimals.rs): prices have 24 decimals,
    liquidity 6, fees 12, and token amounts none. Intermediate values have 256 bits. */
module StepFormulas {
  import opened Common
  import opened Powers
  import opened SwapLoop

  const PRICE_ONE: nat := 1_000000_000000_000000_000000
  const LIQUIDITY_ONE: nat := 1_000000
  const FEE_ONE: nat := 1_000000_000000
  /** PRICE_LIQUIDITY_DENOMINATOR: from the decimals of liquidity to those of prices. */
  const PRICE_PER_LIQUIDITY: nat := 1_000000_000000_000000
  const U256: nat := U128 * U128

  function DivDown(a: nat, b: nat): nat
    requires b > 0
  {
    DivNonnegative(a, b);
    a / b
  }

  function DivUp(a: nat, b: nat): nat
    requires b > 0
  {
    DivDown(a + b - 1, b)
  }

  function Difference(a: nat, b: nat): nat { if a > b then a - b else b - a }

  function Fits(n: nat, bound: nat): Option<nat> { if n < bound then Some(n) else None }

  /** big_div_values_to_token and its rounded-up form: a quotient of prices as a token amount. */
  function ToToken(nominator: nat, denominator: nat, up: bool): Option<nat>
  {
    if nominator * PRICE_ONE >= U256 || denominator == 0 then None
    else if up then
      (if nominator * PRICE_ONE + denominator - 1 >= U256 then None
       else Fits(DivUp(DivUp(nominator * PRICE_ONE, denominator), PRICE_ONE), U64))
    else Fits(DivDown(DivDown(nominator * PRICE_ONE, denominator), PRICE_ONE), U64)
  }

  /** get_delta_x: liquidity times the difference of the prices, over their product. */
  function GetDeltaX(a: nat, b: nat, liquidity: nat, up: bool): Option<nat>
  {
    var nominator := DivDown(Difference(a, b) * liquidity, LIQUIDITY_ONE);
    ToToken(nominator, if up then DivDown(a * b, PRICE_ONE) else DivUp(a * b, PRICE_ONE), up)
  }

  /** get_delta_y: liquidity times the difference of the prices. */
  function GetDeltaY(a: nat, b: nat, liquidity: nat, up: bool): Option<nat>
  {
    var product := Difference(a, b) * liquidity;
    Fits(if up then DivUp(DivUp(product, LIQUIDITY_ONE), PRICE_ONE)
         else DivDown(DivDown(product, LIQUIDITY_ONE), PRICE_ONE), U64)
  }

  /** The amount without the fee, and the fee on an amount. */
  function AfterFee(amount: nat, fee: nat): Option<nat>
  {
    if fee > FEE_ONE then None else Some(DivDown(amount * (FEE_ONE - fee), FEE_ONE))
  }

  function FeeUp(amount: nat, fee: nat): nat { DivUp(amount * fee, FEE_ONE) }

  /** get_next_sqrt_price_x_up: L * price / (L +- amount * price), rounded up. */
  function NextPriceXUp(price: nat, liquidity: nat, amount: nat, add: bool): Option<nat>
  {
    if amount == 0 then Some(price)
    else
      var bigLiquidity := liquidity * PRICE_PER_LIQUIDITY;
      if !add && bigLiquidity < price * amount then None
      else
        var denominator := if add then bigLiquidity + price * amount else bigLiquidity - price * amount;
        var nominator := DivUp(price * liquidity, LIQUIDITY_ONE);
        if denominator == 0 || nominator * PRICE_ONE + denominator - 1 >= U256 then None
        else Fits(DivUp(nominator * PRICE_ONE, denominator), U128)
  }

  /** get_next_sqrt_price_y_down: price +- amount / L, rounded down. */
  function NextPriceYDown(price: nat, liquidity: nat, amount: nat, add: bool): Option<nat>
  {
    var scaled, divisor := amount * PRICE_ONE, liquidity * PRICE_PER_LIQUIDITY;
    if scaled >= U128 || divisor == 0 then None
    else
      var quotient := if add then DivDown(scaled * PRICE_ONE, divisor) else DivUp(scaled * PRICE_ONE, divisor);
      if quotient >= U128 then None
      else if add then Fits(price + quotient, U128)
      else if price < quotient then None else Some(price - quotient)
  }

  function NextPriceFromInput(price: nat, liquidity: nat, amount: nat, xToY: bool): Option<nat>
  {
    if liquidity == 0 || price == 0 then None
    else if xToY then NextPriceXUp(price, liquidity, amount, true) else NextPriceYDown(price, liquidity, amount, true)
  }

  function NextPriceFromOutput(price: nat, liquidity: nat, amount: nat, xToY: bool): Option<nat>
  {
    if liquidity == 0 || price == 0 then None
    else if xToY then NextPriceYDown(price, liquidity, amount, false) else NextPriceXUp(price, liquidity, amount, false)
  }

  // ---- What the formulas compute ----

  ghost predicate IsFloor(a: nat, b: nat, q: nat)
  {
    q * b <= a < q * b + b
  }

  ghost predicate IsCeil(a: nat, b: nat, q: nat)
  {
    a <= q * b < a + b
  }

  lemma DivDownMeans(a: nat, b: nat, q: nat)
    requires b > 0
    ensures IsFloor(a, b, q) <==> q == DivDown(a, b)
  {
    DivBounds(a, b);
    assert b * (q + 1) == q * b + b && b * (a / b + 1) == (a / b) * b + b;
    if IsFloor(a, b, q) {
      DivUnique(a, b, q);
    }
  }

  lemma DivUpMeans(a: nat, b: nat, q: nat)
    requires b > 0
    ensures IsCeil(a, b, q) <==> q == DivUp(a, b)
  {
    hide DivDown;
    DivDownMeans(a + b - 1, b, q);
  }

  /** Rounding up twice is rounding up once. */
  lemma CeilTwice(a: nat, b: nat, c: nat, q: nat, r: nat)
    requires b > 0 && c > 0 && IsCeil(a, b, q)
    ensures IsCeil(q, c, r) <==> IsCeil(a, c * b, r)
  {
    var t := r * c;
    assert r * (c * b) == t * b by { MulAssoc(r, c, b); }
    assert c * b == b * c;
    if q <= t {
      MulLeft(b, q, t);
    } else {
      MulLeft(b, t + 1, q);
      assert b * (t + 1) == t * b + b;
    }
    assert b * (q + c) == q * b + c * b;
    if t < q + c {
      MulLeft(b, t + 1, q + c);
      assert b * (t + 1) == t * b + b;
    } else {
      MulLeft(b, q + c, t);
    }
  }

  lemma FloorTwice(a: nat, b: nat, c: nat, q: nat, r: nat)
    requires b > 0 && c > 0 && IsFloor(a, b, q)
    ensures IsFloor(q, c, r) <==> IsFloor(a, c * b, r)
  {
    assert r * (c * b) == (r * c) * b && (r * c + c) * b == r * (c * b) + c * b;
    assert (q + 1) * b == q * b + b;
    if r * c <= q { MulLeft(b, r * c, q); } else { MulLeft(b, q + 1, r * c); }
    if q < r * c + c { MulLeft(b, q + 1, r * c + c); } else { MulLeft(b, r * c + c, q); }
  }

  /** The second token for moving between two prices: the difference times the liquidity, from 30 decimals,
      rounded once against or for the trader; it must fit 64 bits. */
  lemma DeltaYMeaning(a: nat, b: nat, liquidity: nat, up: bool, r: nat)
    ensures var product := (if a > b then a - b else b - a) * liquidity;
            GetDeltaY(a, b, liquidity, up) == Some(r) <==>
              && r < 18446744073709551616
              && if up then IsCeil(product, 1_000000_000000_000000_000000_000000, r)
                 else IsFloor(product, 1_000000_000000_000000_000000_000000, r)
  {
    hide DivUp, DivDown, IsCeil, IsFloor;
    var product := Difference(a, b) * liquidity;
    if up {
      DivUpMeans(product, LIQUIDITY_ONE, DivUp(product, LIQUIDITY_ONE));
      DivUpMeans(DivUp(product, LIQUIDITY_ONE), PRICE_ONE, r);
      CeilTwice(product, LIQUIDITY_ONE, PRICE_ONE, DivUp(product, LIQUIDITY_ONE), r);
    } else {
      DivDownMeans(product, LIQUIDITY_ONE, DivDown(product, LIQUIDITY_ONE));
      DivDownMeans(DivDown(product, LIQUIDITY_ONE), PRICE_ONE, r);
      FloorTwice(product, LIQUIDITY_ONE, PRICE_ONE, DivDown(product, LIQUIDITY_ONE), r);
    }
  }

  /** The first token: the same difference `n`, first cut to 24 decimals, over the product `d` of the prices,
      which is rounded the other way; the quotient is rounded once, and must fit 64 bits. */
  ghost predicate DeltaXFrom(a: nat, b: nat, liquidity: nat, up: bool, r: nat, n: nat, d: nat)
  {
    && IsFloor((if a > b then a - b else b - a) * liquidity, 1_000000, n)
    && (if up then IsFloor(a * b, 1_000000_000000_000000_000000, d)
        else IsCeil(a * b, 1_000000_000000_000000_000000, d))
    && d > 0 && r < 18446744073709551616
    && n * 1_000000_000000_000000_000000 + (if up then d - 1 else 0) < U128 * U128
    && if up then IsCeil(n * 1_000000_000000_000000_000000, 1_000000_000000_000000_000000 * d, r)
       else IsFloor(n * 1_000000_000000_000000_000000, 1_000000_000000_000000_000000 * d, r)
  }

  lemma ToTokenMeaning(n: nat, d: nat, up: bool, r: nat)
    ensures ToToken(n, d, up) == Some(r) <==>
              && d > 0 && r < 18446744073709551616
              && n * PRICE_ONE + (if up then d - 1 else 0) < U256
              && if up then IsCeil(n * PRICE_ONE, PRICE_ONE * d, r) else IsFloor(n * PRICE_ONE, PRICE_ONE * d, r)
  {
    hide DivUp, DivDown, IsCeil, IsFloor;
    if d > 0 {
      var m := n * PRICE_ONE;
      if up {
        DivUpMeans(m, d, DivUp(m, d));
        DivUpMeans(DivUp(m, d), PRICE_ONE, r);
        CeilTwice(m, d, PRICE_ONE, DivUp(m, d), r);
      } else {
        DivDownMeans(m, d, DivDown(m, d));
        DivDownMeans(DivDown(m, d), PRICE_ONE, r);
        FloorTwice(m, d, PRICE_ONE, DivDown(m, d), r);
      }
    }
  }

  lemma DeltaXMeaning(a: nat, b: nat, liquidity: nat, up: bool, r: nat)
    ensures GetDeltaX(a, b, liquidity, up) == Some(r) <==> exists n, d :: DeltaXFrom(a, b, liquidity, up, r, n, d)
  {
    hide DivUp, DivDown, IsCeil, IsFloor, ToToken;
    var product := Difference(a, b) * liquidity;
    var n, d := DivDown(product, LIQUIDITY_ONE), if up then DivDown(a * b, PRICE_ONE) else DivUp(a * b, PRICE_ONE);
    ToTokenMeaning(n, d, up, r);
    forall x: nat ensures IsFloor(product, LIQUIDITY_ONE, x) <==> x == n {
      DivDownMeans(product, LIQUIDITY_ONE, x);
    }
    forall x: nat
      ensures (if up then IsFloor(a * b, PRICE_ONE, x) else IsCeil(a * b, PRICE_ONE, x)) <==> x == d
    {
      DivDownMeans(a * b, PRICE_ONE, x);
      DivUpMeans(a * b, PRICE_ONE, x);
    }
    assert DeltaXFrom(a, b, liquidity, up, r, n, d) <==> ToToken(n, d, up) == Some(r);
    forall m, e | DeltaXFrom(a, b, liquidity, up, r, m, e) ensures m == n && e == d {
    }
  }

  /** The fee is rounded up and what is left without it rounded down; a rate above one fails. */
  lemma FeeMeaning(amount: nat, fee: nat, r: nat)
    ensures AfterFee(amount, fee) == Some(r) <==>
              fee <= 1_000000_000000 && IsFloor(amount * (1_000000_000000 - fee), 1_000000_000000, r)
    ensures FeeUp(amount, fee) == r <==> IsCeil(amount * fee, 1_000000_000000, r)
  {
    hide DivUp, DivDown, IsCeil, IsFloor;
    DivUpMeans(amount * fee, FEE_ONE, r);
    if fee <= FEE_ONE {
      DivDownMeans(amount * (FEE_ONE - fee), FEE_ONE, r);
    }
  }

  /** The price moved by an amount of the second token, never in the trader's favour: up by the quotient
      `q` rounded down, or down by the quotient rounded up; all within 128 bits. */
  ghost predicate MovedByY(price: nat, liquidity: nat, amount: nat, add: bool, r: nat, q: nat)
  {
    var n, d := amount * 1_000000_000000_000000_000000 * 1_000000_000000_000000_000000,
      liquidity * 1_000000_000000_000000;
    && liquidity > 0 && amount * 1_000000_000000_000000_000000 < 340282366920938463463374607431768211456
    && q < 340282366920938463463374607431768211456
    && if add then IsFloor(n, d, q) && r == price + q < 340282366920938463463374607431768211456
       else IsCeil(n, d, q) && r + q == price
  }

  lemma PriceByY(price: nat, liquidity: nat, amount: nat, add: bool, r: nat)
    ensures NextPriceYDown(price, liquidity, amount, add) == Some(r) <==>
              exists q :: MovedByY(price, liquidity, amount, add, r, q)
  {
    hide DivUp, DivDown, IsCeil, IsFloor;
    if liquidity > 0 {
      var n, d := amount * PRICE_ONE * PRICE_ONE, liquidity * PRICE_PER_LIQUIDITY;
      forall q: nat
        ensures IsFloor(n, d, q) <==> q == DivDown(n, d)
        ensures IsCeil(n, d, q) <==> q == DivUp(n, d)
      {
        DivDownMeans(n, d, q);
        DivUpMeans(n, d, q);
      }
      var q := if add then DivDown(n, d) else DivUp(n, d);
      assert MovedByY(price, liquidity, amount, add, r, q) <==>
        NextPriceYDown(price, liquidity, amount, add) == Some(r);
      forall p | MovedByY(price, liquidity, amount, add, r, p) ensures p == q {
      }
    }
  }

  /** And by an amount of the first token: liquidity times price, `n`, over liquidity plus or minus amount
      times price, rounded up. */
  ghost predicate MovedByX(price: nat, liquidity: nat, amount: nat, add: bool, r: nat, n: nat)
  {
    var d := liquidity * 1_000000_000000_000000 + (if add then price * amount else -(price * amount));
    && d > 0 && r < 340282366920938463463374607431768211456
    && IsCeil(price * liquidity, 1_000000, n)
    && n * 1_000000_000000_000000_000000 + d - 1 < U128 * U128
    && IsCeil(n * 1_000000_000000_000000_000000, d, r)
  }

  lemma PriceByX(price: nat, liquidity: nat, amount: nat, add: bool, r: nat)
    ensures NextPriceXUp(price, liquidity, amount, add) == Some(r) <==>
              if amount == 0 then r == price else exists n :: MovedByX(price, liquidity, amount, add, r, n)
  {
    hide DivUp, DivDown, IsCeil, IsFloor;
    var m := price * liquidity;
    forall n: nat ensures IsCeil(m, LIQUIDITY_ONE, n) <==> n == DivUp(m, LIQUIDITY_ONE) {
      DivUpMeans(m, LIQUIDITY_ONE, n);
    }
    var n := DivUp(m, LIQUIDITY_ONE);
    var d := liquidity * PRICE_PER_LIQUIDITY + (if add then price * amount else -(price * amount));
    if d > 0 {
      DivUpMeans(n * PRICE_ONE, d, r);
    }
    assert amount > 0 ==>
        (MovedByX(price, liquidity, amount, add, r, n) <==> NextPriceXUp(price, liquidity, amount, add) == Some(r));
    forall k | MovedByX(price, liquidity, amount, add, r, k) ensures k == n {
    }
  }

  /** An input moves the price by its own token, an output by the other one. */
  lemma PriceMoves(price: nat, liquidity: nat, amount: nat, xToY: bool)
    ensures var down := NextPriceXUp(price, liquidity, amount, true);
            var up := NextPriceYDown(price, liquidity, amount, true);
            NextPriceFromInput(price, liquidity, amount, xToY)
            == if liquidity == 0 || price == 0 then None else if xToY then down else up
    ensures var down, up := NextPriceYDown(price, liquidity, amount, false),
              NextPriceXUp(price, liquidity, amount, false);
            NextPriceFromOutput(price, liquidity, amount, xToY)
            == if liquidity == 0 || price == 0 then None else if xToY then down else up
  {
  }

  /** The formulas of the source. */
  function SourceFormulas(): Formulas
  {
    Formulas(GetDeltaX, GetDeltaY, AfterFee, NextPriceFromInput, NextPriceFromOutput, FeeUp)
  }
}
