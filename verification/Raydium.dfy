/** Quotes of a Raydium constant-product pool (internal/math.rs, internal/processor.rs).
    Amounts are 64-bit, intermediate values 128-bit; every overflow is an error return. */
module Raydium {
  import opened Common
  import opened Powers

  type Amount = n: nat | n < U64

  datatype SwapDirection = PC2Coin | Coin2PC

  // ---- Division ----

  /** "Ceiling" division: quotient and adjusted divisor. A quotient of zero is instead rounded to
      the nearest of 0 and 1. */
  function CheckedCeilDiv(a: nat, rhs: nat): Option<(nat, nat)>
  {
    if rhs == 0 then None
    else
      var quotient := a / rhs;
      if quotient == 0 then
        if a * 2 >= U128 then None
        else if a * 2 >= rhs then Some((1, 0)) else Some((0, 0))
      else if a % rhs > 0 then
        var q := quotient + 1;
        Some((q, if a % q > 0 then a / q + 1 else a / q))
      else Some((quotient, rhs))
  }

  /** The least `q` with `q * b >= a`. */
  function Ceil(a: nat, b: nat): nat
    requires b > 0
  {
    (a + b - 1) / b
  }

  lemma CeilBounds(a: nat, b: nat)
    requires b > 0
    ensures a <= b * Ceil(a, b)
    ensures b * Ceil(a, b) < a + b
  {
    DivBounds(a + b - 1, b);
    var q := Ceil(a, b);
    assert b * (q + 1) == b * q + b;
  }

  lemma CeilLeast(a: nat, b: nat, q: nat)
    requires b > 0 && a <= b * q
    ensures Ceil(a, b) <= q
  {
    CeilBounds(a, b);
    var c := Ceil(a, b);
    assert b * (q + 1) == b * q + b;
    if q + 1 <= c {
      MulLeft(b, q + 1, c);
    }
  }

  lemma CeilSubadditive(a: nat, c: nat, b: nat)
    requires b > 0
    ensures Ceil(a + c, b) <= Ceil(a, b) + Ceil(c, b)
    ensures Ceil(a, b) <= Ceil(a + c, b)
  {
    CeilBounds(a, b);
    CeilBounds(c, b);
    CeilBounds(a + c, b);
    assert b * (Ceil(a, b) + Ceil(c, b)) == b * Ceil(a, b) + b * Ceil(c, b);
    CeilLeast(a + c, b, Ceil(a, b) + Ceil(c, b));
    CeilLeast(a, b, Ceil(a + c, b));
  }

  /** What the division returns: the ceiling, except that anything below one half gives 0; and,
      where it rounded up a quotient of at least one, the least divisor that still covers `a`. */
  lemma CeilDivMeaning(a: nat, b: nat)
    requires b > 0 && (a < b ==> a * 2 < U128)
    ensures CheckedCeilDiv(a, b).Some?
    ensures CheckedCeilDiv(a, b).value.0 == if 2 * a < b then 0 else Ceil(a, b)
    ensures a >= b ==> CheckedCeilDiv(a, b).value.0 > 0
    ensures a >= b ==> CheckedCeilDiv(a, b).value.1 == Ceil(a, CheckedCeilDiv(a, b).value.0)
  {
    if a < b {
      DivUnique(a, b, 0);
      if 2 * a >= b {
        CeilUnique(a, b, 1);
      }
    } else {
      LargeCeilDiv(a, b);
    }
  }

  /** When it fails; and a quotient below one has no divisor. */
  lemma CeilDivFails(a: nat, b: nat)
    ensures CheckedCeilDiv(a, b).None? <==>
              b == 0 || (a < b && 2 * a >= 340282366920938463463374607431768211456)
    ensures CheckedCeilDiv(a, b).Some? && a < b ==> CheckedCeilDiv(a, b).value.1 == 0
  {
    if b > 0 && a >= b {
      LargeCeilDiv(a, b);
    } else if b > 0 {
      DivUnique(a, b, 0);
    }
  }

  lemma LargeCeilDiv(a: nat, b: nat)
    requires 0 < b <= a
    ensures CheckedCeilDiv(a, b).Some?
    ensures CheckedCeilDiv(a, b).value.0 == Ceil(a, b) > 0
    ensures CheckedCeilDiv(a, b).value.1 == Ceil(a, CheckedCeilDiv(a, b).value.0)
  {
    hide Ceil;
    var q := a / b;
    DivBounds(a, b);
    if q < 1 {
      MulLeft(b, q + 1, 1);
    }
    CeilFromDiv(a, b);
    if a % b > 0 {
      CeilFromDiv(a, q + 1);
    } else {
      assert a == b * q;
      CeilUnique(a, q, b);
    }
  }

  lemma CeilUnique(a: nat, b: nat, q: nat)
    requires b > 0 && a <= b * q < a + b
    ensures Ceil(a, b) == q
  {
    assert b * (q + 1) == b * q + b;
    DivUnique(a + b - 1, b, q);
  }

  lemma CeilFromDiv(a: nat, b: nat)
    requires b > 0
    ensures Ceil(a, b) == if a % b > 0 then a / b + 1 else a / b
  {
    DivBounds(a, b);
    var q := a / b;
    assert a == b * q + a % b && b * (q + 1) == b * q + b;
    if a % b > 0 { CeilUnique(a, b, q + 1); } else { CeilUnique(a, b, q); }
  }

  // ---- The curve ----

  function CheckedMul(a: nat, b: nat): Option<nat>
  {
    if a * b < U128 then Some(a * b) else None
  }

  function CheckedDiv(a: nat, b: nat): Option<nat>
  {
    if b == 0 then None else DivNonnegative(a, b); Some(a / b)
  }

  /** Output for an input after fees. */
  function SwapTokenAmountBaseIn(amountIn: nat, totalPc: nat, totalCoin: nat, direction: SwapDirection): Option<nat>
  {
    match direction
    case Coin2PC =>
      if totalCoin + amountIn >= U128 then None else
      var product := CheckedMul(totalPc, amountIn);
      if product.None? then None else CheckedDiv(product.value, totalCoin + amountIn)
    case PC2Coin =>
      if totalPc + amountIn >= U128 then None else
      var product := CheckedMul(totalCoin, amountIn);
      if product.None? then None else CheckedDiv(product.value, totalPc + amountIn)
  }

  /** Input, before fees, for an output. */
  function SwapTokenAmountBaseOut(amountOut: nat, totalPc: nat, totalCoin: nat, direction: SwapDirection): Option<nat>
  {
    match direction
    case Coin2PC =>
      if totalPc < amountOut then None else
      var product := CheckedMul(totalCoin, amountOut);
      if product.None? then None else
      var quotient := CheckedCeilDiv(product.value, totalPc - amountOut);
      if quotient.None? then None else Some(quotient.value.0)
    case PC2Coin =>
      if totalCoin < amountOut then None else
      var product := CheckedMul(totalPc, amountOut);
      if product.None? then None else
      var quotient := CheckedCeilDiv(product.value, totalCoin - amountOut);
      if quotient.None? then None else Some(quotient.value.0)
  }

  /** Input and output reserve. */
  function ReserveIn(pc: nat, coin: nat, d: SwapDirection): nat { if d.PC2Coin? then pc else coin }

  function ReserveOut(pc: nat, coin: nat, d: SwapDirection): nat { if d.PC2Coin? then coin else pc }

  lemma ProductFits(a: Amount, b: Amount)
    ensures 2 * (a * b) < 2 * U128 && a * b <= (U64 - 1) * (U64 - 1)
  {
    MulMono(a, b, U64 - 1, U64 - 1);
  }

  /** The output as a function of the reserves on either side; nothing overflows. */
  lemma BaseInMeaning(x: Amount, pc: Amount, coin: Amount, d: SwapDirection)
    ensures var rin, rout := ReserveIn(pc, coin, d), ReserveOut(pc, coin, d);
            SwapTokenAmountBaseIn(x, pc, coin, d) == if rin + x == 0 then None else Some(rout * x / (rin + x))
  {
    ProductFits(pc, x);
    ProductFits(coin, x);
  }

  /** For values of any width: the output exists exactly when sum and product fit 128 bits and the sum is
      not zero. */
  lemma BaseInWide(x: nat, pc: nat, coin: nat, d: SwapDirection)
    ensures var rin, rout := if d.PC2Coin? then pc else coin, if d.PC2Coin? then coin else pc;
            SwapTokenAmountBaseIn(x, pc, coin, d)
            == if rin + x == 0 || rin + x >= 340282366920938463463374607431768211456
                  || rout * x >= 340282366920938463463374607431768211456
               then None else Some(rout * x / (rin + x))
  {
  }

  /** And the input, when the product fits 128 bits and the output leaves something in the pool. */
  lemma BaseOutWide(y: nat, pc: nat, coin: nat, d: SwapDirection)
    ensures var rin, rout := if d.PC2Coin? then pc else coin, if d.PC2Coin? then coin else pc;
            SwapTokenAmountBaseOut(y, pc, coin, d).Some? <==>
              && y < rout && rin * y < 340282366920938463463374607431768211456
              && (rin * y < rout - y ==> 2 * (rin * y) < 340282366920938463463374607431768211456)
  {
    hide CheckedCeilDiv;
    var rin, rout := ReserveIn(pc, coin, d), ReserveOut(pc, coin, d);
    if y <= rout {
      CeilDivFails(rin * y, rout - y);
    }
  }

  /** `y` is reached exactly when the constant-product inequality holds. */
  lemma ReachesOutput(x: nat, y: nat, rin: nat, rout: nat)
    requires rin + x > 0 && y <= rout
    ensures rout * x / (rin + x) >= y <==> x * (rout - y) >= rin * y
  {
    var q := rout * x / (rin + x);
    DivBounds(rout * x, rin + x);
    assert y * (rin + x) == rin * y + x * y && x * (rout - y) == rout * x - x * y;
    if q >= y {
      MulLeft(rin + x, y, q);
    } else {
      MulLeft(rin + x, q + 1, y);
    }
  }

  // ---- Exact out against exact in ----

  /** The two directions form a rounding-exact pair: a nonzero input returned for an output is the
      least input that yields that output. */
  lemma ExactOutIsLeast(y: Amount, pc: Amount, coin: Amount, d: SwapDirection, x: Amount, z: Amount)
    requires SwapTokenAmountBaseOut(y, pc, coin, d) == Some(x) && x > 0
    ensures SwapTokenAmountBaseIn(x, pc, coin, d).Some? && SwapTokenAmountBaseIn(x, pc, coin, d).value >= y
    ensures z < x && SwapTokenAmountBaseIn(z, pc, coin, d).Some? ==> SwapTokenAmountBaseIn(z, pc, coin, d).value < y
  {
    hide CheckedCeilDiv, SwapTokenAmountBaseIn, SwapTokenAmountBaseOut, Ceil;
    BaseOutMeaning(y, pc, coin, d);
    BaseInMeaning(x, pc, coin, d);
    BaseInMeaning(z, pc, coin, d);
    LeastInput(y, ReserveIn(pc, coin, d), ReserveOut(pc, coin, d), x, z);
  }

  lemma LeastInput(y: nat, rin: nat, rout: nat, x: nat, z: nat)
    requires y < rout && x == Ceil(rin * y, rout - y) > 0
    ensures rout * x / (rin + x) >= y
    ensures z < x && rin + z > 0 ==> rout * z / (rin + z) < y
  {
    hide Ceil;
    CeilBounds(rin * y, rout - y);
    ReachesOutput(x, y, rin, rout);
    if z < x && rin + z > 0 {
      ReachesOutput(z, y, rin, rout);
      if (rout - y) * z >= rin * y {
        CeilLeast(rin * y, rout - y, z);
      }
    }
  }

  /** The input for an output: the ceiling of rin*y/(rout-y), or 0 when that fraction is below
      one half. It is defined exactly when the output leaves something in the pool. */
  lemma BaseOutMeaning(y: Amount, pc: Amount, coin: Amount, d: SwapDirection)
    ensures var rin, rout := ReserveIn(pc, coin, d), ReserveOut(pc, coin, d);
            && (SwapTokenAmountBaseOut(y, pc, coin, d).Some? <==> y < rout)
            && (y < rout ==>
                  SwapTokenAmountBaseOut(y, pc, coin, d).value
                  == if 2 * (rin * y) < rout - y then 0 else Ceil(rin * y, rout - y))
  {
    hide CheckedCeilDiv, Ceil;
    var rin, rout := ReserveIn(pc, coin, d), ReserveOut(pc, coin, d);
    ProductFits(rin, y);
    if y < rout {
      CeilDivMeaning(rin * y, rout - y);
    } else {
      CeilDivByZero(rin * y);
    }
  }

  lemma CeilDivByZero(a: nat)
    ensures CheckedCeilDiv(a, 0).None?
  {
  }

  /** Exactly when the quoted input buys the output: not when half of a unit would have been more
      than enough, in which case the quote is 0. */
  lemma ExactOutBuysOutput(y: Amount, pc: Amount, coin: Amount, d: SwapDirection, x: Amount)
    requires SwapTokenAmountBaseOut(y, pc, coin, d) == Some(x) && 0 < ReserveIn(pc, coin, d)
    ensures SwapTokenAmountBaseIn(x, pc, coin, d).Some?
    ensures var rin, rout := ReserveIn(pc, coin, d), ReserveOut(pc, coin, d);
            SwapTokenAmountBaseIn(x, pc, coin, d).value >= y <==> y == 0 || 2 * (rin * y) >= rout - y
  {
    hide CheckedCeilDiv, SwapTokenAmountBaseIn, SwapTokenAmountBaseOut, Ceil;
    BaseOutMeaning(y, pc, coin, d);
    BaseInMeaning(x, pc, coin, d);
    BuysOutput(y, ReserveIn(pc, coin, d), ReserveOut(pc, coin, d), x);
  }

  lemma BuysOutput(y: nat, rin: nat, rout: nat, x: nat)
    requires y < rout && rin > 0 && x == if 2 * (rin * y) < rout - y then 0 else Ceil(rin * y, rout - y)
    ensures rout * x / (rin + x) >= y <==> y == 0 || 2 * (rin * y) >= rout - y
  {
    hide Ceil;
    ReachesOutput(x, y, rin, rout);
    CeilBounds(rin * y, rout - y);
    if y > 0 {
      MulMono(1, 1, rin, y);
    }
  }

  /** One unit asked from a pool of ten against one: the quote is 0, which buys nothing. */
  lemma SmallExactOutBuysNothing()
    ensures SwapTokenAmountBaseOut(1, 10, 1, Coin2PC) == Some(0)
    ensures SwapTokenAmountBaseIn(0, 10, 1, Coin2PC) == Some(0)
  {
  }

  // ---- Fees ----

  ghost predicate ValidFee(num: Amount, den: Amount) { num < den }

  function SwapFee(amount: nat, num: nat, den: nat): Option<nat>
  {
    var product := CheckedMul(amount, num);
    if product.None? then None else
    var quotient := CheckedCeilDiv(product.value, den);
    if quotient.None? then None else Some(quotient.value.0)
  }

  lemma SwapFeeMeaning(a: Amount, num: Amount, den: Amount)
    requires ValidFee(num, den)
    ensures SwapFee(a, num, den) == Some(if 2 * (a * num) < den then 0 else Ceil(a * num, den))
    ensures SwapFee(a, num, den).value <= Ceil(a * num, den) <= a
  {
    hide CheckedCeilDiv, Ceil;
    ProductFits(a, num);
    CeilDivMeaning(a * num, den);
    MulLeft(a, num, den);
    CeilLeast(a * num, den, a);
  }

  /** The rounded fee grows by at most one per unit of input, so what is left never shrinks. */
  lemma FeeStep(a: Amount, num: Amount, den: Amount)
    requires ValidFee(num, den) && a + 1 < U64
    ensures SwapFee(a, num, den).Some? && SwapFee(a + 1, num, den).Some?
    ensures SwapFee(a, num, den).value <= SwapFee(a + 1, num, den).value <= SwapFee(a, num, den).value + 1
  {
    hide CheckedCeilDiv, Ceil, SwapFee;
    SwapFeeMeaning(a, num, den);
    SwapFeeMeaning(a + 1, num, den);
    assert (a + 1) * num == a * num + num;
    CeilSubadditive(a * num, num, den);
    CeilLeast(num, den, 1);
    if a > 0 && 2 * (a * num) < den {
      MulLeft(num, 1, a);
      CeilLeast(a * num + num, den, 1);
    }
  }

  lemma {:induction false} NetInputMonotone(a: Amount, b: Amount, num: Amount, den: Amount)
    requires ValidFee(num, den) && a <= b
    ensures SwapFee(a, num, den).Some? && SwapFee(b, num, den).Some?
    ensures SwapFee(a, num, den).value <= SwapFee(b, num, den).value
    ensures a - SwapFee(a, num, den).value <= b - SwapFee(b, num, den).value
    decreases b - a
  {
    hide SwapFee;
    SwapFeeMeaning(a, num, den);
    if a < b {
      FeeStep(a, num, den);
      NetInputMonotone(a + 1, b, num, den);
    }
  }

  // ---- Whole quotes ----

  datatype Amm = Amm(swapPermission: bool, needTakePnlPc: Amount, needTakePnlCoin: Amount, feeNum: Amount,
                     feeDen: Amount)

  function CalcTotalWithoutTakePnl(pcAmount: Amount, coinAmount: Amount, amm: Amm): Option<(nat, nat)>
  {
    if pcAmount < amm.needTakePnlPc || coinAmount < amm.needTakePnlCoin then None
    else Some((pcAmount - amm.needTakePnlPc, coinAmount - amm.needTakePnlCoin))
  }

  /** `(output, fee)` for an input; None is an error or a failed 64-bit conversion. */
  function SimulateSwapBaseIn(amm: Amm, coinVault: Amount, pcVault: Amount, d: SwapDirection,
                              inAmount: Amount): Option<(nat, nat)>
  {
    if !amm.swapPermission then None else
    var totals := CalcTotalWithoutTakePnl(pcVault, coinVault, amm);
    if totals.None? then None else
    var (totalPc, totalCoin) := totals.value;
    var fee := SwapFee(inAmount, amm.feeNum, amm.feeDen);
    if fee.None? || inAmount < fee.value then None else
    var out := SwapTokenAmountBaseIn(inAmount - fee.value, totalPc, totalCoin, d);
    if out.None? || out.value >= U64 then None else
    var available := if d.PC2Coin? then totalCoin else totalPc;
    Some((if out.value < available then out.value else available, fee.value))
  }

  /** `(input before fee, fee)` for an output. */
  function SimulateSwapBaseOut(amm: Amm, coinVault: Amount, pcVault: Amount, d: SwapDirection,
                               outAmount: Amount): Option<(nat, nat)>
  {
    if !amm.swapPermission then None else
    var totals := CalcTotalWithoutTakePnl(pcVault, coinVault, amm);
    if totals.None? then None else
    var input := SwapTokenAmountBaseOut(outAmount, totals.value.0, totals.value.1, d);
    if input.None? || input.value >= U64 then None else
    var fee := SwapFee(input.value, amm.feeNum, amm.feeDen);
    if fee.None? then None else Some((input.value, fee.value))
  }

  /** The pool can be swapped against: permitted, a fee below one, and something on both sides. */
  ghost predicate Open(amm: Amm, coinVault: Amount, pcVault: Amount)
  {
    && amm.swapPermission && ValidFee(amm.feeNum, amm.feeDen)
    && pcVault > amm.needTakePnlPc && coinVault > amm.needTakePnlCoin
  }

  /** An exact-in quote on an open pool always succeeds, takes no more fee than the input, leaves
      the output side nonempty, and never lowers the product of the reserves. */
  lemma ExactInQuoteSafe(amm: Amm, coinVault: Amount, pcVault: Amount, d: SwapDirection, inAmount: Amount)
    requires Open(amm, coinVault, pcVault)
    ensures SimulateSwapBaseIn(amm, coinVault, pcVault, d, inAmount).Some?
    ensures var pc, coin := pcVault - amm.needTakePnlPc, coinVault - amm.needTakePnlCoin;
            var rin, rout := ReserveIn(pc, coin, d), ReserveOut(pc, coin, d);
            var (out, fee) := SimulateSwapBaseIn(amm, coinVault, pcVault, d, inAmount).value;
            && SwapFee(inAmount, amm.feeNum, amm.feeDen) == Some(fee)
            && RoundsTo(inAmount * amm.feeNum, amm.feeDen, fee)
            && fee <= inAmount && out == rout * (inAmount - fee) / (rin + (inAmount - fee)) < rout
            && (rin + (inAmount - fee)) * (rout - out) >= rin * rout
  {
    hide SwapFee, SwapTokenAmountBaseIn;
    var pc: Amount, coin: Amount := pcVault - amm.needTakePnlPc, coinVault - amm.needTakePnlCoin;
    SwapFeeMeaning(inAmount, amm.feeNum, amm.feeDen);
    RoundedCeil(inAmount * amm.feeNum, amm.feeDen);
    var net: Amount := inAmount - SwapFee(inAmount, amm.feeNum, amm.feeDen).value;
    BaseInMeaning(net, pc, coin, d);
    ProductKept(net, ReserveIn(pc, coin, d), ReserveOut(pc, coin, d));
  }

  lemma ProductKept(x: nat, rin: nat, rout: nat)
    requires rin > 0 && rout > 0
    ensures rout * x / (rin + x) < rout
    ensures (rin + x) * (rout - rout * x / (rin + x)) >= rin * rout
  {
    var y := rout * x / (rin + x);
    DivBounds(rout * x, rin + x);
    assert rout * (rin + x) == rout * rin + rout * x && rout * rin > 0 by { MulMono(1, 1, rout, rin); }
    if rout <= y {
      MulLeft(rin + x, rout, y);
    }
    assert (rin + x) * (rout - y) == (rin + x) * rout - (rin + x) * y;
  }

  /** `q` is `a / b` rounded up, except that less than one half gives 0. */
  ghost predicate RoundsTo(a: nat, b: nat, q: nat)
  {
    if 2 * a < b then q == 0 else a <= q * b < a + b
  }

  lemma RoundedCeil(a: nat, b: nat)
    requires b > 0
    ensures RoundsTo(a, b, if 2 * a < b then 0 else Ceil(a, b))
    ensures 2 * a >= b ==> forall n: nat :: Ceil(a, b) <= n <==> a <= n * b
  {
    hide Ceil;
    CeilBounds(a, b);
    forall n: nat ensures Ceil(a, b) <= n <==> a <= n * b {
      if Ceil(a, b) <= n {
        MulLeft(b, Ceil(a, b), n);
      } else if a <= n * b {
        CeilLeast(a, b, n);
      }
    }
  }

  /** Swapping is permitted, the fee is below one, and the vaults hold what the pool owes. */
  ghost predicate Permits(amm: Amm, coinVault: Amount, pcVault: Amount)
  {
    && amm.swapPermission && amm.feeNum < amm.feeDen
    && amm.needTakePnlPc <= pcVault && amm.needTakePnlCoin <= coinVault
  }

  /** What an exact-in quote is where swapping is permitted: there is none only for a net input of zero
      against an empty reserve. */
  lemma ExactInQuoteMeaning(amm: Amm, coinVault: Amount, pcVault: Amount, d: SwapDirection, inAmount: Amount, fee: nat)
    requires Permits(amm, coinVault, pcVault) && RoundsTo(inAmount * amm.feeNum, amm.feeDen, fee)
    ensures var rin, rout := if d.PC2Coin? then pcVault - amm.needTakePnlPc else coinVault - amm.needTakePnlCoin,
              if d.PC2Coin? then coinVault - amm.needTakePnlCoin else pcVault - amm.needTakePnlPc;
            && fee <= inAmount
            && SimulateSwapBaseIn(amm, coinVault, pcVault, d, inAmount)
               == if rin + (inAmount - fee) == 0 then None
                  else Some((rout * (inAmount - fee) / (rin + (inAmount - fee)), fee))
  {
    hide SwapFee, SwapTokenAmountBaseIn, RoundsTo;
    var pc: Amount, coin: Amount := pcVault - amm.needTakePnlPc, coinVault - amm.needTakePnlCoin;
    FeeMeaning(inAmount, amm.feeNum, amm.feeDen);
    SwapFeeMeaning(inAmount, amm.feeNum, amm.feeDen);
    RoundsToUnique(inAmount * amm.feeNum, amm.feeDen, fee, SwapFee(inAmount, amm.feeNum, amm.feeDen).value);
    var net: Amount := inAmount - fee;
    BaseInMeaning(net, pc, coin, d);
    if ReserveIn(pc, coin, d) + net > 0 {
      AtMostReserve(net, ReserveIn(pc, coin, d), ReserveOut(pc, coin, d));
    }
  }

  lemma RoundsToUnique(a: nat, b: nat, q: nat, r: nat)
    requires b > 0 && RoundsTo(a, b, q) && RoundsTo(a, b, r)
    ensures q == r
  {
    if q + 1 <= r {
      MulLeft(b, q + 1, r);
    } else if r + 1 <= q {
      MulLeft(b, r + 1, q);
    }
  }

  lemma AtMostReserve(x: nat, rin: nat, rout: nat)
    requires rin + x > 0
    ensures 0 <= rout * x / (rin + x) <= rout
  {
    DivBounds(rout * x, rin + x);
    DivNonnegative(rout * x, rin + x);
    assert (rin + x) * (rout + 1) == rout * x + (rin * rout + rin + x);
    if rout + 1 <= rout * x / (rin + x) {
      MulLeft(rin + x, rout + 1, rout * x / (rin + x));
    }
  }

  /** When an exact-out quote succeeds there, and what it is: the output must leave something in the pool
      and the input must fit 64 bits; input and fee are rounded. */
  lemma ExactOutQuoteMeaning(amm: Amm, coinVault: Amount, pcVault: Amount, d: SwapDirection, y: Amount)
    requires Permits(amm, coinVault, pcVault)
    ensures var rin, rout := if d.PC2Coin? then pcVault - amm.needTakePnlPc else coinVault - amm.needTakePnlCoin,
              if d.PC2Coin? then coinVault - amm.needTakePnlCoin else pcVault - amm.needTakePnlPc;
            var quote := SimulateSwapBaseOut(amm, coinVault, pcVault, d, y);
            && (quote.Some? <==> y < rout && rin * y <= 18446744073709551615 * (rout - y))
            && (quote.Some? ==>
                  && RoundsTo(rin * y, rout - y, quote.value.0)
                  && RoundsTo(quote.value.0 * amm.feeNum, amm.feeDen, quote.value.1))
  {
    hide SwapFee, SwapTokenAmountBaseOut, RoundsTo;
    var pc: Amount, coin: Amount := pcVault - amm.needTakePnlPc, coinVault - amm.needTakePnlCoin;
    var input := SwapTokenAmountBaseOut(y, pc, coin, d);
    InputMeaning(y, pc, coin, d);
    if input.Some? && input.value < U64 {
      FeeMeaning(input.value, amm.feeNum, amm.feeDen);
    }
  }

  lemma InputMeaning(y: Amount, pc: Amount, coin: Amount, d: SwapDirection)
    ensures var rin, rout := if d.PC2Coin? then pc else coin, if d.PC2Coin? then coin else pc;
            var input := SwapTokenAmountBaseOut(y, pc, coin, d);
            && (input.Some? && input.value < U64 <==> y < rout && rin * y <= 18446744073709551615 * (rout - y))
            && (input.Some? ==> y < rout && RoundsTo(rin * y, rout - y, input.value))
  {
    hide SwapTokenAmountBaseOut, Ceil, RoundsTo;
    var rin, rout := ReserveIn(pc, coin, d), ReserveOut(pc, coin, d);
    BaseOutMeaning(y, pc, coin, d);
    if y < rout {
      RoundedCeil(rin * y, rout - y);
      InputFits(rin * y, rout - y, if 2 * (rin * y) < rout - y then 0 else Ceil(rin * y, rout - y));
    }
  }

  lemma FeeMeaning(x: Amount, num: Amount, den: Amount)
    requires ValidFee(num, den)
    ensures SwapFee(x, num, den).Some? && RoundsTo(x * num, den, SwapFee(x, num, den).value)
  {
    SwapFeeMeaning(x, num, den);
    RoundedCeil(x * num, den);
  }

  /** A pool that does not permit swaps, or owes more than a vault holds, quotes nothing. */
  lemma ClosedPoolQuotesNothing(amm: Amm, coinVault: Amount, pcVault: Amount, d: SwapDirection, amount: Amount)
    requires !amm.swapPermission || pcVault < amm.needTakePnlPc || coinVault < amm.needTakePnlCoin
    ensures SimulateSwapBaseIn(amm, coinVault, pcVault, d, amount).None?
    ensures SimulateSwapBaseOut(amm, coinVault, pcVault, d, amount).None?
  {
    hide SwapFee, SwapTokenAmountBaseIn, SwapTokenAmountBaseOut;
  }

  lemma InputFits(a: nat, b: nat, x: nat)
    requires b > 0 && x == if 2 * a < b then 0 else Ceil(a, b)
    ensures x < U64 <==> a <= 18446744073709551615 * b
  {
    hide Ceil;
    RoundedCeil(a, b);
    assert 2 * a >= b ==> (Ceil(a, b) <= 18446744073709551615 <==> a <= 18446744073709551615 * b);
  }

  lemma OutputMonotone(x: nat, z: nat, rin: nat, rout: nat)
    requires rin > 0 && rout > 0 && x <= z
    ensures rout * x / (rin + x) <= rout * z / (rin + z)
  {
    var y := rout * x / (rin + x);
    ProductKept(x, rin, rout);
    ReachesOutput(x, y, rin, rout);
    MulLeft(rout - y, x, z);
    ReachesOutput(z, y, rin, rout);
  }

  /** A larger input never quotes a smaller output, in spite of the rounded fee. */
  lemma ExactInQuoteMonotone(amm: Amm, coinVault: Amount, pcVault: Amount, d: SwapDirection, a: Amount, b: Amount)
    requires Open(amm, coinVault, pcVault) && a <= b
    ensures SimulateSwapBaseIn(amm, coinVault, pcVault, d, a).Some?
              && SimulateSwapBaseIn(amm, coinVault, pcVault, d, b).Some?
    ensures SimulateSwapBaseIn(amm, coinVault, pcVault, d, a).value.0
              <= SimulateSwapBaseIn(amm, coinVault, pcVault, d, b).value.0
  {
    hide SwapFee, SimulateSwapBaseIn;
    var pc, coin := pcVault - amm.needTakePnlPc, coinVault - amm.needTakePnlCoin;
    ExactInQuoteSafe(amm, coinVault, pcVault, d, a);
    ExactInQuoteSafe(amm, coinVault, pcVault, d, b);
    NetInputMonotone(a, b, amm.feeNum, amm.feeDen);
    OutputMonotone(a - SwapFee(a, amm.feeNum, amm.feeDen).value, b - SwapFee(b, amm.feeNum, amm.feeDen).value,
                   ReserveIn(pc, coin, d), ReserveOut(pc, coin, d));
  }

  /** The exact fee, rounded up, on a fee. */
  function FeeOnFee(fee: nat, num: nat, den: nat): nat
    requires den > 0
  {
    MulLeft(fee, 0, num);
    Ceil(fee * num, den)
  }

  /** A share `part` of `total`, taken of `rout` and rounded up. */
  function WorthUp(part: nat, total: nat, rout: nat): nat
    requires total > 0
  {
    MulLeft(rout, 0, part);
    Ceil(rout * part, total)
  }

  /** Swapping an exact-out total (input and fee) as exact-in: the fee is at least the one quoted,
      at most the fee on that fee more, and so the net input falls short by no more than that. */
  lemma ExactOutReplay(x: Amount, fee: Amount, again: Amount, num: Amount, den: Amount)
    requires ValidFee(num, den) && SwapFee(x, num, den) == Some(fee)
    requires x + fee < U64 && SwapFee(x + fee, num, den) == Some(again)
    ensures fee <= again <= fee + FeeOnFee(fee, num, den)
    ensures x - FeeOnFee(fee, num, den) <= x + fee - again <= x
  {
    hide SwapFee, Ceil;
    SwapFeeMeaning(x, num, den);
    NetInputMonotone(x, x + fee, num, den);
    SwapFeeMeaning(x + fee, num, den);
    assert (x + fee) * num == x * num + fee * num;
    CeilSubadditive(x * num, fee * num, den);
  }

  /** The same for whole quotes: the exact-in quote for an exact-out total succeeds and overcharges
      by at most the fee on the fee. It buys the requested output if and only if it charges no more
      than quoted and the exact-out input was not rounded down to 0; in the latter case the output
      falls short by at most what the fee on the fee would buy. */
  lemma ExactOutQuoteReplay(amm: Amm, coinVault: Amount, pcVault: Amount, d: SwapDirection, y: Amount, x: Amount,
                            fee: Amount)
    requires Open(amm, coinVault, pcVault) && x + fee < U64
    requires SimulateSwapBaseOut(amm, coinVault, pcVault, d, y) == Some((x, fee))
    ensures SimulateSwapBaseIn(amm, coinVault, pcVault, d, x + fee).Some?
    ensures var pc, coin := pcVault - amm.needTakePnlPc, coinVault - amm.needTakePnlCoin;
            var rin, rout := ReserveIn(pc, coin, d), ReserveOut(pc, coin, d);
            var (out, again) := SimulateSwapBaseIn(amm, coinVault, pcVault, d, x + fee).value;
            var more := FeeOnFee(fee, amm.feeNum, amm.feeDen);
            && fee <= again <= fee + more
            && (out >= y <==> y == 0 || (again == fee && 2 * (rin * y) >= rout - y))
            && (2 * (rin * y) >= rout - y ==> y <= out + WorthUp(more, rin + x, rout))
  {
    hide SwapFee, SimulateSwapBaseIn, SwapTokenAmountBaseIn, SwapTokenAmountBaseOut, FeeOnFee, Ceil, WorthUp;
    var pc: Amount, coin: Amount := pcVault - amm.needTakePnlPc, coinVault - amm.needTakePnlCoin;
    var rin, rout := ReserveIn(pc, coin, d), ReserveOut(pc, coin, d);
    ExactInQuoteSafe(amm, coinVault, pcVault, d, x + fee);
    var again := SimulateSwapBaseIn(amm, coinVault, pcVault, d, x + fee).value.1;
    ExactOutReplay(x, fee, again, amm.feeNum, amm.feeDen);
    BaseOutMeaning(y, pc, coin, d);
    ReplayBuys(y, rin, rout, x, x + fee - again, FeeOnFee(fee, amm.feeNum, amm.feeDen));
  }

  /** Swapping `net` of the `x` units quoted for `y`. */
  lemma ReplayBuys(y: nat, rin: nat, rout: nat, x: nat, net: nat, more: nat)
    requires y < rout && rin > 0 && x == if 2 * (rin * y) < rout - y then 0 else Ceil(rin * y, rout - y)
    requires net <= x <= net + more
    ensures rout * net / (rin + net) >= y <==> y == 0 || (net == x && 2 * (rin * y) >= rout - y)
    ensures 2 * (rin * y) >= rout - y ==> y <= rout * net / (rin + net) + WorthUp(more, rin + x, rout)
  {
    hide Ceil, WorthUp;
    BuysOutput(y, rin, rout, x);
    DivNonnegative(rout * net, rin + net);
    if 2 * (rin * y) >= rout - y {
      if y > 0 {
        PositiveCeil(rin, y, rout - y);
        LeastInput(y, rin, rout, x, net);
      }
      Shortfall(y, rin, rout, x, net, more);
    }
  }

  lemma PositiveCeil(a: nat, b: nat, d: nat)
    requires a > 0 && b > 0 && d > 0
    ensures Ceil(a * b, d) > 0
  {
    hide Ceil;
    MulMono(1, 1, a, b);
    CeilBounds(a * b, d);
  }

  lemma Shortfall(y: nat, rin: nat, rout: nat, x: nat, net: nat, more: nat)
    requires rin > 0 && net <= x <= net + more && rout * x / (rin + x) >= y
    ensures y <= rout * net / (rin + net) + WorthUp(more, rin + x, rout)
  {
    hide Ceil;
    MulLeft(rout, 0, more);
    DivNonnegative(rout * net, rin + net);
    DivBounds(rout * net, rin + net);
    DivBounds(rout * x, rin + x);
    CeilBounds(rout * more, rin + x);
    MulLeft(rin + x, y, rout * x / (rin + x));
    ShortfallBound(y, rin, rout, x - net, net, more, rout * net / (rin + net), WorthUp(more, rin + x, rout));
  }

  lemma ShortfallBound(y: nat, rin: nat, rout: nat, g: nat, net: nat, more: nat, q: nat, c: nat)
    requires g <= more && rout * net < (rin + net) * (q + 1) && rout * more <= (rin + (net + g)) * c
    requires (rin + (net + g)) * y <= rout * (net + g)
    ensures y <= q + c
  {
    MulLeft(rout, g, more);
    ExpandShare(rin, net, g, q, c);
    assert rout * (net + g) == rout * net + rout * g;
    if q + c + 1 <= y {
      MulLeft(rin + (net + g), q + c + 1, y);
      assert false;
    }
  }

  lemma ExpandShare(rin: nat, net: nat, g: nat, q: nat, c: nat)
    ensures (rin + (net + g)) * (q + c + 1) >= (rin + net) * (q + 1) + (rin + (net + g)) * c
  {
    MulMono(0, 0, g, q + 1);
    assert (rin + (net + g)) * (q + 1) == (rin + net) * (q + 1) + g * (q + 1);
    assert (rin + (net + g)) * (q + c + 1) == (rin + (net + g)) * (q + 1) + (rin + (net + g)) * c;
  }
}
