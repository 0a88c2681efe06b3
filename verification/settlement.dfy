/** Settlement of a closed position: profit or loss from the price move,
    computed with 64-bit unsigned arithmetic only, and the amount paid back
    to the owner. */
module Settlement {
  import opened Outcomes
  import opened Scalars

  /** The size of the price move, as the larger price minus the smaller one,
      so the unsigned subtraction never goes below zero. */
  function PriceDiff(entryPrice: U64, closePrice: U64): (d: U64)
    ensures d as int == Abs(closePrice as int - entryPrice as int)
  {
    var maxPrice := if closePrice > entryPrice then closePrice else entryPrice;
    var minPrice := if closePrice > entryPrice then entryPrice else closePrice;
    maxPrice - minPrice
  }

  /** A long profits when the price rose, a short when it fell; an unchanged
      price is a profit for neither. */
  function IsProfit(entryPrice: U64, closePrice: U64, isLong: bool): (r: bool)
    ensures r ==> closePrice != entryPrice
    ensures r ==> (closePrice > entryPrice <==> isLong)
  {
    if isLong then closePrice > entryPrice else entryPrice > closePrice
  }

  /** On any price move exactly one side profits; on no move neither does. */
  lemma ExactlyOneSideProfits(entryPrice: U64, closePrice: U64)
    ensures closePrice != entryPrice ==> IsProfit(entryPrice, closePrice, true) != IsProfit(entryPrice, closePrice, false)
    ensures closePrice == entryPrice ==> !IsProfit(entryPrice, closePrice, true) && !IsProfit(entryPrice, closePrice, false)
  {
  }

  /** The payout: collateral plus the profit, or collateral minus the loss,
      floored at zero. The magnitude is the price move times the size,
      divided by the entry price and rounded down. */
  function Payout(entryPrice: U64, closePrice: U64, size: U64, collateral: U64, isLong: bool): (r: Result<U64>)
    ensures entryPrice == 0 ==> r.Err?
    ensures r.Err? ==> r.error == Overflow || r.error == DivisionByZero
    ensures r.Ok? && IsProfit(entryPrice, closePrice, isLong) ==> r.value >= collateral
    ensures r.Ok? && !IsProfit(entryPrice, closePrice, isLong) ==> r.value <= collateral
    ensures closePrice == entryPrice && entryPrice > 0 ==> r == Ok(collateral)
  {
    var product :- Mul(PriceDiff(entryPrice, closePrice), size);
    var pnl :- Div(product, entryPrice);
    if IsProfit(entryPrice, closePrice, isLong) then
      Add(collateral, pnl)
    else
      Ok(if pnl > collateral then 0 else collateral - pnl)
  }

  // ---------------------------------------------------------------------------
  // An independent reference: the same settlement in signed arithmetic.

  function Abs(x: int): nat {
    if x < 0 then -x else x
  }

  function Max0(x: int): nat {
    if x < 0 then 0 else x
  }

  /** Division rounding toward zero. */
  function Trunc(x: int, d: nat): int
    requires d > 0
  {
    if x >= 0 then x / d else -((-x) / d)
  }

  /** Signed profit and loss: the price move in the position's favour times
      the size, over the entry price. */
  function SignedPnl(entryPrice: U64, closePrice: U64, size: U64, isLong: bool): int
    requires entryPrice > 0
  {
    var move := if isLong then closePrice as int - entryPrice as int else entryPrice as int - closePrice as int;
    Trunc(move * size, entryPrice)
  }

  /** The unsigned computation agrees with the signed one, whenever every
      intermediate value fits in 64 bits; and those are the only failures. */
  lemma PayoutMatchesSignedPnl(entryPrice: U64, closePrice: U64, size: U64, collateral: U64, isLong: bool)
    ensures Payout(entryPrice, closePrice, size, collateral, isLong).Ok? <==>
      && entryPrice > 0
      && Abs((closePrice as int - entryPrice as int) * size) < U64Bound
      && collateral + SignedPnl(entryPrice, closePrice, size, isLong) < U64Bound
    ensures Payout(entryPrice, closePrice, size, collateral, isLong).Ok? ==>
      Payout(entryPrice, closePrice, size, collateral, isLong).value
        == Max0(collateral + SignedPnl(entryPrice, closePrice, size, isLong))
  {
    AbsMul(closePrice as int - entryPrice as int, size);
    if entryPrice > 0 {
      SignedPnlMagnitude(entryPrice, closePrice, size, isLong);
    }
  }

  /** The signed profit is the unsigned magnitude, negated on a loss. */
  lemma SignedPnlMagnitude(entryPrice: U64, closePrice: U64, size: U64, isLong: bool)
    requires entryPrice > 0
    ensures SignedPnl(entryPrice, closePrice, size, isLong) ==
      var pnl := PriceDiff(entryPrice, closePrice) * size / entryPrice;
      if IsProfit(entryPrice, closePrice, isLong) then pnl else -pnl
  {
    var diff: int := PriceDiff(entryPrice, closePrice);
    var move: int := if isLong then closePrice as int - entryPrice as int else entryPrice as int - closePrice as int;
    if IsProfit(entryPrice, closePrice, isLong) {
      assert move == diff;
    } else {
      assert move == -diff;
      var m: int := diff * size;
      assert m >= 0;
      NegMul(diff, size);
      TruncNeg(m, entryPrice);
    }
  }

  lemma NegMul(x: int, n: nat)
    ensures (-x) * n == -(x * n)
  {
  }

  /** Rounding toward zero commutes with negation. */
  lemma TruncNeg(m: int, d: nat)
    requires m >= 0 && d > 0
    ensures Trunc(-m, d) == -(m / d)
  {
  }

  lemma AbsMul(x: int, n: nat)
    ensures Abs(x * n) == Abs(x) * n
  {
    if x < 0 {
      assert x * n == -((-x) * n);
    }
  }

  // ---------------------------------------------------------------------------
  // Monotonicity in the closing price.

  lemma MulMonotone(a: int, b: int, n: nat)
    requires a <= b
    ensures a * n <= b * n
  {
    assert b * n - a * n == (b - a) * n;
  }

  lemma DivMonotone(a: nat, b: nat, d: nat)
    requires a <= b && d > 0
    ensures a / d <= b / d
  {
    var qa, qb := a / d, b / d;
    assert d * qa <= a;
    assert b < d * qb + d;
    if qa > qb {
      MulMonotone(qb + 1, qa, d);
      assert false;
    }
  }

  lemma TruncMonotone(x: int, y: int, d: nat)
    requires x <= y && d > 0
    ensures Trunc(x, d) <= Trunc(y, d)
  {
    if x >= 0 {
      DivMonotone(x, y, d);
    } else if y < 0 {
      DivMonotone(-y, -x, d);
    } else {
      DivMonotone(0, -x, d);
      DivMonotone(0, y, d);
    }
  }

  /** For a long, the payout never falls as the closing price rises. */
  lemma {:induction false} PayoutMonotoneLong(entryPrice: U64, close1: U64, close2: U64, size: U64, collateral: U64)
    requires close1 <= close2
    requires Payout(entryPrice, close1, size, collateral, true).Ok?
    requires Payout(entryPrice, close2, size, collateral, true).Ok?
    ensures Payout(entryPrice, close1, size, collateral, true).value
         <= Payout(entryPrice, close2, size, collateral, true).value
  {
    PayoutMatchesSignedPnl(entryPrice, close1, size, collateral, true);
    PayoutMatchesSignedPnl(entryPrice, close2, size, collateral, true);
    MulMonotone(close1 as int - entryPrice as int, close2 as int - entryPrice as int, size);
    TruncMonotone((close1 as int - entryPrice as int) * size, (close2 as int - entryPrice as int) * size, entryPrice);
  }

  /** For a short, the payout never rises as the closing price rises. */
  lemma {:induction false} PayoutMonotoneShort(entryPrice: U64, close1: U64, close2: U64, size: U64, collateral: U64)
    requires close1 <= close2
    requires Payout(entryPrice, close1, size, collateral, false).Ok?
    requires Payout(entryPrice, close2, size, collateral, false).Ok?
    ensures Payout(entryPrice, close1, size, collateral, false).value
         >= Payout(entryPrice, close2, size, collateral, false).value
  {
    PayoutMatchesSignedPnl(entryPrice, close1, size, collateral, false);
    PayoutMatchesSignedPnl(entryPrice, close2, size, collateral, false);
    MulMonotone(entryPrice as int - close2 as int, entryPrice as int - close1 as int, size);
    TruncMonotone((entryPrice as int - close2 as int) * size, (entryPrice as int - close1 as int) * size, entryPrice);
  }

  /** A loss larger than the collateral pays exactly zero. */
  lemma LossFloor(entryPrice: U64, closePrice: U64, size: U64, collateral: U64, isLong: bool)
    requires entryPrice > 0
    requires !IsProfit(entryPrice, closePrice, isLong)
    requires PriceDiff(entryPrice, closePrice) * size < U64Bound
    requires PriceDiff(entryPrice, closePrice) * size / entryPrice > collateral
    ensures Payout(entryPrice, closePrice, size, collateral, isLong) == Ok(0)
  {
  }
}

/** The payout exactly as the contract evaluates it. The selection evaluates
    both of its arms before choosing one, so the checked addition and the
    checked subtraction both run, and either failing rejects the close even
    when the other arm is the one selected. */
module SettlementAsWritten {
  import opened Outcomes
  import opened Scalars
  import opened Settlement

  function PayoutAsWritten(entryPrice: U64, closePrice: U64, size: U64, collateral: U64, isLong: bool): (r: Result<U64>)
    ensures r.Ok? ==> r == Payout(entryPrice, closePrice, size, collateral, isLong)
  {
    var product :- Mul(PriceDiff(entryPrice, closePrice), size);
    var pnl :- Div(product, entryPrice);
    var gain :- Add(collateral, pnl);
    var rest :- Sub(collateral, pnl);
    Ok(if IsProfit(entryPrice, closePrice, isLong) then gain else if pnl > collateral then 0 else rest)
  }

  /** The evaluated form agrees with the intended one exactly when the profit
      or loss is at most the collateral and the collateral plus it still fits
      in 64 bits; otherwise it fails where the intended payout exists. */
  lemma AsWrittenAgreesOnlyWithinCollateral(entryPrice: U64, closePrice: U64, size: U64, collateral: U64, isLong: bool)
    requires Payout(entryPrice, closePrice, size, collateral, isLong).Ok?
    ensures entryPrice > 0
    ensures PayoutAsWritten(entryPrice, closePrice, size, collateral, isLong).Ok? <==>
      var magnitude := Abs(SignedPnl(entryPrice, closePrice, size, isLong));
      magnitude <= collateral && collateral + magnitude < U64Bound
  {
    SignedPnlMagnitude(entryPrice, closePrice, size, isLong);
  }

  /** A concrete input: a long of size 1000 with collateral 100 entered at 50
      and closed at 40 loses 200, so it should pay out 0; the evaluated form
      rejects it because the unselected subtraction 100 - 200 underflows.
      Closed at 60 it gains 200 and should pay 300, and is rejected the same way. */
  lemma AsWrittenRejectsLargeMoves()
    ensures Payout(50, 40, 1000, 100, true) == Ok(0)
    ensures PayoutAsWritten(50, 40, 1000, 100, true) == Err(Underflow)
    ensures Payout(50, 60, 1000, 100, true) == Ok(300)
    ensures PayoutAsWritten(50, 60, 1000, 100, true) == Err(Underflow)
  {
  }
}
