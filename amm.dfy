/** The integer market-maker helpers of instructions/amm.rs: truncated
    Taylor series for exp and ln in fixed point with scale FP_SCALE, the
    LMSR cost function built from them, and the buy and price queries. Every
    step is checked `u128` arithmetic, so every function returns a Result
    whose error is MathError when a product or sum leaves the range. */
module Amm {
  import opened Common

  const FP_SCALE: nat := PRICE_PRECISION_SCALE

  /** exp_approx clamps its argument here. */
  const XMAX_FP: nat := 20 * FP_SCALE

  /** The value ln_approx returns for every argument above FP_SCALE (when
      no product overflows): twice FP_SCALE + FP_SCALE/3 + FP_SCALE/5. */
  const LN_CONSTANT: nat := 2 * (FP_SCALE + FP_SCALE / 3 + FP_SCALE / 5)

  /** `OutcomeSide::Yes as u8`. */
  const YES: u8 := 0

  function CheckedAdd(a: u128, b: u128): (r: Result<u128>)
    ensures r.Ok? <==> a + b < U128_LIMIT
    ensures r.Ok? ==> r.value == a + b
    ensures r.Err? ==> r.error == MathError
  {
    if a + b < U128_LIMIT then Ok(a + b) else Err(MathError)
  }

  function CheckedSub(a: u128, b: u128): (r: Result<u128>)
    ensures r.Ok? <==> b <= a
    ensures r.Ok? ==> r.value == a - b
    ensures r.Err? ==> r.error == MathError
  {
    if b <= a then Ok(a - b) else Err(MathError)
  }

  /** `a.checked_mul(b)?.checked_div(d)?`: the product must fit, and the
      divisor must not be zero. */
  function MulDiv(a: u128, b: u128, d: u128): (r: Result<u128>)
    ensures r.Ok? <==> a * b < U128_LIMIT && d != 0
    ensures r.Ok? ==> r.value == a * b / d
    ensures r.Err? ==> r.error == MathError
  {
    if a * b >= U128_LIMIT || d == 0 then Err(MathError) else Ok(a * b / d)
  }

  function CheckedMul(a: u128, b: u128): (r: Result<u128>)
    ensures r.Ok? <==> a * b < U128_LIMIT
    ensures r.Ok? ==> r.value == a * b
    ensures r.Err? ==> r.error == MathError
  {
    if a * b < U128_LIMIT then Ok(a * b) else Err(MathError)
  }

  /** exp_approx: 1 + x + x²/2 + x³/6 + x⁴/24 + x⁵/120 in fixed point, each
      power truncated after scaling, with x clamped at 20. */
  function ExpApprox(xFp: u128): (r: Result<u128>)
    ensures r.Err? ==> r.error == MathError
  {
    var x := if xFp > XMAX_FP then XMAX_FP else xFp;
    var x2 :- MulDiv(x, x, FP_SCALE);
    var x3 :- MulDiv(x2, x, FP_SCALE);
    var x4 :- MulDiv(x3, x, FP_SCALE);
    var x5 :- MulDiv(x4, x, FP_SCALE);
    // one plus the clamped argument cannot overflow
    var s1 := CheckedAdd(FP_SCALE, x).value;
    var s2 :- CheckedAdd(s1, x2 / 2);
    var s3 :- CheckedAdd(s2, x3 / 6);
    var s4 :- CheckedAdd(s3, x4 / 24);
    var s5 :- CheckedAdd(s4, x5 / 120);
    Ok(s5)
  }

  /** The scaled power x^(k+1) of exp_approx from x^k: times x, then
      truncated to the scale. */
  function NextPower(p: nat, x: nat): nat
  {
    p * x / FP_SCALE
  }

  /** The series of exp_approx on unbounded integers: the reference the
      checked computation is compared with. */
  function ExpSeries(x: nat): nat
  {
    var x2 := NextPower(x, x);
    var x3 := NextPower(x2, x);
    var x4 := NextPower(x3, x);
    var x5 := NextPower(x4, x);
    FP_SCALE + x + x2 / 2 + x3 / 6 + x4 / 24 + x5 / 120
  }

  lemma MulLe(a: nat, b: nat, c: nat, d: nat)
    requires a <= c && b <= d
    ensures a * b <= c * d
  {
    assert a * b <= c * b;
    assert c * b <= c * d;
  }

  lemma DivLe(a: nat, b: nat, d: nat)
    requires a <= b && d > 0
    ensures a / d <= b / d
  {
    if a / d > b / d {
      MulLe(b / d + 1, d, a / d, d);
    }
  }

  /** Scaling a power up by a larger base gives a larger power. */
  lemma NextPowerLe(p: nat, x: nat, q: nat, y: nat)
    requires p <= q && x <= y
    ensures NextPower(p, x) <= NextPower(q, y)
  {
    MulLe(p, x, q, y);
    DivLe(p * x, q * y, FP_SCALE);
  }

  /** Within the clamp every power of exp_approx and every product it
      forms is far below 2^128. */
  lemma PowersBounded(x: nat)
    requires x <= XMAX_FP
    ensures x * x <= XMAX_FP * XMAX_FP
    ensures NextPower(x, x) <= 400 * FP_SCALE && NextPower(x, x) * x <= 8000 * FP_SCALE * FP_SCALE
    ensures NextPower(NextPower(x, x), x) <= 8000 * FP_SCALE
    ensures NextPower(NextPower(x, x), x) * x <= 160000 * FP_SCALE * FP_SCALE
    ensures NextPower(NextPower(NextPower(x, x), x), x) <= 160000 * FP_SCALE
    ensures NextPower(NextPower(NextPower(x, x), x), x) * x <= 3200000 * FP_SCALE * FP_SCALE
    ensures ExpSeries(x) <= ExpSeries(XMAX_FP) < 40_000_000_000
  {
    MulLe(x, x, XMAX_FP, XMAX_FP);
    var x2 := NextPower(x, x);
    NextPowerLe(x, x, XMAX_FP, XMAX_FP);
    MulLe(x2, x, 400 * FP_SCALE, XMAX_FP);
    var x3 := NextPower(x2, x);
    NextPowerLe(x2, x, 400 * FP_SCALE, XMAX_FP);
    MulLe(x3, x, 8000 * FP_SCALE, XMAX_FP);
    var x4 := NextPower(x3, x);
    NextPowerLe(x3, x, 8000 * FP_SCALE, XMAX_FP);
    MulLe(x4, x, 160000 * FP_SCALE, XMAX_FP);
    ExpSeriesMonotone(x, XMAX_FP);
  }

  /** The reference series grows with its argument. */
  lemma ExpSeriesMonotone(x: nat, y: nat)
    requires x <= y
    ensures ExpSeries(x) <= ExpSeries(y)
  {
    var x2, y2 := NextPower(x, x), NextPower(y, y);
    NextPowerLe(x, x, y, y);
    var x3, y3 := NextPower(x2, x), NextPower(y2, y);
    NextPowerLe(x2, x, y2, y);
    var x4, y4 := NextPower(x3, x), NextPower(y3, y);
    NextPowerLe(x3, x, y3, y);
    var x5, y5 := NextPower(x4, x), NextPower(y4, y);
    NextPowerLe(x4, x, y4, y);
    DivLe(x2, y2, 2);
    DivLe(x3, y3, 6);
    DivLe(x4, y4, 24);
    DivLe(x5, y5, 120);
  }

  /** exp_approx never fails: it is the reference series at the clamped
      argument. */
  lemma ExpApproxValue(xFp: u128)
    ensures ExpApprox(xFp) == Ok(ExpSeries(if xFp > XMAX_FP then XMAX_FP else xFp))
  {
    var x := if xFp > XMAX_FP then XMAX_FP else xFp;
    PowersBounded(x);
  }

  /** Arguments above the clamp give the value at the clamp. */
  lemma ExpApproxClamp(xFp: u128)
    requires xFp > XMAX_FP
    ensures ExpApprox(xFp) == ExpApprox(XMAX_FP)
  {
    ExpApproxValue(xFp);
    ExpApproxValue(XMAX_FP);
  }

  /** exp_approx(0) is one unit. */
  lemma ExpApproxAtZero()
    ensures ExpApprox(0) == Ok(FP_SCALE)
  {
    ExpApproxValue(0);
  }

  /** Every result of exp_approx is at least one plus the clamped argument
      and at most the value at the clamp. */
  lemma ExpApproxBounds(xFp: u128)
    ensures ExpApprox(xFp).Ok? && ExpApprox(xFp).value >= FP_SCALE + (if xFp > XMAX_FP then XMAX_FP else xFp)
    ensures ExpApprox(xFp).value <= ExpSeries(XMAX_FP) < 40_000_000_000
  {
    ExpApproxValue(xFp);
    PowersBounded(if xFp > XMAX_FP then XMAX_FP else xFp);
  }

  /** exp_approx is non-decreasing. */
  lemma ExpApproxMonotone(x: u128, y: u128)
    requires x <= y
    ensures ExpApprox(x).Ok? && ExpApprox(y).Ok? && ExpApprox(x).value <= ExpApprox(y).value
  {
    ExpApproxValue(x);
    ExpApproxValue(y);
    ExpSeriesMonotone(if x > XMAX_FP then XMAX_FP else x, if y > XMAX_FP then XMAX_FP else y);
  }

  /** ln_approx: 2(z + z³/3 + z⁵/5) with z = (y - 1)/(y - 1) in fixed point.
      It fails for y below one, and for y equal to one through the zero
      divisor. */
  function LnApprox(yFp: u128): (r: Result<u128>)
    ensures yFp <= FP_SCALE ==> r == Err(MathError)
    ensures r.Err? ==> r.error == MathError
  {
    if yFp < FP_SCALE then Err(MathError)
    else
      var numerator := yFp - FP_SCALE;
      var denominator := yFp - FP_SCALE;
      var z1 :- MulDiv(numerator, FP_SCALE, denominator);
      var z2 :- MulDiv(z1, z1, FP_SCALE);
      var z3 :- MulDiv(z2, z1, FP_SCALE);
      var z5 :- MulDiv(z3, z2, FP_SCALE);
      var s1 :- CheckedAdd(z1, z3 / 3);
      var s2 :- CheckedAdd(s1, z5 / 5);
      var lnFp :- CheckedMul(s2, 2);
      Ok(lnFp)
  }

  /** A multiple of `a` divided by `a`. */
  lemma DivExact(q: nat, a: nat)
    requires a > 0
    ensures q * a / a == q
  {
    var n := q * a;
    var q', r := n / a, n % a;
    assert n == q' * a + r && 0 <= r < a;
    assert (q - q') * a == r;
    if q' < q {
      MulLe(1, a, q - q', a);
    }
  }

  /** Since the numerator and the divisor of ln_approx are the same, z is
      always one, and the result is the same constant for every argument
      above one whose scaled difference fits in 128 bits. */
  lemma LnApproxConstant(yFp: u128)
    ensures yFp <= FP_SCALE ==> LnApprox(yFp) == Err(MathError)
    ensures yFp > FP_SCALE && (yFp - FP_SCALE) * FP_SCALE >= U128_LIMIT ==> LnApprox(yFp) == Err(MathError)
    ensures yFp > FP_SCALE && (yFp - FP_SCALE) * FP_SCALE < U128_LIMIT ==> LnApprox(yFp) == Ok(LN_CONSTANT)
  {
    if yFp > FP_SCALE {
      var d := yFp - FP_SCALE;
      assert d * FP_SCALE == FP_SCALE * d;
      DivExact(FP_SCALE, d);
    }
  }

  /** lsmr_cost: b · ln(exp(q_yes/b) + exp(q_no/b)) in fixed point. */
  function LsmrCost(qYes: u128, qNo: u128, b: u128): (r: Result<u128>)
    ensures r == Err(InvalidArgument) <==> b == 0
    ensures r.Err? ==> r.error in {InvalidArgument, MathError}
  {
    if b == 0 then Err(InvalidArgument)
    else
      var xYes :- MulDiv(qYes, FP_SCALE, b);
      var xNo :- MulDiv(qNo, FP_SCALE, b);
      LsmrOfScaled(xYes, xNo, b)
  }

  /** The rest of lsmr_cost once both quantities are divided by b: the two
      exponentials, their sum, its logarithm, and the product with b. */
  function LsmrOfScaled(xYes: u128, xNo: u128, b: u128): Result<u128>
  {
    var expYes :- ExpApprox(xYes);
    var expNo :- ExpApprox(xNo);
    var sum :- CheckedAdd(expYes, expNo);
    var lnSum :- LnApprox(sum);
    MulDiv(b, lnSum, FP_SCALE)
  }

  /** What lsmr_cost comes to: b · LN_CONSTANT / FP_SCALE whatever the
      quantities, unless b is zero or a product overflows. */
  function LsmrClosedForm(qYes: u128, qNo: u128, b: u128): Result<u128>
  {
    if b == 0 then Err(InvalidArgument)
    else if qYes * FP_SCALE >= U128_LIMIT || qNo * FP_SCALE >= U128_LIMIT || b * LN_CONSTANT >= U128_LIMIT then Err(MathError)
    else Ok(b * LN_CONSTANT / FP_SCALE)
  }

  /** The sum of the two exponentials is at least two units and far below
      2^128, so its logarithm is LN_CONSTANT. */
  lemma LsmrOfScaledValue(xYes: u128, xNo: u128, b: u128)
    ensures LsmrOfScaled(xYes, xNo, b) == if b * LN_CONSTANT >= U128_LIMIT then Err(MathError) else Ok(b * LN_CONSTANT / FP_SCALE)
  {
    ExpApproxBounds(xYes);
    ExpApproxBounds(xNo);
    LnApproxConstant(ExpApprox(xYes).value + ExpApprox(xNo).value);
  }

  /** lsmr_cost does not depend on the quantities beyond their overflow. */
  lemma LsmrCostValue(qYes: u128, qNo: u128, b: u128)
    ensures LsmrCost(qYes, qNo, b) == LsmrClosedForm(qYes, qNo, b)
  {
    if b != 0 && qYes * FP_SCALE < U128_LIMIT && qNo * FP_SCALE < U128_LIMIT {
      LsmrOfScaledValue(qYes * FP_SCALE / b, qNo * FP_SCALE / b, b);
    }
  }

  /** The cost after a buy minus the cost before, each computed in turn
      and its error passed on. */
  function CostDifference(after: Result<u128>, before: Result<u128>): Result<u128>
  {
    var c1 :- after;
    var c0 :- before;
    CheckedSub(c1, c0)
  }

  /** Two costs that agree whenever both succeed differ by nothing; an
      error of either is passed on, the later cost's only when the earlier
      one succeeded. */
  lemma CostDifferenceOfEqual(after: Result<u128>, before: Result<u128>)
    requires after.Ok? && before.Ok? ==> after.value == before.value
    ensures CostDifference(after, before) ==
      if after.Err? then Err(after.error) else if before.Err? then Err(before.error) else Ok(0)
  {
  }

  /** Raising one quantity leaves the closed form unchanged unless the
      raised quantity overflows when scaled. */
  lemma ClosedFormDifference(q: u128, q': u128, other: u128, b: u128, after: Result<u128>, before: Result<u128>)
    requires q <= q'
    requires (after, before) == (LsmrClosedForm(q', other, b), LsmrClosedForm(q, other, b)) ||
             (after, before) == (LsmrClosedForm(other, q', b), LsmrClosedForm(other, q, b))
    ensures CostDifference(after, before) ==
      if b == 0 then Err(InvalidArgument)
      else if q' * FP_SCALE >= U128_LIMIT || other * FP_SCALE >= U128_LIMIT || b * LN_CONSTANT >= U128_LIMIT then Err(MathError)
      else Ok(0)
  {
    CostDifferenceOfEqual(after, before);
  }

  /** amm_cost_to_yes: the cost after buying `deltaQ` Yes minus the cost
      before. */
  function AmmCostToYes(qYes: u128, qNo: u128, b: u128, deltaQ: u128): (r: Result<u128>)
    ensures r == Err(InvalidArgument) ==> b == 0
    ensures r.Err? ==> r.error in {InvalidArgument, MathError}
  {
    if qYes + deltaQ >= U128_LIMIT then Err(MathError)
    else CostDifference(LsmrCost(qYes + deltaQ, qNo, b), LsmrCost(qYes, qNo, b))
  }

  /** amm_cost_to_no: the same for No. */
  function AmmCostToNo(qYes: u128, qNo: u128, b: u128, deltaQ: u128): (r: Result<u128>)
    ensures r == Err(InvalidArgument) ==> b == 0
    ensures r.Err? ==> r.error in {InvalidArgument, MathError}
  {
    if qNo + deltaQ >= U128_LIMIT then Err(MathError)
    else CostDifference(LsmrCost(qYes, qNo + deltaQ, b), LsmrCost(qYes, qNo, b))
  }

  /** Since lsmr_cost does not depend on the quantities, buying Yes costs
      nothing, and the subtraction never fails; the only errors are a zero
      liquidity parameter and overflow. */
  lemma AmmCostToYesValue(qYes: u128, qNo: u128, b: u128, deltaQ: u128)
    ensures AmmCostToYes(qYes, qNo, b, deltaQ) ==
      if qYes + deltaQ >= U128_LIMIT then Err(MathError)
      else if b == 0 then Err(InvalidArgument)
      else if (qYes + deltaQ) * FP_SCALE >= U128_LIMIT || qNo * FP_SCALE >= U128_LIMIT || b * LN_CONSTANT >= U128_LIMIT then Err(MathError)
      else Ok(0)
  {
    if qYes + deltaQ < U128_LIMIT {
      LsmrCostValue(qYes + deltaQ, qNo, b);
      LsmrCostValue(qYes, qNo, b);
      ClosedFormDifference(qYes, qYes + deltaQ, qNo, b, LsmrCost(qYes + deltaQ, qNo, b), LsmrCost(qYes, qNo, b));
    }
  }

  /** The same for buying No. */
  lemma AmmCostToNoValue(qYes: u128, qNo: u128, b: u128, deltaQ: u128)
    ensures AmmCostToNo(qYes, qNo, b, deltaQ) ==
      if qNo + deltaQ >= U128_LIMIT then Err(MathError)
      else if b == 0 then Err(InvalidArgument)
      else if (qNo + deltaQ) * FP_SCALE >= U128_LIMIT || qYes * FP_SCALE >= U128_LIMIT || b * LN_CONSTANT >= U128_LIMIT then Err(MathError)
      else Ok(0)
  {
    if qNo + deltaQ < U128_LIMIT {
      LsmrCostValue(qYes, qNo + deltaQ, b);
      LsmrCostValue(qYes, qNo, b);
      ClosedFormDifference(qNo, qNo + deltaQ, qYes, b, LsmrCost(qYes, qNo + deltaQ, b), LsmrCost(qYes, qNo, b));
    }
  }

  /** What amm_execute_buy leaves behind: the cost it returns and the two
      reserves it writes through its `&mut` parameters. */
  datatype Buy = Buy(cost: u128, qYes: u128, qNo: u128)

  /** amm_execute_buy: a zero quantity costs nothing and changes nothing;
      otherwise the cost is computed and the bought side's reserve grows by
      the quantity (Yes for outcome 0, No for any other outcome). An error
      leaves both reserves as they were. */
  function AmmExecuteBuy(qYes: u128, qNo: u128, b: u128, outcome: u8, quantity: u128): (r: Result<Buy>)
    ensures r.Err? ==> quantity != 0 && r.error in {InvalidArgument, MathError}
    // exactly the bought side's reserve grows, by exactly the quantity
    ensures r.Ok? && outcome == YES ==> r.value.qYes == qYes + quantity && r.value.qNo == qNo
    ensures r.Ok? && outcome != YES ==> r.value.qNo == qNo + quantity && r.value.qYes == qYes
  {
    if quantity == 0 then Ok(Buy(0, qYes, qNo))
    else if outcome == YES then
      var cost :- AmmCostToYes(qYes, qNo, b, quantity);
      var q := CheckedAdd(qYes, quantity);
      if q.Err? then Err(MathError) else Ok(Buy(cost, q.value, qNo))
    else
      var cost :- AmmCostToNo(qYes, qNo, b, quantity);
      var q := CheckedAdd(qNo, quantity);
      if q.Err? then Err(MathError) else Ok(Buy(cost, qYes, q.value))
  }

  /** A buy moves exactly one reserve, by exactly the quantity, and costs
      nothing; with a zero liquidity parameter it fails with InvalidArgument
      unless the bought reserve is already too large to grow. */
  lemma AmmExecuteBuyEffect(qYes: u128, qNo: u128, b: u128, outcome: u8, quantity: u128)
    ensures quantity == 0 ==> AmmExecuteBuy(qYes, qNo, b, outcome, quantity) == Ok(Buy(0, qYes, qNo))
    ensures var r := AmmExecuteBuy(qYes, qNo, b, outcome, quantity);
      r.Ok? ==> (r.value.cost == 0 &&
        if outcome == YES then r.value.qYes == qYes + quantity && r.value.qNo == qNo
        else r.value.qNo == qNo + quantity && r.value.qYes == qYes)
    ensures var r := AmmExecuteBuy(qYes, qNo, b, outcome, quantity);
      quantity != 0 && b == 0 ==>
        r == Err(if (outcome == YES && qYes + quantity >= U128_LIMIT) || (outcome != YES && qNo + quantity >= U128_LIMIT) then MathError else InvalidArgument)
  {
    if outcome == YES {
      AmmCostToYesValue(qYes, qNo, b, quantity);
    } else {
      AmmCostToNoValue(qYes, qNo, b, quantity);
    }
  }

  /** amm_price_per_token: the share exp(q_yes/b) / (exp(q_yes/b) + exp(q_no/b))
      of one unit for Yes, and the rest of the unit for No. */
  function AmmPricePerToken(qYes: u128, qNo: u128, b: u128, outcome: u8): (r: Result<u128>)
    ensures b == 0 ==> r == Err(MathError)
    ensures r.Err? ==> r.error == MathError
    ensures r.Ok? ==> r.value <= FP_SCALE
  {
    if b == 0 then Err(MathError)
    else
      var xYes :- MulDiv(qYes, FP_SCALE, b);
      var xNo :- MulDiv(qNo, FP_SCALE, b);
      PriceOfScaled(xYes, xNo, outcome)
  }

  /** The rest of amm_price_per_token once both quantities are divided by
      b: the two exponentials and the share of the asked outcome. */
  function PriceOfScaled(xYes: u128, xNo: u128, outcome: u8): Result<u128>
  {
    var expX :- ExpApprox(xYes);
    var expY :- ExpApprox(xNo);
    PriceShare(expX, expY, outcome)
  }

  /** The rest of amm_price_per_token once both exponentials are known. */
  function PriceShare(expX: u128, expY: u128, outcome: u8): (r: Result<u128>)
    ensures r.Err? ==> r.error == MathError
    // a share of one unit: never more than the unit
    ensures r.Ok? ==> r.value <= FP_SCALE
  {
    var sum :- CheckedAdd(expX, expY);
    if sum == 0 then Err(MathError)
    else
      var probX :- MulDiv(expX, FP_SCALE, sum);
      var probY :- CheckedSub(FP_SCALE, probX);
      Ok(if outcome == YES then probX else probY)
  }

  /** Shares of two exponentials in range are each at most one unit and
      add up to one unit. */
  lemma PriceShareSum(expX: u128, expY: u128, other: u8)
    requires other != YES && FP_SCALE <= expX < 40_000_000_000 && FP_SCALE <= expY < 40_000_000_000
    ensures PriceShare(expX, expY, YES).Ok? && PriceShare(expX, expY, other).Ok?
    ensures PriceShare(expX, expY, YES).value + PriceShare(expX, expY, other).value == FP_SCALE
    ensures PriceShare(expX, expY, YES).value <= FP_SCALE
  {
    MulLe(expX, FP_SCALE, 40_000_000_000, FP_SCALE);
    ShareAtMostOne(expX, expX + expY);
  }

  /** The two prices add up to one unit exactly, each lies between zero and
      one unit, and the query fails only for a zero liquidity parameter or
      an overflowing scaled quantity. */
  lemma PricesSumToOne(qYes: u128, qNo: u128, b: u128, other: u8)
    requires other != YES
    ensures var yes, no := AmmPricePerToken(qYes, qNo, b, YES), AmmPricePerToken(qYes, qNo, b, other);
      (yes.Ok? <==> b != 0 && qYes * FP_SCALE < U128_LIMIT && qNo * FP_SCALE < U128_LIMIT) &&
      (no.Ok? <==> yes.Ok?) && (yes.Err? ==> yes.error == MathError && no.error == MathError) &&
      (yes.Ok? ==> yes.value + no.value == FP_SCALE && yes.value <= FP_SCALE)
  {
    if b != 0 && qYes * FP_SCALE < U128_LIMIT && qNo * FP_SCALE < U128_LIMIT {
      PriceOfScaledSum(qYes * FP_SCALE / b, qNo * FP_SCALE / b, other);
    }
  }

  /** The scaled prices never fail and add up to one unit. */
  lemma PriceOfScaledSum(xYes: u128, xNo: u128, other: u8)
    requires other != YES
    ensures PriceOfScaled(xYes, xNo, YES).Ok? && PriceOfScaled(xYes, xNo, other).Ok?
    ensures PriceOfScaled(xYes, xNo, YES).value + PriceOfScaled(xYes, xNo, other).value == FP_SCALE
    ensures PriceOfScaled(xYes, xNo, YES).value <= FP_SCALE
  {
    ExpApproxBounds(xYes);
    ExpApproxBounds(xNo);
    PriceShareSum(ExpApprox(xYes).value, ExpApprox(xNo).value, other);
  }

  /** A part of a positive sum, scaled to the unit and divided by the sum,
      is at most one unit. */
  lemma ShareAtMostOne(part: nat, sum: nat)
    requires 0 < sum && part <= sum
    ensures part * FP_SCALE / sum <= FP_SCALE
  {
    MulLe(part, FP_SCALE, sum, FP_SCALE);
    DivLe(part * FP_SCALE, sum * FP_SCALE, sum);
    assert sum * FP_SCALE == FP_SCALE * sum;
    DivExact(FP_SCALE, sum);
  }
}
