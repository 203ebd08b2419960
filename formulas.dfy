/** The formula library: time value of money, loan installments, discounted
    cash flows, weighted scores and expected utility, over exact reals. */
module Formulas {
  import opened Results

  // ---------------------------------------------------------------------
  // Integer powers

  /** `base` raised to a natural exponent. */
  function Pow(base: real, n: nat): real
  {
    if n == 0 then 1.0 else base * Pow(base, n - 1)
  }

  /** A natural power of a non-zero base is non-zero, and it keeps the sign
      of a non-negative or positive base. */
  lemma {:induction false} PowSign(base: real, n: nat)
    ensures base != 0.0 ==> Pow(base, n) != 0.0
    ensures base >= 0.0 ==> Pow(base, n) >= 0.0
    ensures base > 0.0 ==> Pow(base, n) > 0.0
  {
    if n > 0 {
      PowSign(base, n - 1);
    }
  }

  /** Python's `base ** n` for an int exponent: a negative exponent gives the
      reciprocal of the positive power, which fails on a zero base. */
  function IntPow(base: real, n: int): (r: real)
    requires n >= 0 || base != 0.0
    ensures base != 0.0 ==> r != 0.0
    ensures base > 0.0 ==> r > 0.0
  {
    if n >= 0 then PowSign(base, n); Pow(base, n)
    else PowSign(base, -n); 1.0 / Pow(base, -n)
  }

  lemma {:induction false} PowOfOne(n: nat)
    ensures Pow(1.0, n) == 1.0
  {
    if n > 0 {
      PowOfOne(n - 1);
    }
  }

  lemma IntPowOfOne(n: int)
    ensures IntPow(1.0, n) == 1.0
  {
    if n >= 0 {
      PowOfOne(n);
    } else {
      PowOfOne(-n);
    }
  }

  lemma IntPowOfNat(base: real, n: nat)
    ensures IntPow(base, n) == Pow(base, n)
  {
  }

  lemma IntPowStep(base: real, k: nat)
    ensures IntPow(base, k + 1) == base * IntPow(base, k)
  {
  }

  lemma {:induction false} PowAdd(base: real, m: nat, n: nat)
    ensures Pow(base, m + n) == Pow(base, m) * Pow(base, n)
  {
    if m > 0 {
      PowAdd(base, m - 1, n);
      assert Pow(base, m + n) == base * Pow(base, (m - 1) + n);
      Associate(base, Pow(base, m - 1), Pow(base, n));
    }
  }

  lemma {:induction false} PowAboveOne(base: real, n: nat)
    requires base > 1.0 && n > 0
    ensures Pow(base, n) > 1.0
  {
    if n > 1 {
      PowAboveOne(base, n - 1);
      var p := Pow(base, n - 1);
      assert base * p > 1.0 * p;
    }
  }

  lemma {:induction false} PowStrictlyIncreasing(a: real, b: real, n: nat)
    requires 0.0 <= a < b && n > 0
    ensures Pow(a, n) < Pow(b, n)
  {
    if n > 1 {
      PowStrictlyIncreasing(a, b, n - 1);
      PowSign(a, n - 1);
      ProductStrictlyIncreasing(a, b, Pow(a, n - 1), Pow(b, n - 1));
    } else {
      assert Pow(a, 0) == 1.0 && Pow(b, 0) == 1.0;
    }
  }

  // ---------------------------------------------------------------------
  // Small facts of real arithmetic, kept apart so that each proof stays cheap

  lemma Associate(a: real, b: real, c: real)
    ensures a * (b * c) == (a * b) * c
  {
  }

  lemma MulSub(a: real, x: real, y: real)
    ensures a * (x - y) == a * x - a * y
  {
  }

  lemma DivThenMul(a: real, d: real)
    requires d != 0.0
    ensures a / d * d == a
  {
  }

  lemma MulThenDiv(a: real, d: real)
    requires d != 0.0
    ensures a * d / d == a
  {
  }

  lemma MulMonotone(a: real, x: real, y: real)
    requires a >= 0.0 && x <= y
    ensures a * x <= a * y
  {
  }

  lemma MulStrictMonotone(p: real, x: real, y: real)
    requires p > 0.0 && x < y
    ensures x * p < y * p
  {
  }

  lemma ProductStrictlyIncreasing(a: real, b: real, x: real, y: real)
    requires 0.0 <= a < b && 0.0 <= x < y
    ensures a * x < b * y
  {
    MulMonotone(a, x, y);
    MulStrictMonotone(y, a, b);
  }

  lemma CancelPositiveFactor(a: real, b: real, t: real)
    requires t > 0.0 && a * t <= b * t
    ensures a <= b
  {
  }

  lemma DivideTwice(c: real, p: real, b: real)
    requires p != 0.0 && b != 0.0
    ensures c / (b * p) == (c / p) / b
  {
  }

  lemma AddQuotients(x: real, y: real, b: real)
    requires b != 0.0
    ensures x / b + y / b == (x + y) / b
  {
  }

  // ---------------------------------------------------------------------
  // Future and present value

  /** Value after `periods` periods of compounding at `rate` per period. */
  function FutureValue(presentValue: real, rate: real, periods: int): (r: real)
    requires periods >= 0 || 1.0 + rate != 0.0
    ensures periods == 0 ==> r == presentValue
    ensures 1.0 + rate > 0.0 ==> (r > 0.0 <==> presentValue > 0.0)
  {
    presentValue * IntPow(1.0 + rate, periods)
  }

  /** Value today of an amount due after `periods` periods, discounted at `rate`. */
  function PresentValue(futureValue: real, rate: real, periods: int): (r: real)
    requires 1.0 + rate != 0.0 || periods == 0
    ensures periods == 0 ==> r == futureValue
    ensures 1.0 + rate > 0.0 ==> (r > 0.0 <==> futureValue > 0.0)
  {
    futureValue / IntPow(1.0 + rate, periods)
  }

  lemma FutureValueOfPresentValue(fv: real, rate: real, periods: int)
    requires 1.0 + rate != 0.0
    ensures FutureValue(PresentValue(fv, rate, periods), rate, periods) == fv
  {
    DivThenMul(fv, IntPow(1.0 + rate, periods));
  }

  lemma PresentValueOfFutureValue(pv: real, rate: real, periods: int)
    requires 1.0 + rate != 0.0
    ensures PresentValue(FutureValue(pv, rate, periods), rate, periods) == pv
  {
    MulThenDiv(pv, IntPow(1.0 + rate, periods));
  }

  /** Compounding for `a` periods and then for `b` more is compounding for `a + b`. */
  lemma FutureValueCompose(pv: real, rate: real, a: nat, b: nat)
    ensures FutureValue(FutureValue(pv, rate, a), rate, b) == FutureValue(pv, rate, a + b)
  {
    PowAdd(1.0 + rate, a, b);
  }

  lemma FutureValueAtZeroRate(pv: real, periods: int)
    ensures FutureValue(pv, 0.0, periods) == pv
  {
    IntPowOfOne(periods);
  }

  // ---------------------------------------------------------------------
  // Reference definitions: periodic deposits and loan amortisation

  /** Balance reached by `periods` equal end-of-period deposits of `payment`,
      each growing at `rate` per period. */
  function Accumulated(payment: real, rate: real, periods: nat): real
  {
    if periods == 0 then 0.0
    else Accumulated(payment, rate, periods - 1) * (1.0 + rate) + payment
  }

  /** Outstanding balance of a loan of `principal` at `rate` per period after
      `periods` end-of-period installments of `payment`. */
  function LoanBalance(principal: real, rate: real, payment: real, periods: nat): real
  {
    if periods == 0 then principal
    else LoanBalance(principal, rate, payment, periods - 1) * (1.0 + rate) - payment
  }

  /** The geometric-series closed form of the deposits' balance. */
  lemma {:induction false} AccumulatedClosedForm(payment: real, rate: real, periods: nat)
    ensures rate * Accumulated(payment, rate, periods) == payment * (Pow(1.0 + rate, periods) - 1.0)
  {
    if periods > 0 {
      AccumulatedClosedForm(payment, rate, periods - 1);
      GeometricStep(payment, rate, Accumulated(payment, rate, periods - 1), Pow(1.0 + rate, periods - 1));
    }
  }

  lemma GeometricStep(payment: real, rate: real, a: real, p: real)
    ensures rate * (a * (1.0 + rate) + payment) == (rate * a) * (1.0 + rate) + rate * payment
    ensures payment * (p - 1.0) * (1.0 + rate) + rate * payment == payment * ((1.0 + rate) * p - 1.0)
  {
  }

  /** A payment solving the annuity equation `payment * ((1 + rate)^n - 1) == target * rate`
      accumulates to `target` after `n` deposits. */
  lemma AnnuityPaymentAccumulatesTo(payment: real, rate: real, periods: nat, target: real)
    requires rate != 0.0
    requires payment * (Pow(1.0 + rate, periods) - 1.0) == target * rate
    ensures Accumulated(payment, rate, periods) == target
  {
    AccumulatedClosedForm(payment, rate, periods);
    MulSub(rate, Accumulated(payment, rate, periods), target);
    ZeroFactor(rate, Accumulated(payment, rate, periods) - target);
  }

  lemma {:induction false} AccumulatedAtZeroRate(payment: real, periods: nat)
    ensures Accumulated(payment, 0.0, periods) == (periods as real) * payment
  {
    if periods > 0 {
      AccumulatedAtZeroRate(payment, periods - 1);
    }
  }

  /** A loan's balance is the principal grown at the loan rate less the grown installments. */
  lemma {:induction false} LoanBalanceClosedForm(principal: real, rate: real, payment: real, periods: nat)
    ensures LoanBalance(principal, rate, payment, periods)
         == principal * Pow(1.0 + rate, periods) - Accumulated(payment, rate, periods)
  {
    if periods > 0 {
      LoanBalanceClosedForm(principal, rate, payment, periods - 1);
      Distribute(LoanBalance(principal, rate, payment, periods - 1), Accumulated(payment, rate, periods - 1), 1.0 + rate);
      Regroup(principal, Pow(1.0 + rate, periods - 1), 1.0 + rate);
    }
  }

  lemma Distribute(x: real, y: real, g: real)
    ensures x * g + y * g == (x + y) * g
  {
  }

  lemma Regroup(x: real, y: real, g: real)
    ensures (x * y) * g == x * (g * y)
  {
  }

  // ---------------------------------------------------------------------
  // Equated monthly installment

  /** When `Emi` divides by a non-zero number: the flat branch divides by the
      month count, the compound branch by `(1 + monthly rate)^months - 1`. */
  predicate EmiDefined(annualRate: real, months: int)
  {
    var monthlyRate := annualRate / 12.0;
    if monthlyRate == 0.0 then months != 0
    else (months >= 0 || 1.0 + monthlyRate != 0.0) && IntPow(1.0 + monthlyRate, months) != 1.0
  }

  /** Installment that repays `principal` over `months` months at `annualRate` a
      year, compounded monthly; at a zero rate the principal is split evenly. */
  function Emi(principal: real, annualRate: real, months: int): (r: real)
    requires EmiDefined(annualRate, months)
    ensures annualRate == 0.0 ==> r * (months as real) == principal
    ensures annualRate != 0.0 ==>
      r * (IntPow(1.0 + annualRate / 12.0, months) - 1.0)
      == principal * (annualRate / 12.0) * IntPow(1.0 + annualRate / 12.0, months)
  {
    var monthlyRate := annualRate / 12.0;
    if monthlyRate == 0.0 then principal / (months as real)
    else
      var growth := IntPow(1.0 + monthlyRate, months);
      principal * monthlyRate * growth / (growth - 1.0)
  }

  lemma ScaleDifference(m: real, p: real, x: real, a: real)
    ensures m * (p * x - a) == p * m * x - m * a
  {
  }

  lemma ZeroFactor(m: real, b: real)
    ensures m != 0.0 && m * b == 0.0 ==> b == 0.0
  {
  }

  /** An installment of `principal * m * x / (x - 1)` with `x = (1 + m)^n`
      clears a loan at a non-zero periodic rate `m` after `n` periods. */
  lemma AnnuityInstallmentClearsLoan(principal: real, m: real, n: nat, e: real)
    requires m != 0.0
    requires e * (Pow(1.0 + m, n) - 1.0) == principal * m * Pow(1.0 + m, n)
    ensures LoanBalance(principal, m, e, n) == 0.0
  {
    AccumulatedClosedForm(e, m, n);
    LoanBalanceClosedForm(principal, m, e, n);
    ScaleDifference(m, principal, Pow(1.0 + m, n), Accumulated(e, m, n));
    ZeroFactor(m, LoanBalance(principal, m, e, n));
  }

  /** Paying the installment every month clears the loan exactly at the last month. */
  lemma EmiRepaysLoan(principal: real, annualRate: real, months: int)
    requires months > 0 && EmiDefined(annualRate, months)
    ensures LoanBalance(principal, annualRate / 12.0, Emi(principal, annualRate, months), months) == 0.0
  {
    if annualRate / 12.0 == 0.0 {
      LoanBalanceClosedForm(principal, 0.0, Emi(principal, annualRate, months), months);
      PowOfOne(months);
      AccumulatedAtZeroRate(Emi(principal, annualRate, months), months);
    } else {
      assert IntPow(1.0 + annualRate / 12.0, months) == Pow(1.0 + annualRate / 12.0, months);
      AnnuityInstallmentClearsLoan(principal, annualRate / 12.0, months, Emi(principal, annualRate, months));
    }
  }

  // ---------------------------------------------------------------------
  // Net present value

  /** Sum of the cashflows, the first discounted by `period` periods and each
      later one by one period more. */
  function NpvFrom(cashflows: seq<real>, rate: real, period: nat): real
    requires cashflows == [] || 1.0 + rate != 0.0
  {
    if cashflows == [] then 0.0
    else PresentValue(cashflows[0], rate, period) + NpvFrom(cashflows[1..], rate, period + 1)
  }

  /** Net present value, discounting the first cashflow by one period. */
  function Npv(cashflows: seq<real>, rate: real): (r: real)
    requires cashflows == [] || 1.0 + rate != 0.0
    ensures cashflows == [] ==> r == 0.0
  {
    NpvFrom(cashflows, rate, 1)
  }

  /** A single cashflow is discounted by exactly one period. */
  lemma NpvOfSingleCashflow(c: real, rate: real)
    requires 1.0 + rate != 0.0
    ensures Npv([c], rate) == c / (1.0 + rate)
  {
    assert [c][1..] == [];
    assert Pow(1.0 + rate, 1) == 1.0 + rate;
    assert Npv([c], rate) == PresentValue(c, rate, 1) + NpvFrom([], rate, 2);
  }

  function Sum(s: seq<real>): real
  {
    if s == [] then 0.0 else s[0] + Sum(s[1..])
  }

  lemma {:induction false} NpvFromAtZeroRate(cashflows: seq<real>, period: nat)
    ensures NpvFrom(cashflows, 0.0, period) == Sum(cashflows)
  {
    if cashflows != [] {
      PowOfOne(period);
      NpvFromAtZeroRate(cashflows[1..], period + 1);
    }
  }

  /** At a zero rate nothing is discounted. */
  lemma NpvAtZeroRate(cashflows: seq<real>)
    ensures Npv(cashflows, 0.0) == Sum(cashflows)
  {
    NpvFromAtZeroRate(cashflows, 1);
  }

  lemma NpvFromUnfold(cashflows: seq<real>, rate: real, period: nat)
    requires cashflows != [] && 1.0 + rate != 0.0
    ensures NpvFrom(cashflows, rate, period)
         == cashflows[0] / IntPow(1.0 + rate, period) + NpvFrom(cashflows[1..], rate, period + 1)
  {
  }

  lemma ShiftAlgebra(c: real, b: real, p: real, q: real, t0: real, t1: real, lhs: real, rhs: real)
    requires b != 0.0 && p != 0.0 && q == b * p
    requires t1 == t0 / b
    requires lhs == c / q + t1 && rhs == c / p + t0
    ensures lhs == rhs / b
  {
    DivideTwice(c, p, b);
    AddQuotients(c / p, t0, b);
  }

  lemma NpvFromShiftStep(cashflows: seq<real>, rate: real, period: nat)
    requires cashflows != [] && 1.0 + rate != 0.0
    requires NpvFrom(cashflows[1..], rate, period + 2) == NpvFrom(cashflows[1..], rate, period + 1) / (1.0 + rate)
    ensures NpvFrom(cashflows, rate, period + 1) == NpvFrom(cashflows, rate, period) / (1.0 + rate)
  {
    IntPowStep(1.0 + rate, period);
    NpvFromUnfold(cashflows, rate, period);
    NpvFromUnfold(cashflows, rate, period + 1);
    ShiftAlgebra(cashflows[0], 1.0 + rate, IntPow(1.0 + rate, period), IntPow(1.0 + rate, period + 1),
                 NpvFrom(cashflows[1..], rate, period + 1), NpvFrom(cashflows[1..], rate, period + 2),
                 NpvFrom(cashflows, rate, period + 1), NpvFrom(cashflows, rate, period));
  }

  /** Discounting every cashflow by one more period divides their value by `1 + rate`. */
  lemma {:induction false} NpvFromShift(cashflows: seq<real>, rate: real, period: nat)
    requires 1.0 + rate != 0.0
    ensures NpvFrom(cashflows, rate, period + 1) == NpvFrom(cashflows, rate, period) / (1.0 + rate)
  {
    if cashflows != [] {
      NpvFromShift(cashflows[1..], rate, period + 1);
      NpvFromShiftStep(cashflows, rate, period);
    } else {
      assert 0.0 / (1.0 + rate) == 0.0;
    }
  }

  /** Each cashflow is discounted one period more than its predecessor, the
      first by one period: NPV unrolls as `(c0 + NPV(rest)) / (1 + rate)`. */
  lemma NpvDiscountsFirstCashflowOnce(cashflows: seq<real>, rate: real)
    requires cashflows != [] && 1.0 + rate != 0.0
    ensures Npv(cashflows, rate) == (cashflows[0] + Npv(cashflows[1..], rate)) / (1.0 + rate)
  {
    NpvFromShift(cashflows[1..], rate, 1);
    assert Pow(1.0 + rate, 1) == 1.0 + rate;
    AddQuotients(cashflows[0], Npv(cashflows[1..], rate), 1.0 + rate);
  }

  // ---------------------------------------------------------------------
  // Weighted score and expected utility

  function Dot(xs: seq<real>, ys: seq<real>): real
    requires |xs| == |ys|
  {
    if xs == [] then 0.0 else xs[0] * ys[0] + Dot(xs[1..], ys[1..])
  }

  /** Weighted average of `scores`; fails on a length mismatch and is 0.0 when
      the weights sum to zero. */
  function WeightedScore(scores: seq<real>, weights: seq<real>): (r: Result<real>)
    ensures r.Err? <==> |scores| != |weights|
    ensures r.Err? ==> r.error == ScoresWeightsLengthMismatch
    ensures r.Ok? && Sum(weights) == 0.0 ==> r.value == 0.0
  {
    if |scores| != |weights| then Err(ScoresWeightsLengthMismatch)
    else
      var totalWeight := Sum(weights);
      if totalWeight == 0.0 then Ok(0.0)
      else Ok(Dot(scores, weights) / totalWeight)
  }

  /** When the weights do not sum to zero, the score times the total weight is
      the weighted sum of the scores. */
  lemma WeightedScoreIsWeightedAverage(scores: seq<real>, weights: seq<real>)
    requires |scores| == |weights| && Sum(weights) != 0.0
    ensures WeightedScore(scores, weights).Ok?
    ensures WeightedScore(scores, weights).value * Sum(weights) == Dot(scores, weights)
  {
    DivThenMul(Dot(scores, weights), Sum(weights));
  }

  /** Non-negative weights have a non-negative total. */
  lemma {:induction false} SumNonNegative(weights: seq<real>)
    requires forall i :: 0 <= i < |weights| ==> weights[i] >= 0.0
    ensures Sum(weights) >= 0.0
  {
    if weights != [] {
      SumNonNegative(weights[1..]);
    }
  }

  lemma LowerStep(lo: real, s: real, w: real, d: real, t: real)
    ensures lo <= s && w >= 0.0 && lo * t <= d ==> lo * (w + t) <= s * w + d
  {
    if lo <= s && w >= 0.0 && lo * t <= d {
      MulMonotone(w, lo, s);
    }
  }

  lemma UpperStep(hi: real, s: real, w: real, d: real, t: real)
    ensures s <= hi && w >= 0.0 && d <= hi * t ==> s * w + d <= hi * (w + t)
  {
    if s <= hi && w >= 0.0 && d <= hi * t {
      MulMonotone(w, s, hi);
    }
  }

  /** With non-negative weights, a lower bound of the scores bounds their
      weighted sum from below by the bound times the total weight. */
  lemma {:induction false} DotAbove(scores: seq<real>, weights: seq<real>, lo: real)
    requires |scores| == |weights|
    requires forall i :: 0 <= i < |scores| ==> lo <= scores[i]
    requires forall i :: 0 <= i < |weights| ==> weights[i] >= 0.0
    ensures lo * Sum(weights) <= Dot(scores, weights)
  {
    if scores != [] {
      DotAbove(scores[1..], weights[1..], lo);
      LowerStep(lo, scores[0], weights[0], Dot(scores[1..], weights[1..]), Sum(weights[1..]));
    }
  }

  /** The same from above, for an upper bound of the scores. */
  lemma {:induction false} DotBelow(scores: seq<real>, weights: seq<real>, hi: real)
    requires |scores| == |weights|
    requires forall i :: 0 <= i < |scores| ==> scores[i] <= hi
    requires forall i :: 0 <= i < |weights| ==> weights[i] >= 0.0
    ensures Dot(scores, weights) <= hi * Sum(weights)
  {
    if scores != [] {
      DotBelow(scores[1..], weights[1..], hi);
      UpperStep(hi, scores[0], weights[0], Dot(scores[1..], weights[1..]), Sum(weights[1..]));
    }
  }

  lemma QuotientBetween(lo: real, hi: real, t: real, d: real)
    ensures t > 0.0 && lo * t <= d <= hi * t ==> lo <= d / t <= hi
  {
    if t > 0.0 && lo * t <= d <= hi * t {
      DivThenMul(d, t);
      CancelPositiveFactor(lo, d / t, t);
      CancelPositiveFactor(d / t, hi, t);
    }
  }

  /** With non-negative weights the weighted score lies between any bounds of
      the scores, unless the weights are all zero. */
  lemma WeightedScoreBetween(scores: seq<real>, weights: seq<real>, lo: real, hi: real)
    requires |scores| == |weights|
    requires forall i :: 0 <= i < |scores| ==> lo <= scores[i] <= hi
    requires forall i :: 0 <= i < |weights| ==> weights[i] >= 0.0
    ensures WeightedScore(scores, weights).Ok?
    ensures Sum(weights) == 0.0 ==> WeightedScore(scores, weights).value == 0.0
    ensures Sum(weights) != 0.0 ==> lo <= WeightedScore(scores, weights).value <= hi
  {
    SumNonNegative(weights);
    DotAbove(scores, weights, lo);
    DotBelow(scores, weights, hi);
    if Sum(weights) != 0.0 {
      QuotientBetween(lo, hi, Sum(weights), Dot(scores, weights));
    }
  }

  /** Sum of `p * v^riskAversion` over paired values and probabilities. */
  function UtilitySum(values: seq<real>, probabilities: seq<real>, riskAversion: nat): real
    requires |values| == |probabilities|
  {
    if values == [] then 0.0
    else probabilities[0] * Pow(values[0], riskAversion)
         + UtilitySum(values[1..], probabilities[1..], riskAversion)
  }

  /** Expected utility with an integral risk-aversion exponent, risk neutral
      (exponent 1) by default; fails on a length mismatch. */
  function ExpectedUtility(values: seq<real>, probabilities: seq<real>, riskAversion: nat := 1): (r: Result<real>)
    ensures r.Err? <==> |values| != |probabilities|
    ensures r.Err? ==> r.error == ValuesProbabilitiesLengthMismatch
  {
    if |values| != |probabilities| then Err(ValuesProbabilitiesLengthMismatch)
    else Ok(UtilitySum(values, probabilities, riskAversion))
  }

  lemma {:induction false} UtilitySumRiskNeutral(values: seq<real>, probabilities: seq<real>)
    requires |values| == |probabilities|
    ensures UtilitySum(values, probabilities, 1) == Dot(values, probabilities)
  {
    if values != [] {
      UtilitySumRiskNeutral(values[1..], probabilities[1..]);
      assert Pow(values[0], 1) == values[0];
    }
  }

  /** With the default risk aversion 1 the expected utility is the
      probability-weighted sum of the values. */
  lemma ExpectedUtilityRiskNeutral(values: seq<real>, probabilities: seq<real>)
    requires |values| == |probabilities|
    ensures ExpectedUtility(values, probabilities) == Ok(Dot(values, probabilities))
  {
    UtilitySumRiskNeutral(values, probabilities);
  }

  /** With the default risk aversion 1 and probabilities summing to one, the
      expected utility is the weighted score of the values under those
      probabilities. */
  lemma ExpectedUtilityIsWeightedScore(values: seq<real>, probabilities: seq<real>)
    requires |values| == |probabilities| && Sum(probabilities) == 1.0
    ensures ExpectedUtility(values, probabilities) == WeightedScore(values, probabilities)
  {
    UtilitySumRiskNeutral(values, probabilities);
  }
}
