/** The financial calculators: the invest-versus-prepay decision and the
    retirement corpus with its monthly systematic investment (SIP). */
module Financial {
  import opened Results
  import opened Formulas

  // ---------------------------------------------------------------------
  // Invest versus prepay

  datatype InvestmentVsPrepaymentInput = InvestmentVsPrepaymentInput(
    debtAmount: real,
    debtInterestRate: real,
    investmentAmount: real,
    expectedReturnRate: real,
    timeHorizonYears: int,
    riskTolerance: Option<string> := None,
    volatility: Option<real> := None)

  datatype InvestmentVsPrepaymentResult = InvestmentVsPrepaymentResult(
    futureValueInvestment: real,
    futureValueDebt: real,
    recommendation: string)

  const Invest: string := "Invest"
  const PrepayDebt: string := "Prepay Debt"

  /** Both amounts are grown over the same horizon; investing is recommended
      only when it ends strictly ahead, so a tie goes to prepaying the debt. */
  function ComputeInvestmentVsPrepayment(params: InvestmentVsPrepaymentInput): (r: InvestmentVsPrepaymentResult)
    requires params.timeHorizonYears >= 0
             || (1.0 + params.expectedReturnRate != 0.0 && 1.0 + params.debtInterestRate != 0.0)
    ensures r.futureValueInvestment
         == FutureValue(params.investmentAmount, params.expectedReturnRate, params.timeHorizonYears)
    ensures r.futureValueDebt
         == FutureValue(params.debtAmount, params.debtInterestRate, params.timeHorizonYears)
    ensures r.recommendation == Invest <==> r.futureValueInvestment > r.futureValueDebt
    ensures r.recommendation == PrepayDebt <==> r.futureValueInvestment <= r.futureValueDebt
  {
    var fvInvest := FutureValue(params.investmentAmount, params.expectedReturnRate, params.timeHorizonYears);
    var fvDebt := FutureValue(params.debtAmount, params.debtInterestRate, params.timeHorizonYears);
    var rec := if fvInvest > fvDebt then Invest else PrepayDebt;
    InvestmentVsPrepaymentResult(fvInvest, fvDebt, rec)
  }

  lemma CompareGrowth(amount: real, x: real, y: real, fvInvest: real, fvDebt: real)
    requires amount > 0.0 && fvInvest == amount * x && fvDebt == amount * y
    ensures fvInvest > fvDebt <==> x > y
  {
    if x < y {
      MulStrictMonotone(amount, x, y);
    } else if y < x {
      MulStrictMonotone(amount, y, x);
    }
  }

  /** For the same positive amount over a positive horizon, investing wins
      exactly when the expected return beats the debt's interest rate. */
  lemma InvestIffReturnBeatsDebtRate(params: InvestmentVsPrepaymentInput)
    requires params.investmentAmount == params.debtAmount > 0.0
    requires params.timeHorizonYears > 0
    requires params.expectedReturnRate > -1.0 && params.debtInterestRate > -1.0
    ensures ComputeInvestmentVsPrepayment(params).recommendation == Invest
        <==> params.expectedReturnRate > params.debtInterestRate
  {
    if params.debtInterestRate < params.expectedReturnRate {
      PowStrictlyIncreasing(1.0 + params.debtInterestRate, 1.0 + params.expectedReturnRate, params.timeHorizonYears);
    } else if params.expectedReturnRate < params.debtInterestRate {
      PowStrictlyIncreasing(1.0 + params.expectedReturnRate, 1.0 + params.debtInterestRate, params.timeHorizonYears);
    }
    CompareGrowth(params.investmentAmount,
                  Pow(1.0 + params.expectedReturnRate, params.timeHorizonYears),
                  Pow(1.0 + params.debtInterestRate, params.timeHorizonYears),
                  ComputeInvestmentVsPrepayment(params).futureValueInvestment,
                  ComputeInvestmentVsPrepayment(params).futureValueDebt);
  }

  /** The risk tolerance and the volatility are carried but never consulted. */
  lemma RiskFieldsIgnored(a: InvestmentVsPrepaymentInput, b: InvestmentVsPrepaymentInput)
    requires a.(riskTolerance := b.riskTolerance, volatility := b.volatility) == b
    requires a.timeHorizonYears >= 0
             || (1.0 + a.expectedReturnRate != 0.0 && 1.0 + a.debtInterestRate != 0.0)
    ensures ComputeInvestmentVsPrepayment(a) == ComputeInvestmentVsPrepayment(b)
  {
  }

  /** A 100000 investment at 10% grows to 161051 and a 100000 debt at 8% to
      146932.80768 over five years, so investing is recommended. */
  lemma InvestExample()
    ensures ComputeInvestmentVsPrepayment(InvestmentVsPrepaymentInput(100000.0, 0.08, 100000.0, 0.10, 5))
         == InvestmentVsPrepaymentResult(161051.0, 146932.80768, Invest)
  {
    assert Pow(1.10, 5) == 1.61051;
    assert Pow(1.08, 5) == 1.4693280768;
  }

  // ---------------------------------------------------------------------
  // Retirement corpus

  datatype RetirementCorpusInput = RetirementCorpusInput(
    currentAge: int,
    retirementAge: int,
    currentCorpus: real,
    targetMonthlyExpense: real,
    inflationRate: real,
    preRetirementReturn: real,
    postRetirementReturn: real)

  datatype RetirementCorpusResult = RetirementCorpusResult(requiredCorpus: real, monthlySip: real)

  function YearsToRetire(params: RetirementCorpusInput): int
  {
    params.retirementAge - params.currentAge
  }

  function MonthlyRate(params: RetirementCorpusInput): real
  {
    params.preRetirementReturn / 12.0
  }

  /** Every division and negative power the calculator performs is defined:
      the post-retirement return is non-zero, a negative horizon does not
      raise a zero base to a negative power, and the SIP denominator
      `(1 + monthly rate)^months - 1` is non-zero when there are months left. */
  predicate RetirementDefined(params: RetirementCorpusInput)
  {
    var years := YearsToRetire(params);
    params.postRetirementReturn != 0.0
    && (years >= 0 || (1.0 + params.preRetirementReturn != 0.0 && 1.0 + params.inflationRate != 0.0))
    && (years * 12 != 0 ==>
          (years * 12 >= 0 || 1.0 + MonthlyRate(params) != 0.0)
          && IntPow(1.0 + MonthlyRate(params), years * 12) != 1.0)
  }

  /** The current corpus grown at the pre-retirement return until retirement. */
  function CorpusAtRetirement(params: RetirementCorpusInput): real
    requires RetirementDefined(params)
  {
    FutureValue(params.currentCorpus, params.preRetirementReturn, YearsToRetire(params))
  }

  /** Corpus whose yearly yield at the post-retirement return pays twelve
      inflation-adjusted monthly expenses. */
  function RequiredCorpus(params: RetirementCorpusInput): real
    requires RetirementDefined(params)
  {
    FutureValue(params.targetMonthlyExpense, params.inflationRate, YearsToRetire(params)) * 12.0
      / params.postRetirementReturn
  }

  /** The required corpus is a perpetuity: its yearly yield at the
      post-retirement return is twelve inflation-adjusted monthly expenses. */
  lemma RequiredCorpusIsPerpetuity(params: RetirementCorpusInput)
    requires RetirementDefined(params)
    ensures RequiredCorpus(params) * params.postRetirementReturn
         == FutureValue(params.targetMonthlyExpense, params.inflationRate, YearsToRetire(params)) * 12.0
  {
    DivThenMul(FutureValue(params.targetMonthlyExpense, params.inflationRate, YearsToRetire(params)) * 12.0,
               params.postRetirementReturn);
  }

  /** The shortfall of the grown corpus, clamped at zero (Python `max(x, 0)`). */
  function Gap(params: RetirementCorpusInput): (g: real)
    requires RetirementDefined(params)
    ensures g >= 0.0
    ensures g >= RequiredCorpus(params) - CorpusAtRetirement(params)
    ensures g == 0.0 || g == RequiredCorpus(params) - CorpusAtRetirement(params)
    ensures g == 0.0 <==> CorpusAtRetirement(params) >= RequiredCorpus(params)
  {
    var shortfall := RequiredCorpus(params) - CorpusAtRetirement(params);
    if 0.0 > shortfall then 0.0 else shortfall
  }

  /** Required corpus and the monthly contribution that closes the gap: the
      whole gap at once when no months remain, otherwise the payment of an
      annuity whose future value is the gap. */
  function RetirementCorpusCalculator(params: RetirementCorpusInput): (r: RetirementCorpusResult)
    requires RetirementDefined(params)
    ensures r.requiredCorpus == RequiredCorpus(params)
    ensures YearsToRetire(params) == 0 ==> r.monthlySip == Gap(params)
  {
    var years := YearsToRetire(params);
    var requiredCorpus := RequiredCorpus(params);
    var gap := Gap(params);
    if years * 12 == 0 then RetirementCorpusResult(requiredCorpus, gap)
    else
      var monthlyRate := MonthlyRate(params);
      var months := years * 12;
      RetirementCorpusResult(requiredCorpus, gap * monthlyRate / (IntPow(1.0 + monthlyRate, months) - 1.0))
  }

  /** With months to go, the SIP is the payment of an annuity whose future
      value after `12 * years` months at the monthly rate is the gap. */
  lemma SipSolvesAnnuityEquation(params: RetirementCorpusInput)
    requires RetirementDefined(params) && YearsToRetire(params) != 0
    ensures RetirementCorpusCalculator(params).monthlySip
            * (IntPow(1.0 + MonthlyRate(params), YearsToRetire(params) * 12) - 1.0)
         == Gap(params) * MonthlyRate(params)
  {
    DivThenMul(Gap(params) * MonthlyRate(params), IntPow(1.0 + MonthlyRate(params), YearsToRetire(params) * 12) - 1.0);
  }

  /** The unguarded case: with months to go and a zero pre-retirement return
      the SIP formula divides by zero. */
  lemma ZeroReturnLeavesSipUndefined(params: RetirementCorpusInput)
    requires YearsToRetire(params) != 0 && params.preRetirementReturn == 0.0
    ensures !RetirementDefined(params)
  {
    IntPowOfOne(YearsToRetire(params) * 12);
  }

  /** Retiring now: the whole gap is due at once, and the required corpus is
      based on today's expense. */
  lemma RetiringNowPaysGapAsLumpSum(params: RetirementCorpusInput)
    requires RetirementDefined(params) && YearsToRetire(params) == 0
    ensures RetirementCorpusCalculator(params).monthlySip == Gap(params)
    ensures RetirementCorpusCalculator(params).requiredCorpus
         == params.targetMonthlyExpense * 12.0 / params.postRetirementReturn
  {
  }

  lemma ZeroProductAlgebra(s: real, d: real, g: real, m: real)
    requires d != 0.0 && m != 0.0 && s * d == g * m
    ensures s == 0.0 <==> g == 0.0
  {
  }

  /** In the annuity branch the monthly rate cannot be zero. */
  lemma MonthlyRateNonZero(params: RetirementCorpusInput)
    requires RetirementDefined(params) && YearsToRetire(params) != 0
    ensures MonthlyRate(params) != 0.0
  {
    if MonthlyRate(params) == 0.0 {
      IntPowOfOne(YearsToRetire(params) * 12);
      assert false;
    }
  }

  /** Nothing needs saving exactly when the grown corpus already covers the requirement. */
  lemma SipZeroIffCovered(params: RetirementCorpusInput)
    requires RetirementDefined(params)
    ensures RetirementCorpusCalculator(params).monthlySip == 0.0
        <==> CorpusAtRetirement(params) >= RetirementCorpusCalculator(params).requiredCorpus
  {
    if YearsToRetire(params) != 0 {
      MonthlyRateNonZero(params);
      SipSolvesAnnuityEquation(params);
      ZeroProductAlgebra(RetirementCorpusCalculator(params).monthlySip,
                         IntPow(1.0 + MonthlyRate(params), YearsToRetire(params) * 12) - 1.0,
                         Gap(params), MonthlyRate(params));
    }
  }

  lemma SignAlgebra(s: real, d: real, g: real, m: real)
    requires d != 0.0 && m > 0.0 && g >= 0.0 && s * d == g * m
    ensures d > 0.0 ==> s >= 0.0
    ensures d < 0.0 && g > 0.0 ==> s < 0.0
  {
  }

  /** Saving towards a future retirement at a positive return never asks for a
      negative contribution. */
  lemma SipNonNegative(params: RetirementCorpusInput)
    requires RetirementDefined(params)
    requires YearsToRetire(params) > 0 && params.preRetirementReturn > 0.0
    ensures RetirementCorpusCalculator(params).monthlySip >= 0.0
  {
    PowAboveOne(1.0 + MonthlyRate(params), YearsToRetire(params) * 12);
    SipSolvesAnnuityEquation(params);
    SignAlgebra(RetirementCorpusCalculator(params).monthlySip,
                IntPow(1.0 + MonthlyRate(params), YearsToRetire(params) * 12) - 1.0,
                Gap(params), MonthlyRate(params));
  }

  lemma ReciprocalBelowOne(p: real, x: real)
    requires p > 1.0 && x == 1.0 / p
    ensures x < 1.0
  {
  }

  /** A retirement age already passed is not rejected: with a positive return
      and a shortfall the formula yields a negative contribution. */
  lemma PastRetirementGivesNegativeSip(params: RetirementCorpusInput)
    requires RetirementDefined(params)
    requires YearsToRetire(params) < 0 && params.preRetirementReturn > 0.0
    requires CorpusAtRetirement(params) < RequiredCorpus(params)
    ensures RetirementCorpusCalculator(params).monthlySip < 0.0
  {
    var months := YearsToRetire(params) * 12;
    PowAboveOne(1.0 + MonthlyRate(params), -months);
    ReciprocalBelowOne(Pow(1.0 + MonthlyRate(params), -months), IntPow(1.0 + MonthlyRate(params), months));
    SipSolvesAnnuityEquation(params);
    SignAlgebra(RetirementCorpusCalculator(params).monthlySip,
                IntPow(1.0 + MonthlyRate(params), months) - 1.0,
                Gap(params), MonthlyRate(params));
  }

  /** Depositing the monthly SIP every month until retirement, growing at the
      monthly rate, accumulates exactly the gap. */
  lemma SipReachesGap(params: RetirementCorpusInput)
    requires RetirementDefined(params) && YearsToRetire(params) > 0
    ensures Accumulated(RetirementCorpusCalculator(params).monthlySip, MonthlyRate(params), YearsToRetire(params) * 12)
         == Gap(params)
  {
    MonthlyRateNonZero(params);
    IntPowOfNat(1.0 + MonthlyRate(params), YearsToRetire(params) * 12);
    SipSolvesAnnuityEquation(params);
    AnnuityPaymentAccumulatesTo(RetirementCorpusCalculator(params).monthlySip, MonthlyRate(params),
                                YearsToRetire(params) * 12, Gap(params));
  }
}
