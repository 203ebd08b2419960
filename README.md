# Decision engine calculators in Dafny

A model of the calculator core of the ProgramYourLife decision engine, with proofs about it. The core is made of three parts:

- **The formula library** (`formulas.dfy`, module `Formulas`): future value, present value, the equated monthly installment (EMI) with its zero-rate fallback, net present value discounted from period 1, the weighted score with its length check and zero-total-weight guard, and expected utility.
- **The financial service** (`financial.dfy`, module `Financial`): the invest-versus-prepay decision, and the retirement calculator. The calculator gives the required corpus and the monthly systematic investment (SIP) that closes the gap.
- **The career service** (`career.dfy`, module `Career`): a weighted score per job offer, then the first offer with the highest score.

`results.dfy` (module `Results`) holds the shared `Option`, `Result` and `Error` types. The Python exceptions become `Err` values:

- the two `ValueError`s for a length mismatch;
- the `ValueError` of `max()` over an empty range;
- the `IndexError` of `offers[best_index]`.

All arithmetic is over Dafny's exact `real`. Python's `x ** n` with an `int` exponent is `IntPow`: a natural exponent is repeated multiplication (`Pow`), and a negative one gives the reciprocal. A division the source leaves unguarded becomes a `requires` clause, so it is not an error outcome. This covers a zero post-retirement return, a zero SIP denominator, a zero month count in the flat EMI branch, and `1 + rate == 0` where the code divides by a power of it.

The formula library and the financial service are pure functions. `compare_job_offers` builds its list of scores with a loop, so it is the method `Career.CompareJobOffers`. The method's loop invariant ties the scores so far to the pure specification `Career.RowScores`. The method is proved to return exactly `Career.Comparison(params)`, and the lemmas below are about that function.

Two definitions act as independent references for the annuity formulas: `Formulas.Accumulated` (the balance of equal end-of-period deposits) and `Formulas.LoanBalance` (the balance of an amortising loan). The proofs use them to show two things. Paying the EMI every month clears the loan exactly. Depositing the SIP every month reaches exactly the gap.

The SIP follows the code rather than the comment above it in `decision_engine/services/financial.py:72`. The comment says the formula ignores monthly compounding. The formula at line 78 is the annuity formula, which compounds monthly at `pre_retirement_return / 12`, and `Financial.SipReachesGap` proves that. The current corpus (lines 63-65), by contrast, is grown yearly at the full `pre_retirement_return`.

## Model

| member | source | states |
|---|---|---|
| Formulas.PowSign | decision_engine/formulas.py:8 | A natural power of a non-zero base is non-zero, and a power of a non-negative (positive) base is non-negative (positive). |
| Formulas.PowAdd | decision_engine/formulas.py:8 | Exponents add: `b^(m+n) == b^m * b^n`. |
| Formulas.PowStrictlyIncreasing | decision_engine/formulas.py:8 | For `0 <= a < b` and a positive exponent, `a^n < b^n`: a higher growth factor compounds to strictly more. |
| Formulas.PowAboveOne | decision_engine/formulas.py:8 | A base above one raised to a positive exponent stays above one. |
| Formulas.IntPow | decision_engine/formulas.py:8 | Python's `**` with an int exponent. It is defined for a zero base only when the exponent is non-negative. It is non-zero for a non-zero base and positive for a positive base. |
| Formulas.FutureValue | decision_engine/formulas.py:6-8 | Zero periods leave the amount unchanged. At a growth factor above zero the result is positive exactly when the present value is. |
| Formulas.FutureValueAtZeroRate | decision_engine/formulas.py:6-8 | At a zero rate the future value equals the present value, for any number of periods, negative ones included. |
| Formulas.FutureValueCompose | decision_engine/formulas.py:6-8 | Compounding for `a` periods and then for `b` more equals compounding for `a + b`. |
| Formulas.PresentValue | decision_engine/formulas.py:11-13 | Zero periods leave the amount unchanged. At a growth factor above zero the result is positive exactly when the future value is. |
| Formulas.FutureValueOfPresentValue | decision_engine/formulas.py:6-13 | Round trip: `future_value(present_value(fv, r, n), r, n) == fv` whenever `1 + r != 0`, for every integer `n`. |
| Formulas.PresentValueOfFutureValue | decision_engine/formulas.py:6-13 | Round trip the other way: `present_value(future_value(pv, r, n), r, n) == pv` whenever `1 + r != 0`. |
| Formulas.Emi | decision_engine/formulas.py:16-21 | At a zero rate, the installment times the month count is the principal (the flat split). Otherwise it solves the annuity equation `emi * ((1+m)^n - 1) == principal * m * (1+m)^n` with `m = annual_rate / 12`. |
| Formulas.EmiRepaysLoan | decision_engine/formulas.py:16-21 | For a positive month count, in both branches, paying the installment every month leaves a loan balance of exactly zero after the last month. |
| Formulas.Npv | decision_engine/formulas.py:24-26 | The NPV of no cashflows is 0. |
| Formulas.NpvOfSingleCashflow | decision_engine/formulas.py:24-26 | The first cashflow is discounted by one period, not zero: `npv([c], r) == c / (1 + r)`. |
| Formulas.NpvDiscountsFirstCashflowOnce | decision_engine/formulas.py:26 | Each cashflow is discounted one period more than the one before it: `npv(c0 :: rest, r) == (c0 + npv(rest, r)) / (1 + r)`. |
| Formulas.NpvAtZeroRate | decision_engine/formulas.py:26 | At a zero rate the NPV is the plain sum of the cashflows. |
| Formulas.WeightedScore | decision_engine/formulas.py:29-36 | Fails with the length-mismatch error exactly when the lengths differ, and is 0.0 when the weights sum to zero. |
| Formulas.WeightedScoreIsWeightedAverage | decision_engine/formulas.py:33-36 | With equal lengths and a non-zero total weight, the score times the total weight is the weighted sum `Σ s_i * w_i`. |
| Formulas.DotAbove | decision_engine/formulas.py:36 | With non-negative weights and every score at least `lo`, the weighted sum is at least `lo` times the total weight. |
| Formulas.DotBelow | decision_engine/formulas.py:36 | With non-negative weights and every score at most `hi`, the weighted sum is at most `hi` times the total weight. |
| Formulas.WeightedScoreBetween | decision_engine/formulas.py:29-36 | With non-negative weights and equal lengths the score is defined. If the weights are not all zero, it lies between any lower and upper bound of the scores. |
| Formulas.ExpectedUtility | decision_engine/formulas.py:39-43 | Fails with the length-mismatch error exactly when the lengths differ. |
| Formulas.ExpectedUtilityRiskNeutral | decision_engine/formulas.py:39-43 | With the default risk aversion 1 the expected utility is `Σ p_i * v_i`. |
| Formulas.ExpectedUtilityIsWeightedScore | decision_engine/formulas.py:29-43 | With the default risk aversion 1 and probabilities summing to one, the expected utility equals the weighted score of the values under those probabilities. |
| Financial.ComputeInvestmentVsPrepayment | decision_engine/services/financial.py:24-41 | The result carries the investment amount grown at the expected return and the debt grown at the debt rate, over the same horizon. The recommendation is "Invest" exactly when the first is strictly larger. Otherwise, ties included, it is "Prepay Debt". |
| Financial.InvestIffReturnBeatsDebtRate | decision_engine/services/financial.py:24-35 | Same positive amount, positive horizon, rates above -1: the recommendation is "Invest" exactly when the expected return exceeds the debt rate. |
| Financial.InvestExample | decision_engine/services/financial.py:24-41 | 100000 at 10% against 100000 at 8% over 5 years grows to 161051 against 146932.80768 and recommends "Invest". |
| Financial.RiskFieldsIgnored | decision_engine/services/financial.py:6-41 | Inputs that differ only in `risk_tolerance` and `volatility` give the same result. |
| Financial.RequiredCorpusIsPerpetuity | decision_engine/services/financial.py:62-69 | The required corpus times the post-retirement return equals twelve inflation-adjusted monthly expenses: a perpetuity whose yearly yield pays the expenses. |
| Financial.Gap | decision_engine/services/financial.py:70 | The gap is `max(required - fv_current, 0)`. It is never negative, and it is zero exactly when the grown corpus covers the requirement. |
| Financial.RetirementCorpusCalculator | decision_engine/services/financial.py:61-80 | The result carries the required corpus. With zero years left the SIP is the whole gap. |
| Financial.SipSolvesAnnuityEquation | decision_engine/services/financial.py:72-78 | With years to go, the SIP solves `sip * ((1+m)^months - 1) == gap * m` with `m = pre_retirement_return / 12` and `months = 12 * years`. |
| Financial.RetiringNowPaysGapAsLumpSum | decision_engine/services/financial.py:66-74 | With `retirement_age == current_age`, the SIP equals the gap and the required corpus is `target_monthly_expense * 12 / post_retirement_return`. |
| Financial.ZeroReturnLeavesSipUndefined | decision_engine/services/financial.py:75-78 | With months to go and a zero pre-retirement return, the SIP denominator is zero, so the inputs fall outside the calculator's precondition. |
| Financial.SipZeroIffCovered | decision_engine/services/financial.py:70-78 | In both branches the SIP is zero exactly when the grown current corpus already covers the required corpus. |
| Financial.SipNonNegative | decision_engine/services/financial.py:75-78 | With years to go and a positive pre-retirement return, the SIP is non-negative. |
| Financial.PastRetirementGivesNegativeSip | decision_engine/services/financial.py:62-78 | A negative `years_to_retire` is not rejected. With a positive return and a shortfall, the formula then yields a negative SIP. |
| Financial.SipReachesGap | decision_engine/services/financial.py:72-78 | With years to go, depositing the SIP every month at the monthly rate accumulates exactly the gap after `12 * years` months. |
| Career.FirstArgMax | decision_engine/services/career.py:32 | The chosen index is in range and its score is maximal. Every earlier score is strictly smaller, so the first maximum wins. |
| Career.RowScores | decision_engine/services/career.py:29-31 | The scores of the rows in order. A result has one score per row, and the only failure is the length-mismatch error. |
| Career.Comparison | decision_engine/services/career.py:28-34 | The outcome of the comparison. It is the empty-max error exactly when there are no score rows. A result has one score per row and names the label of one of the offers. |
| Career.CompareJobOffers | decision_engine/services/career.py:28-34 | The loop over the score rows, the argmax and the label lookup return exactly the specified comparison, errors included. |
| Career.RowScoresSpec | decision_engine/services/career.py:29-31 | Scoring succeeds exactly when every row has one entry per weight, and otherwise fails with the length-mismatch error. On success there is one score per row, in input order, each equal to `weighted_score(row, weights)`. |
| Career.ComparisonRejectsMismatchedRow | decision_engine/services/career.py:30-31 | Any row whose length differs from the weights makes the comparison fail with the length-mismatch error. |
| Career.ComparisonRejectsEmptyMatrix | decision_engine/services/career.py:32 | An empty score matrix fails, since there is no maximum of an empty range. |
| Career.ComparisonSucceeds | decision_engine/services/career.py:28-34 | Well-formed rows, at least one row and at least as many offers as rows give a result. |
| Career.ComparisonFailsOnlyForMissingOffer | decision_engine/services/career.py:32-33 | With well-formed, non-empty rows, the only possible failure is the index error. It needs fewer offers than rows. |
| Career.ComparisonPicksFirstBest | decision_engine/services/career.py:29-33 | A result has one weighted score per row, in order. `best_offer` is the label of an offer whose score is maximal and strictly above every earlier score. |
| Career.OfferDetailsIgnored | decision_engine/services/career.py:7-34 | Offers that agree on their labels give the same comparison, whatever their compensation, equity, bonus and probability. |
| Career.ComparisonExample | decision_engine/services/career.py:28-34 | Weights [0.6, 0.4] with rows [8, 7] and [9, 5] give scores [7.6, 7.4], and the first offer wins. |

## Left out

- `cli.py` is not part of this model: argument parsing, reading the JSON file and printing the result records are input and output.
- Floating point: everything is exact `real` arithmetic. The round trips, the tie rule and the example values hold in the reals, not necessarily in IEEE doubles.
- Formulas.ExpectedUtility: the risk aversion is a natural number. A fractional or negative exponent (`v ** 0.5`, `v ** -1.0`) has no counterpart over `real`, and for a negative value it is complex in Python.
- Division by zero (`ZeroDivisionError`) is not an error outcome of the model. The inputs that would raise it are excluded by `requires` clauses (`Formulas.EmiDefined`, `Financial.RetirementDefined`, `1 + rate != 0`), and `Financial.ZeroReturnLeavesSipUndefined` shows the unguarded zero-return case.
- The message strings of the Python exceptions are not modelled; each error is a constructor of `Results.Error`.
- The field `label` of `JobOffer` is called `offerLabel` because `label` is a reserved word in Dafny. The dataclass defaults (`risk_tolerance=None`, `volatility=None`, `equity_value=0.0`, `bonus=0.0`, `probability=1.0`) and the default `risk_aversion=1.0` of `expected_utility` are Dafny default values.
- Python's `max(x, 0)` can return the int `0` rather than a float. Over `real` both are the same value.
