/** Job-offer comparison: one weighted score per offer, then the first offer
    with the highest score. */
module Career {
  import opened Results
  import opened Formulas

  datatype JobOffer = JobOffer(
    offerLabel: string,  // `label` in the source; a reserved word in Dafny
    compensation: real,
    equityValue: real := 0.0,
    bonus: real := 0.0,
    probability: real := 1.0)

  /** `criteriaScores` is a matrix with one row per offer and one column per criterion. */
  datatype JobOfferComparisonInput = JobOfferComparisonInput(
    offers: seq<JobOffer>,
    criteriaWeights: seq<real>,
    criteriaScores: seq<seq<real>>)

  datatype JobOfferComparisonResult = JobOfferComparisonResult(
    weightedScores: seq<real>,
    bestOffer: string)

  /** The index Python's `max(range(len(s)), key=...)` picks: a left-to-right
      scan that moves only on a strict improvement, so the first maximum wins. */
  function FirstArgMax(s: seq<real>): (k: nat)
    requires |s| > 0
    ensures k < |s|
    ensures forall i :: 0 <= i < |s| ==> s[i] <= s[k]
    ensures forall i :: 0 <= i < k ==> s[i] < s[k]
  {
    if |s| == 1 then 0
    else
      var k := FirstArgMax(s[..|s| - 1]);
      if s[|s| - 1] > s[k] then |s| - 1 else k
  }

  /** The scores of the rows in order, failing at the first row whose length
      differs from the weights'. */
  function RowScores(rows: seq<seq<real>>, weights: seq<real>): (r: Result<seq<real>>)
    ensures r.Ok? ==> |r.value| == |rows|
    ensures r.Err? ==> r.error == ScoresWeightsLengthMismatch
  {
    if rows == [] then Ok([])
    else
      match RowScores(rows[..|rows| - 1], weights)
      case Err(e) => Err(e)
      case Ok(prefix) =>
        match WeightedScore(rows[|rows| - 1], weights)
        case Err(e) => Err(e)
        case Ok(s) => Ok(prefix + [s])
  }

  /** The outcome `compare_job_offers` specifies. */
  function Comparison(params: JobOfferComparisonInput): (r: Result<JobOfferComparisonResult>)
    ensures r == Err(EmptyMax) <==> params.criteriaScores == []
    ensures r.Ok? ==> |r.value.weightedScores| == |params.criteriaScores|
                      && r.value.bestOffer in set i | 0 <= i < |params.offers| :: params.offers[i].offerLabel
  {
    match RowScores(params.criteriaScores, params.criteriaWeights)
    case Err(e) => Err(e)
    case Ok(scores) =>
      if |scores| == 0 then Err(EmptyMax)
      else
        var best := FirstArgMax(scores);
        if best < |params.offers| then Ok(JobOfferComparisonResult(scores, params.offers[best].offerLabel))
        else Err(OfferIndexOutOfRange)
  }

  lemma {:induction false} RowScoresErrorPersists(rows: seq<seq<real>>, weights: seq<real>, j: nat)
    requires j <= |rows| && RowScores(rows[..j], weights).Err?
    ensures RowScores(rows, weights) == RowScores(rows[..j], weights)
    decreases |rows|
  {
    if j < |rows| {
      var shorter := rows[..|rows| - 1];
      assert shorter[..j] == rows[..j];
      RowScoresErrorPersists(shorter, weights, j);
    } else {
      assert rows[..j] == rows;
    }
  }

  /** Scores every row with the criteria weights, in order, and picks the
      first best offer. */
  method CompareJobOffers(params: JobOfferComparisonInput) returns (r: Result<JobOfferComparisonResult>)
    ensures r == Comparison(params)
  {
    var rows, weights := params.criteriaScores, params.criteriaWeights;
    var scores: seq<real> := [];
    for k := 0 to |rows|
      invariant RowScores(rows[..k], weights) == Ok(scores)
    {
      var score := WeightedScore(rows[k], weights);
      assert rows[..k + 1][..k] == rows[..k];
      if score.Err? {
        RowScoresErrorPersists(rows, weights, k + 1);
        return Err(score.error);
      }
      scores := scores + [score.value];
    }
    assert rows[..|rows|] == rows;
    if |scores| == 0 {
      return Err(EmptyMax);
    }
    var best := FirstArgMax(scores);
    if best >= |params.offers| {
      return Err(OfferIndexOutOfRange);
    }
    r := Ok(JobOfferComparisonResult(scores, params.offers[best].offerLabel));
  }

  /** Scoring succeeds exactly when every row has one score per weight; then
      there is one score per row, in order, each the row's weighted score. */
  lemma {:induction false} RowScoresSpec(rows: seq<seq<real>>, weights: seq<real>)
    ensures RowScores(rows, weights).Ok? <==> forall i :: 0 <= i < |rows| ==> |rows[i]| == |weights|
    ensures RowScores(rows, weights).Err? ==> RowScores(rows, weights).error == ScoresWeightsLengthMismatch
    ensures RowScores(rows, weights).Ok? ==>
              |RowScores(rows, weights).value| == |rows|
              && forall i :: 0 <= i < |rows| ==>
                   RowScores(rows, weights).value[i] == WeightedScore(rows[i], weights).value
  {
    if rows != [] {
      var shorter := rows[..|rows| - 1];
      RowScoresSpec(shorter, weights);
      assert forall i :: 0 <= i < |shorter| ==> shorter[i] == rows[i];
    }
  }

  /** A row whose length differs from the weights' aborts the comparison with
      the length-mismatch error. */
  lemma ComparisonRejectsMismatchedRow(params: JobOfferComparisonInput, i: nat)
    requires i < |params.criteriaScores| && |params.criteriaScores[i]| != |params.criteriaWeights|
    ensures Comparison(params) == Err(ScoresWeightsLengthMismatch)
  {
    RowScoresSpec(params.criteriaScores, params.criteriaWeights);
  }

  /** An empty score matrix has no maximum. */
  lemma ComparisonRejectsEmptyMatrix(params: JobOfferComparisonInput)
    requires params.criteriaScores == []
    ensures Comparison(params) == Err(EmptyMax)
  {
  }

  /** With well-formed rows, at least one row and an offer for every row, the
      comparison succeeds. */
  lemma ComparisonSucceeds(params: JobOfferComparisonInput)
    requires forall i :: 0 <= i < |params.criteriaScores| ==> |params.criteriaScores[i]| == |params.criteriaWeights|
    requires |params.criteriaScores| > 0 && |params.offers| >= |params.criteriaScores|
    ensures Comparison(params).Ok?
  {
    RowScoresSpec(params.criteriaScores, params.criteriaWeights);
  }

  /** With well-formed, non-empty rows the only failure left is a winning row
      that has no offer, which needs fewer offers than rows. */
  lemma ComparisonFailsOnlyForMissingOffer(params: JobOfferComparisonInput)
    requires forall i :: 0 <= i < |params.criteriaScores| ==> |params.criteriaScores[i]| == |params.criteriaWeights|
    requires |params.criteriaScores| > 0 && Comparison(params).Err?
    ensures Comparison(params).error == OfferIndexOutOfRange
    ensures |params.offers| < |params.criteriaScores|
  {
    RowScoresSpec(params.criteriaScores, params.criteriaWeights);
  }

  /** A successful comparison lists one weighted score per row, in input
      order, and names the offer of the first row with the highest score. */
  lemma ComparisonPicksFirstBest(params: JobOfferComparisonInput)
    requires Comparison(params).Ok?
    ensures |Comparison(params).value.weightedScores| == |params.criteriaScores|
    ensures forall i :: 0 <= i < |params.criteriaScores| ==>
              WeightedScore(params.criteriaScores[i], params.criteriaWeights)
              == Ok(Comparison(params).value.weightedScores[i])
    ensures exists best :: 0 <= best < |params.criteriaScores| && best < |params.offers|
              && Comparison(params).value.bestOffer == params.offers[best].offerLabel
              && (forall i :: 0 <= i < |params.criteriaScores| ==>
                    Comparison(params).value.weightedScores[i] <= Comparison(params).value.weightedScores[best])
              && (forall i :: 0 <= i < best ==>
                    Comparison(params).value.weightedScores[i] < Comparison(params).value.weightedScores[best])
  {
    RowScoresSpec(params.criteriaScores, params.criteriaWeights);
    var scores := RowScores(params.criteriaScores, params.criteriaWeights).value;
    var best := FirstArgMax(scores);
    assert best < |params.offers| && Comparison(params).value.bestOffer == params.offers[best].offerLabel;
  }

  /** Compensation, equity, bonus and probability play no part: only the labels
      of the offers matter. */
  lemma OfferDetailsIgnored(a: JobOfferComparisonInput, b: JobOfferComparisonInput)
    requires a.criteriaWeights == b.criteriaWeights && a.criteriaScores == b.criteriaScores
    requires |a.offers| == |b.offers|
    requires forall i :: 0 <= i < |a.offers| ==> a.offers[i].offerLabel == b.offers[i].offerLabel
    ensures Comparison(a) == Comparison(b)
  {
  }

  lemma ExampleRowScores()
    ensures RowScores([[8.0, 7.0], [9.0, 5.0]], [0.6, 0.4]) == Ok([7.6, 7.4])
  {
    var rows: seq<seq<real>> := [[8.0, 7.0], [9.0, 5.0]];
    var weights: seq<real> := [0.6, 0.4];
    assert Sum(weights) == 1.0;
    assert WeightedScore(rows[0], weights) == Ok(7.6);
    assert WeightedScore(rows[1], weights) == Ok(7.4);
    var firstRow := rows[..1];
    assert firstRow[..0] == [];
    assert firstRow[0] == rows[0];
    var noScores: seq<real> := [];
    assert RowScores(firstRow, weights) == Ok(noScores + [7.6]);
    assert noScores + [7.6] == [7.6];
    assert rows[..|rows| - 1] == firstRow;
    assert RowScores(rows, weights) == Ok([7.6] + [7.4]);
    assert [7.6] + [7.4] == [7.6, 7.4];
  }

  /** Weights 0.6 and 0.4 over the rows [8, 7] and [9, 5] score 7.6 and 7.4,
      so the first offer wins. */
  lemma ComparisonExample(first: JobOffer, second: JobOffer)
    ensures Comparison(JobOfferComparisonInput([first, second], [0.6, 0.4], [[8.0, 7.0], [9.0, 5.0]]))
         == Ok(JobOfferComparisonResult([7.6, 7.4], first.offerLabel))
  {
    ExampleRowScores();
    assert FirstArgMax([7.6, 7.4]) == 0;
  }
}
