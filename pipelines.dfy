/** The `topsis` functions of the Python copies: numeric coercion of the
    criteria columns, scoring, ranking and the result table. The package
    and the local server rank densely; the Streamlit page and the API
    handler rank by position. Each copy reports failures in its own words. */
module Pipelines {
  import opened Common
  import Scorer
  import Ranking
  import Frames
  import PackageValidation

  datatype RankRule = Dense | Positional

  /** The ranks a copy assigns to its scores. */
  function Ranks(scores: seq<real>, rule: RankRule): (ranks: seq<nat>)
    ensures |ranks| == |scores|
  {
    match rule
    case Dense => Ranking.DenseRank(scores)
    case Positional => Ranking.PositionalRank(scores, Ranking.Argsort(scores))
  }

  /** Why scoring a table fails. */
  datatype Failure = NotNumeric | ZeroColumn | Undefined

  /** The weights and impacts fit the criteria columns of the table. */
  predicate Fits(t: Frames.Table, weights: seq<real>, impacts: seq<Impact>)
  {
    |t.header| >= 1 && |weights| == |t.header| - 1 && |impacts| == |weights|
  }

  /** Every closeness is `0 / 0`: no alternative is nearer to one ideal
      point than to the other. */
  predicate ScoreUndefined(t: Frames.Table, weights: seq<real>, impacts: seq<Impact>,
                           parse: string -> Option<real>, sqrt: real -> real)
    requires Frames.WellFormed(t) && Fits(t, weights, impacts) && IsSqrt(sqrt)
  {
    && Frames.AllNumeric(t, parse)
    && Scorer.Scores(Frames.Criteria(t, parse).value, weights, impacts, sqrt) == Err(Scorer.UndefinedScore)
  }

  /** With positive weights the scores are all `0 / 0` exactly when the
      table is numeric, has an alternative, has no all-zero column, and
      every criteria column holds a single value. */
  lemma ScoreUndefinedIffConstant(t: Frames.Table, weights: seq<real>, impacts: seq<Impact>,
                                  parse: string -> Option<real>, sqrt: real -> real)
    requires Frames.WellFormed(t) && Fits(t, weights, impacts) && IsSqrt(sqrt) && AllPositive(weights)
    ensures ScoreUndefined(t, weights, impacts, parse, sqrt) <==>
      && Frames.AllNumeric(t, parse)
      && |t.rows| > 0
      && var x := Frames.Criteria(t, parse).value;
         && (forall j :: 0 <= j < |weights| ==> !Scorer.ZeroColumn(x, j))
         && (forall j :: 0 <= j < |weights| ==> Scorer.ConstantColumn(x, j))
  {
    if Frames.AllNumeric(t, parse) {
      Scorer.UndefinedScoreIffConstantInput(Frames.Criteria(t, parse).value, weights, impacts, sqrt);
    }
  }

  /** The positional ranks of NaN scores: `argsort` sees every NaN as tied,
      so the ranks are those of a constant key, a numbering 1 .. n. */
  function TiedRanks(n: nat): (ranks: seq<nat>)
    ensures |ranks| == n
    ensures forall i :: 0 <= i < n ==> 1 <= ranks[i] <= n
    ensures forall i, k :: 0 <= i < k < n ==> ranks[i] != ranks[k]
  {
    var keys := seq(n, i => 0.0);
    Ranking.PositionalRankPermutation(keys, Ranking.Argsort(keys));
    Ranking.PositionalRank(keys, Ranking.Argsort(keys))
  }

  /** The shared body: criteria matrix, scores, ranks and the result table.
      When every score is `0 / 0` the dense rank fails (its `.astype(int)`
      raises on NaN), while the positional rank returns the NaN scores. */
  function Topsis(t: Frames.Table, weights: seq<real>, impacts: seq<Impact>, parse: string -> Option<real>,
                  sqrt: real -> real, rule: RankRule): (r: Result<Frames.Table, Failure>)
    requires Frames.WellFormed(t) && Fits(t, weights, impacts) && IsSqrt(sqrt)
    ensures r.Ok? ==> Frames.WellFormed(r.value) && |r.value.rows| == |t.rows|
  {
    match Frames.Criteria(t, parse)
    case None => Err(NotNumeric)
    case Some(x) =>
      match Scorer.Scores(x, weights, impacts, sqrt)
      case Err(e) =>
        if e == Scorer.NormalizationError then Err(ZeroColumn)
        else if rule == Dense then Err(Undefined)
        else
          var r := Frames.ResultTable(t, Frames.NaNCells(|t.rows|), TiedRanks(|t.rows|));
          assert |r.rows| == |t.rows|;
          Ok(r)
      case Ok(s) =>
        var r := Frames.ResultTable(t, Frames.ScoreCells(s), Ranks(s, rule));
        assert |r.rows| == |t.rows|;
        Ok(r)
  }

  /** Failures of `Topsis` and only those: a non-numeric criteria cell, then
      an all-zero column, then (for dense ranks only) the undefined score.
      A success holds the scores in [0, 1] and their ranks, or, under
      positional ranks, the NaN scores of an all-constant table. */
  lemma TopsisOutcome(t: Frames.Table, weights: seq<real>, impacts: seq<Impact>, parse: string -> Option<real>,
                      sqrt: real -> real, rule: RankRule)
    requires Frames.WellFormed(t) && Fits(t, weights, impacts) && IsSqrt(sqrt)
    ensures Topsis(t, weights, impacts, parse, sqrt, rule) == Err(NotNumeric) <==> !Frames.AllNumeric(t, parse)
    ensures Topsis(t, weights, impacts, parse, sqrt, rule) == Err(ZeroColumn) <==>
      && Frames.AllNumeric(t, parse)
      && exists j :: 0 <= j < |weights| && Scorer.ZeroColumn(Frames.Criteria(t, parse).value, j)
    ensures Topsis(t, weights, impacts, parse, sqrt, rule) == Err(Undefined) <==>
      rule == Dense && ScoreUndefined(t, weights, impacts, parse, sqrt)
    ensures Topsis(t, weights, impacts, parse, sqrt, rule).Ok? && !ScoreUndefined(t, weights, impacts, parse, sqrt) ==>
      var x := Frames.Criteria(t, parse).value;
      var s := Scorer.Scores(x, weights, impacts, sqrt);
      && s.Ok?
      && Topsis(t, weights, impacts, parse, sqrt, rule).value
           == Frames.ResultTable(t, Frames.ScoreCells(s.value), Ranks(s.value, rule))
      && (forall i :: 0 <= i < |t.rows| ==> 0.0 <= s.value[i] <= 1.0)
    ensures Topsis(t, weights, impacts, parse, sqrt, rule).Ok? && ScoreUndefined(t, weights, impacts, parse, sqrt) ==>
      && rule == Positional
      && Topsis(t, weights, impacts, parse, sqrt, rule).value
           == Frames.ResultTable(t, Frames.NaNCells(|t.rows|), TiedRanks(|t.rows|))
  {
    var r := Topsis(t, weights, impacts, parse, sqrt, rule);
    if !Frames.AllNumeric(t, parse) {
      assert r == Err(NotNumeric);
      assert !ScoreUndefined(t, weights, impacts, parse, sqrt);
    } else {
      var x := Frames.Criteria(t, parse).value;
      var s := Scorer.Scores(x, weights, impacts, sqrt);
      Scorer.NormalizationErrorIffZeroColumn(x, weights, impacts, sqrt);
      if s.Ok? {
        Scorer.ScoresInUnitInterval(x, weights, impacts, sqrt);
        assert r == Ok(Frames.ResultTable(t, Frames.ScoreCells(s.value), Ranks(s.value, rule)));
      } else if s.error == Scorer.NormalizationError {
        assert r == Err(ZeroColumn);
      } else if rule == Dense {
        assert r == Err(Undefined);
      } else {
        assert r == Ok(Frames.ResultTable(t, Frames.NaNCells(|t.rows|), TiedRanks(|t.rows|)));
      }
    }
  }

  /** The ranking rule decides the rank column and the all-constant case:
      the dense run succeeds exactly when the positional run succeeds with
      defined scores, both fail the same way otherwise, and two successes
      have the same header, the same scores and the same input columns. */
  lemma RuleOnlyChangesRanks(t: Frames.Table, weights: seq<real>, impacts: seq<Impact>,
                             parse: string -> Option<real>, sqrt: real -> real)
    requires Frames.WellFormed(t) && Fits(t, weights, impacts) && IsSqrt(sqrt)
    ensures Topsis(t, weights, impacts, parse, sqrt, Dense).Ok? <==>
      Topsis(t, weights, impacts, parse, sqrt, Positional).Ok? && !ScoreUndefined(t, weights, impacts, parse, sqrt)
    ensures ScoreUndefined(t, weights, impacts, parse, sqrt) ==>
      Topsis(t, weights, impacts, parse, sqrt, Dense) == Err(Undefined)
    ensures Topsis(t, weights, impacts, parse, sqrt, Positional).Err? ==>
      Topsis(t, weights, impacts, parse, sqrt, Dense) == Topsis(t, weights, impacts, parse, sqrt, Positional)
    ensures Topsis(t, weights, impacts, parse, sqrt, Dense).Ok? ==>
      var d := Topsis(t, weights, impacts, parse, sqrt, Dense).value;
      var p := Topsis(t, weights, impacts, parse, sqrt, Positional).value;
      && d.header == p.header
      && Frames.Column(d, "Topsis Score") == Frames.Column(p, "Topsis Score")
      && forall other :: other in t.header && other != "Topsis Score" && other != "Rank" ==>
           Frames.Column(d, other) == Frames.Column(p, other)
  {
    TopsisOutcome(t, weights, impacts, parse, sqrt, Dense);
    TopsisOutcome(t, weights, impacts, parse, sqrt, Positional);
    if Topsis(t, weights, impacts, parse, sqrt, Dense).Ok? {
      var s := Scorer.Scores(Frames.Criteria(t, parse).value, weights, impacts, sqrt).value;
      Frames.ResultColumns(t, Frames.ScoreCells(s), Ranks(s, Dense));
      Frames.ResultColumns(t, Frames.ScoreCells(s), Ranks(s, Positional));
    }
  }

  /** The ranks of a successful run: dense ranks give rank 1 to every best
      alternative; positional ranks number the alternatives 1 .. n. Either
      way a strictly better score has a strictly smaller rank. */
  lemma RanksOrderScores(scores: seq<real>, rule: RankRule, i: nat, k: nat)
    requires i < |scores| && k < |scores| && scores[i] > scores[k]
    ensures Ranks(scores, rule)[i] < Ranks(scores, rule)[k]
  {
    match rule
    case Dense => Ranking.DenseRankStrict(scores, i, k);
    case Positional => Ranking.PositionalRankStrict(scores, Ranking.Argsort(scores), i, k);
  }

  // ---------------------------------------------------------------
  // The step-by-step body
  // ---------------------------------------------------------------

  /** The numbers of coerced cells that are all numbers. */
  function Numbers(data: seq<seq<Frames.Cell>>): (x: Scorer.Matrix)
    requires forall i, k :: 0 <= i < |data| && 0 <= k < |data[i]| ==> data[i][k].Number?
    ensures |x| == |data| && forall i :: 0 <= i < |data| ==> |x[i]| == |data[i]|
  {
    seq(|data|, i requires 0 <= i < |data| =>
      seq(|data[i]|, k requires 0 <= k < |data[i]| => data[i][k].r))
  }

  /** The body of the package's `topsis` (and of the local server's copy):
      the coercion loop, the null check, the vectorised normalisation and
      weighting, the loop over ideal points, the distances and scores, the
      dense ranks, and a new result frame. The input frame is left
      untouched. */
  method RunTopsis(df: Frames.Frame, weights: seq<real>, impacts: seq<Impact>, parse: string -> Option<real>,
                   sqrt: real -> real) returns (r: Result<Frames.Frame, Failure>)
    requires Frames.WellFormed(df.Value()) && Fits(df.Value(), weights, impacts) && IsSqrt(sqrt)
    ensures r.Err? <==> Topsis(df.Value(), weights, impacts, parse, sqrt, Dense).Err?
    ensures r.Err? ==> r.error == Topsis(df.Value(), weights, impacts, parse, sqrt, Dense).error
    ensures r.Ok? ==> fresh(r.value) && r.value.Value() == Topsis(df.Value(), weights, impacts, parse, sqrt, Dense).value
    ensures df.Value() == old(df.Value())
  {
    var t := df.Value();
    var n := |weights|;
    var data: seq<seq<Frames.Cell>> := Frames.CoerceCriteria(t, parse);
    Frames.CoercedHasMissingIff(t, parse);
    if exists i, k :: 0 <= i < |t.rows| && 0 <= k < n && data[i][k].Missing? {
      return Err(NotNumeric);
    }
    var x := Numbers(data);
    assert x == Frames.Criteria(t, parse).value by {
      var y := Frames.Criteria(t, parse).value;
      forall i | 0 <= i < |x| ensures x[i] == y[i] {
        forall k | 0 <= k < n ensures x[i][k] == y[i][k] {
          assert data[i][k] == Frames.Coerce(t.rows[i][k + 1], parse);
        }
      }
    }
    var scores := Scorer.ComputeScores(x, weights, impacts, sqrt);
    if scores.Err? {
      return Err(if scores.error == Scorer.NormalizationError then ZeroColumn else Undefined);
    }
    var ranks := Ranks(scores.value, Dense);
    var result := Frames.BuildResult(df, Frames.ScoreCells(scores.value), ranks);
    return Ok(result);
  }

  /** The body of the `topsis` of the Streamlit page and the API handler:
      the criteria cells read with `astype(float)` (the callers have
      checked them), then the same steps with positional ranks. Only the
      zero check raises; `0 / 0` scores come back as NaN. */
  method RunArrayTopsis(df: Frames.Frame, weights: seq<real>, impacts: seq<Impact>, parse: string -> Option<real>,
                        sqrt: real -> real) returns (r: Result<Frames.Frame, Failure>)
    requires Frames.WellFormed(df.Value()) && Fits(df.Value(), weights, impacts) && IsSqrt(sqrt)
    requires Frames.AllNumeric(df.Value(), parse)
    ensures r.Err? <==> Topsis(df.Value(), weights, impacts, parse, sqrt, Positional).Err?
    ensures r.Err? ==> r.error == ZeroColumn
    ensures r.Ok? ==> fresh(r.value) && r.value.Value() == Topsis(df.Value(), weights, impacts, parse, sqrt, Positional).value
    ensures df.Value() == old(df.Value())
  {
    var t := df.Value();
    var x := Frames.Criteria(t, parse).value;
    var scores := Scorer.ComputeScores(x, weights, impacts, sqrt);
    if scores.Err? {
      if scores.error == Scorer.NormalizationError {
        return Err(ZeroColumn);
      }
      var nan := Frames.BuildResult(df, Frames.NaNCells(|t.rows|), TiedRanks(|t.rows|));
      return Ok(nan);
    }
    var ranks := Ranks(scores.value, Positional);
    var result := Frames.BuildResult(df, Frames.ScoreCells(scores.value), ranks);
    return Ok(result);
  }

  // ---------------------------------------------------------------
  // The copies and their messages
  // ---------------------------------------------------------------

  /** The text the package reports when every alternative scores `0 / 0`.
      As written the package has none and crashes; see the findings. */
  const UndefinedText := "TOPSIS score is undefined: every criteria column is constant."

  /** `error_exit` texts of the package's `topsis`. */
  function PackageMessage(f: Failure): string
  {
    match f
    case NotNumeric => "From 2nd to last columns must contain numeric values only."
    case ZeroColumn => "Normalization error: one or more criteria columns have all zeros."
    case Undefined => UndefinedText
  }

  /** The package's `topsis` on an already read table: the column count,
      the numeric check, `parse_weights_impacts`, then scoring with dense
      ranks. An error is the text `error_exit` prints after "Error: ". */
  function PackageTopsis(t: Frames.Table, weightsStr: string, impactsStr: string,
                         parse: string -> Option<real>, sqrt: real -> real): (r: Result<Frames.Table, string>)
    requires Frames.WellFormed(t) && IsSqrt(sqrt)
    ensures r.Ok? ==> |t.header| >= 3 && Frames.AllNumeric(t, parse)
    ensures r.Ok? ==> Frames.WellFormed(r.value) && |r.value.rows| == |t.rows|
  {
    if |t.header| < 3 then Err("Input file must contain three or more columns.")
    else if !Frames.AllNumeric(t, parse) then Err(PackageMessage(NotNumeric))
    else match PackageValidation.ParseWeightsImpacts(weightsStr, impactsStr, |t.header| - 1, parse)
      case Err(e) => Err(PackageValidation.Message(e))
      case Ok(v) =>
        match Topsis(t, v.weights, v.impacts, parse, sqrt, Dense)
        case Err(f) => Err(PackageMessage(f))
        case Ok(result) => Ok(result)
  }

  /** The package checks the table before the weights and impacts: a table
      with too few columns or a non-numeric cell is reported whatever the
      strings are, and a successful run returns the dense-ranked result of
      the parsed vectors. */
  lemma PackageTopsisOrder(t: Frames.Table, weightsStr: string, impactsStr: string,
                           parse: string -> Option<real>, sqrt: real -> real)
    requires Frames.WellFormed(t) && IsSqrt(sqrt)
    ensures |t.header| < 3 ==>
      PackageTopsis(t, weightsStr, impactsStr, parse, sqrt) == Err("Input file must contain three or more columns.")
    ensures |t.header| >= 3 && !Frames.AllNumeric(t, parse) ==>
      PackageTopsis(t, weightsStr, impactsStr, parse, sqrt) == Err(PackageMessage(NotNumeric))
    ensures |t.header| >= 3 && Frames.AllNumeric(t, parse) ==>
      var p := PackageValidation.ParseWeightsImpacts(weightsStr, impactsStr, |t.header| - 1, parse);
      && (p.Err? ==> PackageTopsis(t, weightsStr, impactsStr, parse, sqrt) == Err(PackageValidation.Message(p.error)))
      && (p.Ok? ==>
            var r := Topsis(t, p.value.weights, p.value.impacts, parse, sqrt, Dense);
            && (PackageTopsis(t, weightsStr, impactsStr, parse, sqrt).Ok? <==> r.Ok?)
            && (r.Ok? ==> PackageTopsis(t, weightsStr, impactsStr, parse, sqrt).value == r.value)
            && (r.Err? ==> PackageTopsis(t, weightsStr, impactsStr, parse, sqrt).error == PackageMessage(r.error)))
  {
  }

  /** Messages of the errors the local server's `topsis` raises: its two
      `ValueError`s, and the error pandas raises when `.astype(int)` meets
      the NaN ranks of `0 / 0` scores. */
  function LocalMessage(f: Failure): string
  {
    match f
    case NotNumeric => "From 2nd to last columns must contain numeric values only."
    case ZeroColumn => "Normalization error: one or more criteria columns have all zeros."
    case Undefined => "Cannot convert non-finite values (NA or inf) to integer"
  }

  /** The local server's `topsis`: coercion, scoring and dense ranks. A
      result has one row per alternative. */
  function LocalTopsis(t: Frames.Table, weights: seq<real>, impacts: seq<Impact>,
                       parse: string -> Option<real>, sqrt: real -> real): (r: Result<Frames.Table, string>)
    requires Frames.WellFormed(t) && Fits(t, weights, impacts) && IsSqrt(sqrt)
    ensures r.Ok? ==> Frames.WellFormed(r.value) && |r.value.rows| == |t.rows|
  {
    match Topsis(t, weights, impacts, parse, sqrt, Dense)
    case Err(f) => Err(LocalMessage(f))
    case Ok(r) => Ok(r)
  }

  /** Messages of the `ValueError`s the Streamlit and API `topsis` raise;
      positional ranking never fails with the undefined score. numpy's
      conversion message goes on with the offending cell, which is left
      out here: after the callers' numeric check the conversion never
      fails (`Handlers.ConversionNeverFails`). */
  function ArrayMessage(f: Failure): string
    requires f != Undefined
  {
    match f
    case NotNumeric => "could not convert string to float"
    case ZeroColumn => "One or more criteria columns have all zeros"
  }

  /** The Streamlit page's and the API handler's `topsis`: the criteria
      cells read with `astype(float)`, which raises on a non-numeric cell,
      then scoring with positional ranks. It fails only on those two
      errors, and a result has one row per alternative. */
  function ArrayTopsis(t: Frames.Table, weights: seq<real>, impacts: seq<Impact>,
                       parse: string -> Option<real>, sqrt: real -> real): (r: Result<Frames.Table, string>)
    requires Frames.WellFormed(t) && Fits(t, weights, impacts) && IsSqrt(sqrt)
    ensures r.Err? ==> r.error == ArrayMessage(NotNumeric) || r.error == ArrayMessage(ZeroColumn)
    ensures r.Ok? ==> Frames.WellFormed(r.value) && |r.value.rows| == |t.rows|
  {
    match Topsis(t, weights, impacts, parse, sqrt, Positional)
    case Err(f) => Err(ArrayMessage(f))
    case Ok(r) => Ok(r)
  }
}
