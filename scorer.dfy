/** The TOPSIS scorer shared by all copies: column-wise Euclidean
    normalisation, weighting, ideal best and worst points per impact
    direction, Euclidean separation from both, and the closeness
    coefficient `dw / (db + dw)`. Matrices are row-major: one row per
    alternative, one column per criterion. */
module Scorer {
  import opened Common

  type Matrix = seq<seq<real>>

  /** Every row has `c` entries. */
  predicate IsMatrix(m: Matrix, c: nat)
  {
    forall i :: 0 <= i < |m| ==> |m[i]| == c
  }

  /** Column `j` holds only zeros. */
  predicate ZeroColumn(m: Matrix, j: nat)
    requires forall i :: 0 <= i < |m| ==> j < |m[i]|
  {
    forall i :: 0 <= i < |m| ==> m[i][j] == 0.0
  }

  /** Column `j` holds a single value. */
  predicate ConstantColumn(m: Matrix, j: nat)
    requires forall i :: 0 <= i < |m| ==> j < |m[i]|
  {
    forall i, k :: 0 <= i < |m| && 0 <= k < |m| ==> m[i][j] == m[k][j]
  }

  // ---------------------------------------------------------------
  // Step 1: normalisation, `data / np.sqrt((data ** 2).sum(axis=0))`
  // ---------------------------------------------------------------

  /** Sum of the squares of column `j`. */
  function ColumnSumSq(m: Matrix, j: nat): real
    requires forall i :: 0 <= i < |m| ==> j < |m[i]|
  {
    if m == [] then 0.0 else Sq(m[0][j]) + ColumnSumSq(m[1..], j)
  }

  /** The sum of squares is never negative and vanishes exactly on a zero
      column. */
  lemma {:induction false} ColumnSumSqZeroIff(m: Matrix, j: nat)
    requires forall i :: 0 <= i < |m| ==> j < |m[i]|
    ensures 0.0 <= ColumnSumSq(m, j)
    ensures ColumnSumSq(m, j) == 0.0 <==> ZeroColumn(m, j)
  {
    if m != [] {
      ColumnSumSqZeroIff(m[1..], j);
      SqNonNegative(m[0][j]);
      SqZeroIff(m[0][j]);
      assert forall i :: 1 <= i < |m| ==> m[1..][i - 1] == m[i];
    }
  }

  /** The column norms `denom`. */
  function Norms(m: Matrix, c: nat, sqrt: real -> real): (norms: seq<real>)
    requires IsMatrix(m, c)
    ensures |norms| == c
  {
    seq(c, j requires 0 <= j < c => sqrt(ColumnSumSq(m, j)))
  }

  /** `(denom == 0).any()` holds exactly when some column is all zeros; the
      norms are otherwise positive. */
  lemma NormZeroIffZeroColumn(m: Matrix, c: nat, sqrt: real -> real)
    requires IsMatrix(m, c) && IsSqrt(sqrt)
    ensures forall j :: 0 <= j < c ==> (Norms(m, c, sqrt)[j] == 0.0 <==> ZeroColumn(m, j))
    ensures forall j :: 0 <= j < c ==> Norms(m, c, sqrt)[j] >= 0.0
  {
    forall j | 0 <= j < c
      ensures Norms(m, c, sqrt)[j] == 0.0 <==> ZeroColumn(m, j)
      ensures Norms(m, c, sqrt)[j] >= 0.0
    {
      ColumnSumSqZeroIff(m, j);
    }
  }

  /** `data / denom`: each entry divided by its column's norm. Multiplying
      back by the norm gives the input entry. */
  function Normalize(m: Matrix, norms: seq<real>): (n: Matrix)
    requires IsMatrix(m, |norms|) && AllPositive(norms)
    ensures |n| == |m| && IsMatrix(n, |norms|)
    ensures forall i, j :: 0 <= i < |m| && 0 <= j < |norms| ==> n[i][j] * norms[j] == m[i][j]
  {
    seq(|m|, i requires 0 <= i < |m| =>
      seq(|norms|, j requires 0 <= j < |norms| => m[i][j] / norms[j]))
  }

  // ---------------------------------------------------------------
  // Step 2: weighting, `norm_data * weights`
  // ---------------------------------------------------------------

  /** Each column scaled by its weight. */
  function Weight(m: Matrix, w: seq<real>): (r: Matrix)
    requires IsMatrix(m, |w|)
    ensures |r| == |m| && IsMatrix(r, |w|)
    ensures forall i, j :: 0 <= i < |m| && 0 <= j < |w| ==> r[i][j] == m[i][j] * w[j]
  {
    seq(|m|, i requires 0 <= i < |m| => seq(|w|, j requires 0 <= j < |w| => m[i][j] * w[j]))
  }

  /** The weighted normalised matrix `weighted`. */
  function Weighted(x: Matrix, w: seq<real>, sqrt: real -> real): (r: Matrix)
    requires IsMatrix(x, |w|) && AllPositive(Norms(x, |w|, sqrt))
    ensures |r| == |x| && IsMatrix(r, |w|)
  {
    Weight(Normalize(x, Norms(x, |w|, sqrt)), w)
  }

  lemma DivPreservesOrder(a: real, b: real, d: real)
    requires d > 0.0
    ensures a <= b <==> a / d <= b / d
    ensures a == b <==> a / d == b / d
  {
    if a <= b {
      assert a / d <= b / d;
    }
  }

  lemma MulPreservesOrder(a: real, b: real, w: real)
    requires w > 0.0
    ensures a <= b <==> a * w <= b * w
    ensures a == b <==> a * w == b * w
  {
  }

  /** With positive norms and weights, weighting keeps the order of the
      entries within every column, so the best alternative of a column is
      the same before and after. */
  lemma WeightedPreservesOrder(x: Matrix, w: seq<real>, sqrt: real -> real, i: nat, k: nat, j: nat)
    requires IsMatrix(x, |w|) && AllPositive(Norms(x, |w|, sqrt)) && AllPositive(w)
    requires i < |x| && k < |x| && j < |w|
    ensures x[i][j] <= x[k][j] <==> Weighted(x, w, sqrt)[i][j] <= Weighted(x, w, sqrt)[k][j]
    ensures x[i][j] == x[k][j] <==> Weighted(x, w, sqrt)[i][j] == Weighted(x, w, sqrt)[k][j]
  {
    var norms := Norms(x, |w|, sqrt);
    var n := Normalize(x, norms);
    assert n[i][j] == x[i][j] / norms[j];
    assert n[k][j] == x[k][j] / norms[j];
    DivPreservesOrder(x[i][j], x[k][j], norms[j]);
    MulPreservesOrder(n[i][j], n[k][j], w[j]);
  }

  // ---------------------------------------------------------------
  // Step 3: ideal best and worst
  // ---------------------------------------------------------------

  /** Value `v` is an entry of column `j`. */
  predicate InColumn(m: Matrix, j: nat, v: real)
    requires forall i :: 0 <= i < |m| ==> j < |m[i]|
  {
    exists i :: 0 <= i < |m| && m[i][j] == v
  }

  /** `col_vals.max()` of column `j`: an entry of the column that bounds
      every entry from above. */
  function ColMax(m: Matrix, j: nat): (r: real)
    requires |m| > 0 && forall i :: 0 <= i < |m| ==> j < |m[i]|
    ensures InColumn(m, j, r)
    ensures forall i :: 0 <= i < |m| ==> m[i][j] <= r
  {
    if |m| == 1 then m[0][j]
    else
      var rest := ColMax(m[1..], j);
      assert forall i :: 1 <= i < |m| ==> m[1..][i - 1] == m[i];
      if m[0][j] >= rest then m[0][j] else rest
  }

  /** `col_vals.min()` of column `j`: an entry of the column that bounds
      every entry from below. */
  function ColMin(m: Matrix, j: nat): (r: real)
    requires |m| > 0 && forall i :: 0 <= i < |m| ==> j < |m[i]|
    ensures InColumn(m, j, r)
    ensures forall i :: 0 <= i < |m| ==> r <= m[i][j]
  {
    if |m| == 1 then m[0][j]
    else
      var rest := ColMin(m[1..], j);
      assert forall i :: 1 <= i < |m| ==> m[1..][i - 1] == m[i];
      if m[0][j] <= rest then m[0][j] else rest
  }

  /** Whether value `a` is at least as good as `b` in direction `d`. */
  predicate AtLeastAsGood(a: real, b: real, d: Impact)
  {
    if d == Benefit then a >= b else a <= b
  }

  /** The ideal best value of column `j`: the largest entry of a benefit
      column, the smallest of a cost column. */
  function BestOf(m: Matrix, j: nat, d: Impact): (r: real)
    requires |m| > 0 && forall i :: 0 <= i < |m| ==> j < |m[i]|
    ensures InColumn(m, j, r)
    ensures forall i :: 0 <= i < |m| ==> AtLeastAsGood(r, m[i][j], d)
  {
    if d == Benefit then ColMax(m, j) else ColMin(m, j)
  }

  /** The ideal worst value of column `j`: the other extreme. */
  function WorstOf(m: Matrix, j: nat, d: Impact): (r: real)
    requires |m| > 0 && forall i :: 0 <= i < |m| ==> j < |m[i]|
    ensures InColumn(m, j, r)
    ensures forall i :: 0 <= i < |m| ==> AtLeastAsGood(m[i][j], r, d)
  {
    if d == Benefit then ColMin(m, j) else ColMax(m, j)
  }

  /** The ideal best point: each coordinate is an entry of its column and is
      at least as good as every entry of that column. */
  function IdealBest(m: Matrix, impacts: seq<Impact>): (best: seq<real>)
    requires |m| > 0 && IsMatrix(m, |impacts|)
    ensures |best| == |impacts|
    ensures forall j :: 0 <= j < |impacts| ==> InColumn(m, j, best[j])
    ensures forall i, j :: 0 <= i < |m| && 0 <= j < |impacts| ==> AtLeastAsGood(best[j], m[i][j], impacts[j])
  {
    var r := seq(|impacts|, j requires 0 <= j < |impacts| => BestOf(m, j, impacts[j]));
    forall j | 0 <= j < |impacts| ensures InColumn(m, j, r[j]) {
      assert r[j] == BestOf(m, j, impacts[j]);
    }
    forall i, j | 0 <= i < |m| && 0 <= j < |impacts| ensures AtLeastAsGood(r[j], m[i][j], impacts[j]) {
      assert r[j] == BestOf(m, j, impacts[j]);
    }
    r
  }

  /** The ideal worst point: each coordinate is an entry of its column and
      every entry of that column is at least as good as it. */
  function IdealWorst(m: Matrix, impacts: seq<Impact>): (worst: seq<real>)
    requires |m| > 0 && IsMatrix(m, |impacts|)
    ensures |worst| == |impacts|
    ensures forall j :: 0 <= j < |impacts| ==> InColumn(m, j, worst[j])
    ensures forall i, j :: 0 <= i < |m| && 0 <= j < |impacts| ==> AtLeastAsGood(m[i][j], worst[j], impacts[j])
  {
    var r := seq(|impacts|, j requires 0 <= j < |impacts| => WorstOf(m, j, impacts[j]));
    forall j | 0 <= j < |impacts| ensures InColumn(m, j, r[j]) {
      assert r[j] == WorstOf(m, j, impacts[j]);
    }
    forall i, j | 0 <= i < |m| && 0 <= j < |impacts| ensures AtLeastAsGood(m[i][j], r[j], impacts[j]) {
      assert r[j] == WorstOf(m, j, impacts[j]);
    }
    r
  }

  /** The `for j` loop that appends one ideal best and one ideal worst value
      per criterion. */
  method IdealPoints(m: Matrix, impacts: seq<Impact>) returns (best: seq<real>, worst: seq<real>)
    requires |m| > 0 && IsMatrix(m, |impacts|)
    ensures best == IdealBest(m, impacts)
    ensures worst == IdealWorst(m, impacts)
  {
    best, worst := [], [];
    for j := 0 to |impacts|
      invariant |best| == j && |worst| == j
      invariant forall k :: 0 <= k < j ==> best[k] == BestOf(m, k, impacts[k])
      invariant forall k :: 0 <= k < j ==> worst[k] == WorstOf(m, k, impacts[k])
    {
      if impacts[j] == Benefit {
        best := best + [ColMax(m, j)];
        worst := worst + [ColMin(m, j)];
      } else {
        best := best + [ColMin(m, j)];
        worst := worst + [ColMax(m, j)];
      }
    }
  }

  /** The two ideal points coincide in a column exactly when that column is
      constant. */
  lemma IdealsMeetIffConstant(m: Matrix, impacts: seq<Impact>, j: nat)
    requires |m| > 0 && IsMatrix(m, |impacts|) && j < |impacts|
    ensures IdealBest(m, impacts)[j] == IdealWorst(m, impacts)[j] <==> ConstantColumn(m, j)
  {
    var hi := ColMax(m, j);
    var lo := ColMin(m, j);
    if hi == lo {
      forall i, k | 0 <= i < |m| && 0 <= k < |m| ensures m[i][j] == m[k][j] {
      }
    }
    if ConstantColumn(m, j) {
      var a :| 0 <= a < |m| && m[a][j] == hi;
      var b :| 0 <= b < |m| && m[b][j] == lo;
      assert m[a][j] == m[b][j];
    }
  }

  // ---------------------------------------------------------------
  // Step 4: separation distances
  // ---------------------------------------------------------------

  /** Sum of squared differences between a row and an ideal point. */
  function SumSqDiff(row: seq<real>, ideal: seq<real>): real
    requires |row| == |ideal|
  {
    if row == [] then 0.0 else Sq(row[0] - ideal[0]) + SumSqDiff(row[1..], ideal[1..])
  }

  lemma {:induction false} SumSqDiffZeroIff(row: seq<real>, ideal: seq<real>)
    requires |row| == |ideal|
    ensures 0.0 <= SumSqDiff(row, ideal)
    ensures SumSqDiff(row, ideal) == 0.0 <==> row == ideal
  {
    if row != [] {
      SumSqDiffZeroIff(row[1..], ideal[1..]);
      SqNonNegative(row[0] - ideal[0]);
      SqZeroIff(row[0] - ideal[0]);
      assert row == [row[0]] + row[1..];
      assert ideal == [ideal[0]] + ideal[1..];
    }
  }

  /** Euclidean distance `np.sqrt(((weighted - ideal) ** 2).sum(axis=1))`
      of one row. */
  function Distance(row: seq<real>, ideal: seq<real>, sqrt: real -> real): real
    requires |row| == |ideal|
  {
    sqrt(SumSqDiff(row, ideal))
  }

  /** A distance is never negative and is zero exactly at the ideal point. */
  lemma DistanceZeroIff(row: seq<real>, ideal: seq<real>, sqrt: real -> real)
    requires |row| == |ideal| && IsSqrt(sqrt)
    ensures Distance(row, ideal, sqrt) >= 0.0
    ensures Distance(row, ideal, sqrt) == 0.0 <==> row == ideal
  {
    SumSqDiffZeroIff(row, ideal);
  }

  // ---------------------------------------------------------------
  // Step 5: closeness `dist_worst / (dist_best + dist_worst)`
  // ---------------------------------------------------------------

  /** The closeness of one alternative as the source computes it; `None`
      stands for the NaN of `0 / 0`. */
  function RawCloseness(db: real, dw: real): Option<real>
  {
    if db + dw == 0.0 then None else Some(dw / (db + dw))
  }

  /** With non-negative distances the closeness, when defined, lies in
      [0, 1]; it is 1 exactly at the ideal best and 0 exactly at the ideal
      worst. */
  lemma ClosenessBounds(db: real, dw: real)
    requires db >= 0.0 && dw >= 0.0 && db + dw > 0.0
    ensures RawCloseness(db, dw).Some?
    ensures 0.0 <= RawCloseness(db, dw).value <= 1.0
    ensures RawCloseness(db, dw).value == 1.0 <==> db == 0.0
    ensures RawCloseness(db, dw).value == 0.0 <==> dw == 0.0
  {
    var s := dw / (db + dw);
    assert s * (db + dw) == dw;
    if s == 1.0 {
      assert db + dw == dw;
    }
  }

  /** The closeness of every row of the weighted matrix. */
  function RawScores(m: Matrix, best: seq<real>, worst: seq<real>, sqrt: real -> real): (s: seq<Option<real>>)
    requires IsMatrix(m, |best|) && |worst| == |best|
    ensures |s| == |m|
  {
    seq(|m|, i requires 0 <= i < |m| =>
      RawCloseness(Distance(m[i], best, sqrt), Distance(m[i], worst, sqrt)))
  }

  /** An alternative's closeness is undefined exactly when it sits at both
      ideal points, which happens exactly when every column is constant. */
  lemma UndefinedIffAllConstant(m: Matrix, impacts: seq<Impact>, sqrt: real -> real, i: nat)
    requires |m| > 0 && IsMatrix(m, |impacts|) && IsSqrt(sqrt) && i < |m|
    ensures RawScores(m, IdealBest(m, impacts), IdealWorst(m, impacts), sqrt)[i].None?
      <==> forall j :: 0 <= j < |impacts| ==> ConstantColumn(m, j)
  {
    var best := IdealBest(m, impacts);
    var worst := IdealWorst(m, impacts);
    var db := Distance(m[i], best, sqrt);
    var dw := Distance(m[i], worst, sqrt);
    DistanceZeroIff(m[i], best, sqrt);
    DistanceZeroIff(m[i], worst, sqrt);
    forall j | 0 <= j < |impacts|
      ensures best[j] == worst[j] <==> ConstantColumn(m, j)
    {
      IdealsMeetIffConstant(m, impacts, j);
    }
    if db + dw == 0.0 {
      assert m[i] == best && m[i] == worst;
      forall j | 0 <= j < |impacts| ensures ConstantColumn(m, j) {
        assert best[j] == m[i][j] == worst[j];
      }
    }
    if forall j :: 0 <= j < |impacts| ==> ConstantColumn(m, j) {
      forall j | 0 <= j < |impacts| ensures m[i][j] == best[j] && m[i][j] == worst[j] {
        var a :| 0 <= a < |m| && m[a][j] == best[j];
        var b :| 0 <= b < |m| && m[b][j] == worst[j];
        assert m[a][j] == m[i][j] && m[b][j] == m[i][j];
      }
      assert m[i] == best;
      assert m[i] == worst;
    }
  }

  // ---------------------------------------------------------------
  // The whole scorer
  // ---------------------------------------------------------------

  datatype ScoreError = NormalizationError | UndefinedScore

  /** The closeness of every alternative of a weighted matrix, or the
      undefined-score error when some alternative gets `0 / 0`. */
  function Closeness(m: Matrix, impacts: seq<Impact>, sqrt: real -> real): (r: Result<seq<real>, ScoreError>)
    requires |m| > 0 && IsMatrix(m, |impacts|)
    ensures r.Ok? ==> |r.value| == |m|
  {
    var raw := RawScores(m, IdealBest(m, impacts), IdealWorst(m, impacts), sqrt);
    if exists i :: 0 <= i < |raw| && raw[i].None? then Err(UndefinedScore)
    else Ok(seq(|raw|, i requires 0 <= i < |raw| => raw[i].value))
  }

  /** Every defined closeness lies in [0, 1]; the error fires exactly when
      every column of the weighted matrix is constant. */
  lemma ClosenessFacts(m: Matrix, impacts: seq<Impact>, sqrt: real -> real)
    requires |m| > 0 && IsMatrix(m, |impacts|) && IsSqrt(sqrt)
    ensures Closeness(m, impacts, sqrt).Err? <==> forall j :: 0 <= j < |impacts| ==> ConstantColumn(m, j)
    ensures Closeness(m, impacts, sqrt).Ok? ==>
      forall i :: 0 <= i < |m| ==> 0.0 <= Closeness(m, impacts, sqrt).value[i] <= 1.0
  {
    var best := IdealBest(m, impacts);
    var worst := IdealWorst(m, impacts);
    var raw := RawScores(m, best, worst, sqrt);
    forall i | 0 <= i < |m|
      ensures raw[i].None? <==> forall j :: 0 <= j < |impacts| ==> ConstantColumn(m, j)
      ensures raw[i].Some? ==> 0.0 <= raw[i].value <= 1.0
    {
      UndefinedIffAllConstant(m, impacts, sqrt, i);
      var db := Distance(m[i], best, sqrt);
      var dw := Distance(m[i], worst, sqrt);
      DistanceZeroIff(m[i], best, sqrt);
      DistanceZeroIff(m[i], worst, sqrt);
      if db + dw != 0.0 {
        ClosenessBounds(db, dw);
      }
    }
    assert raw[0].None? <==> forall j :: 0 <= j < |impacts| ==> ConstantColumn(m, j);
  }

  /** Scores of every alternative: the normalisation error when a criteria
      column is all zeros (`denom == 0`), the undefined-score error when no
      alternative is closer to either ideal (the `0 / 0` case), otherwise
      one closeness per row. */
  function Scores(x: Matrix, w: seq<real>, impacts: seq<Impact>, sqrt: real -> real): (r: Result<seq<real>, ScoreError>)
    requires IsMatrix(x, |w|) && |impacts| == |w| && IsSqrt(sqrt)
    ensures r.Ok? ==> |r.value| == |x|
  {
    var norms := Norms(x, |w|, sqrt);
    if exists j :: 0 <= j < |w| && norms[j] == 0.0 then Err(NormalizationError)
    else
      NormZeroIffZeroColumn(x, |w|, sqrt);
      if x == [] then Ok([])
      else Closeness(Weighted(x, w, sqrt), impacts, sqrt)
  }

  /** The steps of `topsis` between the criteria matrix and the scores:
      the column norms and their zero check, the vectorised normalisation
      and weighting, the loop over the ideal points, and the distances and
      closeness of every row. */
  method ComputeScores(x: Matrix, w: seq<real>, impacts: seq<Impact>, sqrt: real -> real)
    returns (r: Result<seq<real>, ScoreError>)
    requires IsMatrix(x, |w|) && |impacts| == |w| && IsSqrt(sqrt)
    ensures r == Scores(x, w, impacts, sqrt)
  {
    var norms := Norms(x, |w|, sqrt);
    if exists j :: 0 <= j < |w| && norms[j] == 0.0 {
      return Err(NormalizationError);
    }
    NormZeroIffZeroColumn(x, |w|, sqrt);
    if x == [] {
      return Ok([]);
    }
    var weighted := Weight(Normalize(x, norms), w);
    var best, worst := IdealPoints(weighted, impacts);
    var raw := RawScores(weighted, best, worst, sqrt);
    if exists i :: 0 <= i < |raw| && raw[i].None? {
      return Err(UndefinedScore);
    }
    return Ok(seq(|raw|, i requires 0 <= i < |raw| => raw[i].value));
  }

  /** The normalisation error fires exactly when some criteria column is all
      zeros. */
  lemma NormalizationErrorIffZeroColumn(x: Matrix, w: seq<real>, impacts: seq<Impact>, sqrt: real -> real)
    requires IsMatrix(x, |w|) && |impacts| == |w| && IsSqrt(sqrt)
    ensures Scores(x, w, impacts, sqrt) == Err(NormalizationError)
      <==> exists j :: 0 <= j < |w| && ZeroColumn(x, j)
  {
    NormZeroIffZeroColumn(x, |w|, sqrt);
  }

  /** A successful score vector has one entry per alternative, each in
      [0, 1]. */
  lemma ScoresInUnitInterval(x: Matrix, w: seq<real>, impacts: seq<Impact>, sqrt: real -> real)
    requires IsMatrix(x, |w|) && |impacts| == |w| && IsSqrt(sqrt)
    requires Scores(x, w, impacts, sqrt).Ok?
    ensures |Scores(x, w, impacts, sqrt).value| == |x|
    ensures forall i :: 0 <= i < |x| ==> 0.0 <= Scores(x, w, impacts, sqrt).value[i] <= 1.0
  {
    NormZeroIffZeroColumn(x, |w|, sqrt);
    if x != [] {
      ClosenessFacts(Weighted(x, w, sqrt), impacts, sqrt);
    }
  }

  /** With positive weights and no zero column, the undefined-score error
      fires exactly when there is at least one alternative and every
      criteria column of the input holds a single value. */
  lemma UndefinedScoreIffConstantInput(x: Matrix, w: seq<real>, impacts: seq<Impact>, sqrt: real -> real)
    requires IsMatrix(x, |w|) && |impacts| == |w| && IsSqrt(sqrt) && AllPositive(w)
    ensures Scores(x, w, impacts, sqrt) == Err(UndefinedScore) <==>
      && (forall j :: 0 <= j < |w| ==> !ZeroColumn(x, j))
      && |x| > 0
      && (forall j :: 0 <= j < |w| ==> ConstantColumn(x, j))
  {
    NormZeroIffZeroColumn(x, |w|, sqrt);
    if (forall j :: 0 <= j < |w| ==> !ZeroColumn(x, j)) && |x| > 0 {
      var m := Weighted(x, w, sqrt);
      forall j | 0 <= j < |w| ensures ConstantColumn(m, j) <==> ConstantColumn(x, j) {
        forall i, k | 0 <= i < |x| && 0 <= k < |x| ensures m[i][j] == m[k][j] <==> x[i][j] == x[k][j] {
          WeightedPreservesOrder(x, w, sqrt, i, k, j);
        }
      }
      ClosenessFacts(m, impacts, sqrt);
    }
  }

  /** As written, a table with a single alternative and no zero entry gets
      the score `0 / 0`: the alternative is both the ideal best and the
      ideal worst. The corrected scorer reports the undefined score. */
  lemma SingleAlternativeHasNoScore(x: Matrix, w: seq<real>, impacts: seq<Impact>, sqrt: real -> real)
    requires |x| == 1 && IsMatrix(x, |w|) && |impacts| == |w| && IsSqrt(sqrt) && AllPositive(w)
    requires forall j :: 0 <= j < |w| ==> x[0][j] != 0.0
    ensures AllPositive(Norms(x, |w|, sqrt))
    ensures var m := Weighted(x, w, sqrt);
      RawScores(m, IdealBest(m, impacts), IdealWorst(m, impacts), sqrt) == [None]
    ensures Scores(x, w, impacts, sqrt) == Err(UndefinedScore)
  {
    NormZeroIffZeroColumn(x, |w|, sqrt);
    forall j | 0 <= j < |w| ensures !ZeroColumn(x, j) {
      assert x[0][j] != 0.0;
    }
    var m := Weighted(x, w, sqrt);
    forall j | 0 <= j < |w| ensures ConstantColumn(m, j) {
    }
    UndefinedIffAllConstant(m, impacts, sqrt, 0);
    UndefinedScoreIffConstantInput(x, w, impacts, sqrt);
  }
}
