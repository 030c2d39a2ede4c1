/** `calculateTopsis` of the static browser page: it validates the form,
    reads the numbers with `parseFloat`, scores the rows, builds one
    result object per row, sorts them by score and numbers them by
    position. */
module Vercel {
  import opened Common
  import Scorer
  import Ranking
  import PackageValidation
  import FormValidation

  /** Every data row has a cell per header cell and every criteria cell
      reads as a number. */
  predicate Numeric(data: seq<seq<string>>, parseFloat: string -> Option<real>)
    requires |data| >= 1
  {
    forall i :: 1 <= i < |data| ==> |data[i]| == |data[0]| && RowNumeric(data[i], parseFloat)
  }

  predicate RowNumeric(row: seq<string>, parseFloat: string -> Option<real>)
  {
    forall j :: 1 <= j < |row| ==> parseFloat(row[j]).Some?
  }

  /** `data.slice(1).map(row => row.slice(1).map(parseFloat))`, or `None`
      when some cell is missing or is NaN. */
  function DataMatrix(data: seq<seq<string>>, parseFloat: string -> Option<real>): (x: Option<Scorer.Matrix>)
    requires |data| >= 1 && |data[0]| >= 1
    ensures x.Some? <==> Numeric(data, parseFloat)
    ensures x.Some? ==> |x.value| == |data| - 1 && Scorer.IsMatrix(x.value, |data[0]| - 1)
    ensures x.Some? ==> forall i, j :: 0 <= i < |data| - 1 && 0 <= j < |data[0]| - 1 ==>
      parseFloat(data[i + 1][j + 1]) == Some(x.value[i][j])
  {
    if Numeric(data, parseFloat) then
      Some(seq(|data| - 1, i requires 0 <= i < |data| - 1 =>
        seq(|data[0]| - 1, j requires 0 <= j < |data[0]| - 1 => parseFloat(data[i + 1][j + 1]).value)))
    else None
  }

  /** The object `forEach` builds from a row: `result[header[j]] = row[j]`
      for each `j` in turn, so a later column wins over an earlier one of
      the same name. */
  function Fields(header: seq<string>, row: seq<string>): (m: map<string, string>)
    requires |row| >= |header|
    ensures forall j :: 0 <= j < |header| ==> header[j] in m
    ensures forall k :: k in m ==> k in header
    decreases |header|
  {
    if header == [] then map[]
    else Fields(header[..|header| - 1], row)[header[|header| - 1] := row[|header| - 1]]
  }

  /** With distinct names every column of the row is carried unchanged. */
  lemma {:induction false} FieldsCarryRow(header: seq<string>, row: seq<string>)
    requires |row| >= |header|
    requires forall a, b :: 0 <= a < b < |header| ==> header[a] != header[b]
    ensures forall j :: 0 <= j < |header| ==> Fields(header, row)[header[j]] == row[j]
    decreases |header|
  {
    if header != [] {
      var front := header[..|header| - 1];
      FieldsCarryRow(front, row);
      forall j | 0 <= j < |header| ensures Fields(header, row)[header[j]] == row[j] {
        if j < |header| - 1 {
          assert front[j] == header[j];
          assert header[j] != header[|header| - 1];
        }
      }
    }
  }

  /** One result object: the row's fields, its score (times 100), and the
      rank written after sorting. */
  class ResultRow {
    const fields: map<string, string>
    const score: real
    var rank: Option<nat>

    /** `data[0].forEach((header, j) => { result[header] = row[j] })`, then
        the score. */
    constructor(header: seq<string>, row: seq<string>, score: real)
      requires |row| >= |header|
      ensures fields == Fields(header, row) && this.score == score && rank == None
    {
      var m: map<string, string> := map[];
      for j := 0 to |header|
        invariant m == Fields(header[..j], row)
      {
        assert header[..j + 1][..j] == header[..j];
        m := m[header[j] := row[j]];
      }
      assert header[..|header|] == header;
      fields := m;
      this.score := score;
      rank := None;
    }
  }

  /** The sort key: the score of a result object. */
  function ScoreOf(r: ResultRow): real
  {
    r.score
  }

  /** No object occurs twice. */
  predicate Injective<T(==)>(xs: seq<T>)
  {
    forall a, b :: 0 <= a < b < |xs| ==> xs[a] != xs[b]
  }

  lemma {:induction false} InjectiveCount<T>(xs: seq<T>, x: T)
    requires Injective(xs)
    ensures multiset(xs)[x] <= 1
    decreases |xs|
  {
    if xs != [] {
      var front := xs[..|xs| - 1];
      assert xs == front + [xs[|xs| - 1]];
      assert Injective(front);
      InjectiveCount(front, x);
      if x == xs[|xs| - 1] {
        forall a | 0 <= a < |front| ensures front[a] != x {
          assert front[a] == xs[a];
        }
      }
    }
  }

  /** Two equal places make an element occur twice. */
  lemma DuplicateCount<T>(ys: seq<T>, a: nat, b: nat)
    requires a < b < |ys|
    ensures ys[a] == ys[b] ==> multiset(ys)[ys[a]] >= 2
  {
    if ys[a] == ys[b] {
      assert ys == ys[..b] + ys[b..];
      assert ys[a] == ys[..b][a];
      assert ys[b] == ys[b..][0];
      assert multiset(ys)[ys[a]] == multiset(ys[..b])[ys[a]] + multiset(ys[b..])[ys[a]];
    }
  }

  /** A reordering of distinct objects keeps them distinct. */
  lemma PermutationKeepsInjective<T>(xs: seq<T>, ys: seq<T>)
    requires Injective(xs) && multiset(xs) == multiset(ys)
    ensures Injective(ys)
  {
    forall a, b | 0 <= a < b < |ys| ensures ys[a] != ys[b] {
      DuplicateCount(ys, a, b);
      InjectiveCount(xs, ys[a]);
    }
  }

  /** `sortedResults.forEach((result, i) => { result['Rank'] = i + 1 })`. */
  method AssignRanks(rows: seq<ResultRow>)
    requires Injective(rows)
    modifies set r | r in rows
    ensures forall k :: 0 <= k < |rows| ==> rows[k].rank == Some(k + 1)
  {
    for i := 0 to |rows|
      invariant forall k :: 0 <= k < i ==> rows[k].rank == Some(k + 1)
    {
      rows[i].rank := Some(i + 1);
    }
  }

  /** The result object built from data row `i + 1` and its score. */
  predicate BuiltFrom(r: ResultRow, data: seq<seq<string>>, scores: seq<real>, i: int)
  {
    && 0 <= i < |scores| && i + 1 < |data| && |data| >= 1 && |data[i + 1]| >= |data[0]|
    && r.fields == Fields(data[0], data[i + 1]) && r.score == scores[i] * 100.0
  }

  /** Some data row built `r`. */
  ghost predicate FromSomeRow(r: ResultRow, data: seq<seq<string>>, scores: seq<real>)
  {
    exists i :: BuiltFrom(r, data, scores, i)
  }

  /** Some object of `rs` was built from data row `i + 1`. */
  ghost predicate HasRowFor(rs: seq<ResultRow>, data: seq<seq<string>>, scores: seq<real>, i: int)
  {
    exists k :: 0 <= k < |rs| && BuiltFrom(rs[k], data, scores, i)
  }

  /** The scores the page computes for a form that passed validation, or
      `None` when a NaN enters: a missing or non-numeric cell, an all-zero
      column, or `0 / 0` in the closeness. */
  function PageScores(data: seq<seq<string>>, weights: string, impacts: string,
                      parseFloat: string -> Option<real>, sqrt: real -> real): (s: Option<seq<real>>)
    requires |data| >= 2 && |data[0]| >= 1 && IsSqrt(sqrt)
    ensures s.Some? ==> |s.value| == |data| - 1
  {
    var n := |data[0]| - 1;
    var wt := PackageValidation.Tokens(weights);
    var it := PackageValidation.Tokens(impacts);
    match DataMatrix(data, parseFloat)
    case None => None
    case Some(x) =>
      if PackageValidation.ParseAll(wt, parseFloat).None? || |wt| != n || |it| != n
         || !PackageValidation.AllSigns(it) then None
      else
        match Scorer.Scores(x, PackageValidation.ParseAll(wt, parseFloat).value, PackageValidation.ImpactsOf(it), sqrt)
        case Err(_) => None
        case Ok(s) => Some(s)
  }

  /** `calculateTopsis()`: nothing but the validation message when the form
      is rejected; otherwise the error is cleared and, unless a NaN enters,
      the result objects come back sorted by score, never increasing, with
      `Rank` their position plus one. Every data row gives exactly one
      fresh result object carrying the row's fields and its score. */
  method CalculateTopsis(form: FormValidation.Form, parseFloat: string -> Option<real>, sqrt: real -> real)
    returns (results: Option<seq<ResultRow>>)
    requires IsSqrt(sqrt)
    modifies form`error
    ensures var decision := FormValidation.FirstError(form.data, form.weights, form.impacts, form.sendEmail, form.email, parseFloat);
      && (decision.Some? ==> results.None? && form.error == FormValidation.Message(decision.value))
      && (decision.None? ==> form.error == "")
      && (results.Some? <==> decision.None? && PageScores(form.data, form.weights, form.impacts, parseFloat, sqrt).Some?)
    ensures results.Some? ==>
      var rs := results.value;
      var scores := PageScores(form.data, form.weights, form.impacts, parseFloat, sqrt).value;
      && |rs| == |form.data| - 1
      && Injective(rs)
      && (forall k :: 0 <= k < |rs| ==> fresh(rs[k]))
      && Ranking.NonIncreasing(rs, ScoreOf)
      && (forall k :: 0 <= k < |rs| ==> rs[k].rank == Some(k + 1))
      && (forall k :: 0 <= k < |rs| ==> FromSomeRow(rs[k], form.data, scores))
      && (forall i :: 0 <= i < |scores| ==> HasRowFor(rs, form.data, scores, i))
  {
    var ok := form.ValidateInputs(parseFloat);
    if !ok {
      return None;
    }
    form.error := "";
    var data := form.data;
    FormValidation.AcceptedIff(data, form.weights, form.impacts, form.sendEmail, form.email, parseFloat);
    var scores := PageScores(data, form.weights, form.impacts, parseFloat, sqrt);
    if scores.None? {
      return None;
    }
    var rows := BuildRows(data, scores.value);
    var sorted := SortAndRank(rows, data, scores.value);
    return Some(sorted);
  }

  /** `data.slice(1).map((row, i) => { … })`: one fresh object per data row. */
  method BuildRows(data: seq<seq<string>>, scores: seq<real>) returns (rows: seq<ResultRow>)
    requires |data| >= 1 && |scores| == |data| - 1
    requires forall i :: 1 <= i < |data| ==> |data[i]| >= |data[0]|
    ensures |rows| == |scores| && Injective(rows)
    ensures forall k :: 0 <= k < |rows| ==> fresh(rows[k]) && rows[k].rank == None && BuiltFrom(rows[k], data, scores, k)
  {
    rows := [];
    for i := 0 to |scores|
      invariant |rows| == i && Injective(rows)
      invariant forall k :: 0 <= k < i ==> fresh(rows[k]) && rows[k].rank == None && BuiltFrom(rows[k], data, scores, k)
    {
      var r := new ResultRow(data[0], data[i + 1], scores[i] * 100.0);
      rows := rows + [r];
    }
  }

  /** The stable sort by score and the numbering by position: objects with
      equal scores keep the order of their data rows. */
  method SortAndRank(rows: seq<ResultRow>, ghost data: seq<seq<string>>, ghost scores: seq<real>)
    returns (sorted: seq<ResultRow>)
    requires Injective(rows) && |rows| == |scores|
    requires forall k :: 0 <= k < |rows| ==> BuiltFrom(rows[k], data, scores, k)
    modifies set r | r in rows
    ensures |sorted| == |rows| && multiset(sorted) == multiset(rows) && Injective(sorted)
    ensures forall k :: 0 <= k < |sorted| ==> sorted[k] in rows
    ensures Ranking.NonIncreasing(sorted, ScoreOf)
    ensures forall v :: Ranking.WithKey(sorted, ScoreOf, v) == Ranking.WithKey(rows, ScoreOf, v)
    ensures forall k :: 0 <= k < |sorted| ==> sorted[k].rank == Some(k + 1)
    ensures forall k :: 0 <= k < |sorted| ==> FromSomeRow(sorted[k], data, scores)
    ensures forall i :: 0 <= i < |scores| ==> HasRowFor(sorted, data, scores, i)
  {
    sorted := Ranking.SortDesc(rows, ScoreOf);
    assert |sorted| == |multiset(sorted)| == |multiset(rows)| == |rows|;
    PermutationKeepsInjective(rows, sorted);
    forall k | 0 <= k < |sorted| ensures sorted[k] in rows && FromSomeRow(sorted[k], data, scores) {
      assert sorted[k] in multiset(rows);
      var i :| 0 <= i < |rows| && rows[i] == sorted[k];
    }
    forall i | 0 <= i < |scores| ensures HasRowFor(sorted, data, scores, i) {
      assert rows[i] in multiset(sorted);
      var k :| 0 <= k < |sorted| && sorted[k] == rows[i];
    }
    AssignRanks(sorted);
  }
}
