/** `parse_weights_impacts` of the published package: the fail-fast
    validator of the weights and impacts strings. Every failure ends the
    program through `error_exit`; the model returns the error instead. */
module PackageValidation {
  import opened Common
  import Text

  /** The stripped pieces of a comma-separated string, in split order. */
  function Tokens(s: string): (toks: seq<string>)
    ensures |toks| == |Text.Split(s, ',')| >= 1
    ensures forall k :: 0 <= k < |toks| ==> toks[k] == Text.Strip(Text.Split(s, ',')[k])
  {
    var parts := Text.Split(s, ',');
    seq(|parts|, k requires 0 <= k < |parts| => Text.Strip(parts[k]))
  }

  /** Every token read as a number, or `None` as soon as one is not a number
      (the list comprehension raises at the first bad token). */
  function ParseAll(toks: seq<string>, parse: string -> Option<real>): (r: Option<seq<real>>)
    ensures r.Some? <==> forall k :: 0 <= k < |toks| ==> parse(toks[k]).Some?
    ensures r.Some? ==>
      && |r.value| == |toks|
      && (forall k :: 0 <= k < |toks| ==> parse(toks[k]) == Some(r.value[k]))
  {
    if toks == [] then Some([])
    else match parse(toks[0])
      case None => None
      case Some(x) =>
        match ParseAll(toks[1..], parse)
        case None => None
        case Some(xs) => Some([x] + xs)
  }

  predicate IsSign(tok: string)
  {
    tok == "+" || tok == "-"
  }

  predicate AllSigns(toks: seq<string>)
  {
    forall k :: 0 <= k < |toks| ==> IsSign(toks[k])
  }

  /** The directions of tokens already known to be signs. */
  function ImpactsOf(toks: seq<string>): (r: seq<Impact>)
    requires forall k :: 0 <= k < |toks| ==> IsSign(toks[k])
    ensures |r| == |toks| && forall k :: 0 <= k < |toks| ==> Symbol(r[k]) == toks[k]
  {
    if toks == [] then []
    else
      var head := if toks[0] == "+" then Benefit else Cost;
      assert IsSign(toks[0]);
      assert Symbol(head) == toks[0];
      var tail := ImpactsOf(toks[1..]);
      assert forall k :: 1 <= k < |toks| ==> toks[1..][k - 1] == toks[k];
      var r := [head] + tail;
      assert forall k :: 1 <= k < |toks| ==> r[k] == tail[k - 1];
      r
  }

  datatype Vectors = Vectors(weights: seq<real>, impacts: seq<Impact>)

  datatype ParseError =
    | NotCommaSeparated
    | WeightsNotNumeric
    | WeightCountMismatch
    | ImpactCountMismatch
    | ImpactNotSign
    | WeightNotPositive

  /** The text `error_exit` prints (after "Error: ") for each failure. */
  function Message(e: ParseError): string
  {
    match e
    case NotCommaSeparated => "Impacts and weights must be separated by ',' (comma)."
    case WeightsNotNumeric => "Weights must be numeric and comma separated."
    case WeightCountMismatch => "Number of weights must be equal to number of columns (from 2nd to last)."
    case ImpactCountMismatch => "Number of impacts must be equal to number of columns (from 2nd to last)."
    case ImpactNotSign => "Impacts must be either '+' or '-' only."
    case WeightNotPositive => "Weights must be positive numbers."
  }

  /** What an acceptable pair of strings is, independent of the order in
      which the checks are made: both contain a comma, every weight token is
      a positive number, every impact token is a sign, and there are
      `nCols` of each. */
  predicate Acceptable(weightsStr: string, impactsStr: string, nCols: int, parse: string -> Option<real>)
  {
    var wt := Tokens(weightsStr);
    var it := Tokens(impactsStr);
    && ',' in weightsStr && ',' in impactsStr
    && |wt| == nCols && |it| == nCols
    && (forall k :: 0 <= k < |wt| ==> parse(wt[k]).Some? && parse(wt[k]).value > 0.0)
    && (forall k :: 0 <= k < |it| ==> IsSign(it[k]))
  }

  /** `parse_weights_impacts(weights_str, impacts_str, n_cols)`. */
  function ParseWeightsImpacts(weightsStr: string, impactsStr: string, nCols: int,
                               parse: string -> Option<real>): (r: Result<Vectors, ParseError>)
    ensures r.Ok? ==> |r.value.weights| == nCols && |r.value.impacts| == nCols
  {
    if ',' !in weightsStr || ',' !in impactsStr then Err(NotCommaSeparated)
    else
      var wt := Tokens(weightsStr);
      var it := Tokens(impactsStr);
      match ParseAll(wt, parse)
      case None => Err(WeightsNotNumeric)
      case Some(weights) =>
        if |weights| != nCols then Err(WeightCountMismatch)
        else if |it| != nCols then Err(ImpactCountMismatch)
        else if !AllSigns(it) then Err(ImpactNotSign)
        else if !AllPositive(weights) then Err(WeightNotPositive)
        else Ok(Vectors(weights, ImpactsOf(it)))
  }

  /** Success means exactly that the strings are acceptable. */
  lemma AcceptedIffAcceptable(weightsStr: string, impactsStr: string, nCols: int, parse: string -> Option<real>)
    ensures ParseWeightsImpacts(weightsStr, impactsStr, nCols, parse).Ok?
        <==> Acceptable(weightsStr, impactsStr, nCols, parse)
  {
    if Acceptable(weightsStr, impactsStr, nCols, parse) {
      AcceptableAccepted(weightsStr, impactsStr, nCols, parse);
    }
    if ParseWeightsImpacts(weightsStr, impactsStr, nCols, parse).Ok? {
      AcceptedVectors(weightsStr, impactsStr, nCols, parse);
    }
  }

  lemma AcceptableAccepted(weightsStr: string, impactsStr: string, nCols: int, parse: string -> Option<real>)
    requires Acceptable(weightsStr, impactsStr, nCols, parse)
    ensures ParseWeightsImpacts(weightsStr, impactsStr, nCols, parse).Ok?
  {
    var wt := Tokens(weightsStr);
    var it := Tokens(impactsStr);
    var ws := ParseAll(wt, parse);
    assert ws.Some?;
    assert !exists k :: 0 <= k < |it| && !IsSign(it[k]);
    assert !exists k :: 0 <= k < |ws.value| && ws.value[k] <= 0.0 by {
      forall k | 0 <= k < |ws.value| ensures ws.value[k] > 0.0 {
        assert parse(wt[k]) == Some(ws.value[k]);
      }
    }
  }

  /** The vectors returned are index-aligned with the split tokens: each
      weight is its token read as a number and is positive, and each impact
      is the direction its token names. */
  lemma AcceptedVectors(weightsStr: string, impactsStr: string, nCols: int, parse: string -> Option<real>)
    requires ParseWeightsImpacts(weightsStr, impactsStr, nCols, parse).Ok?
    ensures Acceptable(weightsStr, impactsStr, nCols, parse)
    ensures var v := ParseWeightsImpacts(weightsStr, impactsStr, nCols, parse).value;
      && (forall k :: 0 <= k < nCols ==>
            parse(Tokens(weightsStr)[k]) == Some(v.weights[k]) && v.weights[k] > 0.0)
      && (forall k :: 0 <= k < nCols ==> Symbol(v.impacts[k]) == Tokens(impactsStr)[k])
  {
    AcceptedShape(weightsStr, impactsStr, nCols, parse);
    var wt := Tokens(weightsStr);
    var ws := ParseAll(wt, parse).value;
    forall k | 0 <= k < |wt| ensures parse(wt[k]).Some? && parse(wt[k]).value > 0.0 {
      assert parse(wt[k]) == Some(ws[k]);
    }
  }

  /** On success the weights are the parsed tokens, none of them
      non-positive, and every impact token is a sign. */
  lemma AcceptedShape(weightsStr: string, impactsStr: string, nCols: int, parse: string -> Option<real>)
    requires ParseWeightsImpacts(weightsStr, impactsStr, nCols, parse).Ok?
    ensures ',' in weightsStr && ',' in impactsStr
    ensures var ws := ParseAll(Tokens(weightsStr), parse);
      var it := Tokens(impactsStr);
      && ws.Some? && |ws.value| == nCols && |it| == nCols
      && (forall k :: 0 <= k < nCols ==> ws.value[k] > 0.0)
      && (forall k :: 0 <= k < nCols ==> IsSign(it[k]))
      && ParseWeightsImpacts(weightsStr, impactsStr, nCols, parse).value == Vectors(ws.value, ImpactsOf(it))
  {
  }

  /** Each failure is the first check, in source order, that fails. */
  lemma FailureIsFirstFailedCheck(weightsStr: string, impactsStr: string, nCols: int, parse: string -> Option<real>)
    ensures var r := ParseWeightsImpacts(weightsStr, impactsStr, nCols, parse);
      var wt := Tokens(weightsStr);
      var it := Tokens(impactsStr);
      && (r == Err(NotCommaSeparated) <==> ',' !in weightsStr || ',' !in impactsStr)
      && (r == Err(WeightsNotNumeric) <==>
            ',' in weightsStr && ',' in impactsStr && ParseAll(wt, parse).None?)
      && (r == Err(WeightCountMismatch) <==>
            ',' in weightsStr && ',' in impactsStr && ParseAll(wt, parse).Some? && |wt| != nCols)
      && (r == Err(ImpactCountMismatch) <==>
            ',' in weightsStr && ',' in impactsStr && ParseAll(wt, parse).Some? && |wt| == nCols
            && |it| != nCols)
      && (r == Err(ImpactNotSign) ==>
            ParseAll(wt, parse).Some? && |wt| == nCols && |it| == nCols
            && exists k :: 0 <= k < nCols && !IsSign(it[k]))
      && (r == Err(WeightNotPositive) ==>
            |wt| == nCols && |it| == nCols && (forall k :: 0 <= k < nCols ==> IsSign(it[k]))
            && exists k :: 0 <= k < nCols && parse(wt[k]).Some? && parse(wt[k]).value <= 0.0)
  {
  }

  /** Neither string can be accepted without a comma, so a single bare value
      is rejected even when there is one criterion. */
  lemma NeedsCommas(weightsStr: string, impactsStr: string, nCols: int, parse: string -> Option<real>)
    requires ParseWeightsImpacts(weightsStr, impactsStr, nCols, parse).Ok?
    ensures nCols >= 2
  {
    Text.SplitHasSeveralIffSep(weightsStr, ',');
  }
}
