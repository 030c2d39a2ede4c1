/** `parse_inputs` of the Streamlit web service and of the serverless API
    handler (the two copies are identical): it collects every error of a
    stage in a list instead of stopping at the first one. */
module ServiceValidation {
  import opened Common
  import Text
  import PackageValidation

  datatype InputError =
    | WeightsNoComma
    | ImpactsNoComma
    | WeightsNotNumeric
    | WeightCount(found: nat, expected: int)
    | ImpactCount(found: nat, expected: int)
    | InvalidImpact(token: string)
    | WeightsNotPositive

  /** The text appended to `errors` for each kind of error. */
  function Message(e: InputError): string
  {
    match e
    case WeightsNoComma => "Weights must be comma-separated (e.g., '1,1,1,2')"
    case ImpactsNoComma => "Impacts must be comma-separated (e.g., '+,+,-,+')"
    case WeightsNotNumeric => "Weights must be numeric values"
    case WeightCount(found, expected) =>
      "Number of weights (" + Text.NatToString(found) + ") must equal number of criteria columns ("
      + Text.IntToString(expected) + ")"
    case ImpactCount(found, expected) =>
      "Number of impacts (" + Text.NatToString(found) + ") must equal number of criteria columns ("
      + Text.IntToString(expected) + ")"
    case InvalidImpact(token) => "Invalid impact '" + token + "'. Impacts must be '+' or '-' only"
    case WeightsNotPositive => "All weights must be positive numbers"
  }

  function Messages(errs: seq<InputError>): (ms: seq<string>)
    ensures |ms| == |errs| && forall k :: 0 <= k < |errs| ==> ms[k] == Message(errs[k])
  {
    seq(|errs|, k requires 0 <= k < |errs| => Message(errs[k]))
  }

  /** The first token that is not a sign, if any. */
  function FirstNonSign(toks: seq<string>): (r: Option<string>)
    ensures r.None? <==> PackageValidation.AllSigns(toks)
    ensures r.Some? ==> !PackageValidation.IsSign(r.value)
  {
    if toks == [] then None
    else if !PackageValidation.IsSign(toks[0]) then Some(toks[0])
    else
      var r := FirstNonSign(toks[1..]);
      assert forall k :: 1 <= k < |toks| ==> toks[1..][k - 1] == toks[k];
      r
  }

  /** A non-sign token preceded only by signs is the first non-sign token. */
  lemma {:induction false} FirstNonSignAt(toks: seq<string>, k: nat)
    requires k < |toks| && !PackageValidation.IsSign(toks[k])
    requires forall j :: 0 <= j < k ==> PackageValidation.IsSign(toks[j])
    ensures FirstNonSign(toks) == Some(toks[k])
    decreases k
  {
    if k > 0 {
      assert PackageValidation.IsSign(toks[0]);
      FirstNonSignAt(toks[1..], k - 1);
    }
  }

  /** The errors the two stages report, in the order they are appended. */
  function CommaErrors(weightsStr: string, impactsStr: string): seq<InputError>
  {
    (if ',' !in weightsStr then [WeightsNoComma] else [])
    + (if ',' !in impactsStr then [ImpactsNoComma] else [])
  }

  function VectorErrors(ws: seq<real>, it: seq<string>, nCols: int): (errs: seq<InputError>)
    ensures forall e :: e in errs ==> e.WeightCount? || e.ImpactCount? || e.InvalidImpact? || e.WeightsNotPositive?
  {
    (if |ws| != nCols then [WeightCount(|ws|, nCols)] else [])
    + (if |it| != nCols then [ImpactCount(|it|, nCols)] else [])
    + (match FirstNonSign(it) case None => [] case Some(t) => [InvalidImpact(t)])
    + (if ws != [] && !AllPositive(ws) then [WeightsNotPositive] else [])
  }

  /** The error list `parse_inputs` returns. */
  function InputErrors(weightsStr: string, impactsStr: string, nCols: int,
                       parse: string -> Option<real>): seq<InputError>
  {
    var comma := CommaErrors(weightsStr, impactsStr);
    if comma != [] then comma
    else match PackageValidation.ParseAll(PackageValidation.Tokens(weightsStr), parse)
      case None => [WeightsNotNumeric]
      case Some(ws) => VectorErrors(ws, PackageValidation.Tokens(impactsStr), nCols)
  }

  /** `parse_inputs(weights_str, impacts_str, n_cols)`: vectors and no
      errors, or no vectors and the errors. */
  method ParseInputs(weightsStr: string, impactsStr: string, nCols: int, parse: string -> Option<real>)
    returns (weights: Option<seq<real>>, impacts: Option<seq<Impact>>, errors: seq<InputError>)
    ensures errors == InputErrors(weightsStr, impactsStr, nCols, parse)
    ensures weights.Some? <==> errors == []
    ensures impacts.Some? <==> errors == []
    ensures weights.Some? ==>
      && PackageValidation.ParseAll(PackageValidation.Tokens(weightsStr), parse) == weights
      && PackageValidation.AllSigns(PackageValidation.Tokens(impactsStr))
      && impacts.value == PackageValidation.ImpactsOf(PackageValidation.Tokens(impactsStr))
  {
    errors := [];
    if ',' !in weightsStr {
      errors := errors + [WeightsNoComma];
    }
    if ',' !in impactsStr {
      errors := errors + [ImpactsNoComma];
    }
    if errors != [] {
      assert errors == CommaErrors(weightsStr, impactsStr);
      return None, None, errors;
    }
    assert CommaErrors(weightsStr, impactsStr) == [];
    var parsed := PackageValidation.ParseAll(PackageValidation.Tokens(weightsStr), parse);
    if parsed.None? {
      errors := errors + [WeightsNotNumeric];
      return None, None, errors;
    }
    var ws := parsed.value;
    var it := PackageValidation.Tokens(impactsStr);
    errors := AppendVectorErrors(errors, ws, it, nCols);
    VectorStage(weightsStr, impactsStr, nCols, parse);
    VectorErrorsEmpty(ws, it, nCols);
    if errors != [] {
      return None, None, errors;
    }
    return Some(ws), Some(PackageValidation.ImpactsOf(it)), [];
  }

  /** The count, impact and positivity checks, each appending its error to
      `errors`. */
  method AppendVectorErrors(errors0: seq<InputError>, ws: seq<real>, it: seq<string>, nCols: int)
    returns (errors: seq<InputError>)
    ensures errors == errors0 + VectorErrors(ws, it, nCols)
  {
    errors := errors0;
    if |ws| != nCols {
      errors := errors + [WeightCount(|ws|, nCols)];
    }
    if |it| != nCols {
      errors := errors + [ImpactCount(|it|, nCols)];
    }
    var bad := FindInvalidImpact(it);
    if bad.Some? {
      errors := errors + [InvalidImpact(bad.value)];
    }
    if ws != [] && exists j :: 0 <= j < |ws| && ws[j] <= 0.0 {
      errors := errors + [WeightsNotPositive];
    }
  }

  /** The `for imp in impacts` loop: the first token that is not a sign,
      where it stops. */
  method FindInvalidImpact(it: seq<string>) returns (bad: Option<string>)
    ensures bad == FirstNonSign(it)
  {
    var k := 0;
    while k < |it|
      invariant 0 <= k <= |it|
      invariant forall j :: 0 <= j < k ==> PackageValidation.IsSign(it[j])
    {
      if !PackageValidation.IsSign(it[k]) {
        FirstNonSignAt(it, k);
        return Some(it[k]);
      }
      k := k + 1;
    }
    return None;
  }

  /** A missing comma in either string is reported on its own account, and
      then nothing else is reported. */
  lemma CommaErrorsAlone(weightsStr: string, impactsStr: string, nCols: int, parse: string -> Option<real>)
    ensures var errs := InputErrors(weightsStr, impactsStr, nCols, parse);
      && (WeightsNoComma in errs <==> ',' !in weightsStr)
      && (ImpactsNoComma in errs <==> ',' !in impactsStr)
      && ((',' !in weightsStr || ',' !in impactsStr) ==>
            forall e :: e in errs ==> e == WeightsNoComma || e == ImpactsNoComma)
  {
    var errs := InputErrors(weightsStr, impactsStr, nCols, parse);
    if ',' !in weightsStr || ',' !in impactsStr {
      assert errs == CommaErrors(weightsStr, impactsStr);
    } else {
      assert CommaErrors(weightsStr, impactsStr) == [];
      match PackageValidation.ParseAll(PackageValidation.Tokens(weightsStr), parse)
      case None =>
        assert errs == [WeightsNotNumeric];
      case Some(ws) =>
        assert errs == VectorErrors(ws, PackageValidation.Tokens(impactsStr), nCols);
    }
  }

  /** A weight token that is not a number yields that one error only. */
  lemma NonNumericAlone(weightsStr: string, impactsStr: string, nCols: int, parse: string -> Option<real>, k: nat)
    requires ',' in weightsStr && ',' in impactsStr
    requires k < |PackageValidation.Tokens(weightsStr)| && parse(PackageValidation.Tokens(weightsStr)[k]).None?
    ensures InputErrors(weightsStr, impactsStr, nCols, parse) == [WeightsNotNumeric]
  {
    assert CommaErrors(weightsStr, impactsStr) == [];
  }

  /** Past the comma and number stages, the errors are those of the
      parsed vectors. */
  lemma VectorStage(weightsStr: string, impactsStr: string, nCols: int, parse: string -> Option<real>)
    requires ',' in weightsStr && ',' in impactsStr
    requires PackageValidation.ParseAll(PackageValidation.Tokens(weightsStr), parse).Some?
    ensures InputErrors(weightsStr, impactsStr, nCols, parse)
      == VectorErrors(PackageValidation.ParseAll(PackageValidation.Tokens(weightsStr), parse).value,
                      PackageValidation.Tokens(impactsStr), nCols)
  {
    assert CommaErrors(weightsStr, impactsStr) == [];
  }

  /** Once the weights are numbers, the two counts are checked
      independently, each error carrying the count it found. */
  lemma CountErrorsIndependent(weightsStr: string, impactsStr: string, nCols: int, parse: string -> Option<real>)
    requires ',' in weightsStr && ',' in impactsStr
    requires PackageValidation.ParseAll(PackageValidation.Tokens(weightsStr), parse).Some?
    ensures var errs := InputErrors(weightsStr, impactsStr, nCols, parse);
      var nw := |PackageValidation.Tokens(weightsStr)|;
      var ni := |PackageValidation.Tokens(impactsStr)|;
      && (WeightCount(nw, nCols) in errs <==> nw != nCols)
      && (ImpactCount(ni, nCols) in errs <==> ni != nCols)
      && (WeightsNotNumeric !in errs)
  {
    VectorStage(weightsStr, impactsStr, nCols, parse);
    var ws := PackageValidation.ParseAll(PackageValidation.Tokens(weightsStr), parse).value;
    VectorCounts(ws, PackageValidation.Tokens(impactsStr), nCols);
  }

  lemma VectorCounts(ws: seq<real>, it: seq<string>, nCols: int)
    ensures var errs := VectorErrors(ws, it, nCols);
      && (WeightCount(|ws|, nCols) in errs <==> |ws| != nCols)
      && (ImpactCount(|it|, nCols) in errs <==> |it| != nCols)
  {
    var errs := VectorErrors(ws, it, nCols);
    var cw := if |ws| != nCols then [WeightCount(|ws|, nCols)] else [];
    var ci := if |it| != nCols then [ImpactCount(|it|, nCols)] else [];
    var m := match FirstNonSign(it) case None => [] case Some(t) => [InvalidImpact(t)];
    var p := if ws != [] && !AllPositive(ws) then [WeightsNotPositive] else [];
    assert errs == cw + ci + m + p;
  }

  /** However many impact tokens are bad, one error names the first of
      them; there is such an error exactly when some token is bad. */
  lemma AtMostOneInvalidImpact(weightsStr: string, impactsStr: string, nCols: int, parse: string -> Option<real>)
    requires ',' in weightsStr && ',' in impactsStr
    requires PackageValidation.ParseAll(PackageValidation.Tokens(weightsStr), parse).Some?
    ensures var errs := InputErrors(weightsStr, impactsStr, nCols, parse);
      var it := PackageValidation.Tokens(impactsStr);
      && (forall a, b :: 0 <= a < |errs| && 0 <= b < |errs| && errs[a].InvalidImpact? && errs[b].InvalidImpact? ==> a == b)
      && ((exists a :: 0 <= a < |errs| && errs[a].InvalidImpact?) <==> !PackageValidation.AllSigns(it))
      && (forall a :: 0 <= a < |errs| && errs[a].InvalidImpact? ==> errs[a].token == FirstNonSign(it).value)
  {
    VectorStage(weightsStr, impactsStr, nCols, parse);
    var ws := PackageValidation.ParseAll(PackageValidation.Tokens(weightsStr), parse).value;
    VectorInvalidImpact(ws, PackageValidation.Tokens(impactsStr), nCols);
  }

  lemma VectorInvalidImpact(ws: seq<real>, it: seq<string>, nCols: int)
    ensures var errs := VectorErrors(ws, it, nCols);
      && (forall a, b :: 0 <= a < |errs| && 0 <= b < |errs| && errs[a].InvalidImpact? && errs[b].InvalidImpact? ==> a == b)
      && ((exists a :: 0 <= a < |errs| && errs[a].InvalidImpact?) <==> !PackageValidation.AllSigns(it))
      && (forall a :: 0 <= a < |errs| && errs[a].InvalidImpact? ==> errs[a].token == FirstNonSign(it).value)
  {
    var errs := VectorErrors(ws, it, nCols);
    var c := (if |ws| != nCols then [WeightCount(|ws|, nCols)] else [])
      + (if |it| != nCols then [ImpactCount(|it|, nCols)] else []);
    var m := match FirstNonSign(it) case None => [] case Some(t) => [InvalidImpact(t)];
    var p := if ws != [] && !AllPositive(ws) then [WeightsNotPositive] else [];
    assert errs == c + m + p;
    assert forall a :: 0 <= a < |c| ==> !errs[a].InvalidImpact?;
    assert forall a :: |c| + |m| <= a < |errs| ==> !errs[a].InvalidImpact?;
    if !PackageValidation.AllSigns(it) {
      assert errs[|c|].InvalidImpact?;
    }
  }

  /** The vector stage reports nothing exactly when both counts are right,
      every impact is a sign and (when there are weights) every weight is
      positive. */
  lemma VectorErrorsEmpty(ws: seq<real>, it: seq<string>, nCols: int)
    ensures VectorErrors(ws, it, nCols) == [] <==>
      |ws| == nCols && |it| == nCols && PackageValidation.AllSigns(it)
      && (ws == [] || AllPositive(ws))
  {
  }

  /** The accumulating validator accepts exactly what the package's
      fail-fast validator accepts, and returns the same vectors. */
  lemma AgreesWithPackage(weightsStr: string, impactsStr: string, nCols: int, parse: string -> Option<real>)
    ensures var pkg := PackageValidation.ParseWeightsImpacts(weightsStr, impactsStr, nCols, parse);
      && (InputErrors(weightsStr, impactsStr, nCols, parse) == [] <==> pkg.Ok?)
      && (pkg.Ok? ==>
            && PackageValidation.ParseAll(PackageValidation.Tokens(weightsStr), parse) == Some(pkg.value.weights)
            && PackageValidation.AllSigns(PackageValidation.Tokens(impactsStr))
            && pkg.value.impacts == PackageValidation.ImpactsOf(PackageValidation.Tokens(impactsStr)))
  {
    if ',' !in weightsStr || ',' !in impactsStr {
      assert InputErrors(weightsStr, impactsStr, nCols, parse) == CommaErrors(weightsStr, impactsStr) != [];
    } else {
      AgreesPastCommas(weightsStr, impactsStr, nCols, parse);
    }
  }

  lemma AgreesPastCommas(weightsStr: string, impactsStr: string, nCols: int, parse: string -> Option<real>)
    requires ',' in weightsStr && ',' in impactsStr
    ensures var pkg := PackageValidation.ParseWeightsImpacts(weightsStr, impactsStr, nCols, parse);
      && (InputErrors(weightsStr, impactsStr, nCols, parse) == [] <==> pkg.Ok?)
      && (pkg.Ok? ==>
            && PackageValidation.ParseAll(PackageValidation.Tokens(weightsStr), parse) == Some(pkg.value.weights)
            && PackageValidation.AllSigns(PackageValidation.Tokens(impactsStr))
            && pkg.value.impacts == PackageValidation.ImpactsOf(PackageValidation.Tokens(impactsStr)))
  {
    var wt := PackageValidation.Tokens(weightsStr);
    var it := PackageValidation.Tokens(impactsStr);
    assert CommaErrors(weightsStr, impactsStr) == [];
    if PackageValidation.ParseAll(wt, parse).Some? {
      var ws := PackageValidation.ParseAll(wt, parse).value;
      VectorStage(weightsStr, impactsStr, nCols, parse);
      VectorErrorsEmpty(ws, it, nCols);
    }
  }
}
