/** `validateInputs` of the two browser pages (the static page and the
    page that calls the API hold the same function): a chain of checks in
    a fixed order; the first that fails writes its message into the
    page's `error` state and the function returns false. */
module FormValidation {
  import opened Common
  import Text
  import Email
  import PackageValidation

  datatype InputError =
    | NoData
    | TooFewColumns
    | NoWeights
    | NoImpacts
    | WeightCount(found: nat, expected: int)
    | ImpactCount(found: nat, expected: int)
    | BadWeight
    | BadImpact
    | BadEmail

  /** The text passed to `setError` for each failure. */
  function Message(e: InputError): string
  {
    match e
    case NoData => "Please upload a valid CSV file"
    case TooFewColumns => "CSV must have at least 3 columns (1 for names + 2 criteria)"
    case NoWeights => "Please enter weights"
    case NoImpacts => "Please enter impacts"
    case WeightCount(found, expected) =>
      "Number of weights (" + Text.NatToString(found) + ") must equal number of criteria ("
      + Text.IntToString(expected) + ")"
    case ImpactCount(found, expected) =>
      "Number of impacts (" + Text.NatToString(found) + ") must equal number of criteria ("
      + Text.IntToString(expected) + ")"
    case BadWeight => "All weights must be positive numbers"
    case BadImpact => "Impacts must be either \"+\" or \"-\""
    case BadEmail => "Please enter a valid email address"
  }

  /** `data[0].length - 1`: the header's cells less the name column. It is
      read only once there are rows. */
  function NumCriteria(data: seq<seq<string>>): int
  {
    if data == [] then -1 else |data[0]| - 1
  }

  /** One check: whether it passes, and the error it reports otherwise. */
  datatype Check = Check(passes: bool, error: InputError)

  /** The checks of `validateInputs`, in the order the source makes them.
      `parseFloat` reads a trimmed weight token, `None` standing for NaN. */
  function Checks(data: seq<seq<string>>, weights: string, impacts: string, sendEmail: bool,
                  email: string, parseFloat: string -> Option<real>): (cs: seq<Check>)
    ensures |cs| == 9
  {
    var n := NumCriteria(data);
    var wt := PackageValidation.Tokens(weights);
    var it := PackageValidation.Tokens(impacts);
    [ Check(|data| >= 2, NoData),
      Check(n >= 2, TooFewColumns),
      Check(Text.Strip(weights) != [], NoWeights),
      Check(Text.Strip(impacts) != [], NoImpacts),
      Check(|wt| == n, WeightCount(|wt|, n)),
      Check(|it| == n, ImpactCount(|it|, n)),
      Check(forall k :: 0 <= k < |wt| ==> parseFloat(wt[k]).Some? && parseFloat(wt[k]).value > 0.0, BadWeight),
      Check(PackageValidation.AllSigns(it), BadImpact),
      Check(!sendEmail || Email.FormEmailOk(email), BadEmail) ]
  }

  /** The error of the first failing check, if any. */
  function FirstFailure(cs: seq<Check>): (r: Option<InputError>)
    ensures r.None? <==> forall k :: 0 <= k < |cs| ==> cs[k].passes
    ensures r.Some? ==>
      exists k :: 0 <= k < |cs| && !cs[k].passes && cs[k].error == r.value && forall j :: 0 <= j < k ==> cs[j].passes
  {
    if cs == [] then None
    else if !cs[0].passes then Some(cs[0].error)
    else
      var r := FirstFailure(cs[1..]);
      assert forall k :: 1 <= k < |cs| ==> cs[1..][k - 1] == cs[k];
      if r.Some? then
        var k :| 0 <= k < |cs[1..]| && !cs[1..][k].passes && cs[1..][k].error == r.value
          && forall j :: 0 <= j < k ==> cs[1..][j].passes;
        assert !cs[k + 1].passes && cs[k + 1].error == r.value;
        r
      else r
  }

  /** What `validateInputs` decides for the page's current state: the
      error of the first check that fails, or `None` when all pass.
      `parseFloat` reads a trimmed weight token, `None` standing for NaN. */
  function FirstError(data: seq<seq<string>>, weights: string, impacts: string, sendEmail: bool,
                      email: string, parseFloat: string -> Option<real>): Option<InputError>
  {
    if |data| < 2 then Some(NoData)
    else if |data[0]| - 1 < 2 then Some(TooFewColumns)
    else if Text.Strip(weights) == [] then Some(NoWeights)
    else if Text.Strip(impacts) == [] then Some(NoImpacts)
    else
      var n := |data[0]| - 1;
      var wt := PackageValidation.Tokens(weights);
      var it := PackageValidation.Tokens(impacts);
      if |wt| != n then Some(WeightCount(|wt|, n))
      else if |it| != n then Some(ImpactCount(|it|, n))
      else if exists k :: 0 <= k < |wt| && (parseFloat(wt[k]).None? || parseFloat(wt[k]).value <= 0.0) then Some(BadWeight)
      else if exists k :: 0 <= k < |it| && it[k] != "+" && it[k] != "-" then Some(BadImpact)
      else if sendEmail && !Email.FormEmailOk(email) then Some(BadEmail)
      else None
  }

  /** The page state `validateInputs` reads and the `error` state it writes. */
  class Form {
    var data: seq<seq<string>>
    var weights: string
    var impacts: string
    var email: string
    var sendEmail: bool
    var error: string

    constructor(data: seq<seq<string>>, weights: string, impacts: string, email: string, sendEmail: bool)
      ensures this.data == data && this.weights == weights && this.impacts == impacts
      ensures this.email == email && this.sendEmail == sendEmail && this.error == ""
    {
      this.data := data;
      this.weights := weights;
      this.impacts := impacts;
      this.email := email;
      this.sendEmail := sendEmail;
      this.error := "";
    }

    /** `validateInputs()`: true exactly when every check passes, leaving
        `error` alone; otherwise false, with the first failing check's
        message in `error`. */
    method ValidateInputs(parseFloat: string -> Option<real>) returns (ok: bool)
      modifies this`error
      ensures ok <==> FirstError(data, weights, impacts, sendEmail, email, parseFloat).None?
      ensures ok ==> error == old(error)
      ensures !ok ==> error == Message(FirstError(data, weights, impacts, sendEmail, email, parseFloat).value)
    {
      ghost var decision := FirstError(data, weights, impacts, sendEmail, email, parseFloat);
      if |data| < 2 {
        error := Message(NoData);
        return false;
      }
      var numCriteria := |data[0]| - 1;
      if numCriteria < 2 {
        error := Message(TooFewColumns);
        return false;
      }
      if Text.Strip(weights) == [] {
        error := Message(NoWeights);
        return false;
      }
      if Text.Strip(impacts) == [] {
        error := Message(NoImpacts);
        return false;
      }
      var weightArray := PackageValidation.Tokens(weights);
      var impactArray := PackageValidation.Tokens(impacts);
      if |weightArray| != numCriteria {
        assert decision == Some(WeightCount(|weightArray|, numCriteria));
        error := Message(WeightCount(|weightArray|, numCriteria));
        return false;
      }
      if |impactArray| != numCriteria {
        assert decision == Some(ImpactCount(|impactArray|, numCriteria));
        error := Message(ImpactCount(|impactArray|, numCriteria));
        return false;
      }
      if exists k :: 0 <= k < |weightArray| && (parseFloat(weightArray[k]).None? || parseFloat(weightArray[k]).value <= 0.0) {
        assert decision == Some(BadWeight);
        error := Message(BadWeight);
        return false;
      }
      if exists k :: 0 <= k < |impactArray| && impactArray[k] != "+" && impactArray[k] != "-" {
        assert decision == Some(BadImpact);
        error := Message(BadImpact);
        return false;
      }
      if sendEmail && (Text.Strip(email) == [] || '@' !in email) {
        assert decision == Some(BadEmail);
        error := Message(BadEmail);
        return false;
      }
      assert decision == None;
      return true;
    }
  }

  /** A failing check preceded only by passing ones is the first failure. */
  lemma {:induction false} FirstFailureAt(cs: seq<Check>, k: nat)
    requires k < |cs| && !cs[k].passes
    requires forall j :: 0 <= j < k ==> cs[j].passes
    ensures FirstFailure(cs) == Some(cs[k].error)
    decreases k
  {
    if k > 0 {
      FirstFailureAt(cs[1..], k - 1);
    }
  }

  /** The decision is the error of the first failing check of `Checks`:
      every earlier check passed, and none is skipped or reordered. */
  lemma FirstErrorIsFirstFailedCheck(data: seq<seq<string>>, weights: string, impacts: string, sendEmail: bool,
                                     email: string, parseFloat: string -> Option<real>)
    ensures FirstError(data, weights, impacts, sendEmail, email, parseFloat)
      == FirstFailure(Checks(data, weights, impacts, sendEmail, email, parseFloat))
  {
    var cs := Checks(data, weights, impacts, sendEmail, email, parseFloat);
    if |data| < 2 {
      FirstFailureAt(cs, 0);
    } else if |data[0]| - 1 < 2 {
      FirstFailureAt(cs, 1);
    } else if Text.Strip(weights) == [] {
      FirstFailureAt(cs, 2);
    } else if Text.Strip(impacts) == [] {
      FirstFailureAt(cs, 3);
    } else {
      FirstErrorAfterPresence(data, weights, impacts, sendEmail, email, parseFloat);
    }
  }

  /** `FirstErrorIsFirstFailedCheck` once the first four checks pass. */
  lemma FirstErrorAfterPresence(data: seq<seq<string>>, weights: string, impacts: string, sendEmail: bool,
                                email: string, parseFloat: string -> Option<real>)
    requires |data| >= 2 && |data[0]| - 1 >= 2
    requires Text.Strip(weights) != [] && Text.Strip(impacts) != []
    ensures FirstError(data, weights, impacts, sendEmail, email, parseFloat)
      == FirstFailure(Checks(data, weights, impacts, sendEmail, email, parseFloat))
  {
    var cs := Checks(data, weights, impacts, sendEmail, email, parseFloat);
    assert cs[0].passes && cs[1].passes && cs[2].passes && cs[3].passes;
    if !cs[4].passes {
      FirstFailureAt(cs, 4);
    } else if !cs[5].passes {
      FirstFailureAt(cs, 5);
    } else {
      FirstErrorAfterCounts(data, weights, impacts, sendEmail, email, parseFloat);
    }
  }

  /** `FirstErrorIsFirstFailedCheck` once the first six checks pass. */
  lemma FirstErrorAfterCounts(data: seq<seq<string>>, weights: string, impacts: string, sendEmail: bool,
                              email: string, parseFloat: string -> Option<real>)
    requires |data| >= 2 && |data[0]| - 1 >= 2
    requires Text.Strip(weights) != [] && Text.Strip(impacts) != []
    requires |PackageValidation.Tokens(weights)| == |data[0]| - 1
    requires |PackageValidation.Tokens(impacts)| == |data[0]| - 1
    ensures FirstError(data, weights, impacts, sendEmail, email, parseFloat)
      == FirstFailure(Checks(data, weights, impacts, sendEmail, email, parseFloat))
  {
    var cs := Checks(data, weights, impacts, sendEmail, email, parseFloat);
    assert forall j :: 0 <= j < 6 ==> cs[j].passes;
    if !cs[6].passes {
      FirstFailureAt(cs, 6);
    } else if !cs[7].passes {
      FirstFailureAt(cs, 7);
    } else if !cs[8].passes {
      FirstFailureAt(cs, 8);
    }
  }

  /** The form is accepted exactly when every condition holds. */
  lemma AcceptedIff(data: seq<seq<string>>, weights: string, impacts: string, sendEmail: bool,
                    email: string, parseFloat: string -> Option<real>)
    ensures FirstError(data, weights, impacts, sendEmail, email, parseFloat).None? <==>
      var wt := PackageValidation.Tokens(weights);
      var it := PackageValidation.Tokens(impacts);
      && |data| >= 2 && |data[0]| - 1 >= 2
      && Text.Strip(weights) != [] && Text.Strip(impacts) != []
      && |wt| == |data[0]| - 1 && |it| == |data[0]| - 1
      && (forall k :: 0 <= k < |wt| ==> parseFloat(wt[k]).Some? && parseFloat(wt[k]).value > 0.0)
      && (forall k :: 0 <= k < |it| ==> it[k] == "+" || it[k] == "-")
      && (sendEmail ==> Text.Strip(email) != [] && '@' in email)
  {
  }

  /** A blank weights box is reported before its count is checked, so a
      blank box never draws the count message. */
  lemma BlankWeightsReported(data: seq<seq<string>>, weights: string, impacts: string, sendEmail: bool,
                             email: string, parseFloat: string -> Option<real>)
    requires |data| >= 2 && |data[0]| - 1 >= 2
    requires Text.AllSpace(weights)
    ensures FirstError(data, weights, impacts, sendEmail, email, parseFloat) == Some(NoWeights)
  {
    Text.StripEmptyIffBlank(weights);
  }

  /** Without e-mail, a page with at least two criteria accepts exactly the
      weights and impacts the package's validator accepts for that many
      columns, given the same number reader. */
  lemma AgreesWithPackage(data: seq<seq<string>>, weights: string, impacts: string,
                          email: string, parseFloat: string -> Option<real>)
    requires |data| >= 2 && |data[0]| - 1 >= 2
    ensures FirstError(data, weights, impacts, false, email, parseFloat).None?
      <==> PackageValidation.ParseWeightsImpacts(weights, impacts, |data[0]| - 1, parseFloat).Ok?
  {
    var n := |data[0]| - 1;
    AcceptedIff(data, weights, impacts, false, email, parseFloat);
    PackageValidation.AcceptedIffAcceptable(weights, impacts, n, parseFloat);
    Text.SplitHasSeveralIffSep(weights, ',');
    Text.SplitHasSeveralIffSep(impacts, ',');
    Text.StripEmptyIffBlank(weights);
    Text.StripEmptyIffBlank(impacts);
    if ',' in weights {
      var i :| 0 <= i < |weights| && weights[i] == ',';
      assert !Text.IsSpace(weights[i]);
    }
    if ',' in impacts {
      var i :| 0 <= i < |impacts| && impacts[i] == ',';
      assert !Text.IsSpace(impacts[i]);
    }
  }
}
