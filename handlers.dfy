/** The request decisions of the two HTTP handlers (the API function and
    the local development server) and of the Streamlit page: which check
    fires first, and the shape of the answer. Reading the CSV text, the
    SMTP session and the transport are parameters. */
module Handlers {
  import opened Common
  import Text
  import Email
  import Frames
  import PackageValidation
  import ServiceValidation
  import Scorer
  import Pipelines

  /** The fields of the JSON body; `None` is a missing key or a JSON null. */
  datatype Request = Request(
    csvData: Option<string>,
    weights: Option<string>,
    impacts: Option<string>,
    email: Option<string>,
    sendEmail: bool)

  /** Python truthiness of an optional string. */
  predicate Truthy(o: Option<string>)
  {
    o.Some? && o.value != []
  }

  /** The JSON record written back: `{success: True, results, message}` or
      `{success: False, error}`. */
  datatype Response = Success(results: Frames.Table, message: string) | Failure(error: string)

  /** What `send_email` meets: the configured password and, when a session
      is attempted, the exception it raises, if any. */
  datatype Mailer = Mailer(password: string, failure: Option<string>)

  /** The opening characters of the two outcome texts of `send_email`. */
  datatype MailTexts = MailTexts(sent: string, warning: string)

  /** The prefixes in the API function and the Streamlit page. */
  const ApiMailTexts := MailTexts("\U{2705}", "\U{26A0}\U{FE0F}")

  /** The prefixes in the local server, whose file holds the same symbols
      mis-decoded. */
  const LocalMailTexts := MailTexts("\U{201A}\U{FA}\U{D6}", "\U{201A}\U{F6}\U{2020}\U{D4}\U{220F}\U{E8}")

  /** The message `send_email` returns; it catches every exception itself. */
  function DeliveryMessage(m: Mailer, recipient: string, texts: MailTexts): (msg: string)
    ensures m.password == [] ==> msg == "No email configuration. Download results below."
  {
    if m.password == [] then "No email configuration. Download results below."
    else match m.failure
      case None => texts.sent + " Results sent successfully to " + recipient + "!"
      case Some(e) => texts.warning + " Could not send email: " + e + ". Download results below."
  }

  /** Every table that reading a CSV text yields is well formed (pandas
      gives every row one cell per column and de-duplicates the names). */
  ghost predicate ReadsTables(readCsv: string -> Result<Frames.Table, string>)
  {
    forall s :: readCsv(s).Ok? ==> Frames.WellFormed(readCsv(s).value)
  }

  const DefaultMessage := "Results calculated successfully!"

  /** The vectors of strings the validators accepted for `n` criteria. */
  function Accepted(weights: string, impacts: string, n: nat, parse: string -> Option<real>): (v: PackageValidation.Vectors)
    requires PackageValidation.ParseWeightsImpacts(weights, impacts, n, parse).Ok?
    ensures |v.weights| == n && |v.impacts| == n
  {
    PackageValidation.ParseWeightsImpacts(weights, impacts, n, parse).value
  }

  /** The stage after scoring: the e-mail step when both `sendEmail` and
      `email` are truthy, the default message otherwise. */
  function Finish(result: Frames.Table, req: Request, mail: Mailer, texts: MailTexts): (r: Response)
    ensures r.Success? ==> r.results == result
  {
    if req.sendEmail && Truthy(req.email) then
      if !Email.ValidateEmail(req.email.value) then Failure("Invalid email format")
      else Success(result, DeliveryMessage(mail, req.email.value, texts))
    else Success(result, DefaultMessage)
  }

  // ---------------------------------------------------------------
  // The API function
  // ---------------------------------------------------------------

  /** `do_POST` of the API function. A success answers one result row per
      data row of the CSV text. */
  function ApiResponse(req: Request, readCsv: string -> Result<Frames.Table, string>,
                       parse: string -> Option<real>, sqrt: real -> real, mail: Mailer): (resp: Response)
    requires ReadsTables(readCsv) && IsSqrt(sqrt)
    ensures resp.Success? ==>
      && req.csvData.Some? && readCsv(req.csvData.value).Ok?
      && Frames.WellFormed(resp.results)
      && |resp.results.rows| == |readCsv(req.csvData.value).value.rows|
  {
    if !Truthy(req.csvData) || !Truthy(req.weights) || !Truthy(req.impacts) then
      Failure("Missing required parameters")
    else match readCsv(req.csvData.value)
      case Err(e) => Failure("Server error: " + e)
      case Ok(t) =>
        if |t.header| < 3 then Failure("File must contain at least 3 columns")
        else if !Frames.AllNumeric(t, parse) then Failure("Columns 2 onwards must contain only numeric values")
        else ApiParsed(t, req, parse, sqrt, mail)
  }

  /** The API function from the parser on, for a table that passed its checks. */
  function ApiParsed(t: Frames.Table, req: Request, parse: string -> Option<real>, sqrt: real -> real, mail: Mailer): (resp: Response)
    requires Frames.WellFormed(t) && |t.header| >= 3 && Frames.AllNumeric(t, parse)
    requires req.weights.Some? && req.impacts.Some? && IsSqrt(sqrt)
    ensures resp.Success? ==> Frames.WellFormed(resp.results) && |resp.results.rows| == |t.rows|
  {
    var n := |t.header| - 1;
    var errors := ServiceValidation.InputErrors(req.weights.value, req.impacts.value, n, parse);
    if errors != [] then Failure(Text.Join(ServiceValidation.Messages(errors), "; "))
    else
      ServiceValidation.AgreesWithPackage(req.weights.value, req.impacts.value, n, parse);
      var v := Accepted(req.weights.value, req.impacts.value, n, parse);
      match Pipelines.ArrayTopsis(t, v.weights, v.impacts, parse, sqrt)
      case Err(e) => Failure("Server error: " + e)
      case Ok(result) => Finish(result, req, mail, ApiMailTexts)
  }

  /** The API function step by step: the checks in order, the accumulating
      parser, then the scoring run on a frame. */
  method HandleApi(req: Request, readCsv: string -> Result<Frames.Table, string>,
                   parse: string -> Option<real>, sqrt: real -> real, mail: Mailer) returns (resp: Response)
    requires ReadsTables(readCsv) && IsSqrt(sqrt)
    ensures resp == ApiResponse(req, readCsv, parse, sqrt, mail)
  {
    if !Truthy(req.csvData) || !Truthy(req.weights) || !Truthy(req.impacts) {
      return Failure("Missing required parameters");
    }
    var read := readCsv(req.csvData.value);
    if read.Err? {
      return Failure("Server error: " + read.error);
    }
    var t := read.value;
    if |t.header| < 3 {
      return Failure("File must contain at least 3 columns");
    }
    if !Frames.AllNumeric(t, parse) {
      return Failure("Columns 2 onwards must contain only numeric values");
    }
    resp := HandleParsed(t, req, parse, sqrt, mail);
  }

  /** `parse_inputs`, `topsis` and the e-mail step of the API function. */
  method HandleParsed(t: Frames.Table, req: Request, parse: string -> Option<real>, sqrt: real -> real, mail: Mailer)
    returns (resp: Response)
    requires Frames.WellFormed(t) && |t.header| >= 3 && Frames.AllNumeric(t, parse)
    requires req.weights.Some? && req.impacts.Some? && IsSqrt(sqrt)
    ensures resp == ApiParsed(t, req, parse, sqrt, mail)
  {
    var n := |t.header| - 1;
    var weights, impacts, errors := ServiceValidation.ParseInputs(req.weights.value, req.impacts.value, n, parse);
    if errors != [] {
      return Failure(Text.Join(ServiceValidation.Messages(errors), "; "));
    }
    ServiceValidation.AgreesWithPackage(req.weights.value, req.impacts.value, n, parse);
    var v := Accepted(req.weights.value, req.impacts.value, n, parse);
    var df := new Frames.Frame(t);
    var run := Pipelines.RunArrayTopsis(df, v.weights, v.impacts, parse, sqrt);
    if run.Err? {
      return Failure("Server error: " + Pipelines.ArrayMessage(run.error));
    }
    resp := Finish(run.value.Value(), req, mail, ApiMailTexts);
  }

  /** A missing CSV text, weights string or impacts string is reported
      before anything is read or parsed, whatever the reader, the number
      reader and the mailer do. */
  lemma ApiMissingFirst(req: Request, readCsv: string -> Result<Frames.Table, string>,
                        parse: string -> Option<real>, sqrt: real -> real, mail: Mailer)
    requires ReadsTables(readCsv) && IsSqrt(sqrt)
    requires !Truthy(req.csvData) || !Truthy(req.weights) || !Truthy(req.impacts)
    ensures ApiResponse(req, readCsv, parse, sqrt, mail) == Failure("Missing required parameters")
  {
  }

  /** The table checks come before the weights and impacts: a table with
      too few columns or a non-numeric cell is reported whatever the
      strings say, and parse errors are reported joined by "; ". */
  lemma ApiStageOrder(req: Request, readCsv: string -> Result<Frames.Table, string>,
                      parse: string -> Option<real>, sqrt: real -> real, mail: Mailer)
    requires ReadsTables(readCsv) && IsSqrt(sqrt)
    requires Truthy(req.csvData) && Truthy(req.weights) && Truthy(req.impacts)
    ensures readCsv(req.csvData.value).Err? ==>
      ApiResponse(req, readCsv, parse, sqrt, mail) == Failure("Server error: " + readCsv(req.csvData.value).error)
    ensures readCsv(req.csvData.value).Ok? ==>
      var t := readCsv(req.csvData.value).value;
      && (|t.header| < 3 ==> ApiResponse(req, readCsv, parse, sqrt, mail) == Failure("File must contain at least 3 columns"))
      && (|t.header| >= 3 && !Frames.AllNumeric(t, parse) ==>
            ApiResponse(req, readCsv, parse, sqrt, mail) == Failure("Columns 2 onwards must contain only numeric values"))
      && (|t.header| >= 3 && Frames.AllNumeric(t, parse) ==>
            var errors := ServiceValidation.InputErrors(req.weights.value, req.impacts.value, |t.header| - 1, parse);
            errors != [] ==>
              ApiResponse(req, readCsv, parse, sqrt, mail) == Failure(Text.Join(ServiceValidation.Messages(errors), "; ")))
  {
  }

  /** The answer is a success exactly when every stage passes: the three
      parameters, the read, the column count, the numeric check, the
      parser, a scorer input without an all-zero column and, when
      requested, the address. An all-constant table succeeds too, with
      NaN scores. */
  lemma ApiSuccessIff(req: Request, readCsv: string -> Result<Frames.Table, string>,
                      parse: string -> Option<real>, sqrt: real -> real, mail: Mailer)
    requires ReadsTables(readCsv) && IsSqrt(sqrt)
    ensures ApiResponse(req, readCsv, parse, sqrt, mail).Success? <==>
      && Truthy(req.csvData) && Truthy(req.weights) && Truthy(req.impacts)
      && readCsv(req.csvData.value).Ok?
      && var t := readCsv(req.csvData.value).value;
         && |t.header| >= 3 && Frames.AllNumeric(t, parse)
         && PackageValidation.ParseWeightsImpacts(req.weights.value, req.impacts.value, |t.header| - 1, parse).Ok?
         && (forall j :: 0 <= j < |t.header| - 1 ==> !Scorer.ZeroColumn(Frames.Criteria(t, parse).value, j))
         && (req.sendEmail && Truthy(req.email) ==> Email.ValidateEmail(req.email.value))
  {
    if !Truthy(req.csvData) || !Truthy(req.weights) || !Truthy(req.impacts) {
    } else if readCsv(req.csvData.value).Err? {
    } else {
      var t := readCsv(req.csvData.value).value;
      if |t.header| < 3 {
      } else if !Frames.AllNumeric(t, parse) {
      } else {
        assert ApiResponse(req, readCsv, parse, sqrt, mail) == ApiParsed(t, req, parse, sqrt, mail);
        ApiParsedSuccessIff(t, req, parse, sqrt, mail);
      }
    }
  }

  /** A success carries the positional-rank result table of the vectors
      the package's validator makes of the two strings. */
  lemma ApiSuccessResults(req: Request, readCsv: string -> Result<Frames.Table, string>,
                          parse: string -> Option<real>, sqrt: real -> real, mail: Mailer)
    requires ReadsTables(readCsv) && IsSqrt(sqrt)
    requires ApiResponse(req, readCsv, parse, sqrt, mail).Success?
    ensures req.csvData.Some? && req.weights.Some? && req.impacts.Some? && readCsv(req.csvData.value).Ok?
    ensures var t := readCsv(req.csvData.value).value;
      && |t.header| >= 3
      && PackageValidation.ParseWeightsImpacts(req.weights.value, req.impacts.value, |t.header| - 1, parse).Ok?
      && var v := Accepted(req.weights.value, req.impacts.value, |t.header| - 1, parse);
         && Pipelines.Topsis(t, v.weights, v.impacts, parse, sqrt, Pipelines.Positional).Ok?
         && ApiResponse(req, readCsv, parse, sqrt, mail).results
              == Pipelines.Topsis(t, v.weights, v.impacts, parse, sqrt, Pipelines.Positional).value
  {
    var t := readCsv(req.csvData.value).value;
    assert ApiResponse(req, readCsv, parse, sqrt, mail) == ApiParsed(t, req, parse, sqrt, mail);
    ApiParsedSuccessIff(t, req, parse, sqrt, mail);
  }

  /** `ApiSuccessIff` for a table that passed the checks. */
  lemma ApiParsedSuccessIff(t: Frames.Table, req: Request, parse: string -> Option<real>, sqrt: real -> real, mail: Mailer)
    requires Frames.WellFormed(t) && |t.header| >= 3 && Frames.AllNumeric(t, parse)
    requires req.weights.Some? && req.impacts.Some? && IsSqrt(sqrt)
    ensures ApiParsed(t, req, parse, sqrt, mail).Success? <==>
      && PackageValidation.ParseWeightsImpacts(req.weights.value, req.impacts.value, |t.header| - 1, parse).Ok?
      && (forall j :: 0 <= j < |t.header| - 1 ==> !Scorer.ZeroColumn(Frames.Criteria(t, parse).value, j))
      && (req.sendEmail && Truthy(req.email) ==> Email.ValidateEmail(req.email.value))
    ensures ApiParsed(t, req, parse, sqrt, mail).Success? ==>
      var v := Accepted(req.weights.value, req.impacts.value, |t.header| - 1, parse);
      ApiParsed(t, req, parse, sqrt, mail).results
        == Pipelines.Topsis(t, v.weights, v.impacts, parse, sqrt, Pipelines.Positional).value
  {
    ServiceValidation.AgreesWithPackage(req.weights.value, req.impacts.value, |t.header| - 1, parse);
    if PackageValidation.ParseWeightsImpacts(req.weights.value, req.impacts.value, |t.header| - 1, parse).Ok? {
      var v := Accepted(req.weights.value, req.impacts.value, |t.header| - 1, parse);
      PositionalFailsOnlyOnZero(t, v, parse, sqrt);
    }
  }

  /** Positional scoring of a numeric table fails exactly when a criteria
      column is all zeros. */
  lemma PositionalFailsOnlyOnZero(t: Frames.Table, v: PackageValidation.Vectors, parse: string -> Option<real>, sqrt: real -> real)
    requires Frames.WellFormed(t) && Pipelines.Fits(t, v.weights, v.impacts) && IsSqrt(sqrt)
    requires Frames.AllNumeric(t, parse)
    ensures Pipelines.Topsis(t, v.weights, v.impacts, parse, sqrt, Pipelines.Positional).Err? <==>
      exists j :: 0 <= j < |v.weights| && Scorer.ZeroColumn(Frames.Criteria(t, parse).value, j)
    ensures Pipelines.ArrayTopsis(t, v.weights, v.impacts, parse, sqrt).Err? <==>
      Pipelines.Topsis(t, v.weights, v.impacts, parse, sqrt, Pipelines.Positional).Err?
  {
    Pipelines.TopsisOutcome(t, v.weights, v.impacts, parse, sqrt, Pipelines.Positional);
  }

  /** The address is looked at only when both `sendEmail` and `email` are
      truthy: otherwise the answer does not depend on it and carries the
      default message. */
  lemma ApiEmailOnlyWhenRequested(req: Request, readCsv: string -> Result<Frames.Table, string>,
                                  parse: string -> Option<real>, sqrt: real -> real, mail: Mailer)
    requires ReadsTables(readCsv) && IsSqrt(sqrt)
    requires !(req.sendEmail && Truthy(req.email))
    ensures ApiResponse(req, readCsv, parse, sqrt, mail) == ApiResponse(req.(email := None), readCsv, parse, sqrt, mail)
    ensures ApiResponse(req, readCsv, parse, sqrt, mail).Success? ==>
      ApiResponse(req, readCsv, parse, sqrt, mail).message == DefaultMessage
  {
  }

  /** What happens at the mail server changes only the message: a request
      succeeds or fails the same way, with the same results, whatever the
      mailer does. An invalid address is an error even though scoring
      succeeded. */
  lemma ApiDeliveryChangesOnlyMessage(req: Request, readCsv: string -> Result<Frames.Table, string>,
                                      parse: string -> Option<real>, sqrt: real -> real, m1: Mailer, m2: Mailer)
    requires ReadsTables(readCsv) && IsSqrt(sqrt)
    ensures ApiResponse(req, readCsv, parse, sqrt, m1).Success? <==> ApiResponse(req, readCsv, parse, sqrt, m2).Success?
    ensures ApiResponse(req, readCsv, parse, sqrt, m1).Success? ==>
      ApiResponse(req, readCsv, parse, sqrt, m1).results == ApiResponse(req, readCsv, parse, sqrt, m2).results
    ensures ApiResponse(req, readCsv, parse, sqrt, m1).Failure? ==>
      ApiResponse(req, readCsv, parse, sqrt, m1) == ApiResponse(req, readCsv, parse, sqrt, m2)
  {
  }

  /** `astype(float)` in the `topsis` of the API and the Streamlit page
      never raises: both callers have already rejected every non-numeric
      cell, so the only scoring failure left is the zero column, raised
      exactly when a criteria column is all zeros. */
  lemma ConversionNeverFails(t: Frames.Table, v: PackageValidation.Vectors, parse: string -> Option<real>, sqrt: real -> real)
    requires Frames.WellFormed(t) && Pipelines.Fits(t, v.weights, v.impacts) && IsSqrt(sqrt)
    requires Frames.AllNumeric(t, parse)
    ensures Pipelines.ArrayTopsis(t, v.weights, v.impacts, parse, sqrt).Err? <==>
      exists j :: 0 <= j < |v.weights| && Scorer.ZeroColumn(Frames.Criteria(t, parse).value, j)
    ensures Pipelines.ArrayTopsis(t, v.weights, v.impacts, parse, sqrt).Err? ==>
      Pipelines.ArrayTopsis(t, v.weights, v.impacts, parse, sqrt).error == Pipelines.ArrayMessage(Pipelines.ZeroColumn)
  {
    Pipelines.TopsisOutcome(t, v.weights, v.impacts, parse, sqrt, Pipelines.Positional);
    PositionalFailsOnlyOnZero(t, v, parse, sqrt);
  }

  // ---------------------------------------------------------------
  // The local development server
  // ---------------------------------------------------------------

  /** `TopsisHandler.parse_inputs`: the package's validator, any failure
      of which becomes the one error "Invalid weights or impacts format". */
  function LocalParse(weights: string, impacts: string, n: int, parse: string -> Option<real>): (errors: seq<string>)
    ensures errors == [] <==> PackageValidation.ParseWeightsImpacts(weights, impacts, n, parse).Ok?
    ensures errors != [] ==> errors == ["Invalid weights or impacts format"]
  {
    if PackageValidation.ParseWeightsImpacts(weights, impacts, n, parse).Ok? then []
    else ["Invalid weights or impacts format"]
  }

  /** `handle_topsis_request` of the local server. A success answers one
      result row per data row of the CSV text. */
  function LocalResponse(req: Request, readCsv: string -> Result<Frames.Table, string>,
                         parse: string -> Option<real>, sqrt: real -> real, mail: Mailer): (resp: Response)
    requires ReadsTables(readCsv) && IsSqrt(sqrt)
    ensures resp.Success? ==>
      && req.csvData.Some? && readCsv(req.csvData.value).Ok?
      && Frames.WellFormed(resp.results)
      && |resp.results.rows| == |readCsv(req.csvData.value).value.rows|
  {
    if !Truthy(req.csvData) || !Truthy(req.weights) || !Truthy(req.impacts) then
      Failure("Missing required parameters")
    else match readCsv(req.csvData.value)
      case Err(e) => Failure("Server error: " + e)
      case Ok(t) =>
        if |t.header| < 3 then Failure("File must contain at least 3 columns")
        else if !Frames.AllNumeric(t, parse) then Failure("Columns 2 onwards must contain only numeric values")
        else LocalParsed(t, req, parse, sqrt, mail)
  }

  /** The local server from the parser on, for a table that passed its checks. */
  function LocalParsed(t: Frames.Table, req: Request, parse: string -> Option<real>, sqrt: real -> real, mail: Mailer): (resp: Response)
    requires Frames.WellFormed(t) && |t.header| >= 3 && Frames.AllNumeric(t, parse)
    requires req.weights.Some? && req.impacts.Some? && IsSqrt(sqrt)
    ensures resp.Success? ==> Frames.WellFormed(resp.results) && |resp.results.rows| == |t.rows|
  {
    var n := |t.header| - 1;
    var errors := LocalParse(req.weights.value, req.impacts.value, n, parse);
    if errors != [] then Failure(Text.Join(errors, "; "))
    else
      var v := Accepted(req.weights.value, req.impacts.value, n, parse);
      match Pipelines.LocalTopsis(t, v.weights, v.impacts, parse, sqrt)
      case Err(e) => Failure("Server error: " + e)
      case Ok(result) => Finish(result, req, mail, LocalMailTexts)
  }

  /** The local server step by step: the checks in order, the package's
      validator, then the coercing scoring run on a frame. */
  method HandleLocal(req: Request, readCsv: string -> Result<Frames.Table, string>,
                     parse: string -> Option<real>, sqrt: real -> real, mail: Mailer) returns (resp: Response)
    requires ReadsTables(readCsv) && IsSqrt(sqrt)
    ensures resp == LocalResponse(req, readCsv, parse, sqrt, mail)
  {
    if !Truthy(req.csvData) || !Truthy(req.weights) || !Truthy(req.impacts) {
      return Failure("Missing required parameters");
    }
    var read := readCsv(req.csvData.value);
    if read.Err? {
      return Failure("Server error: " + read.error);
    }
    var t := read.value;
    if |t.header| < 3 {
      return Failure("File must contain at least 3 columns");
    }
    if !Frames.AllNumeric(t, parse) {
      return Failure("Columns 2 onwards must contain only numeric values");
    }
    var n := |t.header| - 1;
    var errors := LocalParse(req.weights.value, req.impacts.value, n, parse);
    if errors != [] {
      return Failure(Text.Join(errors, "; "));
    }
    var v := Accepted(req.weights.value, req.impacts.value, n, parse);
    var df := new Frames.Frame(t);
    var run := Pipelines.RunTopsis(df, v.weights, v.impacts, parse, sqrt);
    if run.Err? {
      return Failure("Server error: " + Pipelines.LocalMessage(run.error));
    }
    resp := Finish(run.value.Value(), req, mail, LocalMailTexts);
  }

  /** The request reaches scoring with valid vectors and every score is
      `0 / 0`: the one case where the dense and positional copies part. */
  predicate AllConstantRequest(req: Request, readCsv: string -> Result<Frames.Table, string>,
                               parse: string -> Option<real>, sqrt: real -> real)
    requires ReadsTables(readCsv) && IsSqrt(sqrt)
  {
    && Truthy(req.csvData) && Truthy(req.weights) && Truthy(req.impacts)
    && readCsv(req.csvData.value).Ok?
    && var t := readCsv(req.csvData.value).value;
       && |t.header| >= 3 && Frames.AllNumeric(t, parse)
       && PackageValidation.ParseWeightsImpacts(req.weights.value, req.impacts.value, |t.header| - 1, parse).Ok?
       && var v := Accepted(req.weights.value, req.impacts.value, |t.header| - 1, parse);
          Pipelines.ScoreUndefined(t, v.weights, v.impacts, parse, sqrt)
  }

  /** The local server and the API function accept the same requests but
      one kind (`LocalStageOrder` and `ApiStageOrder` give the order of
      their checks): on a table whose scores
      are all `0 / 0` the API answers NaN scores while the local server
      reports the error of `.astype(int)`. Two successes differ only in
      the ranks and the mail texts. */
  lemma LocalAgreesWithApi(req: Request, readCsv: string -> Result<Frames.Table, string>,
                           parse: string -> Option<real>, sqrt: real -> real, mail: Mailer)
    requires ReadsTables(readCsv) && IsSqrt(sqrt)
    ensures LocalResponse(req, readCsv, parse, sqrt, mail).Success? <==>
      ApiResponse(req, readCsv, parse, sqrt, mail).Success? && !AllConstantRequest(req, readCsv, parse, sqrt)
    ensures AllConstantRequest(req, readCsv, parse, sqrt) ==>
      LocalResponse(req, readCsv, parse, sqrt, mail)
        == Failure("Server error: " + Pipelines.LocalMessage(Pipelines.Undefined))
  {
    var local := LocalResponse(req, readCsv, parse, sqrt, mail);
    var api := ApiResponse(req, readCsv, parse, sqrt, mail);
    if !Truthy(req.csvData) || !Truthy(req.weights) || !Truthy(req.impacts) {
      assert !AllConstantRequest(req, readCsv, parse, sqrt);
      assert local.Failure? && api.Failure?;
    } else if readCsv(req.csvData.value).Err? {
      assert !AllConstantRequest(req, readCsv, parse, sqrt);
      assert local.Failure? && api.Failure?;
    } else {
      var t := readCsv(req.csvData.value).value;
      if |t.header| < 3 || !Frames.AllNumeric(t, parse) {
        assert !AllConstantRequest(req, readCsv, parse, sqrt);
        assert local.Failure? && api.Failure?;
      } else {
        assert local == LocalParsed(t, req, parse, sqrt, mail);
        assert api == ApiParsed(t, req, parse, sqrt, mail);
        LocalParsedAgreesWithApi(t, req, parse, sqrt, mail);
      }
    }
  }

  /** `LocalAgreesWithApi` for a table that passed the checks. */
  lemma LocalParsedAgreesWithApi(t: Frames.Table, req: Request, parse: string -> Option<real>, sqrt: real -> real, mail: Mailer)
    requires Frames.WellFormed(t) && |t.header| >= 3 && Frames.AllNumeric(t, parse)
    requires req.weights.Some? && req.impacts.Some? && IsSqrt(sqrt)
    ensures var n := |t.header| - 1;
      var undefined := PackageValidation.ParseWeightsImpacts(req.weights.value, req.impacts.value, n, parse).Ok?
        && var v := Accepted(req.weights.value, req.impacts.value, n, parse);
           Pipelines.ScoreUndefined(t, v.weights, v.impacts, parse, sqrt);
      && (LocalParsed(t, req, parse, sqrt, mail).Success? <==> ApiParsed(t, req, parse, sqrt, mail).Success? && !undefined)
      && (undefined ==> LocalParsed(t, req, parse, sqrt, mail) == Failure("Server error: " + Pipelines.LocalMessage(Pipelines.Undefined)))
  {
    var n := |t.header| - 1;
    ServiceValidation.AgreesWithPackage(req.weights.value, req.impacts.value, n, parse);
    if PackageValidation.ParseWeightsImpacts(req.weights.value, req.impacts.value, n, parse).Ok? {
      var v := Accepted(req.weights.value, req.impacts.value, n, parse);
      var dense := Pipelines.Topsis(t, v.weights, v.impacts, parse, sqrt, Pipelines.Dense);
      var positional := Pipelines.Topsis(t, v.weights, v.impacts, parse, sqrt, Pipelines.Positional);
      Pipelines.RuleOnlyChangesRanks(t, v.weights, v.impacts, parse, sqrt);
      assert Pipelines.LocalTopsis(t, v.weights, v.impacts, parse, sqrt).Ok? <==> dense.Ok?;
      assert Pipelines.ArrayTopsis(t, v.weights, v.impacts, parse, sqrt).Ok? <==> positional.Ok?;
      if dense.Ok? {
        assert LocalParsed(t, req, parse, sqrt, mail) == Finish(dense.value, req, mail, LocalMailTexts);
        assert ApiParsed(t, req, parse, sqrt, mail) == Finish(positional.value, req, mail, ApiMailTexts);
      } else if positional.Ok? {
        assert dense == Err(Pipelines.Undefined);
      }
    }
  }

  /** The local server rejects a request in the JSON handler's order: a
      missing CSV text, weights string or impacts string first; then a read
      error, too few columns, a non-numeric cell, and a rejected weights or
      impacts string. */
  lemma LocalStageOrder(req: Request, readCsv: string -> Result<Frames.Table, string>,
                        parse: string -> Option<real>, sqrt: real -> real, mail: Mailer)
    requires ReadsTables(readCsv) && IsSqrt(sqrt)
    ensures !Truthy(req.csvData) || !Truthy(req.weights) || !Truthy(req.impacts) ==>
      LocalResponse(req, readCsv, parse, sqrt, mail) == Failure("Missing required parameters")
    ensures Truthy(req.csvData) && Truthy(req.weights) && Truthy(req.impacts) ==>
      && (readCsv(req.csvData.value).Err? ==>
            LocalResponse(req, readCsv, parse, sqrt, mail) == Failure("Server error: " + readCsv(req.csvData.value).error))
      && (readCsv(req.csvData.value).Ok? ==>
            var t := readCsv(req.csvData.value).value;
            && (|t.header| < 3 ==> LocalResponse(req, readCsv, parse, sqrt, mail) == Failure("File must contain at least 3 columns"))
            && (|t.header| >= 3 && !Frames.AllNumeric(t, parse) ==>
                  LocalResponse(req, readCsv, parse, sqrt, mail) == Failure("Columns 2 onwards must contain only numeric values"))
            && (|t.header| >= 3 && Frames.AllNumeric(t, parse)
                && PackageValidation.ParseWeightsImpacts(req.weights.value, req.impacts.value, |t.header| - 1, parse).Err? ==>
                  LocalResponse(req, readCsv, parse, sqrt, mail) == Failure("Invalid weights or impacts format")))
  {
  }

  /** A parse failure of the local server is always the single message. */
  lemma LocalParseFailure(req: Request, readCsv: string -> Result<Frames.Table, string>,
                          parse: string -> Option<real>, sqrt: real -> real, mail: Mailer)
    requires ReadsTables(readCsv) && IsSqrt(sqrt)
    requires Truthy(req.csvData) && Truthy(req.weights) && Truthy(req.impacts) && readCsv(req.csvData.value).Ok?
    requires var t := readCsv(req.csvData.value).value;
      |t.header| >= 3 && Frames.AllNumeric(t, parse)
      && PackageValidation.ParseWeightsImpacts(req.weights.value, req.impacts.value, |t.header| - 1, parse).Err?
    ensures LocalResponse(req, readCsv, parse, sqrt, mail) == Failure("Invalid weights or impacts format")
  {
  }

  /** The numeric re-check inside the local `topsis` never fires: the
      handler has already rejected every non-numeric cell. */
  lemma LocalRecheckNeverFires(t: Frames.Table, v: PackageValidation.Vectors, parse: string -> Option<real>, sqrt: real -> real)
    requires Frames.WellFormed(t) && Pipelines.Fits(t, v.weights, v.impacts) && IsSqrt(sqrt)
    requires Frames.AllNumeric(t, parse)
    ensures Pipelines.LocalTopsis(t, v.weights, v.impacts, parse, sqrt)
      != Err(Pipelines.LocalMessage(Pipelines.NotNumeric))
  {
    Pipelines.TopsisOutcome(t, v.weights, v.impacts, parse, sqrt, Pipelines.Dense);
  }

  // ---------------------------------------------------------------
  // The Streamlit page
  // ---------------------------------------------------------------

  /** What the page shows once a file is uploaded. */
  datatype Page =
    | Errors(shown: seq<string>)
    | Waiting
    | Results(table: Frames.Table, emailMessage: string)

  /** `st.error(f"❌ {error}")` for each error. */
  function Shown(errors: seq<string>): (s: seq<string>)
    ensures |s| == |errors|
    ensures forall k :: 0 <= k < |errors| ==> s[k] == "\U{274C} " + errors[k]
  {
    seq(|errors|, k requires 0 <= k < |errors| => "\U{274C} " + errors[k])
  }

  /** The errors the button's handler accumulates before parsing. */
  function FormErrors(weights: string, impacts: string, email: string): (errors: seq<string>)
    ensures errors == [] <==> weights != [] && impacts != [] && email != [] && Email.ValidateEmail(email)
  {
    (if weights == [] then ["Please enter weights"] else [])
    + (if impacts == [] then ["Please enter impacts"] else [])
    + (if email == [] then ["Please enter email address"]
       else if !Email.ValidateEmail(email) then ["Please enter a valid email address"]
       else [])
  }

  /** The page for an uploaded file: the read, the column and numeric
      checks, then (after the button is pressed) the form checks, the
      parser, the scorer and the mail step. Results are the positional-rank
      table of the accepted vectors, and the e-mail is then always
      attempted. */
  function StreamlitPage(file: Result<Frames.Table, string>, weights: string, impacts: string, email: string,
                         clicked: bool, parse: string -> Option<real>, sqrt: real -> real, mail: Mailer): (p: Page)
    requires file.Ok? ==> Frames.WellFormed(file.value)
    requires IsSqrt(sqrt)
    ensures p.Results? ==>
      && file.Ok? && |file.value.header| >= 3 && clicked
      && PackageValidation.ParseWeightsImpacts(weights, impacts, |file.value.header| - 1, parse).Ok?
      && var v := Accepted(weights, impacts, |file.value.header| - 1, parse);
         && Pipelines.Topsis(file.value, v.weights, v.impacts, parse, sqrt, Pipelines.Positional).Ok?
         && p.table == Pipelines.Topsis(file.value, v.weights, v.impacts, parse, sqrt, Pipelines.Positional).value
         && p.emailMessage == DeliveryMessage(mail, email, ApiMailTexts)
    ensures p.Results? ==> Frames.WellFormed(p.table) && |p.table.rows| == |file.value.rows|
    ensures p.Waiting? ==> !clicked
  {
    match file
    case Err(e) => Errors(Shown(["Error reading file: " + e]))
    case Ok(t) =>
      if |t.header| < 3 then Errors(Shown(["File must contain at least 3 columns (1 for names + 2 criteria)"]))
      else if !Frames.AllNumeric(t, parse) then Errors(Shown(["Columns 2 onwards must contain only numeric values"]))
      else if !clicked then Waiting
      else
        var formErrors := FormErrors(weights, impacts, email);
        if formErrors != [] then Errors(Shown(formErrors))
        else
          var n := |t.header| - 1;
          var errors := ServiceValidation.InputErrors(weights, impacts, n, parse);
          if errors != [] then Errors(Shown(ServiceValidation.Messages(errors)))
          else
            ServiceValidation.AgreesWithPackage(weights, impacts, n, parse);
            var v := Accepted(weights, impacts, n, parse);
            match Pipelines.ArrayTopsis(t, v.weights, v.impacts, parse, sqrt)
            case Err(e) => Errors(Shown(["Error during TOPSIS calculation: " + e]))
            case Ok(result) => Results(result, DeliveryMessage(mail, email, ApiMailTexts))
  }

  /** Blank form fields are all reported together, and at most one message
      is about the address. */
  lemma FormErrorsTogether(weights: string, impacts: string, email: string)
    ensures |FormErrors(weights, impacts, email)| ==
      (if weights == [] then 1 else 0) + (if impacts == [] then 1 else 0)
      + (if email == [] || !Email.ValidateEmail(email) then 1 else 0)
    ensures "Please enter email address" in FormErrors(weights, impacts, email) <==> email == []
    ensures "Please enter a valid email address" in FormErrors(weights, impacts, email)
      <==> email != [] && !Email.ValidateEmail(email)
  {
  }

  /** The page shows results exactly when the file passes its checks, the
      button was pressed, every form field is filled with a valid address,
      the parser reports nothing and no criteria column is all zeros. An
      all-constant table shows results too, with NaN scores. */
  lemma StreamlitResultsIff(file: Result<Frames.Table, string>, weights: string, impacts: string, email: string,
                            clicked: bool, parse: string -> Option<real>, sqrt: real -> real, mail: Mailer)
    requires file.Ok? ==> Frames.WellFormed(file.value)
    requires IsSqrt(sqrt)
    ensures StreamlitPage(file, weights, impacts, email, clicked, parse, sqrt, mail).Results? <==>
      && file.Ok? && |file.value.header| >= 3 && Frames.AllNumeric(file.value, parse) && clicked
      && weights != [] && impacts != [] && email != [] && Email.ValidateEmail(email)
      && ServiceValidation.InputErrors(weights, impacts, |file.value.header| - 1, parse) == []
      && (forall j :: 0 <= j < |file.value.header| - 1 ==> !Scorer.ZeroColumn(Frames.Criteria(file.value, parse).value, j))
  {
    var p := StreamlitPage(file, weights, impacts, email, clicked, parse, sqrt, mail);
    if file.Err? || |file.value.header| < 3 || !Frames.AllNumeric(file.value, parse) {
      assert p.Errors?;
    } else if !clicked {
      assert p.Waiting?;
    } else if FormErrors(weights, impacts, email) != [] {
      assert p.Errors?;
    } else {
      assert p == StreamlitPage(Ok(file.value), weights, impacts, email, true, parse, sqrt, mail);
      StreamlitScored(file.value, weights, impacts, email, parse, sqrt, mail);
    }
  }

  /** `StreamlitResultsIff` once the file and form checks have passed. */
  lemma StreamlitScored(t: Frames.Table, weights: string, impacts: string, email: string,
                        parse: string -> Option<real>, sqrt: real -> real, mail: Mailer)
    requires Frames.WellFormed(t) && |t.header| >= 3 && Frames.AllNumeric(t, parse) && IsSqrt(sqrt)
    requires FormErrors(weights, impacts, email) == []
    ensures StreamlitPage(Ok(t), weights, impacts, email, true, parse, sqrt, mail).Results? <==>
      && ServiceValidation.InputErrors(weights, impacts, |t.header| - 1, parse) == []
      && (forall j :: 0 <= j < |t.header| - 1 ==> !Scorer.ZeroColumn(Frames.Criteria(t, parse).value, j))
  {
    var n := |t.header| - 1;
    var p := StreamlitPage(Ok(t), weights, impacts, email, true, parse, sqrt, mail);
    var errors := ServiceValidation.InputErrors(weights, impacts, n, parse);
    if errors != [] {
      assert p.Errors?;
    } else {
      ServiceValidation.AgreesWithPackage(weights, impacts, n, parse);
      var v := Accepted(weights, impacts, n, parse);
      PositionalFailsOnlyOnZero(t, v, parse, sqrt);
      var run := Pipelines.ArrayTopsis(t, v.weights, v.impacts, parse, sqrt);
      if run.Ok? {
        assert p == Results(run.value, DeliveryMessage(mail, email, ApiMailTexts));
      } else {
        assert p == Errors(Shown(["Error during TOPSIS calculation: " + run.error]));
      }
    }
  }

  /** Before the button is pressed the page shows only the file checks:
      a failing check shows one error, a passing file waits for input. */
  lemma StreamlitFileChecks(file: Result<Frames.Table, string>, weights: string, impacts: string, email: string,
                            parse: string -> Option<real>, sqrt: real -> real, mail: Mailer)
    requires file.Ok? ==> Frames.WellFormed(file.value)
    requires IsSqrt(sqrt)
    ensures var p := StreamlitPage(file, weights, impacts, email, false, parse, sqrt, mail);
      (p.Waiting? <==> file.Ok? && |file.value.header| >= 3 && Frames.AllNumeric(file.value, parse))
      && (p.Errors? ==> |p.shown| == 1)
  {
  }
}
