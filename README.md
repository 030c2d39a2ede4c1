# TOPSIS decision pipeline (Dafny model)

The repository ranks alternatives with TOPSIS (Technique for Order of Preference by Similarity to
Ideal Solution). It does so in six places:

- a command-line package (`topsis_vani_102303078/topsis.py`);
- a Streamlit web page (`web-service/app.py`);
- a serverless JSON handler (`app-service/frontend/api/topsis.py`);
- a local development server (`app-service/frontend/local_server.py`);
- two React pages. One computes everything in the browser (`vercel-app/src/app/page.tsx`). The other only validates its form before calling the handler (`app-service/frontend/src/app/page.tsx`).

Every copy follows the same five steps:

1. It reads a table. The first column names the alternatives; the other columns are numeric criteria.
2. It validates a comma-separated weights string and a comma-separated impacts string (`+` means
   higher is better, `-` means lower is better).
3. It normalises each criteria column by its Euclidean norm and multiplies it by its weight.
4. It takes, per column, the ideal best and ideal worst value. It then computes each alternative's
   distances `db` and `dw` to those two points and its closeness `dw / (db + dw)`.
5. It ranks the alternatives, and appends "Topsis Score" (closeness times 100) and "Rank".

The copies differ in how they report bad input, in their tie rule for ranks, and in the answer they
give. The model has one shared core with a small variant for each difference:

| module | file | what it holds |
|---|---|---|
| `Common` | common.dfy | `Option`, `Result`, the impact directions, the square-root contract |
| `Text` | text.dfy | `strip`/`trim`, `split`, `join`, decimal rendering |
| `Email` | email.dfy | the address regular expression, and the browser form's weaker check |
| `PackageValidation` | package_validation.dfy | `parse_weights_impacts`, which stops at the first failure |
| `ServiceValidation` | service_validation.dfy | `parse_inputs` of the Streamlit page and the JSON handler, which collects errors |
| `FormValidation` | form_validation.dfy | `validateInputs` of both React pages, a `Form` class whose `error` field is the page state |
| `Scorer` | scorer.dfy | normalisation, weighting, ideal points, distances, closeness |
| `Ranking` | ranking.dfy | dense rank, positional (argsort-of-argsort) rank, the sort used by the static page |
| `Frames` | frames.dfy | tables, numeric coercion, the result table, a `Frame` class for the DataFrame held by reference |
| `Pipelines` | pipelines.dfy | the `topsis` function of each Python copy, as a function and as a step-by-step method |
| `Handlers` | handlers.dfy | the request decisions of the JSON handler, the local server and the Streamlit page |
| `Vercel` | vercel.dfy | `calculateTopsis` of the static page, with mutable result objects |

**Parameters of the model.**

- *Number parsing.* `float()`, `pd.to_numeric`, `astype(float)` and `parseFloat` are a parameter `parse: string -> Option<real>`. `None` stands for a raise or a NaN.
- *Square root.* It is a parameter `sqrt` that is non-negative and vanishes exactly at zero (`Common.IsSqrt`).
- *Reading a CSV.* It is a parameter `readCsv` that returns a table or an error text.
- *E-mail delivery.* The mail server is a `Mailer` value: the configured password and the exception a session would raise.

The static page's score key is its closeness times 100.

## Model

| member | source | states |
|---|---|---|
| Common.ToImpact | Topsis-Vani-102303078/topsis_vani_102303078/topsis.py:30-32 | a stripped impact token names a direction exactly when it is "+" or "-", and the direction's symbol is the token |
| Text.Split | Topsis-Vani-102303078/topsis_vani_102303078/topsis.py:18 | `split(",")` yields at least one piece, and no piece contains the separator |
| Text.SplitCount | Topsis-Vani-102303078/topsis_vani_102303078/topsis.py:18 | there is one more piece than there are separators |
| Text.SplitHasSeveralIffSep | Topsis-Vani-102303078/topsis_vani_102303078/topsis.py:14-18 | a string contains the separator exactly when it splits into two or more pieces |
| Text.JoinSplit | Topsis-Vani-102303078/topsis_vani_102303078/topsis.py:18 | joining the pieces with the separator gives back the string |
| Text.SplitJoin | Topsis-Vani-102303078/topsis_vani_102303078/topsis.py:18 | splitting a join of separator-free pieces gives back the pieces |
| Text.StripIsInfix | Topsis-Vani-102303078/topsis_vani_102303078/topsis.py:18-22 | `strip()` yields an infix whose outside is all whitespace, and which neither starts nor ends with whitespace |
| Text.StripEmptyIffBlank | vercel-app/src/app/page.tsx:242-250 | `trim()` is empty exactly when the string is blank |
| Text.StripIdempotent | Topsis-Vani-102303078/topsis_vani_102303078/topsis.py:18-22 | stripping twice is stripping once |
| Text.NatToString | web-service/app.py:131-134 | a count renders as decimal digits with no leading zero, and reading those digits back gives the count |
| Email.MatchesAnchoredIffPattern | web-service/app.py:100-103 | the matcher (first `@`, last dot after it) accepts exactly the strings of the anchored pattern's language |
| Email.PatternDeterminesAt | web-service/app.py:102 | in a string of the language, the `@` is the first `@` and the final dot is the last dot after it |
| Email.MatchesAnchoredShape | web-service/app.py:102 | an accepted address has exactly one `@`, a non-empty local part, and a dot followed by at least two letters at the end |
| Email.ValidateEmailShape | web-service/app.py:100-103 | `validate_email` accepts only addresses of that shape, possibly followed by one newline (Python's `$`) |
| PackageValidation.ParseAll | Topsis-Vani-102303078/topsis_vani_102303078/topsis.py:17-20 | the weights parse exactly when every token parses, and then each value is its token's number |
| PackageValidation.ImpactsOf | Topsis-Vani-102303078/topsis_vani_102303078/topsis.py:22-32 | the directions line up with the sign tokens, and each names its token |
| PackageValidation.ParseWeightsImpacts | Topsis-Vani-102303078/topsis_vani_102303078/topsis.py:12-37 | on success there are exactly `n_cols` weights and `n_cols` impacts |
| PackageValidation.AcceptedIffAcceptable | Topsis-Vani-102303078/topsis_vani_102303078/topsis.py:12-37 | success exactly when both strings have a comma, the counts match, every weight is a positive number and every impact is a sign |
| PackageValidation.AcceptedVectors | Topsis-Vani-102303078/topsis_vani_102303078/topsis.py:18-37 | each returned weight is its token's positive number, and each impact is its token's direction, in split order |
| PackageValidation.AcceptedShape | Topsis-Vani-102303078/topsis_vani_102303078/topsis.py:14-37 | on success both strings hold a comma, the counts are `n_cols`, the weights are positive and the impacts are signs |
| PackageValidation.FailureIsFirstFailedCheck | Topsis-Vani-102303078/topsis_vani_102303078/topsis.py:14-35 | each error is the first check in source order that fails (comma, number, weight count, impact count, sign, positivity) |
| PackageValidation.NeedsCommas | Topsis-Vani-102303078/topsis_vani_102303078/topsis.py:14-15 | no pair of strings is accepted for fewer than two criteria, since both need a comma |
| ServiceValidation.FirstNonSign | web-service/app.py:137-140 | there is a bad token exactly when some token is not a sign, and the one found is not a sign |
| ServiceValidation.VectorErrors | web-service/app.py:129-144 | the vector stage reports only count, impact and positivity errors |
| ServiceValidation.ParseInputs | web-service/app.py:106-149 | the error list is the accumulated list; vectors come back exactly when it is empty, and are then the parsed weights and the directions of the tokens (app-service/frontend/api/topsis.py:117-160 is the same function) |
| ServiceValidation.AppendVectorErrors | web-service/app.py:129-144 | the appends add the vector-stage errors after those already collected |
| ServiceValidation.FindInvalidImpact | web-service/app.py:137-140 | the loop stops at the first token that is not a sign |
| ServiceValidation.CommaErrorsAlone | web-service/app.py:110-117 | each missing comma is reported on its own account, possibly both, and then nothing else is reported |
| ServiceValidation.NonNumericAlone | web-service/app.py:119-124 | a weight token that is not a number yields that single error |
| ServiceValidation.VectorStage | web-service/app.py:126-147 | past the comma and number stages the errors are those of the parsed vectors |
| ServiceValidation.CountErrorsIndependent | web-service/app.py:129-134 | each count mismatch is reported independently with the count it found |
| ServiceValidation.AtMostOneInvalidImpact | web-service/app.py:136-140 | at most one invalid-impact error; there is one exactly when some token is bad, and it names the first bad token |
| ServiceValidation.VectorErrorsEmpty | web-service/app.py:129-147 | the vector stage is silent exactly when both counts match, every impact is a sign and the weights (if any) are positive |
| ServiceValidation.AgreesWithPackage | web-service/app.py:106-149 | the collecting validator accepts exactly what the package's validator accepts, with the same vectors |
| FormValidation.Form.ValidateInputs | vercel-app/src/app/page.tsx:229-281 | returns true exactly when no check fails, leaving `error` alone; otherwise false, with the first failing check's message in `error` (app-service/frontend/src/app/page.tsx:344-396 is the same function) |
| FormValidation.FirstErrorIsFirstFailedCheck | vercel-app/src/app/page.tsx:229-281 | the decision is the error of the first failing check in source order, with every earlier check passing (the same order in app-service/frontend/src/app/page.tsx:344-396) |
| FormValidation.AcceptedIff | app-service/frontend/src/app/page.tsx:344-396 | the form is accepted exactly when every condition holds: at least 2 rows, at least 3 header cells, non-blank strings, matching counts, positive non-NaN weights, sign impacts, and (with e-mail) a non-blank address containing `@` |
| FormValidation.BlankWeightsReported | vercel-app/src/app/page.tsx:242-245 | a blank weights box is reported as missing before any count is checked |
| FormValidation.AgreesWithPackage | vercel-app/src/app/page.tsx:252-273 | without e-mail and for the same number reader, the form accepts exactly what the package's validator accepts for that many criteria |
| Scorer.ColumnSumSqZeroIff | Topsis-Vani-102303078/topsis_vani_102303078/topsis.py:71 | a column's sum of squares is non-negative, and zero exactly when the column is all zeros |
| Scorer.NormZeroIffZeroColumn | Topsis-Vani-102303078/topsis_vani_102303078/topsis.py:71-73 | a norm is zero exactly for an all-zero column, and is never negative |
| Scorer.Normalize | Topsis-Vani-102303078/topsis_vani_102303078/topsis.py:75 | each normalised entry times its column norm is the input entry |
| Scorer.WeightedPreservesOrder | Topsis-Vani-102303078/topsis_vani_102303078/topsis.py:75-78 | normalising and weighting keep the order and the equalities within each column |
| Scorer.ColMax | Topsis-Vani-102303078/topsis_vani_102303078/topsis.py:87 | `max()` is an entry of the column that bounds every entry from above |
| Scorer.ColMin | Topsis-Vani-102303078/topsis_vani_102303078/topsis.py:88 | `min()` is an entry of the column that bounds every entry from below |
| Scorer.BestOf | Topsis-Vani-102303078/topsis_vani_102303078/topsis.py:86-91 | the ideal best is an entry of the column at least as good as every entry in the column's direction |
| Scorer.WorstOf | Topsis-Vani-102303078/topsis_vani_102303078/topsis.py:86-91 | the ideal worst is an entry of the column that every entry is at least as good as |
| Scorer.IdealBest | Topsis-Vani-102303078/topsis_vani_102303078/topsis.py:84-93 | one coordinate per criterion; each lies in its column and is at least as good as every entry |
| Scorer.IdealWorst | Topsis-Vani-102303078/topsis_vani_102303078/topsis.py:84-94 | one coordinate per criterion; each lies in its column and every entry is at least as good |
| Scorer.IdealPoints | Topsis-Vani-102303078/topsis_vani_102303078/topsis.py:81-94 | the append loop builds exactly the ideal best and ideal worst points (vercel-app/src/app/page.tsx:312-324 is the same loop) |
| Scorer.IdealsMeetIffConstant | Topsis-Vani-102303078/topsis_vani_102303078/topsis.py:84-91 | the two ideal points coincide in a column exactly when the column is constant |
| Scorer.SumSqDiffZeroIff | Topsis-Vani-102303078/topsis_vani_102303078/topsis.py:97-98 | a sum of squared differences is non-negative, and zero exactly at the ideal point |
| Scorer.DistanceZeroIff | Topsis-Vani-102303078/topsis_vani_102303078/topsis.py:97-98 | a distance is non-negative, and zero exactly when the row is the ideal point |
| Scorer.ClosenessBounds | Topsis-Vani-102303078/topsis_vani_102303078/topsis.py:101 | with `db + dw > 0` the closeness is defined and in [0, 1]; it is 1 exactly at the ideal best and 0 exactly at the ideal worst |
| Scorer.RawScores | Topsis-Vani-102303078/topsis_vani_102303078/topsis.py:97-101 | one closeness per alternative, with `0 / 0` kept as undefined |
| Scorer.UndefinedIffAllConstant | Topsis-Vani-102303078/topsis_vani_102303078/topsis.py:97-101 | a closeness is `0 / 0` exactly when every weighted column is constant |
| Scorer.ClosenessFacts | Topsis-Vani-102303078/topsis_vani_102303078/topsis.py:101 | the undefined-score error fires exactly when every weighted column is constant; otherwise every score is in [0, 1] |
| Scorer.Scores | Topsis-Vani-102303078/topsis_vani_102303078/topsis.py:71-101 | on success there is one score per alternative |
| Scorer.ComputeScores | Topsis-Vani-102303078/topsis_vani_102303078/topsis.py:71-101 | the step-by-step scorer (norm check, normalise, weight, ideal loop, distances) returns exactly what `Scorer.Scores` returns |
| Scorer.NormalizationErrorIffZeroColumn | Topsis-Vani-102303078/topsis_vani_102303078/topsis.py:72-73 | the normalisation error fires exactly when some criteria column is all zeros |
| Scorer.ScoresInUnitInterval | Topsis-Vani-102303078/topsis_vani_102303078/topsis.py:101 | every successful score lies in [0, 1] |
| Scorer.UndefinedScoreIffConstantInput | Topsis-Vani-102303078/topsis_vani_102303078/topsis.py:97-101 | with positive weights, the undefined score fires exactly when there is no zero column, at least one alternative, and every input column is constant |
| Scorer.SingleAlternativeHasNoScore | Topsis-Vani-102303078/topsis_vani_102303078/topsis.py:97-101 | as written, one alternative with no zero entry scores `0 / 0`; the corrected scorer reports the undefined score |
| Ranking.DenseRank | Topsis-Vani-102303078/topsis_vani_102303078/topsis.py:104 | one rank per score, each at least 1 |
| Ranking.DenseRankOneIffMax | Topsis-Vani-102303078/topsis_vani_102303078/topsis.py:104 | rank 1 goes exactly to the scores no other score exceeds |
| Ranking.DenseRankStrict | Topsis-Vani-102303078/topsis_vani_102303078/topsis.py:104 | a strictly higher score has a strictly smaller rank |
| Ranking.DenseRankEqualIff | Topsis-Vani-102303078/topsis_vani_102303078/topsis.py:104 | two scores are equal exactly when their ranks are |
| Ranking.DenseRankBounded | Topsis-Vani-102303078/topsis_vani_102303078/topsis.py:104 | no rank exceeds the number of distinct scores |
| Ranking.MinTakesLastRank | Topsis-Vani-102303078/topsis_vani_102303078/topsis.py:104 | the smallest score's rank is the number of distinct scores |
| Ranking.PredecessorRank | Topsis-Vani-102303078/topsis_vani_102303078/topsis.py:104 | every rank above 1 has its predecessor rank taken |
| Ranking.RankTaken | Topsis-Vani-102303078/topsis_vani_102303078/topsis.py:104 | every rank from 1 to the number of distinct scores is taken |
| Ranking.DenseRanksAreOneToK | app-service/frontend/local_server.py:188 | the dense ranks are exactly 1 .. k, with k the number of distinct scores |
| Ranking.Inverse | web-service/app.py:191 | the argsort of a permutation is its inverse permutation |
| Ranking.PositionalRank | web-service/app.py:191 | one rank per score |
| Ranking.PositionalRankPermutation | web-service/app.py:191 | the positional ranks are a permutation of 1 .. n |
| Ranking.PositionalRankStrict | app-service/frontend/api/topsis.py:201 | a strictly higher score has a strictly smaller rank, whatever order the argsort gives to ties |
| Ranking.PositionalRankOneIsMax | web-service/app.py:191 | rank 1 goes to a highest score |
| Ranking.Argsort | web-service/app.py:191 | an ascending argsort: a permutation of the indices along which the scores never decrease |
| Ranking.SortDesc | vercel-app/src/app/page.tsx:348-350 | the sorted rows are a permutation of the rows, with scores never increasing, and rows of equal score keep their input order (the stable `Array.prototype.sort`) |
| Frames.AssignColumn | web-service/app.py:195-196 | assigning a column keeps the header when the name exists and appends the name otherwise |
| Frames.AssignColumnContents | Topsis-Vani-102303078/topsis_vani_102303078/topsis.py:108-109 | after `t[name] = values` the column holds the values and every other column is unchanged |
| Frames.Coerce | Topsis-Vani-102303078/topsis_vani_102303078/topsis.py:60 | `to_numeric(errors="coerce")` gives a number or NaN, and keeps the cell's numeric reading |
| Frames.CoercedCriteria | Topsis-Vani-102303078/topsis_vani_102303078/topsis.py:56-60 | the criteria block has the table's rows, one cell fewer per row, each the coerced input cell |
| Frames.CoerceCriteria | app-service/frontend/local_server.py:145-149 | the column-by-column overwrite loop yields the coerced criteria block |
| Frames.Criteria | Topsis-Vani-102303078/topsis_vani_102303078/topsis.py:55-63 | a matrix exists exactly when every criteria cell is numeric, and each entry is its cell's number |
| Frames.CoercedHasMissingIff | Topsis-Vani-102303078/topsis_vani_102303078/topsis.py:62-63 | the null check fires exactly when some criteria cell is not a number |
| Frames.ResultAppends | web-service/app.py:194-196 | for an input without those names, the result keeps each input row and appends the score and the rank |
| Frames.ResultColumns | Topsis-Vani-102303078/topsis_vani_102303078/topsis.py:107-109 | whatever the input holds, "Topsis Score" and "Rank" hold the scores and ranks, and every other input column is unchanged |
| Frames.Frame.Copy | Topsis-Vani-102303078/topsis_vani_102303078/topsis.py:107 | `df.copy()` is a fresh frame with the same value |
| Frames.Frame.SetColumn | Topsis-Vani-102303078/topsis_vani_102303078/topsis.py:108-109 | the frame's new value is the column assignment of its old value |
| Frames.BuildResult | app-service/frontend/api/topsis.py:204-206 | a fresh frame holds the result table, and the input frame is unchanged |
| Pipelines.Ranks | Topsis-Vani-102303078/topsis_vani_102303078/topsis.py:104 | one rank per score under either rule |
| Pipelines.Topsis | Topsis-Vani-102303078/topsis_vani_102303078/topsis.py:55-109 | a successful run is a well-formed table with the input's number of rows |
| Pipelines.ScoreUndefinedIffConstant | Topsis-Vani-102303078/topsis_vani_102303078/topsis.py:84-101 | with positive weights every score is `0 / 0` exactly when the table is numeric, has a row, has no all-zero column and every criteria column is constant |
| Pipelines.TiedRanks | app-service/frontend/api/topsis.py:201 | the argsort ranks of tied NaN scores still number the rows 1 .. n, each rank once |
| Pipelines.TopsisOutcome | app-service/frontend/local_server.py:148-188 | the non-numeric failure fires exactly on a non-numeric cell, the zero-column failure exactly on an all-zero column, and the undefined-score failure exactly under dense ranks when every score is `0 / 0`; a success holds the scores in [0, 1] and their ranks, or under positional ranks the NaN scores of an all-constant table |
| Pipelines.RuleOnlyChangesRanks | app-service/frontend/local_server.py:188 | the dense run succeeds exactly when the positional run succeeds with defined scores; on an all-constant table the dense run fails with the undefined score while the positional run succeeds; both fail alike otherwise; two successes have the same header, scores and input columns |
| Pipelines.RanksOrderScores | Topsis-Vani-102303078/topsis_vani_102303078/topsis.py:103-104 | under either rule a higher score has a strictly smaller rank |
| Pipelines.RunTopsis | app-service/frontend/local_server.py:142-195 | the step-by-step dense run fails exactly as `Pipelines.Topsis` does, with the same failure; otherwise it returns a fresh frame holding that result table, and leaves the input frame untouched |
| Pipelines.RunArrayTopsis | web-service/app.py:152-198 | the step-by-step positional run on checked cells returns the positional `Pipelines.Topsis` result in a fresh frame; its only failure is the all-zero column, and on `0 / 0` it returns NaN scores (app-service/frontend/api/topsis.py:162-208 is the same function) |
| Pipelines.PackageTopsisOrder | Topsis-Vani-102303078/topsis_vani_102303078/topsis.py:51-68 | the column count, then the numeric check, then the weights and impacts; success returns the dense-ranked table of the parsed vectors |
| Pipelines.PackageTopsis | Topsis-Vani-102303078/topsis_vani_102303078/topsis.py:51-109 | a success needs at least three columns and a numeric table, and is a well-formed table with one row per input row |
| Pipelines.LocalTopsis | app-service/frontend/local_server.py:142-195 | a success is a well-formed table with one row per input row |
| Pipelines.ArrayTopsis | app-service/frontend/api/topsis.py:162-208 | the only errors are the conversion and the all-zero column messages, never an undefined score; a success is a well-formed table with one row per input row (web-service/app.py:152-198 is the same function) |
| Handlers.DeliveryMessage | app-service/frontend/api/topsis.py:223-224 | with no password configured, the message is the one that offers the download |
| Handlers.Finish | app-service/frontend/api/topsis.py:71-90 | a success carries the computed results |
| Handlers.ApiResponse | app-service/frontend/api/topsis.py:32-95 | a success comes from a CSV text that was read, and carries one well-formed result row per data row |
| Handlers.ApiParsed | app-service/frontend/api/topsis.py:61-90 | a success carries one well-formed result row per data row |
| Handlers.HandleApi | app-service/frontend/api/topsis.py:32-95 | the step-by-step handler gives exactly the answer `Handlers.ApiResponse` gives |
| Handlers.HandleParsed | app-service/frontend/api/topsis.py:61-90 | parsing, scoring on a frame and the e-mail step give exactly the answer `Handlers.ApiParsed` gives |
| Handlers.ApiMissingFirst | app-service/frontend/api/topsis.py:38-40 | a missing CSV text, weights or impacts is reported before anything else |
| Handlers.ApiStageOrder | app-service/frontend/api/topsis.py:42-66 | the read, the column count, the numeric check and the parser decide the error in that order; parse errors are joined by "; " |
| Handlers.ApiSuccessIff | app-service/frontend/api/topsis.py:38-92 | success exactly when every stage passes: parameters, read, columns, numbers, parser, no all-zero criteria column, and (when requested) the address; an all-constant table succeeds with NaN scores |
| Handlers.ApiSuccessResults | app-service/frontend/api/topsis.py:68-90 | a success carries the positional-rank result of the accepted vectors, NaN scores included |
| Handlers.ApiEmailOnlyWhenRequested | app-service/frontend/api/topsis.py:72-76 | the address matters only when both `sendEmail` and `email` are truthy; otherwise the message is the default |
| Handlers.ApiDeliveryChangesOnlyMessage | app-service/frontend/api/topsis.py:78-81 | the mail outcome changes only the message: the same success, the same results, the same failures |
| Handlers.ConversionNeverFails | app-service/frontend/api/topsis.py:166-172 | after the caller's numeric check, `astype(float)` never raises; the run fails exactly when a criteria column is all zeros, with that message |
| Handlers.PositionalFailsOnlyOnZero | app-service/frontend/api/topsis.py:162-208 | positional scoring of a numeric table fails exactly when a criteria column is all zeros |
| Handlers.LocalParse | app-service/frontend/local_server.py:132-140 | no errors exactly when the package's validator succeeds; otherwise the single "Invalid weights or impacts format" |
| Handlers.LocalResponse | app-service/frontend/local_server.py:61-118 | a success comes from a CSV text that was read, and carries one well-formed result row per data row |
| Handlers.LocalParsed | app-service/frontend/local_server.py:85-118 | a success carries one well-formed result row per data row |
| Handlers.HandleLocal | app-service/frontend/local_server.py:61-118 | the step-by-step local handler gives exactly the answer `Handlers.LocalResponse` gives |
| Handlers.LocalAgreesWithApi | app-service/frontend/local_server.py:61-118 | the local server succeeds exactly when the JSON handler succeeds on a request whose scores are not all `0 / 0`; on such an all-constant request the local server answers "Server error: " and the pandas message of `.astype(int)` |
| Handlers.LocalStageOrder | app-service/frontend/local_server.py:61-89 | a missing parameter, a read error, fewer than 3 columns, a non-numeric cell and a rejected weights or impacts string are each reported in that order, with the local texts |
| Handlers.LocalParseFailure | app-service/frontend/local_server.py:85-89 | a rejected weights or impacts string always gives the one local message |
| Handlers.LocalRecheckNeverFires | app-service/frontend/local_server.py:151-152 | the numeric re-check inside the local `topsis` never fires after the handler's check |
| Handlers.FormErrors | web-service/app.py:341-351 | no form error exactly when every field is filled and the address is valid |
| Handlers.StreamlitPage | web-service/app.py:280-417 | results come only after the button from a file with at least 3 columns and weights and impacts the package's validator accepts; they are the positional-rank table of the accepted vectors, one well-formed row per data row, with the mail always attempted; the page waits only before the button is pressed |
| Handlers.FormErrorsTogether | web-service/app.py:344-351 | one message per blank field plus one when the address is empty or invalid; "Please enter email address" exactly when it is empty, and "Please enter a valid email address" exactly when it is non-empty and invalid |
| Handlers.StreamlitResultsIff | web-service/app.py:280-417 | the page shows results exactly when the file passes, the button is pressed, the form is valid, the parser is silent and no criteria column is all zeros; an all-constant table shows NaN results |
| Handlers.StreamlitFileChecks | web-service/app.py:294-308 | before the button is pressed, the page waits for input exactly when the file reads, has at least 3 columns and is numeric; otherwise it shows a single error |
| Vercel.DataMatrix | vercel-app/src/app/page.tsx:294-296 | a matrix exists exactly when every criteria cell exists and reads as a number, and each entry is its cell's number |
| Vercel.Fields | vercel-app/src/app/page.tsx:340-342 | the object has a key for each header name and no other |
| Vercel.FieldsCarryRow | vercel-app/src/app/page.tsx:338-345 | with distinct names, each header column carries the row's cell unchanged |
| Vercel.ResultRow.constructor | vercel-app/src/app/page.tsx:338-344 | the object holds the row's fields and its score, and no rank yet |
| Vercel.AssignRanks | vercel-app/src/app/page.tsx:352-354 | the object at position k gets rank k + 1 |
| Vercel.PageScores | vercel-app/src/app/page.tsx:294-335 | when defined there is one score per data row |
| Vercel.CalculateTopsis | vercel-app/src/app/page.tsx:283-356 | a rejected form leaves only the message; otherwise the error is cleared and the objects come back one per row, fresh, sorted with scores never increasing, with `Rank` equal to position + 1 |
| Vercel.BuildRows | vercel-app/src/app/page.tsx:338-345 | one fresh object per data row, built from that row and its score |
| Vercel.SortAndRank | vercel-app/src/app/page.tsx:348-354 | the objects are reordered with scores never increasing, every row still present once, objects of equal score in data-row order, and ranks equal to position + 1 |

## Left out

- Reading and writing files: `pd.read_csv`, the file-existence check, `to_csv`, Excel input and the command-line `main`. Reading is the parameter `readCsv`, assumed to give well-formed tables with distinct column names; writing is not modelled.
- HTTP, JSON and CORS plumbing, the `HTTPServer` loop, and the `fetch` call of the second React page. These are transport. JSON `null` and a missing key are both `None`, and non-string JSON values are not modelled.
- SMTP and MIME in the three `send_email` functions. Only their returned message is modelled, through the `Mailer` value.
- The branch "Results calculated but email failed" in both handlers is not modelled. It cannot be reached, because `send_email` catches every exception itself.
- All UI: the Streamlit widgets, spinner, metrics, sorted display and download button; React rendering; the loading flag; the static page's e-mail `alert`; the results state.
- Streamlit picks between a success box and a warning box by whether "successfully" appears in the message. The model keeps only the message.
- Floating point: IEEE-754 rounding, overflow, `round(2)` and `toFixed(2)`. Scores are exact reals. The displayed score is the closeness times 100, without rounding.
- Exact number syntax: `float()`, `pd.to_numeric` and `parseFloat` are one abstract parser per language. `strip()` and `trim()` share one ASCII whitespace set.
- Ranking.Argsort: numpy's default argsort is not stable. The positional-rank lemmas hold for every ascending argsort, and one concrete stable insertion argsort stands in wherever a value is needed. numpy's actual tie order is not modelled.
- Vercel.CalculateTopsis: sorts by the unrounded score rather than the `toFixed(2)` string read back. Its order agrees with the page's order except where two different scores round to the same text.
- Vercel.CalculateTopsis: where a NaN enters, the page still shows rows whose score reads "NaN". That happens with a missing or non-numeric cell, an all-zero column, or `0 / 0`. The model returns no results instead, and does not model the JavaScript `try`/`catch`.
- Vercel.Fields: a header named "Topsis Score" or "Rank" would be overwritten by the page's own keys. The model keeps score and rank in their own fields.
- The Streamlit page's `except` branch "Error checking numeric values in data", and the equivalent branches of both handlers, are not modelled. Coercion with `errors="coerce"` does not raise. On the Streamlit page the bare `except` can also catch the stop request of `st.stop()` and add a second message. The model shows only the numeric error.
- The local server's mail texts start with the same symbols as the other copies, mis-decoded. The model keeps their code points (`LocalMailTexts`) rather than interpreting them.
- FormValidation.AgreesWithPackage: the agreement is proved for one number reader shared by both sides. The page reads numbers with JavaScript's `parseFloat` and the package with Python's `float()`, and those differ: `parseFloat("1abc")` is 1 where `float("1abc")` raises, and `parseFloat("inf")` is NaN where `float("inf")` is infinity. On such strings the two validators can disagree.
- Handlers.ApiMissingFirst: proved in one direction only. A missing parameter gives the message; the converse is not stated, because another stage could in principle produce the same text.
- Handlers.DeliveryMessage: its contract states only the no-configuration case. The two other texts are its body, and the lemmas use them.
- Pipelines.PackageTopsis: the package's uncaught exception from `.astype(int)` on NaN scores is replaced by the corrected undefined-score error; see Findings. The local server catches the same exception and reports pandas' message, as written (`Pipelines.LocalMessage`). The Streamlit page and the JSON handler return the NaN scores, as written, as `Missing` score cells.
- Pipelines.TiedRanks: numpy's tie order for all-NaN scores is not modelled; the model numbers the rows as a stable argsort of a constant key would, and states only that the ranks number the rows 1 .. n.
- PackageValidation.ParseAll, ServiceValidation.ParseInputs: in Python `float("nan")` and `float("inf")` succeed and `nan <= 0` is false, so the source accepts the weights "nan" and "inf". The model's weights are finite reals and `parse` reads a NaN as `None`, so the model rejects them.
- Concurrency and the clock (the e-mail subject's timestamp) do not arise in the modelled core.

## Findings

| source | as written | input that shows it | evidently intended | confidence | as-written member | corrected member |
|---|---|---|---|---|---|---|
| Topsis-Vani-102303078/topsis_vani_102303078/topsis.py:97-104 | the closeness `dist_worst / (dist_best + dist_worst)` is `0 / 0` when every criteria column is constant. Then every alternative is both the ideal best and the ideal worst. The dense rank then calls `.astype(int)` on NaN, which raises, and the package has no handler for it. (The local server's copy at app-service/frontend/local_server.py:188 raises the same way and its handler reports the message; the copies in web-service/app.py:188-191 and app-service/frontend/api/topsis.py:198-201 return NaN scores. Those three are modelled as written.) | a table with a single alternative (one data row) and non-zero criteria, e.g. header `Name,A,B` with row `X,1,2`, weights `1,1`, impacts `+,+` | a clear error for an input whose score is undefined, as the zero-column case already has | not executed | Scorer.RawScores, Scorer.SingleAlternativeHasNoScore | Scorer.Scores, Scorer.UndefinedScoreIffConstantInput |
