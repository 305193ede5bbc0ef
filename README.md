# Manual-approval gate: a Dafny model of its decision logic

The repository is a GitHub Action that pauses a workflow until a remote
service reports that a person approved or rejected the run. Around a lot of
I/O (artifact upload, HTTP, environment variables, timers) sit three pieces of
decision logic, and this project models and proves them:

- **Pre step** (`src/pre.ts`, module `Pre`): the `message` input must contain a
  character other than whitespace; a non-empty `timeout` input must `parseInt`
  to a number that is neither NaN nor negative.
- **Request side** (`src/lib/approvals.ts`, module `Approvals`): the request
  payload, the parsing of the comma-delimited `approvers` input, and the two
  response checks. The create call must answer status 200 with a non-empty `id`.
  The status call must answer status 200 with a non-empty `status`. Anything
  else throws.
- **Main step** (`src/main.ts`, module `Gate`): submit the request, turn the
  timeout into a deadline once, then poll until `approved`, `rejected` or the
  deadline. A thrown poll and any other status lead to a sleep and one more
  loop test.

JavaScript's `trim`, `split` on `,` and `parseInt` without a radix are modelled once, in
module `JsText`, and all three pieces use them. `parseInt` follows section
19.2.5 of ECMAScript: it skips leading whitespace, accepts one sign and a
`0x`/`0X` prefix that selects radix 16, and reads the longest digit prefix.
With no digit the result is NaN, here `None`. Whitespace means the WhiteSpace
and LineTerminator code points of ECMAScript, section 12.2 and 12.3.

Things the model takes as inputs rather than reading them itself:
- the run context (repository id, run id, run attempt, run number, and the
  `message` and `approvers` inputs);
- the verification token;
- the id of the uploaded artifact, `None` when the upload threw;
- the reply to each HTTP call, with a thrown network error as `Unreachable`;
- the clock, read once before the loop (`start`) and once by each loop test
  (`clock[i]`).

`Gate.Run` submits the request and fixes the deadline; `Gate.Wait` is an
imperative method with the source's `while` loop. It is proved equal to the
recursive function `Gate.WaitLoop`. `Gate.WaitLoopExplained` proves
`WaitLoop` equal, in both directions, to an independent description
(`Gate.Explains`), which says what the observed trace must look like for each
conclusion and poll count. The loop properties are proved from that
description.

Points where the code's behaviour is narrower or different than it may look;
the model follows the code:
- Both endpoints must answer exactly status 200. Any other status, another 2xx
  included, is a failure.
- An invalid timeout does not give an unlimited wait: the pre step first
  rejects a non-empty timeout that parses to NaN or to a negative number. The
  main step gives an unlimited wait to an empty timeout and to any timeout that
  parses to 0, for example `0`, `00`, `-0`, `0.5` or `0x0`, all of which pass
  the pre step. `Handoff.ZeroTimeoutMeansUnlimited` states this for every
  timeout that parses to 0, and `Handoff.ZeroNumerals` shows those examples do.
- The source ends a run in one of four outcomes. The model adds `StillWaiting`
  for a finite observed trace that ends before the run does, since a model
  cannot wait forever.

The approvers list is described completely by two lemmas: cutting the input at
any comma splits the list into the approvers before the comma followed by
those after it (`Approvals.ApproversAtComma`), and text without a comma gives
its trim, or nothing when it is blank (`Approvals.ApproversOfPiece`). Order and
duplicates follow from these for every input.

## Model

| member | source | states |
|---|---|---|
| `JsText.IsWhitespace` | src/lib/approvals.ts:86 | a character is whitespace exactly when it is one of ECMAScript's WhiteSpace or LineTerminator code points, listed one by one |
| `JsText.TrimStart` | src/main.ts:7 | what is left after the leading whitespace: a suffix of the input, everything cut off is whitespace, and it does not start with whitespace |
| `JsText.LeadingSpace` | src/main.ts:7 | the length of the leading whitespace run: every character before it is whitespace and the next one is not |
| `JsText.TrailingSpace` | src/lib/approvals.ts:86 | the length of the trailing whitespace run: every character after the cut is whitespace and the one before it is not |
| `JsText.Trim` | src/lib/approvals.ts:86 | the trimmed string is no longer than its input and has no whitespace at either end; it is empty exactly when the input is all whitespace |
| `JsText.TrimOfPadded` | src/lib/approvals.ts:86 | for any whitespace margins around a core with no whitespace at its ends, trim returns exactly that core |
| `JsText.TrimmedIsFixed` | src/lib/approvals.ts:86 | a string with no whitespace at either end is its own trim |
| `JsText.TrimIdempotent` | src/lib/approvals.ts:86 | trimming twice gives the same result as trimming once |
| `JsText.Split` | src/lib/approvals.ts:85 | split on a one-character separator gives exactly one more piece than there are separators, and no piece contains the separator |
| `JsText.SplitAtSeparator` | src/lib/approvals.ts:85 | splitting a string at one of its separators gives the pieces before it followed by the pieces after it |
| `JsText.JoinOfSplit` | src/lib/approvals.ts:85 | joining the pieces of a split with the separator gives back the input |
| `JsText.SplitOfJoin` | src/lib/approvals.ts:85 | splitting a join of one or more separator-free pieces gives back the pieces, in order |
| `JsText.DigitPrefix` | src/pre.ts:14 | the longest digit prefix of the input in the given radix: a prefix, all of it digits, and followed by a non-digit or by the end of the input |
| `JsText.ParseMagnitude` | src/pre.ts:14 | the unsigned part of parseInt is NaN exactly when no digit follows the optional `0x` prefix |
| `JsText.ParseInt` | src/main.ts:7 | parseInt of a string that is empty or all whitespace is NaN |
| `JsText.ParseIntIsNaN` | src/pre.ts:14-15 | parseInt is NaN exactly when no digit of the radix follows the leading whitespace, the optional sign and the optional `0x` |
| `JsText.ParseSignedMeaning` | src/pre.ts:14 | the sign step is NaN exactly when the unsigned part is; otherwise it is the unsigned value, negated after a `-` and unchanged after a `+` or no sign |
| `JsText.ParseIntOfDecimal` | src/pre.ts:14 | after any whitespace and an optional `+` or `-`, any non-empty decimal digit string, leading zeros allowed, followed by anything that cannot continue it, parses to the digits' value with that sign |
| `JsText.ParseIntOfHex` | src/main.ts:7 | after any whitespace and an optional sign, `0x` or `0X` and a non-empty hexadecimal digit string, followed by a non-hex-digit or the end, parses to the digits' value in radix 16 with that sign |
| `JsText.ParseIntOfShown` | src/pre.ts:14 | parseInt reads back the decimal numeral of any integer, after any leading whitespace and before any suffix that cannot continue the number |
| `Approvals.TrimEach` | src/lib/approvals.ts:86 | `.map(trim)`: as many pieces as before, each the trim of the piece at the same position |
| `Approvals.TrimEachAppend` | src/lib/approvals.ts:86 | trimming each piece of a concatenation is the concatenation of the trimmed parts: the order is kept |
| `Approvals.DropEmpty` | src/lib/approvals.ts:87 | `filter(Boolean)` keeps no empty string, never lengthens the list, and keeps every non-empty string as many times as it occurs |
| `Approvals.DropEmptyAppend` | src/lib/approvals.ts:87 | the filter of a concatenation is the concatenation of the filtered parts: what is kept stays in its order |
| `Approvals.DropEmptySingle` | src/lib/approvals.ts:87 | a single string is kept exactly when it is not empty |
| `Approvals.ParseApprovers` | src/lib/approvals.ts:84-87 | no parsed approver is empty or has whitespace at either end; there are at most commas + 1 of them; each trimmed non-empty piece is kept with its multiplicity |
| `Approvals.ApproversAreTrimmed` | src/lib/approvals.ts:86 | every parsed approver equals its own trim |
| `Approvals.ApproversAtComma` | src/lib/approvals.ts:84-87 | for any input cut at one of its commas, the approvers are those of the text before the comma followed by those of the text after it |
| `Approvals.ApproversOfPiece` | src/lib/approvals.ts:84-87 | text without a comma gives no approver when it is blank, and otherwise exactly its trim |
| `Approvals.ApproversOfPieces` | src/lib/approvals.ts:84-87 | for any comma-free pieces joined with commas, blanks and empty pieces allowed, the approvers are the trimmed pieces in their order with the empty ones dropped |
| `Approvals.ApproversOfJoined` | src/lib/approvals.ts:84-87 | comma-joined names that are non-empty, have no whitespace at either end, and contain no comma parse back to the same names in the same order, duplicates included |
| `Approvals.ApproversExample` | src/lib/approvals.ts:84-87 | `"alice, bob ,,carol"` parses to `["alice","bob","carol"]` |
| `Approvals.BuildPayload` | src/lib/approvals.ts:68-91 | the payload carries the run identity, artifact id, verification token and message unchanged; `approvers` is absent exactly when its input is empty, and otherwise is the parsed list |
| `Approvals.BlankApproversGiveEmptyList` | src/lib/approvals.ts:82-88 | the non-empty input `" , "` gives an `approvers` field that is present but empty |
| `Approvals.CheckReply` | src/lib/approvals.ts:116-147 | the shared reply check: the field's value exactly when the status is 200 and the field is non-empty; otherwise bad status with its code, or the given missing-field error when the status is 200 |
| `Approvals.RequestApproval` | src/lib/approvals.ts:97-128 | no request is posted if staging the token failed. Otherwise the posted payload is built from the staged artifact id and the token. The result is a non-empty id exactly when the reply is a 200 carrying one. Otherwise it is the matching error: transport, bad status with its code, or missing id |
| `Approvals.GetApprovalStatus` | src/lib/approvals.ts:130-148 | a non-empty status exactly when the reply is a 200 carrying one; otherwise transport failure, bad status with its code, or missing status |
| `Gate.NormalizeTimeout` | src/main.ts:7-14 | no deadline exactly when parseInt gives NaN or a value <= 0; otherwise the parsed seconds times 1000, which is positive |
| `Gate.Deadline` | src/main.ts:16-17 | no deadline for an unlimited timeout; otherwise the deadline lies the timeout's milliseconds after the start reading |
| `Gate.BeforeDeadline` | src/main.ts:16-20 | the loop test passes exactly while less than the timeout's milliseconds have elapsed since the start reading, and always when there is no timeout |
| `Gate.DeadlineStaysReached` | src/main.ts:20 | once a loop test finds the deadline reached, every later clock reading finds it reached as well |
| `Gate.Decision` | src/main.ts:21-29 | a poll decides Approved exactly when the status call returns `"approved"`, and Rejected exactly when it returns `"rejected"`; every other reply, thrown or not, decides nothing |
| `Gate.WaitLoop` | src/main.ts:20-39 | the loop makes at least as many polls as it has already made, never more than the trace offers, and never concludes with a submission failure |
| `Gate.Run` | src/main.ts:5-46 | a failed submission ends the run with that error before any poll. Otherwise the run computes the deadline once, before the loop, and its conclusion and poll count are those of the loop under that fixed deadline |
| `Gate.Wait` | src/main.ts:20-41 | the imperative poll loop under a fixed deadline concludes with exactly the conclusion and poll count of `WaitLoop` from the first iteration |
| `Gate.WaitLoopExplained` | src/main.ts:20-41 | the loop concludes with (c, n) if and only if the trace explains it: all earlier polls passed the loop test and decided nothing, and at the stop the trace ended, the clock reached the deadline, or a poll answered approved or rejected |
| `Gate.RetriesUntilDecision` | src/main.ts:20-38 | any number of failed, pending or unknown polls before the deadline, then approved (or rejected) before the deadline, gives that outcome after exactly that many polls plus one |
| `Gate.NoDeadlineNeverTimesOut` | src/main.ts:9-20 | with no deadline the loop never concludes TimedOut |
| `Gate.TimedOutOnlyAtDeadline` | src/main.ts:20-41 | TimedOut only when a loop test found the clock at or past a real deadline, and every earlier poll decided nothing before that deadline |
| `Gate.DecisionBeatsTimeout` | src/main.ts:22-28 | once a poll answers approved or rejected, the loop ends with that outcome at that poll and makes no later poll |
| `Gate.PollsBoundedByDeadline` | src/main.ts:16-38 | when each iteration sleeps at least the interval, every poll after the first starts one more interval after the first loop test and before the deadline |
| `Gate.TimeoutWins` | src/main.ts:16-41 | when each iteration sleeps at least the interval and the trace covers the deadline's distance, the loop has concluded: the timeout bounds the wait |
| `Gate.PendingThenApproved` | src/main.ts:20-38 | pending, pending, approved, one interval apart and all before the deadline, gives Approved after exactly 3 polls |
| `Gate.PendingUntilTimeout` | src/main.ts:20-41 | always pending, with the deadline two intervals after the start, gives TimedOut after 2 polls |
| `Gate.SubmissionRejectedScenario` | src/lib/approvals.ts:116-118 | a status-500 reply to the request fails the run with that status, and the run makes no poll |
| `Pre.Preprocess` | src/pre.ts:3-20 | a message that is empty or all whitespace fails with the message error, whatever the timeout. Otherwise a non-empty timeout that parses to NaN or a negative number fails with the timeout error. Every other input passes: exactly one of the three results |
| `Pre.NumeralTimeouts` | src/pre.ts:12-18 | with a valid message, the decimal numeral of any non-negative number passes and that of a negative number fails with the timeout error |
| `Handoff.ZeroTimeoutMeansUnlimited` | src/pre.ts:12-18 | every non-empty timeout that parses to 0 passes the pre step, yet the main step gives it no deadline |
| `Handoff.ZeroNumerals` | src/main.ts:7-10 | `00`, `-0`, `0.5` and `0x0` all parse to 0 |
| `Handoff.AcceptedTimeoutHasDeadlineIffPositive` | src/pre.ts:12-18 | a non-empty timeout that passes validation parses to a number >= 0, and the main step gives it a deadline exactly when that number is positive |

## Left out

- `uploadArtifact` and `deleteArtifactIfExists` (`src/lib/approvals.ts:29-66`): file-system and artifact-service I/O. The model takes the artifact id, or `None` for a throwing upload. The best-effort deletion only swallows a foreign library's errors, so it has no model.
- The `HttpClient` calls themselves and the API base URL: network I/O. The model takes only each reply's status code and the one JSON field that is read. A JSON value that is not a string is not modelled.
- `Approvals.GetApprovalStatus`: takes no approval id, because the id only appears in the URL of the GET, which is I/O.
- `nanoid(32)`: randomness. The token is a parameter, so token distinctness across runs, which holds only with high probability, is not modelled.
- `process.env` reads and `Number(...)` of environment strings: the run identity comes in as integers. A NaN from `Number` is not modelled.
- `core.getInput`: the model takes the string that `getInput` returns. The library's own trimming of inputs is not modelled.
- `core.debug`, `info`, `warning` logging: side effects only. `setFailed` and a clean return become the returned `Conclusion`.
- `Date.now`, `setTimeout` and `APPROVAL_STATUS_POLL_INTERVAL`: replaced by the observed clock readings and an interval parameter. The interval only appears in the `Gate.Advancing` hypothesis of the timing lemmas.
- JavaScript's `Infinity`: an unlimited deadline is `None`.
- `JsText.ParseInt`: results are exact integers. The model does not round very long numerals to doubles or turn them into `Infinity`, and `-0` and `0` are the same number. A numeral of more than about 16 digits can parse differently in JavaScript.
- `Gate.NormalizeTimeout`: computes `timeout * 1000` exactly. It does not model double-precision rounding.
- `Gate.Run`: a run on a finite trace can end `StillWaiting`, which the source cannot observe, because the real loop never runs out of clock readings or replies.
