# Applicant intake and identity-verification client — Dafny model

This project models `alloy_integration.py`. The script is an interactive
command-line client. It asks an operator for an applicant's details and
checks each validated field against its rule, asking again until the line
passes. It builds a record of twelve fields and posts it as the attributes
of an evaluation on one fixed workflow. It then sorts the service's reply
into a decision (approved, manual review, denied, unexpected) or a
diagnosis (API error, status code, schema listing, unknown shape).

Modules:

- `Wrappers`: the `Option` type.
- `Text`: the parts of Python's `str` that the script uses, over ASCII.
  These are `strip`, `upper`, `isalpha`, `isdigit` and the regex class `\w`.
- `FieldValidator`: the seven `get_valid_*` rules.
  - `Accept` is one pass of a re-prompt loop.
  - `NextAccepted` specifies the loop. It is shared by the seven rules, which differ only in the check applied to each line.
  - `RePrompt` is the loop itself, over a finite sequence of input lines, and `ReadValid` runs it with one field's check.
  - The email regex is modelled twice: as a pattern predicate (`MatchesEmailPattern`) and as the matcher the model runs (`IsValidEmail`). Lemmas prove the two agree.
- `ApplicantCollector`: `get_applicant_details`. `Interview` specifies the whole dialogue. `ReadApplicant` runs it in the order of the dict literal, and `CollectApplicant` builds the twelve-key record.
- `VerificationClient`:
  - the request payload;
  - the status-200 gate of `submit_application`;
  - `process_response` as `Classify`, which returns the message the script prints as an `Outcome`;
  - `main` as `RunIntake`.

  The HTTP exchange is a function parameter of `RunIntake`.

Input is a `seq<string>` of lines. A prompt that finds no line left stands
for Python's `EOFError` from `input()`. The model turns that into `None`
instead of an exception.

The model follows the code as written. The script does not check at
start-up that its credentials are set. Any status other than 200 is
printed and turned into `None`, and then reported as no response.

## Model

| member | source | states |
|---|---|---|
| Text.TrimStartSpec | alloy_integration.py:17 | The left trim of `strip` keeps a suffix and drops only whitespace before it. It stops at the first non-space character. |
| Text.TrimEndSpec | alloy_integration.py:17 | The right trim of `strip` keeps a prefix and drops only whitespace after it. It stops at the last non-space character. |
| Text.StripSpec | alloy_integration.py:17 | `strip` leaves no whitespace at either end. The result is a contiguous slice of the line with only whitespace around it. |
| Text.StripIdempotent | alloy_integration.py:17 | Stripping twice equals stripping once. |
| Text.StripKeepsStripped | alloy_integration.py:17 | A line with no surrounding whitespace is returned unchanged by `strip`. |
| Text.UpperKeepsStripped | alloy_integration.py:30 | `upper` after `strip` still leaves no whitespace at the ends. |
| Text.UpperIdempotent | alloy_integration.py:30 | Upper-casing twice equals upper-casing once. |
| FieldValidator.Accept | alloy_integration.py:16-20 | One iteration of a validation loop. A returned value is exactly the normalised line (stripped, and upper-cased for state and country). It satisfies the field's rule and has no surrounding whitespace. The line is accepted if and only if its normalised form passes the rule. |
| FieldValidator.NextAccepted | alloy_integration.py:16-20 | A re-prompt loop never moves backwards and never reads past the input. When it returns a value, it has read at least one line. It returns nothing only when the input is exhausted. |
| FieldValidator.Skipped | alloy_integration.py:16-20 | The lines rejected before the loop's result lie between its start and the end of the input. |
| FieldValidator.NextAcceptedFound | alloy_integration.py:18-19 | A value the loop returns is what the check made of the last line read. |
| FieldValidator.NextAcceptedSkipsRejected | alloy_integration.py:16-20 | Every line the loop passes over is rejected. The loop stops at the first accepted line, and gives up only when every remaining line is rejected. |
| FieldValidator.NextAcceptedValid | alloy_integration.py:16-20 | A value the loop for a field returns passes that field's rule and has no surrounding whitespace. |
| FieldValidator.RePrompt | alloy_integration.py:16-20 | The imperative re-prompt loop, for any line check, returns exactly the value and position that `NextAccepted` specifies. It prints one error message per rejected line. |
| FieldValidator.ReadValid | alloy_integration.py:14-74 | Each `get_valid_*` function is the re-prompt loop with its field's check. It returns what `NextAccepted` specifies for that field, and a returned value passes the field's rule. |
| FieldValidator.AcceptIsStable | alloy_integration.py:17-18 | Typing back an accepted value returns the same value. Normalisation is idempotent on what every rule lets through. |
| FieldValidator.NameRejectsNonLetter | alloy_integration.py:18 | A name is rejected whenever any character of the stripped line is not a letter, such as a space, hyphen or digit. |
| FieldValidator.NameExamples | alloy_integration.py:14-20 | "  Ann " is accepted as "Ann". "A", "Mary Ann" and "O-Neil" are rejected. |
| FieldValidator.StateCodeShape | alloy_integration.py:24-28 | Every code in the list of 50 is two capital letters. |
| FieldValidator.StateIsTwoCapitals | alloy_integration.py:30-32 | An accepted state is two capital letters. |
| FieldValidator.StateExamples | alloy_integration.py:29-32 | "ny" is accepted as "NY" and " wy\t" as "WY", because the line is stripped and upper-cased first. |
| FieldValidator.StateRejectExample | alloy_integration.py:24-33 | "ZZ" is rejected: it is not in the list. |
| FieldValidator.DistrictRejectExample | alloy_integration.py:24-33 | "dc" is rejected even after upper-casing. The District of Columbia is not in the list. |
| FieldValidator.CountryIsUS | alloy_integration.py:37-41 | "US" is the only country value ever returned. It is returned exactly when the stripped line is "US" in any mix of case. |
| FieldValidator.SsnExamples | alloy_integration.py:43-49 | Nine digits are accepted, also with surrounding spaces. Five digits and a letter among nine characters are rejected. |
| FieldValidator.ZipAndPhoneExamples | alloy_integration.py:51-65 | Five digits are a ZIP code and ten digits a phone number. A dashed phone number is rejected. |
| FieldValidator.IndexOfSpec | alloy_integration.py:71 | The search for '@' finds its first occurrence. It finds nothing only when there is none. |
| FieldValidator.LastIndexOfSpec | alloy_integration.py:71 | The search for '.' finds its last occurrence. It finds nothing only when there is none. |
| FieldValidator.IndexOfIs | alloy_integration.py:71 | A character at `i` with none before it is what the first-occurrence search returns. |
| FieldValidator.LastIndexOfIs | alloy_integration.py:71 | A character at `i` with none after it is what the last-occurrence search returns. |
| FieldValidator.EmailMatcherSound | alloy_integration.py:71 | Every string the matcher accepts matches `^[\w\.-]+@[\w\.-]+\.\w+$`. |
| FieldValidator.EmailMatcherComplete | alloy_integration.py:71 | Every string matching the pattern with a given split is accepted by the matcher. |
| FieldValidator.EmailMatcherIsPattern | alloy_integration.py:71 | The matcher accepts a string if and only if it matches the pattern. |
| FieldValidator.EmailHasOneAt | alloy_integration.py:71 | An accepted email contains exactly one '@'. |
| FieldValidator.EmailAtIsUnique | alloy_integration.py:71 | Any two '@' in an accepted email are at the same index. |
| FieldValidator.EmailAcceptExample | alloy_integration.py:67-73 | "a.b@example.com" is accepted unchanged. |
| FieldValidator.EmailNoAtExample | alloy_integration.py:67-73 | "not-an-email", which has no '@', is rejected. |
| FieldValidator.EmailTwoAtsExample | alloy_integration.py:67-73 | "a@b@c.com" is rejected. |
| FieldValidator.EmailNoSuffixExample | alloy_integration.py:67-73 | "a@example.", whose final dot has nothing after it, is rejected. |
| ApplicantCollector.RecordShape | alloy_integration.py:79-92 | The record has exactly the twelve keys of the literal. Each value sits under its own key. A well-formed applicant gives a well-formed record. |
| ApplicantCollector.NextLine | alloy_integration.py:84-86 | A free-text prompt returns a value if and only if a line is left. That value is the next line stripped, and exactly one line is consumed. Otherwise the position moves to the end of the input. |
| ApplicantCollector.Interview | alloy_integration.py:76-94 | The dialogue never reads past the input. It fails only when the input is exhausted. A returned applicant has its eight validated fields passing their rules and its four free-text fields stripped. Its first name is what the first name loop returns. |
| ApplicantCollector.InterviewFirstName | alloy_integration.py:79-80 | The first name is the first line of the input that the name rule accepts. |
| ApplicantCollector.InterviewWithoutRetries | alloy_integration.py:79-92 | Twelve lines, each accepted at the first attempt, give an applicant and are all consumed. Field k is the value its rule made of line k, and free text is the stripped line. |
| ApplicantCollector.ReadApplicant | alloy_integration.py:76-94 | Calling the loops one after another in the order of the literal yields exactly the applicant and line count that `Interview` specifies. A returned applicant is well formed. |
| ApplicantCollector.CollectApplicant | alloy_integration.py:76-94 | The record is present exactly when the dialogue succeeds. It is that applicant's twelve-key record and is well formed. |
| VerificationClient.Payload | alloy_integration.py:101-107 | The payload has exactly the keys "workflow" and "attributes". The workflow is "shelli_test_workflow_id". The attributes have the record's keys. |
| VerificationClient.PayloadRoundTrip | alloy_integration.py:104-107 | Reading the attributes back from the payload gives the record unchanged. |
| VerificationClient.Submit | alloy_integration.py:115-119 | The reply body is passed on if and only if the status is 200. Otherwise the result is nothing. |
| VerificationClient.Classify | alloy_integration.py:139-169 | The outcome is "no response" exactly for a missing or empty reply. A non-empty reply with a summary is a decision, or `SummaryNotObject` when the summary is not an object (the script raises there). A reply without a summary is a diagnosis. Each outcome has an exact condition. Approved, ManualReview and Denied hold exactly when the summary's outcome field is "Approved", "Manual Review" or "Deny". Unexpected holds for any other outcome value, which it carries verbatim. ApiError holds exactly when there is no summary and the error is truthy. StatusReported holds when there is also no truthy error and a status code is present; it is flagged exactly when the code is not 200. SchemaListing holds when, in addition, there is no status code and "required" or "optional" is present. UnknownShape covers every other reply without a summary. |
| VerificationClient.SummaryDecides | alloy_integration.py:147-156 | Two replies with the same summary are classified alike, whatever else they carry. |
| VerificationClient.KnownOutcomesAreExact | alloy_integration.py:148-156 | For a summary with any other entries, "Approved", "Manual Review" and "Deny" are matched exactly, case included. Any other outcome string is reported verbatim as unexpected. |
| VerificationClient.NonStringOutcomeIsUnexpected | alloy_integration.py:148-156 | An outcome value that is not a string is never a known outcome. It is reported verbatim as unexpected. |
| VerificationClient.MissingOutcomeIsUnknown | alloy_integration.py:148 | A summary with no outcome reads as the outcome "Unknown". |
| VerificationClient.FalsyErrorIsIgnored | alloy_integration.py:141-169 | A falsy "error" entry (null, false, 0, "", [] or {}) is classified as if it were absent, provided the reply holds some other key. A reply whose only key is a falsy error is still truthy, so it is diagnosed rather than "no response". |
| VerificationClient.StatusCodeStopsTheChain | alloy_integration.py:161-164 | A "status_code" entry is reported even when it is 200, and is then not flagged. The schema check is never reached. |
| VerificationClient.DecisionExamples | alloy_integration.py:141-156 | A missing or empty reply is no response. "Approved" and "Deny" are decisions. Lower-case "approved" is unexpected. |
| VerificationClient.DiagnosisExamples | alloy_integration.py:158-169 | A required/optional listing is a schema listing. A non-empty error is an API error, even beside a status code. Status 401 is reported as non-successful. A lone `"error": null` is an unknown shape. |
| VerificationClient.RejectedSubmissionIsNoResponse | alloy_integration.py:115-119 | Any non-200 status ends as "no response". |
| VerificationClient.AcceptedSubmissionIsClassifiedOnBody | alloy_integration.py:115-116 | A 200 reply is classified on its body. |
| VerificationClient.RunIntake | alloy_integration.py:172-176 | The service is reached only when the dialogue on the input succeeds. It receives the payload of exactly that applicant's record. The outcome is the classification of the gated reply. |

## Left out

- The HTTP POST, its basic-auth credentials and `response.json()`. The exchange is the `post` parameter of `RunIntake` and returns a status and a decoded JSON object.
- A POST that raises (connection failure, timeout) or a body that is not JSON. The script does not catch either, so the exception ends the program. `post` is a total function, so the model has no such path.
- The dotenv loading of `WORKFLOW_TOKEN` and `WORKFLOW_SECRET`. A missing credential is not checked by the code either.
- The statements after the first `return` in `submit_application` (lines 121-136). They are unreachable.
- The printed prompts, error messages and the full-response dump (line 145). Each message is represented by its `Outcome` constructor or by the error count of `ReadValid`.
- A reply body that is not a JSON object, and JSON floating-point numbers. Bodies are modelled as objects and numbers as integers.
- A `summary` that is not an object. `.get` raises `AttributeError` in the script; the model returns the distinct outcome `SummaryNotObject`.
- Unicode beyond ASCII. Whitespace, letters, digits, `\w` and upper-casing follow Python's rules on ASCII characters only. Python also accepts non-ASCII letters in names ("José") and non-ASCII digits in the digit fields. It also matches non-ASCII word characters in emails. The model rejects all of these.
- FieldValidator.CountryIsUS: holds for ASCII input only. Python's `upper` maps 'ſ' to 'S' and 'ı' to 'I', so the script accepts "uſ" as the country "US" (line 38). The model rejects that line.
- FieldValidator.StateIsTwoCapitals: the same applies to states. The script accepts "ıd" as "ID" (line 30); the model rejects it.
- Blocking forever at a prompt. The finite input ends with `None` where Python would raise `EOFError`.
- `get_required_parameters.py` and `parametersTest.py` are not part of this model. They are separate diagnostic scripts.
