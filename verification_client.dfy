/**
  The verification client: the request payload built from an applicant
  record, the status gate on the service's reply (`submit_application`),
  the classification of the reply (`process_response`) and the pipeline of
  `main`. The HTTP exchange itself is a parameter.
 */
module VerificationClient {
  import opened Wrappers
  import opened ApplicantCollector

  /** A JSON value as Python's `json` module produces it (numbers are
      integers only). */
  datatype Json =
    | Null
    | Bool(b: bool)
    | Num(n: int)
    | Str(s: string)
    | Arr(items: seq<Json>)
    | Obj(fields: map<string, Json>)

  /** Python truthiness of a decoded JSON value: `None`, `False`, `0` and
      empty strings, lists and dicts are false. */
  predicate Truthy(j: Json) {
    match j
    case Null => false
    case Bool(b) => b
    case Num(n) => n != 0
    case Str(s) => s != []
    case Arr(items) => items != []
    case Obj(fields) => fields != map[]
  }

  /** The workflow every evaluation is submitted to. */
  const WorkflowName: string := "shelli_test_workflow_id"

  // ---------------------------------------------------------------------
  // Request payload
  // ---------------------------------------------------------------------

  /** `{"workflow": WorkflowName, "attributes": record}`, each value of the
      record sent as a JSON string. */
  function Payload(record: map<string, string>): (p: map<string, Json>)
    ensures p.Keys == {"workflow", "attributes"}
    ensures p["workflow"] == Str(WorkflowName)
    ensures p["attributes"].Obj? && p["attributes"].fields.Keys == record.Keys
  {
    map["workflow" := Str(WorkflowName), "attributes" := Obj(map k | k in record :: Str(record[k]))]
  }

  /** What a receiver reads back from a payload's `attributes`: the flat
      string-valued object, or `None` when there is no such object. */
  function AttributesOf(p: map<string, Json>): Option<map<string, string>> {
    if "attributes" in p && p["attributes"].Obj? && forall k :: k in p["attributes"].fields ==> p["attributes"].fields[k].Str?
    then Some(map k | k in p["attributes"].fields :: p["attributes"].fields[k].s)
    else None
  }

  /** The payload carries the record unchanged: same keys, same values. */
  lemma PayloadRoundTrip(record: map<string, string>)
    ensures AttributesOf(Payload(record)) == Some(record)
  {
    var attributes := Payload(record)["attributes"].fields;
    assert forall k :: k in attributes ==> attributes[k] == Str(record[k]);
    assert forall k :: k in attributes ==> attributes[k].Str?;
    var back := map k | k in attributes :: attributes[k].s;
    assert back.Keys == record.Keys;
    assert forall k :: k in back ==> back[k] == record[k];
    assert back == record;
  }

  // ---------------------------------------------------------------------
  // Status gate
  // ---------------------------------------------------------------------

  /** The service's reply: its HTTP status and its decoded JSON body. */
  datatype HttpResponse = HttpResponse(status: int, body: map<string, Json>)

  /** `submit_application` after the POST: the body on status 200, and
      `None` (after printing the status and text) on any other status. */
  function Submit(reply: HttpResponse): (r: Option<map<string, Json>>)
    ensures r.Some? <==> reply.status == 200
    ensures r.Some? ==> r.value == reply.body
  {
    if reply.status == 200 then Some(reply.body) else None
  }

  // ---------------------------------------------------------------------
  // Classification
  // ---------------------------------------------------------------------

  /** The message `process_response` prints, one constructor per branch. */
  datatype Outcome =
    | NoResponse                                  // "No response received."
    | Approved
    | ManualReview
    | Denied
    | Unexpected(outcome: Json)                   // any other outcome, printed verbatim
    | SummaryNotObject                            // `.get` on a non-dict summary raises
    | ApiError(error: Json)
    | StatusReported(code: Json, nonSuccess: bool)
    | SchemaListing                               // required/optional fields instead of a decision
    | UnknownShape

  /** The outcomes of a reply that carries a summary object. */
  predicate IsDecision(o: Outcome) {
    o.Approved? || o.ManualReview? || o.Denied? || o.Unexpected?
  }

  predicate IsDiagnosis(o: Outcome) {
    o.ApiError? || o.StatusReported? || o.SchemaListing? || o.UnknownShape?
  }

  /** The outcome field a present summary yields: its "outcome" entry, or
      "Unknown" when it has none. */
  function OutcomeOf(summary: map<string, Json>): Json {
    if "outcome" in summary then summary["outcome"] else Str("Unknown")
  }

  /** The outcome field of the reply's summary, when the reply has a
      summary object. */
  function SummaryOutcome(response: Option<map<string, Json>>): Option<Json> {
    if response.Some? && "summary" in response.value && response.value["summary"].Obj?
    then Some(OutcomeOf(response.value["summary"].fields))
    else None
  }

  /** A truthy reply without a summary: the one `process_response`
      diagnoses from its other keys. */
  predicate Unsummarised(response: Option<map<string, Json>>) {
    response.Some? && response.value != map[] && "summary" !in response.value
  }

  /** The reply carries an error the script reports: present and truthy. */
  predicate ErrorRaised(m: map<string, Json>) {
    "error" in m && Truthy(m["error"])
  }

  /** `process_response`. A falsy reply is no response; a reply with a
      summary object is a decision on its outcome field; any other truthy
      reply is diagnosed from its keys, checked in the order error, status
      code, schema listing. */
  function Classify(response: Option<map<string, Json>>): (o: Outcome)
    ensures o == NoResponse <==> response.None? || !Truthy(Obj(response.value))
    ensures response.Some? && response.value != map[] ==>
      ("summary" in response.value <==> IsDecision(o) || o == SummaryNotObject)
      && ("summary" !in response.value <==> IsDiagnosis(o))
    // decisions
    ensures o == Approved <==> SummaryOutcome(response) == Some(Str("Approved"))
    ensures o == ManualReview <==> SummaryOutcome(response) == Some(Str("Manual Review"))
    ensures o == Denied <==> SummaryOutcome(response) == Some(Str("Deny"))
    ensures o.Unexpected? <==>
      SummaryOutcome(response).Some? && SummaryOutcome(response).value !in {Str("Approved"), Str("Manual Review"), Str("Deny")}
    ensures o.Unexpected? ==> Some(o.outcome) == SummaryOutcome(response)
    ensures o == SummaryNotObject <==>
      response.Some? && "summary" in response.value && !response.value["summary"].Obj?
    // diagnoses, in the order the script checks them
    ensures o.ApiError? <==> Unsummarised(response) && ErrorRaised(response.value)
    ensures o.ApiError? ==> o.error == response.value["error"]
    ensures o.StatusReported? <==>
      Unsummarised(response) && !ErrorRaised(response.value) && "status_code" in response.value
    ensures o.StatusReported? ==> o.code == response.value["status_code"] && (o.nonSuccess <==> o.code != Num(200))
    ensures o == SchemaListing <==>
      Unsummarised(response) && !ErrorRaised(response.value) && "status_code" !in response.value
      && ("required" in response.value || "optional" in response.value)
    ensures o == UnknownShape <==>
      Unsummarised(response) && !ErrorRaised(response.value) && "status_code" !in response.value
      && "required" !in response.value && "optional" !in response.value
  {
    if response.None? || response.value == map[] then NoResponse
    else
      var m := response.value;
      if "summary" in m then
        match m["summary"]
        case Obj(summary) =>
          var outcome := OutcomeOf(summary);
          if outcome == Str("Approved") then Approved
          else if outcome == Str("Manual Review") then ManualReview
          else if outcome == Str("Deny") then Denied
          else Unexpected(outcome)
        case _ => SummaryNotObject
      else if ErrorRaised(m) then ApiError(m["error"])
      else if "status_code" in m then StatusReported(m["status_code"], m["status_code"] != Num(200))
      else if "required" in m || "optional" in m then SchemaListing
      else UnknownShape
  }

  /** A present summary decides alone: two replies with the same summary
      are classified alike whatever else they carry. */
  lemma SummaryDecides(m: map<string, Json>, m': map<string, Json>)
    requires "summary" in m && "summary" in m' && m["summary"] == m'["summary"]
    ensures Classify(Some(m)) == Classify(Some(m'))
  {
  }

  /** The three known outcomes are compared exactly, case included, in a
      summary carrying any other entries; every other string comes back
      verbatim as unexpected. */
  lemma KnownOutcomesAreExact(m: map<string, Json>, text: string)
    requires "summary" in m && m["summary"].Obj?
    requires "outcome" in m["summary"].fields && m["summary"].fields["outcome"] == Str(text)
    ensures Classify(Some(m)) == (
      if text == "Approved" then Approved
      else if text == "Manual Review" then ManualReview
      else if text == "Deny" then Denied
      else Unexpected(Str(text)))
  {
  }

  /** An outcome that is not a string (a number, null, a list) is never a
      known outcome: it comes back verbatim as unexpected. */
  lemma NonStringOutcomeIsUnexpected(m: map<string, Json>)
    requires "summary" in m && m["summary"].Obj?
    requires "outcome" in m["summary"].fields && !m["summary"].fields["outcome"].Str?
    ensures Classify(Some(m)) == Unexpected(m["summary"].fields["outcome"])
  {
  }

  /** A summary without an outcome reads as the outcome "Unknown". */
  lemma MissingOutcomeIsUnknown(m: map<string, Json>, summary: map<string, Json>)
    requires "summary" in m && m["summary"] == Obj(summary) && "outcome" !in summary
    ensures Classify(Some(m)) == Unexpected(Str("Unknown"))
    ensures Classify(Some(m)) == Classify(Some(m["summary" := Obj(summary["outcome" := Str("Unknown")])]))
  {
  }

  /** A falsy "error" entry (null, false, 0, "", [] or {}) is passed over as
      if it were absent, provided something else remains in the reply. */
  lemma FalsyErrorIsIgnored(m: map<string, Json>)
    requires "summary" !in m && "error" in m && !Truthy(m["error"])
    requires m - {"error"} != map[]
    ensures Classify(Some(m)) == Classify(Some(m - {"error"}))
  {
  }

  /** A "status_code" entry is reported even when it is 200: it does not
      fall through to the schema check. */
  lemma StatusCodeStopsTheChain(m: map<string, Json>)
    requires "summary" !in m && "status_code" in m
    requires "error" !in m || !Truthy(m["error"])
    ensures Classify(Some(m)) == StatusReported(m["status_code"], m["status_code"] != Num(200))
    ensures m["status_code"] == Num(200) ==> !Classify(Some(m)).nonSuccess
  {
  }

  lemma DecisionExamples()
    ensures Classify(None) == NoResponse
    ensures Classify(Some(map[])) == NoResponse
    ensures Classify(Some(map["summary" := Obj(map["outcome" := Str("Approved")])])) == Approved
    ensures Classify(Some(map["summary" := Obj(map["outcome" := Str("Deny")])])) == Denied
    ensures Classify(Some(map["summary" := Obj(map["outcome" := Str("approved")])])) == Unexpected(Str("approved"))
  {
  }

  lemma DiagnosisExamples()
    ensures Classify(Some(map["required" := Arr([Str("ssn")]), "optional" := Arr([])])) == SchemaListing
    ensures Classify(Some(map["error" := Str("Unauthorized")])) == ApiError(Str("Unauthorized"))
    ensures Classify(Some(map["status_code" := Num(401)])) == StatusReported(Num(401), true)
    ensures Classify(Some(map["error" := Str("Unauthorized"), "status_code" := Num(401)])) == ApiError(Str("Unauthorized"))
    ensures Classify(Some(map["error" := Null])) == UnknownShape
  {
    var schema := map["required" := Arr([Str("ssn")]), "optional" := Arr([])];
    assert schema.Keys == {"required", "optional"};
    assert "summary" !in schema && "error" !in schema && "status_code" !in schema;
  }

  // ---------------------------------------------------------------------
  // The pipeline of `main`
  // ---------------------------------------------------------------------

  /** A reply whose status is not 200 is reported as no response. */
  lemma RejectedSubmissionIsNoResponse(reply: HttpResponse)
    requires reply.status != 200
    ensures Classify(Submit(reply)) == NoResponse
  {
  }

  /** A reply with status 200 is classified on its body. */
  lemma AcceptedSubmissionIsClassifiedOnBody(reply: HttpResponse)
    requires reply.status == 200
    ensures Classify(Submit(reply)) == Classify(Some(reply.body))
  {
  }

  /**
    `main`: collect the applicant from `input`, post the payload through
    `post` (the HTTP exchange), pass the reply through the status gate and
    classify it. The service is reached only with the payload of a
    well-formed record; when the input runs out first, nothing is sent and
    there is no outcome.
   */
  method RunIntake(input: seq<string>, post: map<string, Json> -> HttpResponse)
    returns (record: Option<map<string, string>>, outcome: Option<Outcome>)
    ensures outcome.Some? <==> record.Some?
    ensures record.None? <==> Interview(input).0.None?
    ensures record.Some? ==> record.value == Record(Interview(input).0.value) && WellFormedRecord(record.value)
    ensures record.Some? ==> outcome.value == Classify(Submit(post(Payload(record.value))))
  {
    var consumed;
    record, consumed := CollectApplicant(input);
    if record.None? {
      return record, None;
    }
    var reply := post(Payload(record.value));
    outcome := Some(Classify(Submit(reply)));
  }
}
