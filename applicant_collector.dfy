/**
  `get_applicant_details`: the applicant record, filled by reading the
  fields one after another from the operator's input in a fixed order.
 */
module ApplicantCollector {
  import opened Wrappers
  import opened Text
  import opened FieldValidator

  /** The twelve values of an applicant, in the order they are asked for. */
  datatype Applicant = Applicant(
    nameFirst: string,
    nameLast: string,
    emailAddress: string,
    phoneNumber: string,
    addressLine1: string,
    addressLine2: string,
    addressCity: string,
    addressState: string,
    addressPostalCode: string,
    addressCountryCode: string,
    documentSsn: string,
    birthDate: string
  )

  /** What every applicant the collector returns satisfies: each validated
      field passes its rule; the free-text fields are stripped and may be
      empty. */
  ghost predicate WellFormedApplicant(a: Applicant) {
    && Valid(Name, a.nameFirst)
    && Valid(Name, a.nameLast)
    && Valid(Email, a.emailAddress)
    && Valid(Phone, a.phoneNumber)
    && Valid(State, a.addressState)
    && Valid(Zip, a.addressPostalCode)
    && Valid(Country, a.addressCountryCode)
    && Valid(Ssn, a.documentSsn)
    && Stripped(a.addressLine1)
    && Stripped(a.addressLine2)
    && Stripped(a.addressCity)
    && Stripped(a.birthDate)
  }

  /** The twelve keys of the record, as sent to the service. */
  const ApplicantKeys: set<string> := {
    "name_first", "name_last", "email_address", "phone_number",
    "address_line_1", "address_line_2", "address_city", "address_state",
    "address_postal_code", "address_country_code", "document_ssn", "birth_date"
  }

  /** The dict literal of `get_applicant_details`. */
  function Record(a: Applicant): map<string, string> {
    map[
      "name_first" := a.nameFirst,
      "name_last" := a.nameLast,
      "email_address" := a.emailAddress,
      "phone_number" := a.phoneNumber,
      "address_line_1" := a.addressLine1,
      "address_line_2" := a.addressLine2,
      "address_city" := a.addressCity,
      "address_state" := a.addressState,
      "address_postal_code" := a.addressPostalCode,
      "address_country_code" := a.addressCountryCode,
      "document_ssn" := a.documentSsn,
      "birth_date" := a.birthDate
    ]
  }

  /** The record of a well-formed applicant has exactly the twelve keys;
      the validated keys hold values that pass their rules and the
      free-text keys hold stripped text. */
  ghost predicate WellFormedRecord(r: map<string, string>) {
    && r.Keys == ApplicantKeys
    && Valid(Name, r["name_first"])
    && Valid(Name, r["name_last"])
    && Valid(Email, r["email_address"])
    && Valid(Phone, r["phone_number"])
    && Valid(State, r["address_state"])
    && Valid(Zip, r["address_postal_code"])
    && Valid(Country, r["address_country_code"])
    && Valid(Ssn, r["document_ssn"])
    && Stripped(r["address_line_1"])
    && Stripped(r["address_line_2"])
    && Stripped(r["address_city"])
    && Stripped(r["birth_date"])
  }

  /** No two keys of the literal collide, so each value lands under its own
      key, and a well-formed applicant gives a well-formed record. */
  lemma RecordShape(a: Applicant)
    ensures Record(a).Keys == ApplicantKeys
    ensures Record(a)["name_first"] == a.nameFirst && Record(a)["name_last"] == a.nameLast
    ensures Record(a)["email_address"] == a.emailAddress && Record(a)["phone_number"] == a.phoneNumber
    ensures Record(a)["address_line_1"] == a.addressLine1 && Record(a)["address_line_2"] == a.addressLine2
    ensures Record(a)["address_city"] == a.addressCity && Record(a)["address_state"] == a.addressState
    ensures Record(a)["address_postal_code"] == a.addressPostalCode
    ensures Record(a)["address_country_code"] == a.addressCountryCode
    ensures Record(a)["document_ssn"] == a.documentSsn && Record(a)["birth_date"] == a.birthDate
    ensures WellFormedApplicant(a) ==> WellFormedRecord(Record(a))
  {
  }

  /** A free-text prompt read at line `start`: the line, stripped, with no
      rule; `None` when the input has run out. */
  function NextLine(input: seq<string>, start: nat): (r: (Option<string>, nat))
    requires start <= |input|
    ensures start <= r.1 <= |input|
    ensures r.0.Some? <==> start < |input|
    ensures r.0.Some? ==> r.0.value == Strip(input[start]) && r.1 == start + 1 && Stripped(r.0.value)
    ensures r.0.None? ==> r.1 == |input|
  {
    if start < |input| then StripSpec(input[start]); (Some(Strip(input[start])), start + 1)
    else (None, start)
  }

  /**
    The dialogue of `get_applicant_details` on `input`: each field read in
    the order of the dict literal, a validated field through its re-prompt
    loop and a free-text field from the next line. The result is the
    applicant, or `None` when the input runs out first, with the number of
    lines consumed.
   */
  function Interview(input: seq<string>): (r: (Option<Applicant>, nat))
    ensures r.1 <= |input|
    ensures r.0.None? ==> r.1 == |input|
    ensures r.0.Some? ==> WellFormedApplicant(r.0.value)
    ensures r.0.Some? ==> NextAccepted(AcceptOf(Name), input, 0).0 == Some(r.0.value.nameFirst)
  {
    var (first, n0) := NextAccepted(AcceptOf(Name), input, 0);
    NextAcceptedValid(Name, input, 0);
    if first.None? then (None, n0) else
    var (last, n1) := NextAccepted(AcceptOf(Name), input, n0);
    NextAcceptedValid(Name, input, n0);
    if last.None? then (None, n1) else
    var (email, n2) := NextAccepted(AcceptOf(Email), input, n1);
    NextAcceptedValid(Email, input, n1);
    if email.None? then (None, n2) else
    var (phone, n3) := NextAccepted(AcceptOf(Phone), input, n2);
    NextAcceptedValid(Phone, input, n2);
    if phone.None? then (None, n3) else
    var (line1, n4) := NextLine(input, n3);
    if line1.None? then (None, n4) else
    var (line2, n5) := NextLine(input, n4);
    if line2.None? then (None, n5) else
    var (city, n6) := NextLine(input, n5);
    if city.None? then (None, n6) else
    var (state, n7) := NextAccepted(AcceptOf(State), input, n6);
    NextAcceptedValid(State, input, n6);
    if state.None? then (None, n7) else
    var (zip, n8) := NextAccepted(AcceptOf(Zip), input, n7);
    NextAcceptedValid(Zip, input, n7);
    if zip.None? then (None, n8) else
    var (country, n9) := NextAccepted(AcceptOf(Country), input, n8);
    NextAcceptedValid(Country, input, n8);
    if country.None? then (None, n9) else
    var (ssn, n10) := NextAccepted(AcceptOf(Ssn), input, n9);
    NextAcceptedValid(Ssn, input, n9);
    if ssn.None? then (None, n10) else
    var (birth, n11) := NextLine(input, n10);
    if birth.None? then (None, n11) else
    (Some(Applicant(first.value, last.value, email.value, phone.value, line1.value, line2.value,
                    city.value, state.value, zip.value, country.value, ssn.value, birth.value)), n11)
  }

  /** The first name is the first line of the input the name rule accepts. */
  lemma InterviewFirstName(input: seq<string>)
    ensures Interview(input).0.Some? ==> exists i :: FirstAccepted(Name, input, i, Interview(input).0.value.nameFirst)
  {
    var r := NextAccepted(AcceptOf(Name), input, 0);
    if r.0.Some? {
      NextAcceptedFound(AcceptOf(Name), input, 0);
      NextAcceptedSkipsRejected(AcceptOf(Name), input, 0);
      assert Skipped(AcceptOf(Name), input, 0) == r.1 - 1;
      assert FirstAccepted(Name, input, r.1 - 1, r.0.value);
    }
  }

  /** An input of twelve lines, each accepted by its field at the first
      attempt, gives an applicant and is read to the end. */
  lemma InterviewWithoutRetries(input: seq<string>)
    requires |input| == 12
    requires Accept(Name, input[0]).Some? && Accept(Name, input[1]).Some?
    requires Accept(Email, input[2]).Some? && Accept(Phone, input[3]).Some?
    requires Accept(State, input[7]).Some? && Accept(Zip, input[8]).Some?
    requires Accept(Country, input[9]).Some? && Accept(Ssn, input[10]).Some?
    ensures Interview(input) == (Some(Applicant(
      Accept(Name, input[0]).value, Accept(Name, input[1]).value, Accept(Email, input[2]).value,
      Accept(Phone, input[3]).value, Strip(input[4]), Strip(input[5]), Strip(input[6]),
      Accept(State, input[7]).value, Accept(Zip, input[8]).value, Accept(Country, input[9]).value,
      Accept(Ssn, input[10]).value, Strip(input[11]))), 12)
  {
    assert NextAccepted(AcceptOf(Name), input, 0) == (Accept(Name, input[0]), 1);
    assert NextAccepted(AcceptOf(Name), input, 1) == (Accept(Name, input[1]), 2);
    assert NextAccepted(AcceptOf(Email), input, 2) == (Accept(Email, input[2]), 3);
    assert NextAccepted(AcceptOf(Phone), input, 3) == (Accept(Phone, input[3]), 4);
    assert NextLine(input, 4) == (Some(Strip(input[4])), 5);
    assert NextLine(input, 5) == (Some(Strip(input[5])), 6);
    assert NextLine(input, 6) == (Some(Strip(input[6])), 7);
    assert NextAccepted(AcceptOf(State), input, 7) == (Accept(State, input[7]), 8);
    assert NextAccepted(AcceptOf(Zip), input, 8) == (Accept(Zip, input[8]), 9);
    assert NextAccepted(AcceptOf(Country), input, 9) == (Accept(Country, input[9]), 10);
    assert NextAccepted(AcceptOf(Ssn), input, 10) == (Accept(Ssn, input[10]), 11);
    assert NextLine(input, 11) == (Some(Strip(input[11])), 12);
  }

  /**
    Reads the applicant's fields from `input` in the order of the source's
    dict literal, each validated one through its re-prompt loop. `next` is
    the number of lines consumed. The result is `None` when the input runs
    out before the last field (where Python's `input()` raises `EOFError`).
   */
  method ReadApplicant(input: seq<string>) returns (applicant: Option<Applicant>, next: nat)
    ensures (applicant, next) == Interview(input)
    ensures applicant.Some? ==> WellFormedApplicant(applicant.value)
  {
    applicant, next := None, 0;
    var first, last, email, phone, state, zip, country, ssn;
    var rejected: nat;  // each loop's error count; the dialogue does not keep them
    first, next, rejected := ReadValid(Name, input, next);
    if first.None? { return; }
    last, next, rejected := ReadValid(Name, input, next);
    if last.None? { return; }
    email, next, rejected := ReadValid(Email, input, next);
    if email.None? { return; }
    phone, next, rejected := ReadValid(Phone, input, next);
    if phone.None? { return; }
    var line1 := NextLine(input, next);
    next := line1.1;
    if line1.0.None? { return; }
    var line2 := NextLine(input, next);
    next := line2.1;
    if line2.0.None? { return; }
    var city := NextLine(input, next);
    next := city.1;
    if city.0.None? { return; }
    state, next, rejected := ReadValid(State, input, next);
    if state.None? { return; }
    zip, next, rejected := ReadValid(Zip, input, next);
    if zip.None? { return; }
    country, next, rejected := ReadValid(Country, input, next);
    if country.None? { return; }
    ssn, next, rejected := ReadValid(Ssn, input, next);
    if ssn.None? { return; }
    var birth := NextLine(input, next);
    next := birth.1;
    if birth.0.None? { return; }
    applicant := Some(Applicant(first.value, last.value, email.value, phone.value, line1.0.value, line2.0.value,
                                city.0.value, state.value, zip.value, country.value, ssn.value, birth.0.value));
  }

  /** `get_applicant_details`: the record of the applicant read from `input`. */
  method CollectApplicant(input: seq<string>) returns (record: Option<map<string, string>>, next: nat)
    ensures next == Interview(input).1
    ensures record.None? <==> Interview(input).0.None?
    ensures record.Some? ==> record.value == Record(Interview(input).0.value) && WellFormedRecord(record.value)
  {
    var applicant;
    applicant, next := ReadApplicant(input);
    if applicant.Some? {
      RecordShape(applicant.value);
      record := Some(Record(applicant.value));
    } else {
      record := None;
    }
  }
}
