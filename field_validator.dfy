/**
  The field rules of the applicant intake (`get_valid_*` in
  alloy_integration.py): how a typed line is normalised, which predicate it
  must pass, and the re-prompt loop that keeps reading lines until one does.
 */
module FieldValidator {
  import opened Wrappers
  import opened Text

  /** The seven kinds of validated field. */
  datatype Field = Name | State | Country | Ssn | Zip | Phone | Email

  /** The fixed list of accepted state codes (the 50 states; no DC, no
      territories), written as the three rows of the source's list literal. */
  const ValidStates: seq<string> := StatesRow1 + StatesRow2 + StatesRow3

  const StatesRow1: seq<string> :=
    ["AL", "AK", "AZ", "AR", "CA", "CO", "CT", "DE", "FL", "GA", "HI", "ID", "IL", "IN", "IA", "KS", "KY", "LA", "ME"]
  const StatesRow2: seq<string> :=
    ["MD", "MA", "MI", "MN", "MS", "MO", "MT", "NE", "NV", "NH", "NJ", "NM", "NY", "NC", "ND", "OH", "OK", "OR", "PA"]
  const StatesRow3: seq<string> :=
    ["RI", "SC", "SD", "TN", "TX", "UT", "VT", "VA", "WA", "WV", "WI", "WY"]

  /** The only accepted country code. */
  const CountryCode: string := "US"

  // ---------------------------------------------------------------------
  // The e-mail pattern `^[\w\.-]+@[\w\.-]+\.\w+$`
  // ---------------------------------------------------------------------

  /** A character of the class `[\w\.-]`. */
  predicate IsEmailChar(c: char) {
    IsWordChar(c) || c == '.' || c == '-'
  }

  predicate AllEmailChars(s: string) {
    forall i :: 0 <= i < |s| ==> IsEmailChar(s[i])
  }

  predicate AllWordChars(s: string) {
    forall i :: 0 <= i < |s| ==> IsWordChar(s[i])
  }

  /** The pattern read as a regular expression: `s` splits, at an `@` at
      index `at` and a `.` at index `dot`, into three non-empty runs of the
      three character classes. */
  ghost predicate EmailSplit(s: string, at: int, dot: int) {
    && 0 < at && at + 1 < dot && dot + 1 < |s|
    && s[at] == '@' && s[dot] == '.'
    && AllEmailChars(s[..at])
    && AllEmailChars(s[at + 1..dot])
    && AllWordChars(s[dot + 1..])
  }

  ghost predicate MatchesEmailPattern(s: string) {
    exists at, dot :: EmailSplit(s, at, dot)
  }

  /** Index of the first occurrence of `c` in `s`. */
  function IndexOf(s: string, c: char): (r: Option<nat>)
    ensures r.Some? ==> r.value < |s|
  {
    if |s| == 0 then None
    else if s[0] == c then Some(0)
    else match IndexOf(s[1..], c)
      case None => None
      case Some(i) => Some(i + 1)
  }

  /** Index of the last occurrence of `c` in `s`. */
  function LastIndexOf(s: string, c: char): (r: Option<nat>)
    ensures r.Some? ==> r.value < |s|
  {
    if |s| == 0 then None
    else if s[|s| - 1] == c then Some(|s| - 1)
    else LastIndexOf(s[..|s| - 1], c)
  }

  /** `IndexOf` finds an occurrence with none before it, and finds nothing
      only when there is none. */
  lemma {:induction false} IndexOfSpec(s: string, c: char)
    ensures IndexOf(s, c).Some? ==> IndexOf(s, c).value < |s| && s[IndexOf(s, c).value] == c && c !in s[..IndexOf(s, c).value]
    ensures IndexOf(s, c).None? ==> c !in s
    decreases |s|
  {
    if |s| > 0 && s[0] != c {
      IndexOfSpec(s[1..], c);
      if IndexOf(s[1..], c).Some? {
        var i := IndexOf(s[1..], c).value;
        assert s[..i + 1] == [s[0]] + s[1..][..i];
      } else {
        assert s == [s[0]] + s[1..];
      }
    }
  }

  /** `LastIndexOf` finds an occurrence with none after it, and finds
      nothing only when there is none. */
  lemma {:induction false} LastIndexOfSpec(s: string, c: char)
    ensures LastIndexOf(s, c).Some? ==> LastIndexOf(s, c).value < |s| && s[LastIndexOf(s, c).value] == c && c !in s[LastIndexOf(s, c).value + 1..]
    ensures LastIndexOf(s, c).None? ==> c !in s
    decreases |s|
  {
    if |s| > 0 && s[|s| - 1] != c {
      var t := s[..|s| - 1];
      LastIndexOfSpec(t, c);
      if LastIndexOf(t, c).Some? {
        var i := LastIndexOf(t, c).value;
        assert s[i + 1..] == t[i + 1..] + [s[|s| - 1]];
      } else {
        assert s == t + [s[|s| - 1]];
      }
    }
  }

  /** A deterministic matcher for the e-mail pattern: the local part ends at
      the first `@`, and the top-level part starts after the last `.` of the
      rest. */
  predicate IsValidEmail(s: string) {
    match IndexOf(s, '@')
    case None => false
    case Some(at) =>
      var domain := s[at + 1..];
      && at > 0
      && AllEmailChars(s[..at])
      && AllEmailChars(domain)
      && match LastIndexOf(domain, '.')
         case None => false
         case Some(d) => 0 < d && d + 1 < |domain| && AllWordChars(domain[d + 1..])
  }

  /** The first occurrence is the one with no occurrence before it. */
  lemma IndexOfIs(s: string, c: char, i: nat)
    requires i < |s| && s[i] == c && c !in s[..i]
    ensures IndexOf(s, c) == Some(i)
  {
    IndexOfSpec(s, c);
  }

  /** The last occurrence is the one with no occurrence after it. */
  lemma LastIndexOfIs(s: string, c: char, i: nat)
    requires i < |s| && s[i] == c && c !in s[i + 1..]
    ensures LastIndexOf(s, c) == Some(i)
  {
    LastIndexOfSpec(s, c);
  }

  /** Whatever the matcher accepts, the pattern matches. */
  lemma EmailMatcherSound(s: string)
    requires IsValidEmail(s)
    ensures MatchesEmailPattern(s)
  {
    var at := IndexOf(s, '@').value;
    IndexOfSpec(s, '@');
    var domain := s[at + 1..];
    var d := LastIndexOf(domain, '.').value;
    LastIndexOfSpec(domain, '.');
    assert s[at + 1..at + 1 + d] == domain[..d];
    assert s[at + 1 + d + 1..] == domain[d + 1..];
    assert EmailSplit(s, at, at + 1 + d);
  }

  /** Whatever the pattern matches, the matcher accepts. */
  lemma EmailMatcherComplete(s: string, at: int, dot: int)
    requires EmailSplit(s, at, dot)
    ensures IsValidEmail(s)
  {
    assert '@' !in s[..at] by {
      forall i | 0 <= i < at ensures s[..at][i] != '@' {
        assert IsEmailChar(s[..at][i]);
      }
    }
    IndexOfIs(s, '@', at);
    var domain := s[at + 1..];
    var d := dot - at - 1;
    var tld := s[dot + 1..];
    assert domain[d + 1..] == tld;
    assert '.' !in tld by {
      forall i | 0 <= i < |tld| ensures tld[i] != '.' {
        assert IsWordChar(tld[i]);
      }
    }
    LastIndexOfIs(domain, '.', d);
    assert AllEmailChars(domain) by {
      forall i | 0 <= i < |domain| ensures IsEmailChar(domain[i]) {
        if i < d {
          assert domain[i] == s[at + 1..dot][i];
        } else if i > d {
          assert domain[i] == s[dot + 1..][i - d - 1];
        }
      }
    }
  }

  /** The matcher accepts exactly the strings the pattern matches. */
  lemma EmailMatcherIsPattern(s: string)
    ensures IsValidEmail(s) <==> MatchesEmailPattern(s)
  {
    if IsValidEmail(s) {
      EmailMatcherSound(s);
    }
    if MatchesEmailPattern(s) {
      var at, dot :| EmailSplit(s, at, dot);
      EmailMatcherComplete(s, at, dot);
    }
  }

  /** An accepted e-mail address holds exactly one `@`. */
  lemma EmailHasOneAt(s: string)
    requires IsValidEmail(s)
    ensures '@' in s
    ensures forall i, j :: 0 <= i < |s| && 0 <= j < |s| && s[i] == '@' && s[j] == '@' ==> i == j
  {
    var at := IndexOf(s, '@').value;
    IndexOfSpec(s, '@');
    forall i | 0 <= i < |s| && s[i] == '@' ensures i == at {
    }
  }

  /** Two `@` signs in an accepted address are the same one. */
  lemma EmailAtIsUnique(s: string, i: nat, j: nat)
    requires IsValidEmail(s)
    requires i < |s| && j < |s| && s[i] == '@' && s[j] == '@'
    ensures i == j
  {
    EmailHasOneAt(s);
  }

  // ---------------------------------------------------------------------
  // Normalisation, predicates and acceptance of one line
  // ---------------------------------------------------------------------

  /** Every line is stripped; state and country codes are also upper-cased. */
  function Normalize(f: Field, line: string): string {
    if f == State || f == Country then Upper(Strip(line)) else Strip(line)
  }

  /** The condition each `get_valid_*` tests before returning. */
  predicate Valid(f: Field, v: string) {
    match f
    case Name => |v| >= 2 && IsAlpha(v)
    case State => v in ValidStates
    case Country => v == CountryCode
    case Ssn => IsDigits(v) && |v| == 9
    case Zip => IsDigits(v) && |v| == 5
    case Phone => IsDigits(v) && |v| == 10
    case Email => IsValidEmail(v)
  }

  /** One iteration of a `get_valid_*` loop: the value it would return for
      this line, or `None` when it would print an error and ask again. */
  function Accept(f: Field, line: string): (r: Option<string>)
    ensures r.Some? ==> r.value == Normalize(f, line)
    ensures r.Some? ==> Valid(f, r.value) && Stripped(r.value)
    ensures r.None? ==> !Valid(f, Normalize(f, line))
  {
    var v := Normalize(f, line);
    StripSpec(line);
    UpperKeepsStripped(Strip(line));
    if Valid(f, v) then Some(v) else None
  }

  /** An accepted value is accepted again, unchanged, if typed back in:
      normalisation is idempotent on what the rules let through. */
  lemma AcceptIsStable(f: Field, line: string, v: string)
    requires Accept(f, line) == Some(v)
    ensures Accept(f, v) == Some(v)
  {
    StripKeepsStripped(v);
    StripSpec(line);
    if f == State || f == Country {
      UpperKeepsStripped(Strip(line));
      UpperIdempotent(Strip(line));
    }
  }

  /** A name must be at least two ASCII letters once stripped; any other
      character inside it (space, hyphen, digit, apostrophe) rejects it. */
  lemma NameRejectsNonLetter(line: string, i: nat)
    requires i < |Strip(line)| && !IsLetter(Strip(line)[i])
    ensures Accept(Name, line).None?
  {
  }

  /** The only country value ever returned is "US", and it is returned
      exactly for the four spellings of it in either case. */
  lemma CountryIsUS(line: string)
    ensures Accept(Country, line).Some? ==> Accept(Country, line).value == "US"
    ensures Accept(Country, line).Some? <==> Strip(line) in {"US", "Us", "uS", "us"}
  {
    var t := Strip(line);
    if Upper(t) == "US" {
      assert |t| == |Upper(t)| == 2;
      assert UpperChar(t[0]) == Upper(t)[0] == 'U';
      assert UpperChar(t[1]) == Upper(t)[1] == 'S';
      assert t[0] == 'U' || t[0] == 'u';
      assert t[1] == 'S' || t[1] == 's';
      assert t == [t[0], t[1]];
    }
  }

  /** Every code in the list is two upper-case letters. */
  lemma StateCodeShape(i: nat)
    requires i < |ValidStates|
    ensures |ValidStates[i]| == 2 && 'A' <= ValidStates[i][0] <= 'Z' && 'A' <= ValidStates[i][1] <= 'Z'
  {
  }

  /** Every accepted state is two upper-case letters. */
  lemma StateIsTwoCapitals(line: string)
    ensures Accept(State, line).Some? ==>
      |Accept(State, line).value| == 2 && 'A' <= Accept(State, line).value[0] <= 'Z' && 'A' <= Accept(State, line).value[1] <= 'Z'
  {
    var code := Normalize(State, line);
    if code in ValidStates {
      var i :| 0 <= i < |ValidStates| && ValidStates[i] == code;
      StateCodeShape(i);
    }
  }

  lemma NameExamples()
    ensures Accept(Name, "  Ann ") == Some("Ann")
    ensures Accept(Name, "A") == None
    ensures Accept(Name, "Mary Ann") == None
    ensures Accept(Name, "O-Neil") == None
  {
    assert TrimStart("  Ann ") == "Ann " by {
      assert "  Ann "[1..] == " Ann ";
      assert " Ann "[1..] == "Ann ";
    }
    assert TrimEnd("Ann ") == "Ann" by {
      assert "Ann "[..3] == "Ann";
    }
    StripKeepsStripped("A");
    StripKeepsStripped("Mary Ann");
    assert !IsLetter("Mary Ann"[4]);
    StripKeepsStripped("O-Neil");
    assert !IsLetter("O-Neil"[1]);
  }

  lemma StateExamples()
    ensures Accept(State, "ny") == Some("NY")
    ensures Accept(State, " wy\t") == Some("WY")
  {
    StripKeepsStripped("ny");
    assert Upper("ny") == "NY";
    assert TrimStart(" wy\t") == "wy\t" by {
      assert " wy\t"[1..] == "wy\t";
    }
    assert TrimEnd("wy\t") == "wy" by {
      assert "wy\t"[..2] == "wy";
    }
    assert Upper("wy") == "WY";
  }

  /** A code missing from each row of the list is missing from the list. */
  lemma NotInStates(code: string)
    requires code !in StatesRow1 && code !in StatesRow2 && code !in StatesRow3
    ensures code !in ValidStates
  {
  }

  /** A code outside the list is rejected, upper-cased or not. */
  lemma StateRejectExample(s: string)
    requires s == "ZZ"
    ensures Accept(State, s) == None
  {
    StripKeepsStripped(s);
    assert Upper(s) == s;
    assert s !in StatesRow1 && s !in StatesRow2 && s !in StatesRow3;
    NotInStates(s);
  }

  /** The District of Columbia is not in the list. */
  lemma DistrictRejectExample(s: string)
    requires s == "dc"
    ensures Accept(State, s) == None
  {
    StripKeepsStripped(s);
    var code := Upper(s);
    assert code == "DC";
    assert code !in StatesRow1 && code !in StatesRow2 && code !in StatesRow3;
    NotInStates(code);
  }

  lemma SsnExamples()
    ensures Accept(Ssn, "123456789") == Some("123456789")
    ensures Accept(Ssn, " 123456789 ") == Some("123456789")
    ensures Accept(Ssn, "12345") == None
    ensures Accept(Ssn, "12345678a") == None
  {
    StripKeepsStripped("123456789");
    assert TrimStart(" 123456789 ") == "123456789 " by {
      assert " 123456789 "[1..] == "123456789 ";
    }
    assert TrimEnd("123456789 ") == "123456789" by {
      assert "123456789 "[..9] == "123456789";
    }
    StripKeepsStripped("12345");
    StripKeepsStripped("12345678a");
    assert !IsDigit("12345678a"[8]);
  }

  lemma ZipAndPhoneExamples()
    ensures Accept(Zip, "10001") == Some("10001")
    ensures Accept(Phone, "2125550100") == Some("2125550100")
    ensures Accept(Phone, "212-555-0100") == None
  {
    StripKeepsStripped("10001");
    StripKeepsStripped("2125550100");
    StripKeepsStripped("212-555-0100");
    assert !IsDigit("212-555-0100"[3]);
  }

  // The e-mail examples take the address as a parameter fixed by `requires`,
  // so that the verifier reasons from the lemmas above instead of unfolding
  // the matcher character by character.

  lemma EmailAcceptExample(s: string)
    requires s == "a.b@example.com"
    ensures Accept(Email, s) == Some(s)
  {
    assert IsValidEmail(s) by {
      assert s[..3] == "a.b" && s[4..11] == "example" && s[12..] == "com";
      EmailMatcherComplete(s, 3, 11);
    }
    StripKeepsStripped(s);
    assert Normalize(Email, s) == s;
  }

  lemma EmailNoAtExample(s: string)
    requires s == "not-an-email"
    ensures Accept(Email, s) == None
  {
    StripKeepsStripped(s);
    assert '@' !in s;
    IndexOfSpec(s, '@');
  }

  /** A second `@` is rejected. */
  lemma EmailTwoAtsExample(s: string)
    requires s == "a@b@c.com"
    ensures Accept(Email, s) == None
  {
    StripKeepsStripped(s);
    if IsValidEmail(s) {
      EmailAtIsUnique(s, 1, 3);
    }
  }

  /** A final `.` with nothing after it is rejected. */
  lemma EmailNoSuffixExample(s: string)
    requires s == "a@example."
    ensures Accept(Email, s) == None
  {
    StripKeepsStripped(s);
  }

  // ---------------------------------------------------------------------
  // The re-prompt loop
  // ---------------------------------------------------------------------

  /** Line `i` is the first line of `input` the rule for `f` accepts, and
      it is accepted as `v`. */
  ghost predicate FirstAccepted(f: Field, input: seq<string>, i: int, v: string) {
    && 0 <= i < |input|
    && Accept(f, input[i]) == Some(v)
    && forall j :: 0 <= j < i ==> Accept(f, input[j]).None?
  }

  /** The check one pass of the `get_valid_*` loop for `f` applies to a
      line. All seven loops share one shape and differ only in this. */
  function AcceptOf(f: Field): string -> Option<string> {
    line => Accept(f, line)
  }

  /** The outcome of a re-prompt loop started at line `start`: the first
      line at or after `start` that `accept` lets through, as `accept`
      returns it, with the position after it; `None` with the input
      exhausted when no line is let through. */
  function NextAccepted(accept: string -> Option<string>, input: seq<string>, start: nat): (r: (Option<string>, nat))
    requires start <= |input|
    ensures start <= r.1 <= |input|
    ensures r.0.Some? ==> start < r.1
    ensures r.0.None? ==> r.1 == |input|
    decreases |input| - start
  {
    if start == |input| then (None, start)
    else if accept(input[start]).Some? then (accept(input[start]), start + 1)
    else NextAccepted(accept, input, start + 1)
  }

  /** Lines the loop rejected before its result: all of them from `start`
      on, or all but the last one read. */
  function Skipped(accept: string -> Option<string>, input: seq<string>, start: nat): (n: nat)
    requires start <= |input|
    ensures start <= n <= |input|
  {
    var r := NextAccepted(accept, input, start);
    if r.0.Some? then r.1 - 1 else r.1
  }

  /** When the loop returns a value, it is what `accept` made of the last
      line read. */
  lemma {:induction false} NextAcceptedFound(accept: string -> Option<string>, input: seq<string>, start: nat)
    requires start <= |input|
    ensures NextAccepted(accept, input, start).0.Some? ==>
      accept(input[NextAccepted(accept, input, start).1 - 1]) == NextAccepted(accept, input, start).0
    decreases |input| - start
  {
    if start < |input| && accept(input[start]).None? {
      NextAcceptedFound(accept, input, start + 1);
    }
  }

  /** Every line the loop skips is rejected: it stops at the first accepted
      line, and gives up only when every remaining line is rejected. */
  lemma {:induction false} NextAcceptedSkipsRejected(accept: string -> Option<string>, input: seq<string>, start: nat)
    requires start <= |input|
    ensures forall i :: start <= i < Skipped(accept, input, start) ==> accept(input[i]).None?
    decreases |input| - start
  {
    if start < |input| && accept(input[start]).None? {
      NextAcceptedSkipsRejected(accept, input, start + 1);
      assert Skipped(accept, input, start) == Skipped(accept, input, start + 1);
    }
  }

  /** A value the loop for `f` returns passes the rule for `f` and carries
      no surrounding whitespace. */
  lemma NextAcceptedValid(f: Field, input: seq<string>, start: nat)
    requires start <= |input|
    ensures NextAccepted(AcceptOf(f), input, start).0.Some? ==>
      Valid(f, NextAccepted(AcceptOf(f), input, start).0.value) && Stripped(NextAccepted(AcceptOf(f), input, start).0.value)
  {
    NextAcceptedFound(AcceptOf(f), input, start);
  }

  /**
    The re-prompt loop every `get_valid_*` function runs, reading from
    `input` at position `start` and checking each line with `accept`. Each
    line that fails prints one error and the loop reads the next one; the
    first line that passes ends the loop with the value `accept` made of it.
    When the input runs out first (Python's `input()` raises `EOFError`),
    the result is `None`. `next` is the position of the first unread line
    and `errors` the number of error messages printed.
   */
  method RePrompt(accept: string -> Option<string>, input: seq<string>, start: nat)
    returns (value: Option<string>, next: nat, errors: nat)
    requires start <= |input|
    ensures (value, next) == NextAccepted(accept, input, start)
    ensures errors == Skipped(accept, input, start) - start
  {
    next, errors := start, 0;
    value := None;
    while next < |input|
      invariant start <= next <= |input|
      invariant errors == next - start
      invariant NextAccepted(accept, input, next) == NextAccepted(accept, input, start)
      decreases |input| - next
    {
      var candidate := accept(input[next]);
      next := next + 1;
      if candidate.Some? {
        value := candidate;
        return;
      }
      errors := errors + 1;
    }
  }

  /** The `get_valid_*` function for `f`: the re-prompt loop with that
      field's check. A value it returns passes the field's rule. */
  method ReadValid(f: Field, input: seq<string>, start: nat) returns (value: Option<string>, next: nat, errors: nat)
    requires start <= |input|
    ensures (value, next) == NextAccepted(AcceptOf(f), input, start)
    ensures errors == Skipped(AcceptOf(f), input, start) - start
    ensures value.Some? ==> Valid(f, value.value)
  {
    value, next, errors := RePrompt(AcceptOf(f), input, start);
    NextAcceptedValid(f, input, start);
  }
}
