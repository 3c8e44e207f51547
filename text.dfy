/**
  The Python string primitives the intake code relies on (`str.strip`,
  `str.upper`, `str.isalpha`, `str.isdigit` and the regex class `\w`),
  restricted to ASCII. Every character outside ASCII is treated as a
  non-space, non-letter, non-digit character that `upper` leaves alone.
 */
module Text {

  /** The ASCII characters `str.isspace` accepts: tab to carriage return,
      the four separators 0x1C-0x1F, and the space. */
  predicate IsSpace(c: char) {
    c == ' ' || ('\t' <= c <= '\r') || ('\U{1C}' <= c <= '\U{1F}')
  }

  predicate IsLetter(c: char) {
    ('A' <= c <= 'Z') || ('a' <= c <= 'z')
  }

  predicate IsDigit(c: char) {
    '0' <= c <= '9'
  }

  /** The regex class `\w` over ASCII. */
  predicate IsWordChar(c: char) {
    IsLetter(c) || IsDigit(c) || c == '_'
  }

  /** `str.isalpha`: non-empty and letters only. */
  predicate IsAlpha(s: string) {
    |s| > 0 && forall i :: 0 <= i < |s| ==> IsLetter(s[i])
  }

  /** `str.isdigit`: non-empty and decimal digits only. */
  predicate IsDigits(s: string) {
    |s| > 0 && forall i :: 0 <= i < |s| ==> IsDigit(s[i])
  }

  function UpperChar(c: char): char {
    if 'a' <= c <= 'z' then (c as int - 32) as char else c
  }

  /** `str.upper`. */
  function Upper(s: string): string {
    seq(|s|, i requires 0 <= i < |s| => UpperChar(s[i]))
  }

  /** A string with no surrounding whitespace, as `str.strip` leaves it. */
  predicate Stripped(s: string) {
    s == [] || (!IsSpace(s[0]) && !IsSpace(s[|s| - 1]))
  }

  /** `str.lstrip`. */
  function TrimStart(s: string): string
    decreases |s|
  {
    if |s| > 0 && IsSpace(s[0]) then TrimStart(s[1..]) else s
  }

  /** `str.rstrip`. */
  function TrimEnd(s: string): string
    decreases |s|
  {
    if |s| > 0 && IsSpace(s[|s| - 1]) then TrimEnd(s[..|s| - 1]) else s
  }

  /** `str.strip`. */
  function Strip(s: string): string {
    TrimEnd(TrimStart(s))
  }

  /** `s` is `r` with only whitespace before offset `i` and after `r`. */
  ghost predicate Surrounds(s: string, r: string, i: int) {
    && 0 <= i <= |s| - |r|
    && r == s[i..i + |r|]
    && (forall k :: 0 <= k < i ==> IsSpace(s[k]))
    && (forall k :: i + |r| <= k < |s| ==> IsSpace(s[k]))
  }

  /** `lstrip` keeps a suffix, drops only whitespace, and stops at the first
      non-space character. */
  lemma {:induction false} TrimStartSpec(s: string)
    ensures Surrounds(s, TrimStart(s), |s| - |TrimStart(s)|)
    ensures TrimStart(s) == [] || !IsSpace(TrimStart(s)[0])
    decreases |s|
  {
    if |s| > 0 && IsSpace(s[0]) {
      TrimStartSpec(s[1..]);
      assert s[1..][|s| - 1 - |TrimStart(s)|..] == s[|s| - |TrimStart(s)|..];
    }
  }

  /** `rstrip` keeps a prefix, drops only whitespace, and stops at the last
      non-space character. */
  lemma {:induction false} TrimEndSpec(s: string)
    ensures Surrounds(s, TrimEnd(s), 0)
    ensures TrimEnd(s) == [] || !IsSpace(TrimEnd(s)[|TrimEnd(s)| - 1])
    decreases |s|
  {
    if |s| > 0 && IsSpace(s[|s| - 1]) {
      TrimEndSpec(s[..|s| - 1]);
      assert s[..|s| - 1][..|TrimEnd(s)|] == s[..|TrimEnd(s)|];
      forall k | |TrimEnd(s)| <= k < |s| ensures IsSpace(s[k]) {
        if k < |s| - 1 {
          assert s[..|s| - 1][k] == s[k];
        }
      }
    }
  }

  /** `strip` removes whitespace and only whitespace from both ends, and
      leaves none there; together these fix its result uniquely. */
  lemma StripSpec(s: string)
    ensures Stripped(Strip(s))
    ensures exists i :: Surrounds(s, Strip(s), i)
  {
    var t := TrimStart(s);
    TrimStartSpec(s);
    TrimEndSpec(t);
    var i := |s| - |t|;
    assert Strip(s) == t[..|Strip(s)|];
    assert Surrounds(s, Strip(s), i);
  }

  /** Stripping a string that has no surrounding whitespace changes nothing. */
  lemma StripKeepsStripped(s: string)
    requires Stripped(s)
    ensures Strip(s) == s
  {
  }

  /** `strip` is idempotent. */
  lemma StripIdempotent(s: string)
    ensures Strip(Strip(s)) == Strip(s)
  {
    StripSpec(s);
    StripKeepsStripped(Strip(s));
  }

  /** `upper` neither creates nor removes whitespace, so a stripped string
      stays stripped. */
  lemma UpperKeepsStripped(s: string)
    requires Stripped(s)
    ensures Stripped(Upper(s))
  {
  }

  /** `upper` is idempotent. */
  lemma UpperIdempotent(s: string)
    ensures Upper(Upper(s)) == Upper(s)
  {
  }
}
