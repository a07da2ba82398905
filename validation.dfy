/** The `--assigned-to`, `--manager` and `--package-owner` option check of
    `advisory:create`: the value must match `^[^@ ]+@[^@ ]+\.[^@ ]+$`. */
module Validation {
  import opened Wrappers

  /** A run of `[^@ ]` characters (possibly empty; the pattern adds `+`). */
  predicate AtSpaceFree(s: string)
  {
    '@' !in s && ' ' !in s
  }

  /** What the regular expression accepts, read off its structure: a non-empty
      `[^@ ]` run, '@', a non-empty run, a literal '.', a non-empty run, end.
      Python's `$` may also match before a final newline, which changes
      nothing here: a newline is itself a `[^@ ]` character. */
  ghost predicate MatchesEmailPattern(s: string)
  {
    exists i, j :: 0 < i && i + 1 < j < |s| - 1 && s[i] == '@' && s[j] == '.'
                   && AtSpaceFree(s[..i]) && AtSpaceFree(s[i + 1..j]) && AtSpaceFree(s[j + 1..])
  }

  /** Position of the first `c` in `s`. */
  function IndexOf(s: string, c: char): (i: nat)
    requires c in s
    ensures i < |s| && s[i] == c && c !in s[..i]
  {
    if s[0] == c then 0
    else
      assert c in s[1..] by { assert s == [s[0]] + s[1..]; }
      var k := IndexOf(s[1..], c);
      assert s[..k + 1] == [s[0]] + s[1..][..k];
      k + 1
  }

  /** The domain has a '.' with at least one character on each side. */
  predicate HasInnerDot(domain: string)
  {
    |domain| >= 3 && '.' in domain[1..|domain| - 1]
  }

  /** The plain-words reading: no space, exactly one '@', a non-empty local
      part, and a domain with an inner '.'. */
  predicate IsEmailAddress(s: string)
  {
    ' ' !in s && '@' in s &&
    var at := IndexOf(s, '@');
    at > 0 && '@' !in s[at + 1..] && HasInnerDot(s[at + 1..])
  }

  /** The plain-words reading and the regular expression accept the same strings. */
  lemma EmailReadingsAgree(s: string)
    ensures IsEmailAddress(s) <==> MatchesEmailPattern(s)
  {
  }

  /** `validate_email_address`: the value is returned unchanged when it is an
      email address, otherwise a bad-parameter error naming it. */
  function ValidateEmailAddress(value: string): (r: Result<string, string>)
    ensures r.Ok? <==> MatchesEmailPattern(value)
    ensures r.Ok? ==> r.value == value
    ensures r.Err? ==> r.error == value
  {
    EmailReadingsAgree(value);
    if IsEmailAddress(value) then Ok(value) else Err(value)
  }
}
