// The @ValidPassword constraint of the auth service: a password needs an
// upper-case letter, a lower-case letter and a digit, and a failing password
// gets exactly one message, the first missing class in that order.
module Passwords {
  import opened Wrappers

  const DefaultMessage := "Password must contain at least one uppercase letter, one lowercase letter, and one number"
  const NeedsUppercase := "Password must contain at least one uppercase letter"
  const NeedsLowercase := "Password must contain at least one lowercase letter"
  const NeedsNumber := "Password must contain at least one number"

  datatype Verdict = Accepted | Rejected(message: string)

  /** The characters Java's `.` does not match (no DOTALL flag). */
  predicate IsLineTerminator(c: char)
  {
    c == '\n' || c == '\r' || c == '\U{85}' || c == '\U{2028}' || c == '\U{2029}'
  }

  predicate SingleLine(s: string)
  {
    forall i :: 0 <= i < |s| ==> !IsLineTerminator(s[i])
  }

  predicate IsUpperAscii(c: char) { 'A' <= c <= 'Z' }
  predicate IsLowerAscii(c: char) { 'a' <= c <= 'z' }
  predicate IsDigitAscii(c: char) { '0' <= c <= '9' }

  /** `s.matches(".*[A-Z].*")`: the pattern must cover the whole string. */
  predicate MatchesUpper(s: string)
  {
    SingleLine(s) && exists i :: 0 <= i < |s| && IsUpperAscii(s[i])
  }

  predicate MatchesLower(s: string)
  {
    SingleLine(s) && exists i :: 0 <= i < |s| && IsLowerAscii(s[i])
  }

  predicate MatchesDigit(s: string)
  {
    SingleLine(s) && exists i :: 0 <= i < |s| && IsDigitAscii(s[i])
  }

  /** PasswordValidator.isValid together with the message it leaves; a null password keeps the annotation's message. */
  function Validate(password: Option<string>): (v: Verdict)
    ensures v == Accepted <==>
              password.Some? && MatchesUpper(password.value) && MatchesLower(password.value) && MatchesDigit(password.value)
    ensures password.None? ==> v == Rejected(DefaultMessage)
    ensures v == Rejected(NeedsUppercase) <==> password.Some? && !MatchesUpper(password.value)
    ensures v == Rejected(NeedsLowercase) <==>
              password.Some? && MatchesUpper(password.value) && !MatchesLower(password.value)
    ensures v == Rejected(NeedsNumber) <==>
              password.Some? && MatchesUpper(password.value) && MatchesLower(password.value) && !MatchesDigit(password.value)
  {
    match password
    case None => Rejected(DefaultMessage)
    case Some(p) =>
      if !MatchesUpper(p) then Rejected(NeedsUppercase)
      else if !MatchesLower(p) then Rejected(NeedsLowercase)
      else if !MatchesDigit(p) then Rejected(NeedsNumber)
      else Accepted
  }

  /** A line break anywhere makes the three patterns fail, so the upper-case message is reported whatever else the password holds. */
  lemma LineBreakRejected(p: string, k: nat)
    requires k < |p| && IsLineTerminator(p[k])
    ensures Validate(Some(p)) == Rejected(NeedsUppercase)
  {
  }
}
