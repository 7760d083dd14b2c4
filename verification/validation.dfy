/** Input validation and normalisation helpers (validation.py). */
module Validation {
  import opened Options
  import opened Text

  /** A check that either passes with a cleaned value or fails with a message. */
  datatype Checked<T> = Valid(value: T) | Invalid(message: string)

  const UinRequired := "UIN is required"
  const UinNotNumeric := "UIN must be numeric (7–15 digits)"
  const PasswordRequired := "Password is required"
  const DefaultMinPasswordLength := 10

  /** The `^[0-9]{7,15}$` shape of an institutional ID. */
  predicate IsUinDigits(s: string) {
    7 <= |s| <= 15 && forall i :: 0 <= i < |s| ==> '0' <= s[i] <= '9'
  }

  /**
   * `normalize_email`: an address survives exactly when it contains both '@'
   * and '.', and comes back trimmed and lower-cased.
   */
  function NormalizeEmail(value: Option<string>): (r: Option<string>)
    ensures r.Some? <==> value.Some? && '@' in value.value && '.' in value.value
    ensures r.Some? ==> IsTrimmed(r.value) && IsLowercase(r.value) && '@' in r.value && '.' in r.value
    ensures r.Some? ==> r.value == Lower(Strip(value.value))
  {
    if value.None? || value.value == "" then None
    else
      var s := Lower(Strip(value.value));
      StripKeepsVisible(value.value, '@');
      StripKeepsVisible(value.value, '.');
      LowerKeepsSymbol(Strip(value.value), '@');
      LowerKeepsSymbol(Strip(value.value), '.');
      LowerKeepsTrimmed(Strip(value.value));
      LowerIsLowercase(Strip(value.value));
      if '@' in s && '.' in s then Some(s) else None
  }

  /** Normalising an already-normalised address gives it back unchanged. */
  lemma NormalizeEmailIdempotent(value: Option<string>)
    requires NormalizeEmail(value).Some?
    ensures NormalizeEmail(NormalizeEmail(value)) == NormalizeEmail(value)
  {
    var r := NormalizeEmail(value).value;
    StripOfTrimmed(r);
    LowerOfLowercase(r);
  }

  /**
   * `validate_uin`: accepts exactly the IDs that are 7 to 15 ASCII digits once
   * trimmed, returning the trimmed ID; a missing or blank ID is "required".
   */
  function ValidateUin(uin: Option<string>): (r: Checked<string>)
    ensures r.Valid? <==> uin.Some? && IsUinDigits(Strip(uin.value))
    ensures r.Valid? ==> r.value == Strip(uin.value)
    ensures r == Invalid(UinRequired) <==> uin.None? || AllSpace(uin.value)
    ensures r.Invalid? && r != Invalid(UinRequired) ==> r == Invalid(UinNotNumeric)
  {
    assert UinRequired != UinNotNumeric by { assert UinRequired[4] != UinNotNumeric[4]; }
    if uin.None? then Invalid(UinRequired)
    else if uin.value == "" then
      assert |Strip(uin.value)| == 0;
      Invalid(UinRequired)
    else
      var s := Strip(uin.value);
      StripEmptyIffBlank(uin.value);
      if s == "" then Invalid(UinRequired)
      else if !IsUinDigits(s) then Invalid(UinNotNumeric)
      else Valid(s)
  }

  /** Every well-formed ID validates to itself. */
  lemma ValidateUinAcceptsDigits(u: string)
    requires IsUinDigits(u)
    ensures ValidateUin(Some(u)) == Valid(u)
  {
    assert !IsSpace(u[0]) && !IsSpace(u[|u| - 1]);
    StripOfTrimmed(u);
  }

  /**
   * `validate_password_length`: passes exactly when the password is present,
   * non-empty and at least `minLen` characters long.
   */
  function ValidatePasswordLength(password: Option<string>, minLen: int): (r: Checked<()>)
    ensures r.Valid? <==> password.Some? && password.value != "" && |password.value| >= minLen
    ensures password.None? || password.value == "" ==> r == Invalid(PasswordRequired)
    ensures r.Invalid? && password.Some? && password.value != "" ==>
              1 <= |password.value| < minLen
              && r.message == "Password must be at least " + NatToDecimal(minLen) + " characters"
  {
    if password.None? || password.value == "" then Invalid(PasswordRequired)
    else if |password.value| < minLen then
      Invalid("Password must be at least " + NatToDecimal(minLen) + " characters")
    else Valid(())
  }

  /**
   * With the default minimum of 10, a password passes exactly when it has at
   * least 10 characters, and a short non-empty one is told the minimum.
   */
  lemma DefaultPasswordLength(password: Option<string>)
    ensures ValidatePasswordLength(password, DefaultMinPasswordLength).Valid? <==>
              password.Some? && |password.value| >= 10
    ensures password.Some? && 1 <= |password.value| < 10 ==>
              ValidatePasswordLength(password, DefaultMinPasswordLength)
                == Invalid("Password must be at least 10 characters")
  {
    assert NatToDecimal(1) == "1";
    assert NatToDecimal(10) == "10";
  }

  /** `validate_class_year`: a blank or missing class year is `None`, anything else is trimmed. */
  function ValidateClassYear(value: Option<string>): (r: Option<string>)
    ensures r.None? <==> value.None? || AllSpace(value.value)
    ensures r.Some? ==> r.value == Strip(value.value) && IsTrimmed(r.value) && r.value != ""
  {
    if value.None? then None
    else
      var s := Strip(value.value);
      StripEmptyIffBlank(value.value);
      if s == "" then None else Some(s)
  }

  /** A validated class year validates to itself. */
  lemma ValidateClassYearIdempotent(value: Option<string>)
    ensures ValidateClassYear(ValidateClassYear(value)) == ValidateClassYear(value)
  {
    var r := ValidateClassYear(value);
    if r.Some? {
      StripOfTrimmed(r.value);
    }
  }
}
