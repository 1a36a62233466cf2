/** The decision made by validateField: from a field's `required`
    attribute, its `type` and its current value to a verdict and the
    message the page shows for it. The rendering of the verdict is in
    ContactForm. */
module Validator {
  import opened Strings
  import opened EmailPattern

  const RequiredMessage := "This field is required."
  const EmailMessage := "Please enter a valid email address."

  /** The pair (isValid, errorMessage) that validateField computes. */
  datatype Verdict = Verdict(isValid: bool, message: string)

  /** validateField's decision. The message is empty exactly when the
      field passes, and otherwise names the rule that failed. */
  function Validate(required: bool, inputType: string, value: string): (v: Verdict)
    ensures v.isValid <==> v.message == ""
    ensures !v.isValid ==> v.message == RequiredMessage || v.message == EmailMessage
  {
    if required && IsBlank(value) then Verdict(false, RequiredMessage)
    else if inputType == "email" && value != [] && !IsEmailAddress(value) then
      Verdict(false, EmailMessage)
    else Verdict(true, "")
  }

  /** The ordered rules: the required check on the trimmed value comes
      first; the e-mail check runs only on a non-empty raw value of an
      `email` input and tests the untrimmed value against the pattern;
      everything else passes with an empty message. */
  lemma ValidateRules(required: bool, inputType: string, value: string)
    ensures var v := Validate(required, inputType, value);
            required && AllWs(value) ==> v == Verdict(false, RequiredMessage)
    ensures var v := Validate(required, inputType, value);
            !(required && AllWs(value)) && inputType == "email" && value != [] ==>
              v == if MatchesEmailRegex(value) then Verdict(true, "") else Verdict(false, EmailMessage)
    ensures var v := Validate(required, inputType, value);
            !(required && AllWs(value)) && (inputType != "email" || value == []) ==>
              v == Verdict(true, "")
  {
    BlankIffAllWs(value);
    EmailAddressIffRegex(value);
  }

  /** A field passes exactly when it is not a blank required field and,
      being a non-empty e-mail field, it matches the pattern. */
  lemma ValidIff(required: bool, inputType: string, value: string)
    ensures Validate(required, inputType, value).isValid <==>
              && !(required && AllWs(value))
              && (inputType == "email" && value != [] ==> MatchesEmailRegex(value))
  {
    ValidateRules(required, inputType, value);
  }

  /** The required rule wins over the e-mail rule: a white-space-only
      required e-mail field reports the required message. */
  lemma RequiredTakesPrecedence(value: string)
    requires value != [] && AllWs(value)
    ensures Validate(true, "email", value) == Verdict(false, RequiredMessage)
    ensures !MatchesEmailRegex(value)
  {
    BlankIffAllWs(value);
    EmailAddressIffRegex(value);
    assert !IsWs(value[0]) ==> false;
  }

  /** Leading white space defeats the pattern, because \s is excluded
      from every run and the regex is anchored at both ends: the value is
      matched untrimmed. */
  lemma LeadingSpaceIsInvalid(c: char, rest: string)
    requires IsWs(c) && !AllWs(rest)
    ensures Validate(true, "email", [c] + rest) == Verdict(false, EmailMessage)
  {
    var value := [c] + rest;
    BlankIffAllWs(value);
    var k :| 0 <= k < |rest| && !IsWs(rest[k]);
    assert value[k + 1] == rest[k];
    assert FindWs(value, 0) == 0;
  }

  /** A no-break space (U+00A0) before "a@b.co" makes the address invalid,
      although the address alone is valid. */
  lemma ExampleLeadingNoBreakSpace()
    ensures Validate(true, "email", "\U{00A0}a@b.co") == Verdict(false, EmailMessage)
    ensures Validate(true, "email", "a@b.co") == Verdict(true, "")
  {
    ExampleValid();
    assert "\U{00A0}a@b.co" == ['\U{00A0}'] + "a@b.co";
    assert "a@b.co"[0] == 'a';
    LeadingSpaceIsInvalid('\U{00A0}', "a@b.co");
  }

  /** "a@b.co" is accepted. */
  lemma ExampleValid()
    ensures Validate(true, "email", "a@b.co") == Verdict(true, "")
  {
    var s := "a@b.co";
    assert !IsBlank(s) by { BlankIffAllWs(s); assert !IsWs(s[0]); }
    assert FindChar(s, '@', 0) == 1;
    assert FindWs(s, 0) == |s|;
    assert FindChar(s, '.', 3) == 3;
  }

  /** "a@b" lacks a '.' after the '@' and is rejected. */
  lemma ExampleNoDot()
    ensures Validate(true, "email", "a@b") == Verdict(false, EmailMessage)
  {
    var s := "a@b";
    assert !IsBlank(s) by { BlankIffAllWs(s); assert !IsWs(s[0]); }
  }

  /** An empty optional e-mail field is valid; an empty required one is not. */
  lemma ExampleEmpty()
    ensures Validate(false, "email", "") == Verdict(true, "")
    ensures Validate(true, "email", "") == Verdict(false, RequiredMessage)
  {
  }
}
