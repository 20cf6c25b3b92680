/**
 * The input field's validation (src/components/InputField.tsx):
 * `validateInput`, the demonstration form's validation rules, and the pure
 * status functions `getStatusIcon`, `getBorderColor` and `getInputType`,
 * with their results as enumerations instead of class strings and icons.
 */
module Validation {
  import opened Text

  /** A rule: a test on the raw value and the message shown when it fails. */
  datatype ValidationRule = ValidationRule(test: string -> bool, message: string)

  function RequiredMessage(fieldLabel: string): string {
    fieldLabel + " is required"
  }

  /** The required check: one message when the field is required and its
      trimmed value is empty. */
  function RequiredErrors(fieldLabel: string, required: bool, value: string): (r: seq<string>)
    ensures r != [] <==> required && AllWhitespace(value)
    ensures r == [] || r == [RequiredMessage(fieldLabel)]
  {
    TrimEmptyIffBlank(value);
    if required && Trim(value) == "" then [RequiredMessage(fieldLabel)] else []
  }

  /** The messages of the rules that fail on `value`, in rule-list order. */
  function FailingMessages(rules: seq<ValidationRule>, value: string): (r: seq<string>)
    ensures |r| <= |rules|
  {
    if rules == [] then []
    else
      var last := rules[|rules| - 1];
      FailingMessages(rules[..|rules| - 1], value) + (if last.test(value) then [] else [last.message])
  }

  /** The error list for `value`: the required check first, then the failing
      rules' messages, the rules running only on a non-empty value. */
  function Errors(fieldLabel: string, required: bool, rules: seq<ValidationRule>, value: string): (r: seq<string>)
    ensures RequiredErrors(fieldLabel, required, value) <= r
    ensures |r| <= |rules| + 1
    ensures value == "" ==> r == RequiredErrors(fieldLabel, required, value)
  {
    RequiredErrors(fieldLabel, required, value) + (if value == "" then [] else FailingMessages(rules, value))
  }

  /** Running one more rule appends its message when it fails. */
  lemma FailingMessagesStep(rules: seq<ValidationRule>, i: nat, value: string)
    requires i < |rules|
    ensures FailingMessages(rules[..i + 1], value)
            == FailingMessages(rules[..i], value) + (if rules[i].test(value) then [] else [rules[i].message])
  {
    assert rules[..i + 1][..i] == rules[..i];
  }

  /** The `validationRules.forEach` loop of `validateInput`: the message of
      every rule that fails, in rule-list order; no rule runs on an empty
      value. */
  method RunRules(rules: seq<ValidationRule>, value: string) returns (messages: seq<string>)
    ensures messages == if value == "" then [] else FailingMessages(rules, value)
  {
    messages := [];
    var i := 0;
    while i < |rules|
      invariant 0 <= i <= |rules|
      invariant messages == if value == "" then [] else FailingMessages(rules[..i], value)
    {
      FailingMessagesStep(rules, i, value);
      if value != "" && !rules[i].test(value) {
        messages := messages + [rules[i].message];
      }
      i := i + 1;
    }
    assert rules[..|rules|] == rules;
  }

  /** `validateInput`: the required check, then the rules, then validity as
      the source computes it. The field is valid exactly when no error was
      collected: a required blank value always has one. */
  method ValidateInput(fieldLabel: string, required: bool, rules: seq<ValidationRule>, value: string)
    returns (errors: seq<string>, isValid: bool)
    ensures errors == Errors(fieldLabel, required, rules, value)
    ensures isValid <==> errors == []
  {
    errors := [];
    if required && Trim(value) == "" {
      errors := errors + [RequiredMessage(fieldLabel)];
    }
    var messages := RunRules(rules, value);
    errors := errors + messages;
    isValid := |errors| == 0 && (!required || |Trim(value)| > 0);
  }

  // ---------------------------------------------------------------------------
  // properties of the error list

  /** Running a list of rules is running its two halves one after the other:
      messages come in rule-list order. */
  lemma {:induction false} FailingMessagesAppend(r1: seq<ValidationRule>, r2: seq<ValidationRule>, value: string)
    ensures FailingMessages(r1 + r2, value) == FailingMessages(r1, value) + FailingMessages(r2, value)
    decreases |r2|
  {
    if r2 == [] {
      assert r1 + r2 == r1;
    } else {
      var r2' := r2[..|r2| - 1];
      assert (r1 + r2)[..|r1 + r2| - 1] == r1 + r2';
      FailingMessagesAppend(r1, r2', value);
    }
  }

  /** A message is produced exactly for the rules that fail, and at most one
      per rule. */
  lemma {:induction false} FailingMessagesExact(rules: seq<ValidationRule>, value: string)
    ensures |FailingMessages(rules, value)| <= |rules|
    ensures FailingMessages(rules, value) == [] <==> forall i :: 0 <= i < |rules| ==> rules[i].test(value)
    ensures forall m :: m in FailingMessages(rules, value) <==>
              exists i :: 0 <= i < |rules| && !rules[i].test(value) && rules[i].message == m
  {
    if rules != [] {
      var init := rules[..|rules| - 1];
      FailingMessagesExact(init, value);
      assert forall i :: 0 <= i < |init| ==> init[i] == rules[i];
    }
  }

  /** A required field whose trimmed value is empty reports "<label> is
      required" first. */
  lemma RequiredComesFirst(fieldLabel: string, required: bool, rules: seq<ValidationRule>, value: string)
    requires required && Trim(value) == ""
    ensures Errors(fieldLabel, required, rules, value) != []
    ensures Errors(fieldLabel, required, rules, value)[0] == RequiredMessage(fieldLabel)
  {
  }

  /** An empty value is checked for presence only: whatever the rules, a
      required field has the one required error and an optional field none. */
  lemma EmptyValueErrors(fieldLabel: string, required: bool, rules: seq<ValidationRule>)
    ensures Errors(fieldLabel, required, rules, "") == if required then [RequiredMessage(fieldLabel)] else []
  {
    TrimEmptyIffBlank("");
  }

  /** At most one error per rule plus the required error; the rule messages
      are those of the failing rules, and only for a non-empty value. */
  lemma ErrorsBound(fieldLabel: string, required: bool, rules: seq<ValidationRule>, value: string)
    ensures |Errors(fieldLabel, required, rules, value)| <= |rules| + 1
    ensures value != "" ==> Errors(fieldLabel, required, rules, value)[|RequiredErrors(fieldLabel, required, value)|..]
                            == FailingMessages(rules, value)
  {
    FailingMessagesExact(rules, value);
  }

  // ---------------------------------------------------------------------------
  // the demonstration form's rules

  predicate HasUpper(s: string) {
    exists i | 0 <= i < |s| :: IsUpper(s[i])
  }

  predicate HasLower(s: string) {
    exists i | 0 <= i < |s| :: IsLower(s[i])
  }

  predicate HasDigit(s: string) {
    exists i | 0 <= i < |s| :: IsDigit(s[i])
  }

  const LengthMessage := "Password must be at least 8 characters long"
  const UpperMessage := "Password must contain at least one uppercase letter"
  const LowerMessage := "Password must contain at least one lowercase letter"
  const DigitMessage := "Password must contain at least one number"

  /** The password field's rules: `value.length >= 8` (counted in UTF-16
      code units), `/[A-Z]/`, `/[a-z]/`, `/\d/`. */
  const PasswordRules: seq<ValidationRule> := [
    ValidationRule(v => Utf16Length(v) >= 8, LengthMessage),
    ValidationRule(v => HasUpper(v), UpperMessage),
    ValidationRule(v => HasLower(v), LowerMessage),
    ValidationRule(v => HasDigit(v), DigitMessage)
  ]

  /** The message one rule contributes on `v`. */
  function RuleMessage(rule: ValidationRule, v: string): seq<string> {
    if rule.test(v) then [] else [rule.message]
  }

  lemma FailingMessagesOfOne(a: ValidationRule, v: string)
    ensures FailingMessages([a], v) == RuleMessage(a, v)
  {
    assert [a][..0] == [];
  }

  /** A value that does not start with whitespace gets exactly its failing
      rules' messages. */
  lemma ErrorsOfFilledValue(fieldLabel: string, required: bool, rules: seq<ValidationRule>, v: string)
    requires v != "" && !IsWhitespace(v[0])
    ensures Errors(fieldLabel, required, rules, v) == FailingMessages(rules, v)
  {
    TrimEmptyIffBlank(v);
  }

  lemma FailingMessagesOfFour(a: ValidationRule, b: ValidationRule, c: ValidationRule, d: ValidationRule, v: string)
    ensures FailingMessages([a, b, c, d], v)
            == RuleMessage(a, v) + RuleMessage(b, v) + RuleMessage(c, v) + RuleMessage(d, v)
  {
    FailingMessagesOfOne(a, v);
    assert [a, b][..1] == [a];
    assert FailingMessages([a, b], v) == RuleMessage(a, v) + RuleMessage(b, v);
    assert [a, b, c][..2] == [a, b];
    assert FailingMessages([a, b, c], v) == RuleMessage(a, v) + RuleMessage(b, v) + RuleMessage(c, v);
    assert [a, b, c, d][..3] == [a, b, c];
  }

  /** The password rules report, in this order, a short value, a missing
      upper-case letter, a missing lower-case letter and a missing digit. */
  lemma PasswordMessages(v: string)
    ensures FailingMessages(PasswordRules, v)
            == (if Utf16Length(v) >= 8 then [] else [LengthMessage])
               + (if HasUpper(v) then [] else [UpperMessage])
               + (if HasLower(v) then [] else [LowerMessage])
               + (if HasDigit(v) then [] else [DigitMessage])
  {
    var r := PasswordRules;
    FailingMessagesOfFour(r[0], r[1], r[2], r[3], v);
    assert r == [r[0], r[1], r[2], r[3]];
  }

  /** A short value with a lower-case letter but no upper-case letter and no
      digit breaks the length, upper-case and digit rules, in that order. */
  lemma ShortLowerMessages(v: string)
    requires Utf16Length(v) < 8 && !HasUpper(v) && HasLower(v) && !HasDigit(v)
    ensures FailingMessages(PasswordRules, v) == [LengthMessage, UpperMessage, DigitMessage]
  {
    PasswordMessages(v);
    assert [LengthMessage] + [UpperMessage] + [] + [DigitMessage] == [LengthMessage, UpperMessage, DigitMessage];
  }

  /** "abc" misses the length, an upper-case letter and a digit, in that order. */
  lemma PasswordAbc()
    ensures Errors("Password", true, PasswordRules, "abc") == [LengthMessage, UpperMessage, DigitMessage]
  {
    var v := "abc";
    assert HasLower(v) by { assert IsLower(v[0]); }
    assert !HasUpper(v);
    assert !HasDigit(v);
    ShortLowerMessages(v);
    ErrorsOfFilledValue("Password", true, PasswordRules, v);
  }

  /** "Abcdefg1" passes every password rule. */
  lemma PasswordAbcdefg1()
    ensures Errors("Password", true, PasswordRules, "Abcdefg1") == []
  {
    var v := "Abcdefg1";
    assert HasUpper(v) by { assert IsUpper(v[0]); }
    assert HasLower(v) by { assert IsLower(v[1]); }
    assert HasDigit(v) by { assert IsDigit(v[7]); }
    PasswordMessages(v);
    ErrorsOfFilledValue("Password", true, PasswordRules, v);
  }

  /** A value of Basic Multilingual Plane characters followed by astral ones counts one code
      unit for each of the former and two for each of the latter. */
  lemma Utf16LengthOfMix(a: string, b: string)
    requires forall i :: 0 <= i < |a| ==> !IsAstral(a[i])
    requires forall i :: 0 <= i < |b| ==> IsAstral(b[i])
    ensures Utf16Length(a + b) == |a| + 2 * |b|
  {
    Utf16LengthConcat(a, b);
  }

  /** "Ab1" and three emoji: six characters but nine UTF-16 code units, so
      the length rule passes, as `value.length` counts it. */
  lemma PasswordAstral()
    ensures Errors("Password", true, PasswordRules, "Ab1\U{1F600}\U{1F600}\U{1F600}") == []
  {
    var a, b := "Ab1", "\U{1F600}\U{1F600}\U{1F600}";
    var v := a + b;
    assert v == "Ab1\U{1F600}\U{1F600}\U{1F600}";
    Utf16LengthOfMix(a, b);
    assert HasUpper(v) by { assert IsUpper(v[0]); }
    assert HasLower(v) by { assert IsLower(v[1]); }
    assert HasDigit(v) by { assert IsDigit(v[2]); }
    PasswordMessages(v);
    ErrorsOfFilledValue("Password", true, PasswordRules, v);
  }

  /** A required value made only of whitespace, yet not empty, gets the
      required message and then every failing rule's message. */
  lemma BlankErrors(fieldLabel: string, rules: seq<ValidationRule>, v: string)
    requires v != "" && AllWhitespace(v)
    ensures Errors(fieldLabel, true, rules, v) == [RequiredMessage(fieldLabel)] + FailingMessages(rules, v)
  {
  }

  /** A short value of whitespace only breaks all four password rules. */
  lemma BlankPasswordMessages(v: string)
    requires AllWhitespace(v) && Utf16Length(v) < 8
    ensures FailingMessages(PasswordRules, v) == [LengthMessage, UpperMessage, LowerMessage, DigitMessage]
  {
    assert !HasUpper(v) && !HasLower(v) && !HasDigit(v);
    PasswordMessages(v);
    assert FailingMessages(PasswordRules, v) == [LengthMessage] + [UpperMessage] + [LowerMessage] + [DigitMessage];
  }

  /** A required password field holding a short, non-empty run of
      whitespace reports the required error and all four rule messages. */
  lemma BlankPasswordErrors(fieldLabel: string, v: string)
    requires v != "" && AllWhitespace(v) && Utf16Length(v) < 8
    ensures Errors(fieldLabel, true, PasswordRules, v)
            == [RequiredMessage(fieldLabel)] + [LengthMessage, UpperMessage, LowerMessage, DigitMessage]
  {
    BlankPasswordMessages(v);
    BlankErrors(fieldLabel, PasswordRules, v);
  }

  /** Three spaces in a required password field: blank, yet non-empty, so
      the required error and all four rule messages are reported. */
  lemma PasswordBlank()
    ensures Errors("Password", true, PasswordRules, "   ")
            == [RequiredMessage("Password")] + [LengthMessage, UpperMessage, LowerMessage, DigitMessage]
  {
    var v := "   ";
    assert Utf16Length(v) < 8;
    BlankPasswordErrors("Password", v);
  }

  /** The confirm-password rule: equal to the password field's current value. */
  function ConfirmPasswordRules(password: string): (r: seq<ValidationRule>)
    ensures |r| == 1 && r[0].message == "Passwords do not match"
    ensures forall v :: r[0].test(v) <==> v == password
  {
    [ValidationRule(v => v == password, "Passwords do not match")]
  }

  /** A non-empty confirmation is accepted exactly when it equals the password. */
  lemma ConfirmPasswordErrors(password: string, value: string)
    requires Trim(value) != ""
    ensures Errors("Confirm Password", true, ConfirmPasswordRules(password), value)
            == if value == password then [] else ["Passwords do not match"]
  {
    var rules := ConfirmPasswordRules(password);
    FailingMessagesOfOne(rules[0], value);
    assert value != "" by { TrimEmptyIffBlank(value); }
  }

  /** `[^\s@]+`: non-empty, with no whitespace and no '@'. */
  predicate EmailPart(s: string) {
    s != "" && forall k | 0 <= k < |s| :: !IsWhitespace(s[k]) && s[k] != '@'
  }

  /** `/^[^\s@]+@[^\s@]+\.[^\s@]+$/`: the value splits as A "@" B "." C with
      A, B and C matching `[^\s@]+`. */
  predicate EmailPattern(s: string)
    ensures EmailPattern(s) ==> |s| >= 5
  {
    exists i, j | 0 < i < j < |s| - 1 ::
      s[i] == '@' && s[j] == '.' && EmailPart(s[..i]) && EmailPart(s[i + 1..j]) && EmailPart(s[j + 1..])
  }

  /** The only '@' of `s` is at `i`. */
  predicate OnlyAt(s: string, i: int) {
    0 <= i < |s| && s[i] == '@' && forall k | 0 <= k < |s| && k != i :: s[k] != '@'
  }

  /** A dot at `j`, with at least one character on each side inside the
      domain that starts after `i`. */
  predicate DotAfter(s: string, i: int, j: int) {
    0 <= i && i + 1 < j < |s| - 1 && s[j] == '.'
  }

  /** The shape the email pattern accepts, said directly: no whitespace,
      exactly one '@', not in first place, and a '.' after it with at least
      one character on either side. */
  predicate EmailShape(s: string) {
    (forall k | 0 <= k < |s| :: !IsWhitespace(s[k])) &&
    exists i | 0 < i < |s| :: OnlyAt(s, i) && exists j | 0 <= j < |s| :: DotAfter(s, i, j)
  }

  /** The characters of a part, read in the whole value. */
  lemma EmailPartChars(s: string, a: nat, b: nat)
    requires a <= b <= |s| && EmailPart(s[a..b])
    ensures forall k | a <= k < b :: !IsWhitespace(s[k]) && s[k] != '@'
  {
    forall k | a <= k < b ensures !IsWhitespace(s[k]) && s[k] != '@' {
      assert s[a..b][k - a] == s[k];
    }
  }

  /** An '@' at `i` and a '.' at `j`, with no whitespace and no other '@'
      anywhere, give the shape. */
  lemma EmailShapeAt(s: string, i: nat, j: nat)
    requires 0 < i && i + 1 < j < |s| - 1 && s[i] == '@' && s[j] == '.'
    requires forall k | 0 <= k < |s| && k != i && k != j :: !IsWhitespace(s[k]) && s[k] != '@'
    ensures EmailShape(s)
  {
    assert !IsWhitespace(s[i]) && !IsWhitespace(s[j]);
    assert forall k | 0 <= k < |s| :: !IsWhitespace(s[k]);
    assert OnlyAt(s, i) && DotAfter(s, i, j);
  }

  lemma EmailPatternToShape(s: string)
    requires EmailPattern(s)
    ensures EmailShape(s)
  {
    var i, j :| 0 < i < j < |s| - 1 && s[i] == '@' && s[j] == '.' &&
                EmailPart(s[..i]) && EmailPart(s[i + 1..j]) && EmailPart(s[j + 1..]);
    assert s[..i] == s[0..i] && s[j + 1..] == s[j + 1..|s|];
    EmailPartChars(s, 0, i);
    EmailPartChars(s, i + 1, j);
    EmailPartChars(s, j + 1, |s|);
    EmailShapeAt(s, i, j);
  }

  lemma EmailShapeToPattern(s: string)
    requires EmailShape(s)
    ensures EmailPattern(s)
  {
    var i :| 0 < i < |s| && OnlyAt(s, i) && exists j | 0 <= j < |s| :: DotAfter(s, i, j);
    var j :| 0 <= j < |s| && DotAfter(s, i, j);
    assert EmailPart(s[..i]);
    assert EmailPart(s[i + 1..j]);
    assert EmailPart(s[j + 1..]);
  }

  /** The pattern and the direct description accept the same values. */
  lemma EmailPatternIffShape(s: string)
    ensures EmailPattern(s) <==> EmailShape(s)
  {
    if EmailPattern(s) { EmailPatternToShape(s); }
    if EmailShape(s) { EmailShapeToPattern(s); }
  }

  const EmailMessage := "Please enter a valid email address"

  /** The e-mail field's rule list. */
  const EmailRules: seq<ValidationRule> := [ValidationRule(v => EmailPattern(v), EmailMessage)]

  /** An e-mail field reports its required check, then the e-mail message
      for a non-empty value the pattern rejects. */
  lemma EmailErrors(fieldLabel: string, required: bool, v: string)
    ensures Errors(fieldLabel, required, EmailRules, v)
            == RequiredErrors(fieldLabel, required, v) + (if v == "" || EmailPattern(v) then [] else [EmailMessage])
  {
    FailingMessagesOfOne(EmailRules[0], v);
  }

  /** `[\d\s\-\(\)]`. */
  predicate PhoneChar(c: char) {
    IsDigit(c) || IsWhitespace(c) || c == '-' || c == '(' || c == ')'
  }

  /** `[\d\s\-\(\)]{10,}`. */
  predicate PhoneBody(t: string) {
    |t| >= 10 && forall k | 0 <= k < |t| :: PhoneChar(t[k])
  }

  /** `/^\+?[\d\s\-\(\)]{10,}$/`. */
  predicate PhonePattern(s: string)
    ensures PhonePattern(s) ==> |s| >= 10
  {
    PhoneBody(s) || (s != "" && s[0] == '+' && PhoneBody(s[1..]))
  }

  /** The phone pattern said directly: digits, whitespace, '-', '(' and ')'
      throughout, except for an optional leading '+', with at least ten of
      them. */
  predicate PhoneShape(s: string) {
    (forall k | 0 <= k < |s| :: PhoneChar(s[k]) || (k == 0 && s[k] == '+')) &&
    |s| >= (if s != "" && s[0] == '+' then 11 else 10)
  }

  /** The pattern and the direct description accept the same values. */
  lemma PhonePatternIffShape(s: string)
    ensures PhonePattern(s) <==> PhoneShape(s)
  {
    if s != "" && s[0] == '+' {
      assert !PhoneChar(s[0]);
      assert !PhoneBody(s);
      if PhoneShape(s) {
        forall k | 0 <= k < |s| - 1 ensures PhoneChar(s[1..][k]) {
          assert s[1..][k] == s[k + 1];
        }
      }
    }
  }

  const PhoneMessage := "Please enter a valid phone number"

  /** The phone field's rule list. */
  const PhoneRules: seq<ValidationRule> := [ValidationRule(v => PhonePattern(v), PhoneMessage)]

  /** The optional phone field reports the phone message exactly for a
      non-empty value the pattern rejects. */
  lemma PhoneErrors(fieldLabel: string, v: string)
    ensures Errors(fieldLabel, false, PhoneRules, v)
            == (if v == "" || PhonePattern(v) then [] else [PhoneMessage])
  {
    FailingMessagesOfOne(PhoneRules[0], v);
  }

  /** An accepted phone number has at least ten characters and a '+' only in
      first place; the form's placeholder is accepted and a seven-digit
      number is not. */
  lemma PhonePatternFacts(s: string)
    ensures PhonePattern(s) ==> |s| >= 10 && forall k | 0 < k < |s| :: s[k] != '+'
    ensures PhonePattern("+1 (555) 123-4567")
    ensures !PhonePattern("555-1234")
  {
    if PhonePattern(s) && !PhoneBody(s) {
      forall k | 0 < k < |s| ensures s[k] != '+' {
        assert s[1..][k - 1] == s[k];
      }
    }
    var p := "+1 (555) 123-4567";
    assert PhoneBody(p[1..]);
  }

  // ---------------------------------------------------------------------------
  // status functions

  datatype StatusIcon = NoIcon | ErrorIcon | SuccessIcon

  /** `getStatusIcon`. */
  function GetStatusIcon(touched: bool, value: string, errors: seq<string>, isValid: bool): (icon: StatusIcon)
    ensures !touched || value == "" ==> icon == NoIcon
    ensures icon == ErrorIcon <==> touched && value != "" && errors != []
    ensures icon == SuccessIcon ==> isValid && errors == []
  {
    if !touched || value == "" then NoIcon
    else if |errors| > 0 then ErrorIcon
    else if isValid then SuccessIcon
    else NoIcon
  }

  /** While validity agrees with the error list, a touched non-empty field
      shows the error icon exactly when there are errors and the success icon
      otherwise: the final `null` branch cannot be reached. */
  lemma StatusIconConsistent(touched: bool, value: string, errors: seq<string>, isValid: bool)
    requires isValid <==> errors == []
    ensures GetStatusIcon(touched, value, errors, isValid) == NoIcon <==> !touched || value == ""
    ensures touched && value != "" ==>
              (GetStatusIcon(touched, value, errors, isValid) == ErrorIcon <==> errors != [])
  {
  }

  datatype BorderColor = NeutralBorder | FocusedBorder | ErrorBorder | SuccessBorder

  /** `getBorderColor`. */
  function GetBorderColor(touched: bool, focused: bool, errors: seq<string>, isValid: bool): (color: BorderColor)
    ensures color == ErrorBorder <==> touched && errors != []
    ensures color == SuccessBorder <==> touched && errors == [] && isValid
    ensures color == FocusedBorder ==> focused
  {
    if !touched then (if focused then FocusedBorder else NeutralBorder)
    else if |errors| > 0 then ErrorBorder
    else if isValid then SuccessBorder
    else if focused then FocusedBorder
    else NeutralBorder
  }

  /** While validity agrees with the error list, a touched field's border is
      red or green by its errors alone, and an untouched field's shows focus. */
  lemma BorderColorConsistent(touched: bool, focused: bool, errors: seq<string>, isValid: bool)
    requires isValid <==> errors == []
    ensures touched ==> GetBorderColor(touched, focused, errors, isValid)
                        == if errors != [] then ErrorBorder else SuccessBorder
    ensures !touched ==> GetBorderColor(touched, focused, errors, isValid)
                         == if focused then FocusedBorder else NeutralBorder
  {
  }

  datatype InputType = TextInput | EmailInput | PasswordInput | TelInput | DateInput | TextareaInput

  /** `getInputType`: a password field is shown as text while its value is
      revealed; every other type is kept. */
  function GetInputType(kind: InputType, showPassword: bool): (t: InputType)
    ensures kind == PasswordInput ==> (t == TextInput <==> showPassword) && (t == PasswordInput <==> !showPassword)
    ensures kind != PasswordInput ==> t == kind
  {
    if kind == PasswordInput then (if showPassword then TextInput else PasswordInput) else kind
  }
}
