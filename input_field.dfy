/**
 * The input field component's state and handlers, and the demonstration
 * form's `formData` (src/components/InputField.tsx). Effects run
 * synchronously: every change of the value or of the rules re-runs
 * `validateInput` before the handler returns.
 */
module InputField {
  import opened Text
  import opened Validation

  class FieldState {
    const fieldLabel: string
    const kind: InputType
    const required: bool
    var rules: seq<ValidationRule>
    var value: string
    var isFocused: bool
    var showPassword: bool
    var validationErrors: seq<string>
    var isValid: bool
    var hasBeenTouched: bool

    /** The stored errors and validity are those of the current value. */
    ghost predicate Valid()
      reads this
    {
      validationErrors == Errors(fieldLabel, required, rules, value) &&
      (isValid <==> validationErrors == [])
    }

    /** Mounting the field with its initial (controlled) value, after the
        validation effect has run: untouched, unfocused, hidden password. */
    constructor (fieldLabel: string, kind: InputType, required: bool, rules: seq<ValidationRule>, initial: string)
      ensures Valid()
      ensures this.fieldLabel == fieldLabel && this.kind == kind && this.required == required
      ensures this.rules == rules && value == initial
      ensures !hasBeenTouched && !isFocused && !showPassword
    {
      this.fieldLabel := fieldLabel;
      this.kind := kind;
      this.required := required;
      this.rules := rules;
      value := initial;
      isFocused := false;
      showPassword := false;
      hasBeenTouched := false;
      new;
      validationErrors, isValid := ValidateInput(fieldLabel, required, rules, initial);
    }

    /** Re-runs `validateInput` on the current value and rules. */
    method Revalidate()
      modifies this
      ensures Valid()
      ensures value == old(value) && rules == old(rules)
      ensures hasBeenTouched == old(hasBeenTouched) && isFocused == old(isFocused)
      ensures showPassword == old(showPassword)
    {
      validationErrors, isValid := ValidateInput(fieldLabel, required, rules, value);
    }

    /** `handleChange`: the user edits the value, which marks the field as
        touched. */
    method HandleChange(newValue: string)
      modifies this
      ensures Valid()
      ensures value == newValue && hasBeenTouched
      ensures rules == old(rules) && isFocused == old(isFocused) && showPassword == old(showPassword)
    {
      value := newValue;
      hasBeenTouched := true;
      Revalidate();
    }

    /** The controlled-value effect: the parent supplies a new value; the
        field is revalidated but not marked as touched. */
    method SyncControlledValue(newValue: string)
      modifies this
      ensures Valid()
      ensures value == newValue
      ensures hasBeenTouched == old(hasBeenTouched)
      ensures rules == old(rules) && isFocused == old(isFocused) && showPassword == old(showPassword)
    {
      value := newValue;
      Revalidate();
    }

    /** The parent re-renders with another rule list (the confirm-password
        rule changes with the password); the value is revalidated. */
    method UpdateRules(newRules: seq<ValidationRule>)
      modifies this
      ensures Valid()
      ensures rules == newRules && value == old(value)
      ensures hasBeenTouched == old(hasBeenTouched)
      ensures isFocused == old(isFocused) && showPassword == old(showPassword)
    {
      rules := newRules;
      Revalidate();
    }

    /** `handleFocus`. */
    method HandleFocus()
      requires Valid()
      modifies this
      ensures Valid()
      ensures isFocused
      ensures hasBeenTouched == old(hasBeenTouched) && showPassword == old(showPassword)
      ensures value == old(value) && rules == old(rules)
      ensures validationErrors == old(validationErrors) && isValid == old(isValid)
    {
      isFocused := true;
    }

    /** `handleBlur`: leaving the field marks it as touched. */
    method HandleBlur()
      requires Valid()
      modifies this
      ensures Valid()
      ensures !isFocused && hasBeenTouched
      ensures showPassword == old(showPassword)
      ensures value == old(value) && rules == old(rules)
      ensures validationErrors == old(validationErrors) && isValid == old(isValid)
    {
      isFocused := false;
      hasBeenTouched := true;
    }

    /** The show/hide button of a password field: the rendered type of a
        password field switches between text and password; the errors do not
        change. */
    method TogglePassword()
      requires Valid()
      modifies this
      ensures Valid()
      ensures showPassword == !old(showPassword)
      ensures kind == PasswordInput ==> ShownInputType() != old(ShownInputType())
      ensures kind != PasswordInput ==> ShownInputType() == old(ShownInputType())
      ensures isFocused == old(isFocused) && hasBeenTouched == old(hasBeenTouched)
      ensures value == old(value) && rules == old(rules)
      ensures validationErrors == old(validationErrors) && isValid == old(isValid)
    {
      showPassword := !showPassword;
    }

    /** The status icon of a consistent field: none until the field is
        touched and non-empty, then the error icon exactly when the current
        value breaks a rule (or is blank and required), the success icon
        otherwise. */
    function StatusIcon(): (icon: StatusIcon)
      reads this
      requires Valid()
      ensures icon == NoIcon <==> !hasBeenTouched || value == ""
      ensures icon == ErrorIcon <==>
                hasBeenTouched && value != "" && Errors(fieldLabel, required, rules, value) != []
      ensures icon == SuccessIcon <==>
                hasBeenTouched && value != "" && Errors(fieldLabel, required, rules, value) == []
    {
      StatusIconConsistent(hasBeenTouched, value, validationErrors, isValid);
      GetStatusIcon(hasBeenTouched, value, validationErrors, isValid)
    }

    /** The border of a consistent field: focus only until it is touched,
        then red or green by the current value's errors alone. */
    function Border(): (color: BorderColor)
      reads this
      requires Valid()
      ensures !hasBeenTouched ==> color == if isFocused then FocusedBorder else NeutralBorder
      ensures hasBeenTouched ==>
                color == if Errors(fieldLabel, required, rules, value) == [] then SuccessBorder else ErrorBorder
    {
      BorderColorConsistent(hasBeenTouched, isFocused, validationErrors, isValid);
      GetBorderColor(hasBeenTouched, isFocused, validationErrors, isValid)
    }

    /** The `type` attribute of the rendered input: a password field shows
        its value as text exactly while it is revealed; other fields keep
        their declared type. */
    function ShownInputType(): (t: InputType)
      reads this
      ensures kind == PasswordInput ==> (t == TextInput <==> showPassword)
      ensures kind == PasswordInput && !showPassword ==> t == PasswordInput
      ensures kind != PasswordInput ==> t == kind
    {
      GetInputType(kind, showPassword)
    }
  }

  /** The fields of the demonstration registration form. */
  datatype FormField =
    | FirstName | LastName | EmailAddress | Password | ConfirmPassword
    | PhoneNumber | BirthDate | Address | Bio

  /** The demonstration form's `formData`. */
  class RegistrationForm {
    var formData: map<FormField, string>

    ghost predicate Valid()
      reads this
    {
      forall f: FormField :: f in formData
    }

    /** Every field starts empty. */
    constructor ()
      ensures Valid()
      ensures forall f: FormField :: formData[f] == ""
    {
      formData := map[FirstName := "", LastName := "", EmailAddress := "", Password := "",
                      ConfirmPassword := "", PhoneNumber := "", BirthDate := "", Address := "", Bio := ""];
      new;
      forall f: FormField
        ensures f in formData && formData[f] == ""
      {
        match f
        case FirstName =>
        case LastName =>
        case EmailAddress =>
        case Password =>
        case ConfirmPassword =>
        case PhoneNumber =>
        case BirthDate =>
        case Address =>
        case Bio =>
      }
    }

    /** `handleInputChange(field)(value)`: only that field changes. */
    method HandleInputChange(field: FormField, value: string)
      requires Valid()
      modifies this
      ensures Valid()
      ensures formData[field] == value
      ensures forall f: FormField :: f != field ==> formData[f] == old(formData[f])
    {
      formData := formData[field := value];
    }

    /** The confirm-password field's rules, built from the current password:
        one rule that accepts exactly that password. */
    function ConfirmRules(): (r: seq<ValidationRule>)
      reads this
      requires Valid()
      ensures |r| == 1 && r[0].message == "Passwords do not match"
      ensures forall v :: r[0].test(v) <==> v == formData[Password]
    {
      ConfirmPasswordRules(formData[Password])
    }
  }
}
