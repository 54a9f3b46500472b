/** The field rules of the login form: one rule per input (`validateField`) and the
    pass over the whole form that collects the failing ones (`validateForm`). */
module Validation {
  import opened JsString

  /** The inputs of the form, in the order `Object.keys(formData)` lists them. */
  datatype Field = Email | Password | RememberMe

  const Fields: seq<Field> := [Email, Password, RememberMe]

  /** What an input event carries: the `value` of a text input or the
      `checked` state of the checkbox. */
  datatype FieldValue = Text(text: string) | Checked(checked: bool)

  /** The text inputs carry text and the checkbox carries a flag. */
  predicate Fits(field: Field, v: FieldValue) {
    if field == RememberMe then v.Checked? else v.Text?
  }

  /** The form data: `{ email, password, rememberMe }`. */
  datatype FormData = FormData(email: string, password: string, rememberMe: bool) {

    /** `formData[field]`. */
    function Value(field: Field): (v: FieldValue)
      ensures Fits(field, v)
    {
      match field
      case Email => Text(email)
      case Password => Text(password)
      case RememberMe => Checked(rememberMe)
    }

    /** `{ ...formData, [field]: v }`: only `field` takes the new value. */
    function With(field: Field, v: FieldValue): (d: FormData)
      requires Fits(field, v)
      ensures d.Value(field) == v
      ensures forall g :: g != field ==> d.Value(g) == Value(g)
    {
      match field
      case Email => this.(email := v.text)
      case Password => this.(password := v.text)
      case RememberMe => this.(rememberMe := v.checked)
    }
  }

  const EmptyForm := FormData("", "", false)

  const EmailRequired := "Email is required"
  const EmailInvalid := "Please enter a valid email address"
  const PasswordRequired := "Password is required"
  const PasswordTooShort := "Password must be at least 6 characters"
  const MinPasswordLength := 6

  /** One run of `[^\s@]+`: non-empty, with no whitespace and no `@`. */
  ghost predicate Atom(t: string) {
    |t| > 0 && forall i :: 0 <= i < |t| ==> !IsWhitespace(t[i]) && t[i] != '@'
  }

  /** The language of `^[^\s@]+@[^\s@]+\.[^\s@]+$`, read off the pattern. */
  ghost predicate MatchesEmailPattern(s: string) {
    exists a, b, c :: s == a + "@" + b + "." + c && Atom(a) && Atom(b) && Atom(c)
  }

  /** The domain text has a `.` with at least one character on each side. */
  predicate HasInnerDot(d: string) {
    exists k :: 0 < k < |d| - 1 && d[k] == '.'
  }

  /** The email shape checked character by character: no whitespace, exactly
      one `@`, something before it, and a domain holding an inner `.`. The
      shortest such address, such as "a@b.c", has five characters. */
  predicate IsEmailShape(s: string): (r: bool)
    ensures r ==> |s| >= 5
  {
    var at := IndexOf(s, '@');
    NoWhitespace(s) && 0 < at < |s| && '@' !in s[at + 1..] && HasInnerDot(s[at + 1..])
  }

  /** The shape test accepts exactly the strings the regular expression does. */
  lemma EmailShapeIff(s: string)
    ensures IsEmailShape(s) <==> MatchesEmailPattern(s)
  {
    if IsEmailShape(s) {
      EmailShapeMatches(s);
    }
    if MatchesEmailPattern(s) {
      EmailPatternHasShape(s);
    }
  }

  /** Every string that passes the shape test is in the pattern's language. */
  lemma EmailShapeMatches(s: string)
    requires IsEmailShape(s)
    ensures MatchesEmailPattern(s)
  {
    var at := IndexOf(s, '@');
    var d := s[at + 1..];
    var k :| 0 < k < |d| - 1 && d[k] == '.';
    PartsOfShape(s, at, k);
  }

  /** Cutting an address at its `@` and at a `.` of its domain gives three
      runs of the pattern. */
  lemma PartsOfShape(s: string, at: nat, k: nat)
    requires NoWhitespace(s) && 0 < at < |s| && s[at] == '@'
    requires '@' !in s[..at] && '@' !in s[at + 1..]
    requires 0 < k < |s| - at - 2 && s[at + 1 + k] == '.'
    ensures MatchesEmailPattern(s)
  {
    var d := s[at + 1..];
    var a, b, c := s[..at], d[..k], d[k + 1..];
    assert s == a + "@" + b + "." + c by {
      assert s == s[..at] + [s[at]] + d;
      assert d == d[..k] + [d[k]] + d[k + 1..];
    }
    assert Atom(a) by {
      forall i | 0 <= i < |a| ensures !IsWhitespace(a[i]) && a[i] != '@' {
        assert a[i] == s[i];
      }
    }
    assert Atom(b) by {
      forall i | 0 <= i < |b| ensures !IsWhitespace(b[i]) && b[i] != '@' {
        assert b[i] == d[i] == s[at + 1 + i];
      }
    }
    assert Atom(c) by {
      forall i | 0 <= i < |c| ensures !IsWhitespace(c[i]) && c[i] != '@' {
        assert c[i] == d[k + 1 + i] == s[at + 1 + k + 1 + i];
      }
    }
  }

  lemma EmailPatternHasShape(s: string)
    requires MatchesEmailPattern(s)
    ensures IsEmailShape(s)
  {
    var a, b, c :| s == a + "@" + b + "." + c && Atom(a) && Atom(b) && Atom(c);
    PartsHaveShape(a, b, c);
  }

  /** Three runs joined by `@` and `.` pass the shape test. */
  lemma PartsHaveShape(a: string, b: string, c: string)
    requires Atom(a) && Atom(b) && Atom(c)
    ensures IsEmailShape(a + "@" + b + "." + c)
  {
    var d := b + "." + c;
    assert a + "@" + b + "." + c == a + "@" + d;
    DomainShape(b, c);
    LocalPartThenAt(a, d);
  }

  /** The part after the `@` of an address in the pattern's language. */
  lemma DomainShape(b: string, c: string)
    requires Atom(b) && Atom(c)
    ensures NoWhitespace(b + "." + c) && '@' !in b + "." + c && HasInnerDot(b + "." + c)
  {
    AtomHasNoWhitespaceOrAt(b);
    AtomHasNoWhitespaceOrAt(c);
    NoWhitespaceConcat(b, ".");
    NoWhitespaceConcat(b + ".", c);
    assert (b + "." + c)[|b|] == '.';
  }

  /** A local part, the `@` and a domain that passes the shape test form an
      address that passes it. */
  lemma LocalPartThenAt(a: string, d: string)
    requires Atom(a)
    requires NoWhitespace(d) && '@' !in d && HasInnerDot(d)
    ensures IsEmailShape(a + "@" + d)
  {
    var s := a + "@" + d;
    AtomHasNoWhitespaceOrAt(a);
    NoWhitespaceConcat(a, "@");
    NoWhitespaceConcat(a + "@", d);
    assert s[..|a|] == a;
    IndexOfFirst(s, '@', |a|);
    assert s[|a| + 1..] == d;
  }

  lemma AtomHasNoWhitespaceOrAt(t: string)
    requires Atom(t)
    ensures NoWhitespace(t) && '@' !in t
  {
  }

  lemma NoWhitespaceConcat(x: string, y: string)
    requires NoWhitespace(x) && NoWhitespace(y)
    ensures NoWhitespace(x + y)
  {
    forall i | 0 <= i < |x + y| ensures !IsWhitespace((x + y)[i]) {
      if i < |x| { assert (x + y)[i] == x[i]; } else { assert (x + y)[i] == y[i - |x|]; }
    }
  }

  /** A position holding `c` with no `c` before it is where `IndexOf` stops. */
  lemma IndexOfFirst(s: string, c: char, p: nat)
    requires p < |s| && s[p] == c && c !in s[..p]
    ensures IndexOf(s, c) == p
  {
  }

  /** `validateField(fieldName, value)`: the message for the first rule the
      value breaks, or the empty string when it breaks none. */
  function ValidateField(field: Field, value: FieldValue): (r: string)
    requires Fits(field, value)
    ensures field == Email ==> r in {EmailRequired, EmailInvalid, ""}
    ensures field == Password ==> r in {PasswordRequired, PasswordTooShort, ""}
    ensures field == RememberMe ==> r == ""
  {
    match field
    case Email =>
      if Trim(value.text) == "" then EmailRequired
      else if !IsEmailShape(value.text) then EmailInvalid
      else ""
    case Password =>
      if value.text == "" then PasswordRequired
      else if Utf16Length(value.text) < MinPasswordLength then PasswordTooShort
      else ""
    case RememberMe => ""
  }

  /** The email rule: required when blank, then the regular expression. */
  lemma EmailRule(text: string)
    ensures ValidateField(Email, Text(text)) == EmailRequired <==> IsBlank(text)
    ensures ValidateField(Email, Text(text)) == EmailInvalid <==>
              !IsBlank(text) && !MatchesEmailPattern(text)
    ensures ValidateField(Email, Text(text)) == "" <==>
              !IsBlank(text) && MatchesEmailPattern(text)
  {
    TrimEmptyIffBlank(text);
    EmailShapeIff(text);
  }

  /** The password rule: required when empty, then at least six UTF-16 code
      units. */
  lemma PasswordRule(text: string)
    ensures ValidateField(Password, Text(text)) == PasswordRequired <==> text == ""
    ensures ValidateField(Password, Text(text)) == PasswordTooShort <==>
              0 < Utf16Length(text) < MinPasswordLength
    ensures ValidateField(Password, Text(text)) == "" <==>
              Utf16Length(text) >= MinPasswordLength
  {
  }

  /** For a password within the Basic Multilingual Plane the limit is six
      characters. */
  lemma PasswordRuleBmp(text: string)
    requires forall i :: 0 <= i < |text| ==> text[i] as int < 0x1_0000
    ensures ValidateField(Password, Text(text)) == "" <==> |text| >= MinPasswordLength
    ensures ValidateField(Password, Text(text)) == PasswordTooShort <==>
              0 < |text| < MinPasswordLength
  {
    Utf16LengthOfBmp(text);
  }

  /** Every other field name passes, whatever its value. */
  lemma CheckboxAlwaysPasses(checked: bool)
    ensures ValidateField(RememberMe, Checked(checked)) == ""
  {
  }

  /** The rule for `field` applied to its current value in `data`. */
  function FieldError(data: FormData, field: Field): string {
    ValidateField(field, data.Value(field))
  }

  /** The form passes when neither text field breaks a rule. */
  predicate FormIsValid(data: FormData) {
    FieldError(data, Email) == "" && FieldError(data, Password) == ""
  }

  /** The error map `validateForm` stores: one entry per failing field other
      than the checkbox. */
  function FormErrors(data: FormData): map<Field, string> {
    map f | f in {Email, Password} && FieldError(data, f) != "" :: FieldError(data, f)
  }

  /** The checkbox plays no part in validation: changing it changes neither
      the error map nor the verdict. */
  lemma RememberMeIgnored(data: FormData, b: bool)
    ensures FormErrors(data.(rememberMe := b)) == FormErrors(data)
    ensures FormIsValid(data.(rememberMe := b)) == FormIsValid(data)
  {
  }

  /** Every error in `errors` is the verdict of its field's rule on `data`. */
  predicate ErrorsMatch(errors: map<Field, string>, data: FormData) {
    forall f :: f in errors ==> errors[f] == FieldError(data, f)
  }

  /** Storing a new value and, for a touched field, its new verdict keeps
      every stored error the verdict on the current data. */
  lemma ErrorsMatchAfterChange(errors: map<Field, string>, data: FormData, field: Field,
                               v: FieldValue, recheck: bool)
    requires Fits(field, v) && ErrorsMatch(errors, data)
    requires !recheck ==> field !in errors
    ensures ErrorsMatch(if recheck then errors[field := ValidateField(field, v)] else errors,
                        data.With(field, v))
  {
  }

  /** The error map of a whole-form check holds only the verdicts on the
      data it was computed from. */
  lemma FormErrorsMatch(data: FormData)
    ensures ErrorsMatch(FormErrors(data), data)
  {
  }

  /** The loop of `validateForm`: visit every key of the form data, skip the
      checkbox, and record each non-empty error. */
  method CollectErrors(data: FormData) returns (newErrors: map<Field, string>, isValid: bool)
    ensures forall f :: f in newErrors <==> f != RememberMe && FieldError(data, f) != ""
    ensures ErrorsMatch(newErrors, data)
    ensures isValid <==> FormIsValid(data)
    ensures isValid <==> newErrors == map[]
  {
    newErrors := map[];
    isValid := true;
    for i := 0 to |Fields|
      invariant forall f :: f in newErrors <==>
                  f in Fields[..i] && f != RememberMe && FieldError(data, f) != ""
      invariant ErrorsMatch(newErrors, data)
      invariant isValid <==> newErrors == map[]
    {
      var field := Fields[i];
      assert Fields[..i + 1] == Fields[..i] + [field];
      if field != RememberMe {
        var error := FieldError(data, field);
        if error != "" {
          newErrors := newErrors[field := error];
          isValid := false;
        }
      }
    }
    assert Fields[..|Fields|] == Fields;
  }

  /** The map the loop builds is the one `FormErrors` describes. */
  lemma CollectedErrorsAreFormErrors(data: FormData, newErrors: map<Field, string>)
    requires forall f :: f in newErrors <==> f != RememberMe && FieldError(data, f) != ""
    requires ErrorsMatch(newErrors, data)
    ensures newErrors == FormErrors(data)
  {
  }
}
