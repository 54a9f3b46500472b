/** The state of the `EnhancedLoginForm` component and its event handlers, with
    the timers and the simulated login promise replaced by explicit steps:
    `Submit` runs a submission to its end, `Tick` is one run of the countdown
    callback and `ResetAfterSuccess` is the delayed reset after a login. */
module EnhancedLoginForm {
  import opened JsString
  import opened Validation
  import opened Lockout

  const SuccessMarker := "success"

  /** The simulated server: a login succeeds when the lower-cased email
      contains "success", so only an email at least that long can pass. */
  predicate SimulateLogin(email: string): (r: bool)
    ensures r ==> |email| >= |SuccessMarker|
  {
    Contains(ToLowerAscii(email), SuccessMarker)
  }

  /** "success" occurs in `email` at position `i`, ignoring the case of
      letters. */
  ghost predicate MarkerAt(email: string, i: int) {
    0 <= i <= |email| - |SuccessMarker| &&
    forall j :: 0 <= j < |SuccessMarker| ==> LowerChar(email[i + j]) == SuccessMarker[j]
  }

  /** The simulated login accepts an email exactly when, ignoring the case of
      letters, "success" occurs in it at some position. */
  lemma SimulateLoginIff(email: string)
    ensures SimulateLogin(email) <==> exists i :: MarkerAt(email, i)
  {
    var lower := ToLowerAscii(email);
    var n := |SuccessMarker|;
    ToLowerAsciiSpec(email);
    ContainsIff(lower, SuccessMarker);
    if SimulateLogin(email) {
      var i :| OccursAt(lower, SuccessMarker, i);
      forall j | 0 <= j < n ensures LowerChar(email[i + j]) == SuccessMarker[j] {
        assert lower[i..i + n][j] == lower[i + j];
      }
      assert MarkerAt(email, i);
    }
    if exists i :: MarkerAt(email, i) {
      var i :| MarkerAt(email, i);
      assert lower[i..i + n] == SuccessMarker;
      assert OccursAt(lower, SuccessMarker, i);
    }
  }

  /** Only the letters' case is ignored: an email and its lower-cased form
      get the same verdict. */
  lemma SimulateLoginIgnoresCase(email: string)
    ensures SimulateLogin(ToLowerAscii(email)) == SimulateLogin(email)
  {
    ToLowerAsciiIdempotent(email);
  }

  /** The `message` of the rejected login promise. */
  const LoginRejected := "Invalid email or password"

  /** What the error shows before and after the count of attempts left. */
  const RejectedPrefix := LoginRejected + ". "
  const RemainingSuffix := " attempts remaining."

  /** The error shown after a rejection that does not lock the form. */
  function RemainingMessage(remaining: nat): string {
    RejectedPrefix + NatToString(remaining) + RemainingSuffix
  }

  /** The message is the promise's message, then the count of attempts left
      in decimal, which reads back as that count. */
  lemma RemainingMessageReportsCount(remaining: nat)
    ensures var r := RemainingMessage(remaining);
            |RejectedPrefix| + |RemainingSuffix| < |r| &&
            r[..|RejectedPrefix|] == RejectedPrefix &&
            r[|r| - |RemainingSuffix|..] == RemainingSuffix
    ensures var r := RemainingMessage(remaining);
            var digits := r[|RejectedPrefix|..|r| - |RemainingSuffix|];
            (forall i :: 0 <= i < |digits| ==> IsDigit(digits[i])) && ParseNat(digits) == remaining
  {
    var r := RemainingMessage(remaining);
    var digits := NatToString(remaining);
    ParseNatToString(remaining);
    assert r[|RejectedPrefix|..|r| - |RemainingSuffix|] == digits;
    assert r[..|RejectedPrefix|] == RejectedPrefix;
    assert r[|r| - |RemainingSuffix|..] == RemainingSuffix;
  }

  /** The error shown by the rejection that locks the form. */
  const LockedMessage := "Too many failed attempts. Account locked for " +
                         NatToString(LockoutDuration) + " seconds."

  /** The lock message names the lockout duration as the form shows it. */
  lemma LockedMessageText()
    ensures LockedMessage == "Too many failed attempts. Account locked for 30 seconds."
  {
    assert NatToString(LockoutDuration) == "30";
  }

  /** The message reports the count: different counts give different texts. */
  lemma RemainingMessageInjective(m: nat, n: nat)
    requires RemainingMessage(m) == RemainingMessage(n)
    ensures m == n
  {
    RemainingMessageReportsCount(m);
    RemainingMessageReportsCount(n);
  }

  /** The loop of `handleSubmit` that marks every key of the form data as
      touched. */
  method TouchAll() returns (allTouched: set<Field>)
    ensures forall f: Field :: f in allTouched
  {
    allTouched := {};
    for i := 0 to |Fields|
      invariant forall j :: 0 <= j < i ==> Fields[j] in allTouched
    {
      allTouched := allTouched + {Fields[i]};
    }
    forall f: Field ensures f in allTouched {
      assert f == Fields[0] || f == Fields[1] || f == Fields[2];
    }
  }

  /** A valid form has nothing to report. */
  lemma ValidFormHasNoErrors(data: FormData)
    requires FormIsValid(data)
    ensures FormErrors(data) == map[]
  {
  }

  class Form {
    var email: string
    var password: string
    var rememberMe: bool
    var errors: map<Field, string>
    var touched: set<Field>
    var loginAttempts: int
    var isLocked: bool
    var lockoutTime: int
    var loginError: string
    var isLoading: bool
    var isSubmitted: bool

    /** `formData`. */
    function Data(): FormData
      reads this`email, this`password, this`rememberMe
    {
      FormData(email, password, rememberMe)
    }

    /** The lockout part of the state. */
    function LockoutState(): LockState
      reads this`loginAttempts, this`isLocked, this`lockoutTime
    {
      LockState(loginAttempts, isLocked, lockoutTime)
    }

    /** Only touched fields carry an error, and every error shown is the
        verdict of its rule on the field's current value. */
    ghost predicate ErrorsCurrent()
      reads this`errors, this`touched, this`email, this`password, this`rememberMe
    {
      errors.Keys <= touched && ErrorsMatch(errors, Data())
    }

    /** The state between two events: the lockout invariant holds, no login
        is in flight, the errors are current, and after a login the counter
        is clear, the form unlocked and without errors. */
    ghost predicate Valid()
      reads this
    {
      Inv(LockoutState()) && !isLoading && ErrorsCurrent() &&
      (isSubmitted ==> !isLocked && loginAttempts == 0 && errors == map[])
    }

    /** The initial state of every `useState`. */
    constructor ()
      ensures Valid()
      ensures Data() == EmptyForm && errors == map[] && touched == {}
      ensures LockoutState() == Initial
      ensures loginError == "" && !isLoading && !isSubmitted
    {
      email, password, rememberMe := "", "", false;
      errors, touched := map[], {};
      loginAttempts, isLocked, lockoutTime := 0, false, 0;
      loginError, isLoading, isSubmitted := "", false, false;
    }

    /** `handleInputChange`: store the new value, clear the login error, and
        re-check the field if it has been touched. */
    method Change(field: Field, value: FieldValue)
      requires Valid() && !isSubmitted && Fits(field, value)
      modifies this`email, this`password, this`rememberMe, this`loginError, this`errors
      ensures Valid()
      ensures Data() == old(Data()).With(field, value)
      ensures loginError == ""
      ensures errors == if field in touched then old(errors)[field := ValidateField(field, value)]
                        else old(errors)
    {
      var data := Data().With(field, value);
      ErrorsMatchAfterChange(errors, Data(), field, value, field in touched);
      email, password, rememberMe := data.email, data.password, data.rememberMe;
      loginError := "";
      errors := if field in touched then errors[field := ValidateField(field, value)] else errors;
    }

    /** `handleBlur`: mark the field touched and check its current value. */
    method Blur(field: Field)
      requires Valid() && !isSubmitted
      modifies this`touched, this`errors
      ensures Valid()
      ensures touched == old(touched) + {field}
      ensures errors == old(errors)[field := FieldError(Data(), field)]
    {
      touched := touched + {field};
      var fieldError := ValidateField(field, Data().Value(field));
      errors := errors[field := fieldError];
    }

    /** `validateForm`: replace the errors by those of the failing fields. */
    method ValidateForm() returns (isValid: bool)
      modifies this`errors
      ensures errors == FormErrors(Data())
      ensures isValid <==> FormIsValid(Data())
    {
      var newErrors;
      newErrors, isValid := CollectErrors(Data());
      CollectedErrorsAreFormErrors(Data(), newErrors);
      errors := newErrors;
    }

    /** `startLockout`: lock and start the countdown at `LockoutDuration`. */
    method StartLockout()
      modifies this`isLocked, this`lockoutTime
      ensures LockoutState() == Lockout.StartLockout(old(LockoutState()))
    {
      isLocked := true;
      lockoutTime := LockoutDuration;
    }

    /** One run of the countdown callback, which exists only while locked. */
    method Tick()
      requires Valid() && isLocked
      modifies this`isLocked, this`lockoutTime, this`loginAttempts
      ensures Valid()
      ensures LockoutState() == Lockout.Tick(old(LockoutState()))
    {
      var prev := lockoutTime;
      if prev <= 1 {
        isLocked := false;
        loginAttempts := 0;
        lockoutTime := 0;
      } else {
        lockoutTime := prev - 1;
      }
    }

    /** The part of `handleSubmit` that runs for a valid form: show the
        spinner, clear the login error, await the simulated login, and on
        success clear the counter, on rejection count it and report the
        attempts left or lock the form; the spinner stops on both paths. */
    method Login()
      requires Inv(LockoutState()) && !isLocked
      modifies this`isLoading, this`loginError, this`isSubmitted
      modifies this`loginAttempts, this`isLocked, this`lockoutTime
      ensures Inv(LockoutState())
      ensures LockoutState() == Attempt(old(LockoutState()), SimulateLogin(email))
      ensures isSubmitted == (old(isSubmitted) || SimulateLogin(email))
      ensures SimulateLogin(email) ==> loginAttempts == 0 && loginError == ""
      ensures !SimulateLogin(email) ==>
                loginAttempts == old(loginAttempts) + 1 &&
                (isLocked <==> loginAttempts >= MaxAttempts) &&
                (isLocked ==> lockoutTime == LockoutDuration && loginError == LockedMessage) &&
                (!isLocked ==> lockoutTime == old(lockoutTime) &&
                               loginError == RemainingMessage(MaxAttempts - loginAttempts))
      ensures !isLoading
    {
      isLoading := true;
      loginError := "";
      if SimulateLogin(email) {
        isSubmitted := true;
        loginAttempts := 0;
      } else {
        var newAttempts := loginAttempts + 1;
        loginAttempts := newAttempts;
        if newAttempts >= MaxAttempts {
          loginError := LockedMessage;
          StartLockout();
        } else {
          loginError := RemainingMessage(MaxAttempts - newAttempts);
        }
      }
      isLoading := false;
    }

    /** `handleSubmit`, run to its end: ignored while locked; otherwise every
        field is touched and the form validated, and only a valid form goes
        on to the login. */
    method Submit()
      requires Valid() && !isSubmitted
      modifies this
      ensures Valid()
      ensures old(isLocked) ==> unchanged(this)
      ensures Data() == old(Data())
      ensures !old(isLocked) ==> (forall f: Field :: f in touched) && errors == FormErrors(Data())
      ensures !old(isLocked) && !FormIsValid(Data()) ==>
                LockoutState() == old(LockoutState()) && loginError == old(loginError) &&
                !isSubmitted
      ensures !old(isLocked) && FormIsValid(Data()) ==>
                LockoutState() == Attempt(old(LockoutState()), SimulateLogin(email)) &&
                isSubmitted == SimulateLogin(email)
      ensures !old(isLocked) && FormIsValid(Data()) && SimulateLogin(email) ==>
                loginAttempts == 0 && loginError == ""
      ensures !old(isLocked) && FormIsValid(Data()) && !SimulateLogin(email) ==>
                loginAttempts == old(loginAttempts) + 1 &&
                (isLocked <==> loginAttempts >= MaxAttempts) &&
                (isLocked ==> lockoutTime == LockoutDuration && loginError == LockedMessage) &&
                (!isLocked ==> lockoutTime == old(lockoutTime) &&
                               loginError == RemainingMessage(MaxAttempts - loginAttempts))
      ensures !isLoading
    {
      if isLocked {
        return;
      }
      var allTouched := TouchAll();
      touched := allTouched;
      var valid := ValidateForm();
      FormErrorsMatch(Data());
      if valid {
        ValidFormHasNoErrors(Data());
        Login();
      }
    }

    /** The delayed reset after a successful login: empty form data, nothing
        touched, back to the form. */
    method ResetAfterSuccess()
      requires Valid() && isSubmitted
      modifies this`email, this`password, this`rememberMe, this`touched, this`isSubmitted
      ensures Valid()
      ensures Data() == EmptyForm && touched == {} && !isSubmitted
    {
      email, password, rememberMe := "", "", false;
      touched := {};
      isSubmitted := false;
    }
  }

  /** Five submissions of a valid form whose email the login rejects, from
      the initial lockout state: the fifth locks the form for the full
      duration and shows the lock message. */
  method FailUntilLocked(form: Form)
    requires form.Valid() && !form.isSubmitted && form.LockoutState() == Initial
    requires FormIsValid(form.Data()) && !SimulateLogin(form.email)
    modifies form
    ensures form.Valid() && !form.isSubmitted && form.Data() == old(form.Data())
    ensures form.LockoutState() == FreshLockout && form.loginError == LockedMessage
  {
    var k := 0;
    while k < MaxAttempts
      invariant 0 <= k <= MaxAttempts
      invariant form.Valid() && !form.isSubmitted && form.Data() == old(form.Data())
      invariant form.LockoutState() ==
                  if k < MaxAttempts then LockState(k, false, 0) else FreshLockout
      invariant k == MaxAttempts ==> form.loginError == LockedMessage
    {
      form.Submit();
      k := k + 1;
    }
  }

  /** The countdown run to its end: it ticks once per second left, the form
      is still locked before each of those ticks, and it ends unlocked with
      a clear counter. */
  method CountDown(form: Form) returns (ticks: nat)
    requires form.Valid() && form.isLocked
    modifies form
    ensures form.Valid() && form.Data() == old(form.Data())
    ensures ticks == old(form.lockoutTime) && form.LockoutState() == Initial
    ensures form.LockoutState() == Elapse(old(form.LockoutState()), ticks)
    ensures forall k :: 0 <= k < ticks ==> Elapse(old(form.LockoutState()), k).locked
  {
    ghost var start := form.LockoutState();
    ticks := 0;
    while form.isLocked
      invariant form.Valid() && form.Data() == old(form.Data())
      invariant ticks <= start.time
      invariant form.isLocked ==> form.lockoutTime + ticks == start.time
      invariant !form.isLocked ==> ticks == start.time && form.LockoutState() == Initial
      decreases start.time - ticks
    {
      form.Tick();
      ticks := ticks + 1;
    }
    forall k | 0 <= k < ticks ensures Elapse(start, k).locked {
      CountdownRuns(start, k);
    }
    CountdownEnds(start);
  }

  /** The cycle the form's own testing guide describes: with a valid form
      whose email the login rejects, five submissions lock the form, and it
      takes exactly `LockoutDuration` ticks to unlock it with a clear counter. */
  method LockoutCycle(form: Form) returns (ticks: nat)
    requires form.Valid() && !form.isSubmitted && form.LockoutState() == Initial
    requires FormIsValid(form.Data()) && !SimulateLogin(form.email)
    modifies form
    ensures form.Valid() && form.LockoutState() == Initial && form.Data() == old(form.Data())
    ensures ticks == LockoutDuration
  {
    FailUntilLocked(form);
    ticks := CountDown(form);
  }
}
