# EnhancedLoginForm (Dafny model)

A model of the logic inside the React component `EnhancedLoginForm`. It covers two parts.

The first part is **field validation**. `validateField` maps a field name and a value to an error message: an email must be non-blank and match `^[^\s@]+@[^\s@]+\.[^\s@]+$`, and a password must be non-empty and at least 6 long. `validateForm` applies these rules to the whole form and keeps the errors of the fields that fail.

The second part is the **login-attempt lockout**. Each rejected login advances a counter. The fifth rejection locks the form for 30 seconds, during which submissions are ignored. A one-second countdown then unlocks the form and clears the counter. An accepted login also clears the counter.

The project has four modules:

- `JsString` (`js_string.dfy`): the JavaScript built-ins the component uses: `trim` and the regular-expression class `\s` (the full ECMAScript whitespace and line-terminator set), `toLowerCase`, `includes`, the UTF-16 `length`, and how a template literal prints a number.
- `Validation` (`validation.dfy`): the three inputs, the form data, `validateField` and the loop of `validateForm`. The email regular expression appears twice. `MatchesEmailPattern` reads the pattern directly. `IsEmailShape` checks it character by character. A lemma proves the two accept the same strings.
- `Lockout` (`lockout.dfy`): the counter, the lock and the countdown as a state machine on values. It has an invariant and lemmas about sequences of failures and sequences of seconds.
- `EnhancedLoginForm` (`login_form.dfy`): the component as a class `Form`. Its fields are the component's state variables. Its methods are the event handlers, and each method's contract ties the new state to the functions of the other modules.

The timers and the login promise are replaced by explicit steps:

- For a valid form, `Submit` runs the simulated login to completion, and the outcome is the simulated server's rule.
- `Tick` is one run of the one-second countdown callback.
- `ResetAfterSuccess` is the callback that runs 3 seconds after a successful login.

Places where this model follows the code rather than a looser reading of it:

- The password minimum is measured with JavaScript's `length`, which counts UTF-16 code units, so `Utf16Length` is used instead of the character count. For text inside the Basic Multilingual Plane the two are the same (`PasswordRuleBmp`).
- The whitespace that `trim` and `\s` skip is the whole ECMAScript set, not only ASCII whitespace. The set is finite, so it is written out in `IsWhitespace`.

## Model

| member | source | states |
|---|---|---|
| `JsString.Trim` | src/components/EnhancedLoginForm.jsx:65 | `trim` never lengthens its input, and its result is empty or starts and ends with a character that is not whitespace. |
| `JsString.TrimStartSpec` | src/components/EnhancedLoginForm.jsx:65 | The leading part `trim` removes is all whitespace, and what remains is a suffix of the input that does not start with whitespace. |
| `JsString.TrimEndSpec` | src/components/EnhancedLoginForm.jsx:65 | The trailing part `trim` removes is all whitespace, and what remains is a prefix that does not end in whitespace. |
| `JsString.TrimEmptyIffBlank` | src/components/EnhancedLoginForm.jsx:65 | `value.trim()` is empty exactly when every character of `value` is whitespace. Both directions are proved. |
| `JsString.ToLowerAscii` | src/components/EnhancedLoginForm.jsx:101 | Lower-casing keeps the length. |
| `JsString.ToLowerAsciiSpec` | src/components/EnhancedLoginForm.jsx:101 | Lower-casing maps each character on its own: A–Z to a–z, every other character unchanged. |
| `JsString.ToLowerAsciiIdempotent` | src/components/EnhancedLoginForm.jsx:101 | Lower-casing an already lower-cased string changes nothing. |
| `JsString.Contains` | src/components/EnhancedLoginForm.jsx:101 | `includes` can only hold when the needle fits in the text, and the empty needle is always included. The full meaning is in `ContainsIff`. |
| `JsString.ContainsIff` | src/components/EnhancedLoginForm.jsx:101 | `includes` holds exactly when the needle occurs at some position of the text. |
| `JsString.IndexOf` | src/components/EnhancedLoginForm.jsx:66 | A helper for the email shape test. The position it returns is within bounds and holds the character, and no earlier position holds it. |
| `JsString.Utf16Length` | src/components/EnhancedLoginForm.jsx:71 | `length` is at least the number of characters and at most twice that number. |
| `JsString.Utf16LengthOfBmp` | src/components/EnhancedLoginForm.jsx:71 | For text inside the Basic Multilingual Plane, `length` equals the number of characters. |
| `JsString.NatToString` | src/components/EnhancedLoginForm.jsx:165 | The printed number is non-empty, consists only of decimal digits, and has no leading zero. |
| `JsString.ParseNatToString` | src/components/EnhancedLoginForm.jsx:165 | Reading the printed number back gives the number (round trip). |
| `JsString.NatToStringInjective` | src/components/EnhancedLoginForm.jsx:165 | Different counts print differently. |
| `Validation.FormData.Value` | src/components/EnhancedLoginForm.jsx:83-85 | `formData[field]` gives text for the two text inputs and a flag for the checkbox. |
| `Validation.FormData.With` | src/components/EnhancedLoginForm.jsx:27-30 | `{...prev, [name]: value}` gives the named field the new value and leaves every other field as it was. |
| `Validation.IsEmailShape` | src/components/EnhancedLoginForm.jsx:66 | An address that passes the shape test has at least five characters, as in "a@b.c". What it accepts exactly is stated in `EmailShapeIff`. |
| `Validation.EmailShapeIff` | src/components/EnhancedLoginForm.jsx:66 | The character-level email check accepts exactly the strings in the language of `^[^\s@]+@[^\s@]+\.[^\s@]+$`. Both directions are proved. |
| `Validation.EmailShapeMatches` | src/components/EnhancedLoginForm.jsx:66 | Every email that passes the character-level check is in the pattern's language. |
| `Validation.PartsOfShape` | src/components/EnhancedLoginForm.jsx:66 | Cutting an address without whitespace at its only `@` and at a `.` with text on both sides inside its domain gives local part, host and rest, each a run of the pattern's `[^\s@]+`. So the address matches. |
| `Validation.EmailPatternHasShape` | src/components/EnhancedLoginForm.jsx:66 | Every string of the pattern's language passes the character-level check: no whitespace, one `@` with text before it, and a domain with an inner `.`. |
| `Validation.PartsHaveShape` | src/components/EnhancedLoginForm.jsx:66 | Three runs of `[^\s@]+` joined by `@` and `.` pass the character-level check. |
| `Validation.DomainShape` | src/components/EnhancedLoginForm.jsx:66 | The domain part built from two runs has no whitespace, no `@`, and an inner `.`. |
| `Validation.LocalPartThenAt` | src/components/EnhancedLoginForm.jsx:66 | A run, an `@`, and a domain that passes the domain test form an address that passes the full check. |
| `Validation.ValidateField` | src/components/EnhancedLoginForm.jsx:62-77 | The result is always one of the messages of its field's rule or `""`. The checkbox always gets `""`. Which message each value gets is stated in `EmailRule`, `PasswordRule` and `CheckboxAlwaysPasses`. |
| `Validation.EmailRule` | src/components/EnhancedLoginForm.jsx:64-67 | The email rule returns "Email is required" exactly when the value is blank. Otherwise it returns "Please enter a valid email address" exactly when the pattern fails, and `""` exactly when the value is non-blank and matches. |
| `Validation.PasswordRule` | src/components/EnhancedLoginForm.jsx:69-72 | The password rule returns "Password is required" exactly when the value is empty and "Password must be at least 6 characters" exactly when 0 < `length` < 6. It returns `""` exactly when `length` ≥ 6. |
| `Validation.PasswordRuleBmp` | src/components/EnhancedLoginForm.jsx:71 | For a password inside the Basic Multilingual Plane, the limit is six characters. |
| `Validation.CheckboxAlwaysPasses` | src/components/EnhancedLoginForm.jsx:74-75 | The default branch: `rememberMe` gets `""` whatever its value. |
| `Validation.RememberMeIgnored` | src/components/EnhancedLoginForm.jsx:84 | Changing the checkbox changes neither the error map `validateForm` stores nor its verdict. |
| `Validation.ErrorsMatchAfterChange` | src/components/EnhancedLoginForm.jsx:37-44 | If every stored error is its field's verdict on the data, that stays true when one field gets a new value, either with its error recomputed or, when the field has no stored error, left alone. |
| `Validation.FormErrorsMatch` | src/components/EnhancedLoginForm.jsx:79-95 | Every error in the whole-form error map is its field's verdict on the data it was computed from. |
| `Validation.CollectErrors` | src/components/EnhancedLoginForm.jsx:79-95 | The `validateForm` loop records a field exactly when it is not `rememberMe` and its rule fails, and stores that rule's message. `isValid` holds exactly when the email and password rules both pass, which is exactly when the map is empty. |
| `Validation.CollectedErrorsAreFormErrors` | src/components/EnhancedLoginForm.jsx:79-95 | The map the loop builds is the map `FormErrors` describes. |
| `Lockout.InvBounds` | src/components/EnhancedLoginForm.jsx:16-22 | In every reachable state, 0 ≤ `loginAttempts` ≤ 5 and 0 ≤ `lockoutTime` ≤ 30, and a locked form has exactly 5 attempts. |
| `Lockout.StartLockout` | src/components/EnhancedLoginForm.jsx:110-112 | The lock is a reachable state exactly when the counter has reached 5, and then it is the fresh lockout: 5 attempts, locked, 30 seconds left. |
| `Lockout.Failed` | src/components/EnhancedLoginForm.jsx:158-166 | A rejection keeps the lockout invariant. What it does to the counter and the lock is stated in `FailuresLock` and `FifthFailureLocks`. |
| `Lockout.Succeeded` | src/components/EnhancedLoginForm.jsx:146 | An accepted login keeps the invariant and leaves the initial lockout state (no attempts, unlocked, no time left). |
| `Lockout.Tick` | src/components/EnhancedLoginForm.jsx:114-124 | One countdown step keeps the invariant. What the steps do to the time left and the lock is stated in `CountdownRuns` and `CountdownEnds`. |
| `Lockout.Attempt` | src/components/EnhancedLoginForm.jsx:130 | A valid submission keeps the invariant. That it is ignored while locked is stated in `LockedIgnoresFailures`. |
| `Lockout.CountdownRuns` | src/components/EnhancedLoginForm.jsx:114-124 | If fewer seconds pass than are left, the form stays locked, with one second less for each second passed. |
| `Lockout.CountdownEnds` | src/components/EnhancedLoginForm.jsx:116-120 | After exactly as many seconds as are left, the form is unlocked, the counter is 0 and no time is left. |
| `Lockout.ElapseSplit` | src/components/EnhancedLoginForm.jsx:114-124 | Letting a seconds pass and then b seconds is the same as letting a + b seconds pass. |
| `Lockout.LockoutLastsDuration` | src/components/EnhancedLoginForm.jsx:110-125 | A fresh lockout lasts 30 seconds: the form is still locked after 29 seconds and unlocked and cleared after 30. |
| `Lockout.FailuresLock` | src/components/EnhancedLoginForm.jsx:158-166 | Starting from an unlocked state with a attempts, k < 5 − a rejections leave the form unlocked with a + k attempts. Any k ≥ 5 − a rejections leave it freshly locked. |
| `Lockout.LockedIgnoresFailures` | src/components/EnhancedLoginForm.jsx:130 | While the form is locked, any number of submissions leaves the state unchanged. |
| `Lockout.FifthFailureLocks` | src/components/EnhancedLoginForm.jsx:161-163 | From the initial state, four rejections leave the form unlocked and the fifth locks it for 30 seconds. |
| `EnhancedLoginForm.SimulateLogin` | src/components/EnhancedLoginForm.jsx:97-106 | Only an email at least as long as "success" can be accepted. The full rule is in `SimulateLoginIff`. |
| `EnhancedLoginForm.SimulateLoginIff` | src/components/EnhancedLoginForm.jsx:101 | The simulated login succeeds exactly when "success" occurs, ignoring letter case, at some position of the email. |
| `EnhancedLoginForm.SimulateLoginIgnoresCase` | src/components/EnhancedLoginForm.jsx:101 | An email and its lower-cased form get the same verdict. |
| `EnhancedLoginForm.RemainingMessageReportsCount` | src/components/EnhancedLoginForm.jsx:165 | The rejection message is "Invalid email or password. ", then the printed number, then " attempts remaining." The part between holds only digits and reads back as the number of attempts left. |
| `EnhancedLoginForm.LockedMessageText` | src/components/EnhancedLoginForm.jsx:162 | The lock message, built from the lockout duration, reads "Too many failed attempts. Account locked for 30 seconds." |
| `EnhancedLoginForm.RemainingMessageInjective` | src/components/EnhancedLoginForm.jsx:165 | The rejection message reports the count: different numbers of remaining attempts give different messages. |
| `EnhancedLoginForm.TouchAll` | src/components/EnhancedLoginForm.jsx:132-135 | The `allTouched` loop marks every field of the form touched. |
| `EnhancedLoginForm.ValidFormHasNoErrors` | src/components/EnhancedLoginForm.jsx:83-93 | A form that passes validation stores an empty error map. |
| `EnhancedLoginForm.Form.constructor` | src/components/EnhancedLoginForm.jsx:5-19 | The initial state: empty form data, no errors, nothing touched, zero attempts, unlocked, no login error, not loading, not submitted. The class invariant holds. |
| `EnhancedLoginForm.Form.Change` | src/components/EnhancedLoginForm.jsx:24-45 | Only the named field's value changes, and the login error is cleared. The field's error is recomputed from the new value only if the field is touched, and every other error is unchanged. The invariant is kept, including "every error shown is the current verdict on the current value". |
| `EnhancedLoginForm.Form.Blur` | src/components/EnhancedLoginForm.jsx:47-60 | Marks only that field touched and sets only that field's error, from its current value. The invariant is kept. |
| `EnhancedLoginForm.Form.ValidateForm` | src/components/EnhancedLoginForm.jsx:79-95 | Replaces the errors with `FormErrors` of the current data and nothing else. Returns true exactly when both text fields pass. |
| `EnhancedLoginForm.Form.StartLockout` | src/components/EnhancedLoginForm.jsx:110-113 | Locks the form with `lockoutTime` = 30 and leaves the counter unchanged. |
| `EnhancedLoginForm.Form.Tick` | src/components/EnhancedLoginForm.jsx:114-124 | The new lockout state is `Lockout.Tick` of the old one. No other field changes, and the invariant is kept. |
| `EnhancedLoginForm.Form.Login` | src/components/EnhancedLoginForm.jsx:139-169 | The lockout state advances by `Attempt` with the simulated outcome: success clears the counter and sets `isSubmitted`. A rejection adds one attempt and either locks with the lockout message or reports `5 − attempts` remaining. `isLoading` ends false on both paths. |
| `EnhancedLoginForm.Form.Submit` | src/components/EnhancedLoginForm.jsx:127-171 | While locked, nothing changes. Otherwise every field is touched and the errors become `FormErrors`. An invalid form leaves the counter, the lock and the login error unchanged. A valid form goes through `Login`. The form data never changes, and the invariant is kept. |
| `EnhancedLoginForm.Form.ResetAfterSuccess` | src/components/EnhancedLoginForm.jsx:148-156 | After a success: the form data is back to empty, nothing is touched, `isSubmitted` is false, and the invariant is kept. |
| `EnhancedLoginForm.FailUntilLocked` | src/components/EnhancedLoginForm.jsx:127-171 | From the initial lockout state, five submissions of a valid form whose email the login rejects leave the form freshly locked (5 attempts, 30 seconds left) with the lock message shown. The form data is unchanged and the invariant is kept. |
| `EnhancedLoginForm.CountDown` | src/components/EnhancedLoginForm.jsx:114-124 | Running the countdown from a locked form takes exactly as many ticks as seconds were left. The form is still locked before each of those ticks, and it ends unlocked with the counter at 0. The form data is unchanged. |
| `EnhancedLoginForm.LockoutCycle` | src/components/EnhancedLoginForm.jsx:213-219 | With a valid form whose email the login rejects, five submissions lock the form (`FailUntilLocked`). Exactly 30 ticks then unlock it with the counter back at 0 (`CountDown`). |

## Left out

- Rendering: the JSX, the CSS classes, the alerts and the success screen (lines 173-320). They only display state.
- The password visibility toggle `showPassword` (lines 14, 261). It changes nothing but how the password input is displayed.
- Timing and concurrency. The 2-second delay of the simulated login, the 1-second interval and the 3-second reset become explicit steps (`Submit` runs the login to completion, `Tick`, `ResetAfterSuccess`), so no state exists in which the spinner is showing. React's batched, asynchronous state updates are treated as sequential assignments. The `loginAttempts` read at line 158 through the handler's closure is therefore the current value.
- `e.preventDefault()`, the reading of `e.target`, and the `console.log` at line 144: DOM plumbing and logging.
- Events are not restricted by the `disabled` attributes the inputs carry while loading or locked (lines 235, 257, 284, 301). The handlers are modelled as written.
- Preconditions from the render and the timers: `Change`, `Blur` and `Submit` require that the success screen is not showing, because the form is not rendered then (line 173). `ResetAfterSuccess` requires a success, because that is the only time its timer is set. `Tick` requires the lock, because the interval exists only while locked.
- `Blur` accepts the checkbox too. The checkbox has no `onBlur` handler (lines 278-285), so the component never calls it that way. Such a call would only mark the checkbox touched and store its empty error, and the invariant is kept.
- `Change` clears the login error unconditionally, where line 33 clears it only when it is set. The resulting state is the same.
- Field names: only the form's three inputs exist (`Field`), so "any other field name" in the default branch of `validateField` is the checkbox.
- `JsString.LowerChar`: folds only A–Z. For the one use the form makes of `toLowerCase` (testing for "success") this gives the same answer as full Unicode lower-casing. The only non-ASCII characters whose lower-case form holds an ASCII letter give "i" (U+0130) and "k" (U+212A), and "success" contains neither.
- Strings are sequences of Unicode scalar values. A JavaScript string holding a lone surrogate cannot be represented.
- `src/App.jsx` mounts a registration form rather than this one and holds an unused counter, so it adds no logic to model.
