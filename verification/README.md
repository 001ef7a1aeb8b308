# Login form of the onboarding app, in Dafny

This project models the login screen `src/screens/LogIn.js` of a React Native
onboarding app. The screen is a small state machine over six fields of the
component state: `formValid`, `validEmail`, `emailAddress`, `password`,
`validPassword` and `loadingVisible`. Five things drive it:

- the e-mail field, checked against a fixed regular expression;
- the password field;
- the next button, which shows a loader and later gets the answer of the
  external `logIn` action;
- that answer, which may navigate to `TurnOnNotification`;
- the close button of the error notification.

The next button's `disabled` flag, the notification's visibility and its top
margin are derived from the state.

Files:

- `log_in.dfy` (module `LogInScreen`) holds the following:
  - `FormState`, the component state.
  - `Step`, the effect of one event as the handlers are written.
  - `Run`, a whole session.
  - The derived view values.
  - The class `LogIn`. Its methods update the state in place and are proved
    against `Step`.
  - Lemmas about single events and about every session.
- `email_address.dfy` (module `EmailAddress`) holds two readings of the
  e-mail expression:
  - `MatchesEmailPattern`, the expression's language read off its structure:
    there is some way to cut the string into the pieces.
  - `IsEmail`, a recogniser that cuts at the last `@` and splits each side at
    its dots.

  A lemma proves the two agree on every string. Sample addresses are accepted
  and rejected as stated.
- `js_number.dfy` (module `JsNumber`) holds the JavaScript string-to-number
  conversion. The test `password <= 4` applies it to the password text. The
  module follows the StringToNumber operation of ECMA-262 (section 7.1.4.1.1,
  with the StringNumericLiteral grammar of section 7.1.4.1), and its
  comparison follows section 7.2.13 (IsLessThan). A comparison with NaN is
  false.
- `js_text.dfy` (module `JsText`) holds:
  - the `\s` character class, written out as an explicit set;
  - trimming;
  - `length` in UTF-16 code units.
- `sequences.dfy` (module `Sequences`) holds `Option`, and splitting and
  joining at a separator character, with their inverse lemmas.

The two branches at lines 80-88 look like a latch, but they are not one.
When the flag is false, it is set if the text matches. When it is true, it is
cleared if the text does not match. Either way the flag ends equal to the
check on the new text (`EmailChangeRechecks`), and in every session it tracks
the field exactly (`EmailFlagAlwaysCurrent`).

The password downgrade also follows the code, quirk included. The comment
on line 94 speaks of length, but line 97 compares the text itself with 4.
JavaScript converts the text to a number for that comparison. So `""` and
`"3"` clear a valid flag, while `"ab"` converts to NaN and keeps it.

## Model

| member | source | states |
|---|---|---|
| LogInScreen.Step | src/screens/LogIn.js:59-100 | One event's effect, branch by branch as the handlers are written. Each text field and its flag change only on their own input event. The input events leave `formValid` and the loader alone. An e-mail change sets the address and leaves the flag equal to the check on the new text; a password change sets the password. |
| LogInScreen.AtMostFour | src/screens/LogIn.js:97 | `password <= 4`: the text converted by `StringToNumber`, compared with 4, false for NaN. Its behaviour is stated by `NumeralPassword`, `BlankPasswordRevokes`, `NonNumericPasswordKeeps` and the password samples. |
| LogInScreen.Navigation | src/screens/LogIn.js:64-66 | Only an accepted login navigates, and only to `TurnOnNotification`. This is stated in `LogInOutcome` and in `CompleteLogIn`'s contract. |
| LogInScreen.NextButtonDisabled | src/screens/LogIn.js:102-105 | `!(validEmail && validPassword)`. `InitialView` shows it starts true, and `SubmitKeepsFields` shows only the two text events can change it. |
| LogInScreen.ShowNotification | src/screens/LogIn.js:109 | `!formValid`. `LogInOutcome` and `CloseHidesNotification` state when it holds. |
| LogInScreen.NotificationMarginTop | src/screens/LogIn.js:111 | 10 while the notification shows, else 0. `InitialView`, `LogInOutcome` and `CloseHidesNotification` state its value. |
| LogInScreen.InitialView | src/screens/LogIn.js:44-51 | The initial state has the next button disabled. It shows no notification, with margin 0, and no loader. |
| LogInScreen.LogIn.constructor | src/screens/LogIn.js:42-51 | The new component's state is `formValid` true, both flags false, both texts empty and the loader hidden. |
| LogInScreen.LogIn.HandleEmailChange | src/screens/LogIn.js:77-89 | The address becomes the new text. `validEmail` becomes whether that text matches, whatever it was before. Nothing else changes. |
| LogInScreen.EmailChangeRechecks | src/screens/LogIn.js:79-88 | The two-branch update equals plain re-derivation: address := text and flag := match, from any state. |
| LogInScreen.EmailFlagDropsImmediately | src/screens/LogIn.js:84-87 | A valid flag is cleared by the first text without `@`. The flag keeps no memory of earlier valid input. |
| LogInScreen.EmailFlagAlwaysCurrent | src/screens/LogIn.js:77-89 | After any sequence of events from the initial state, `validEmail` is exactly whether the current address matches. |
| LogInScreen.LogIn.HandlePasswordChange | src/screens/LogIn.js:91-100 | The password becomes the new text. From invalid, the flag becomes length > 4 in UTF-16 units. From valid, it becomes "the text does not read as a number at most 4". |
| LogInScreen.PasswordFromInvalid | src/screens/LogIn.js:92-96 | From an invalid flag, only the password and the flag change, and the flag is set exactly when the length exceeds 4. |
| LogInScreen.PasswordLengthSamples | src/screens/LogIn.js:94-95 | From an invalid flag, `abcd` leaves it invalid and `abcde` sets it. |
| LogInScreen.PasswordFromValid | src/screens/LogIn.js:97-99 | From a valid flag, only the password and the flag change. The flag is cleared exactly when the text reads as a number at most 4, and the length plays no part. |
| LogInScreen.NumeralPassword | src/screens/LogIn.js:97-98 | From a valid flag, the decimal numeral of n clears it iff n <= 4. |
| LogInScreen.BlankPasswordRevokes | src/screens/LogIn.js:97-98 | From a valid flag, an empty or all-`\s` text clears it, because it reads as 0. |
| LogInScreen.ShortNumeralRevokes | src/screens/LogIn.js:97-98 | From a valid flag, `"3"` clears it. |
| LogInScreen.NonNumericPasswordKeeps | src/screens/LogIn.js:97-99 | From a valid flag, a non-blank text with no digit and no `I` reads as NaN and keeps the flag, whatever its length. |
| LogInScreen.ShortWordKeeps | src/screens/LogIn.js:97-99 | From a valid flag, `"ab"` keeps it. |
| LogInScreen.LeadingZerosPassword | src/screens/LogIn.js:93-99 | `"00003"` flips the flag either way. From invalid it is set, by the length. From valid it is cleared, by the value 3. |
| LogInScreen.FractionPasswordKeeps | src/screens/LogIn.js:97-99 | From a valid flag, `"4.5"` keeps it, since it reads as a number above 4. |
| LogInScreen.PasswordFlagAlwaysBounded | src/screens/LogIn.js:91-100 | In every session, a password longer than 4 units that does not read as a number <= 4 has the flag set. One of at most 4 units that reads as a number <= 4 has it clear. |
| LogInScreen.PasswordFlagCanBeStale | src/screens/LogIn.js:93-99 | Typing `abcde` then `ab` leaves a 2-unit password marked valid. |
| LogInScreen.SubmitKeepsFields | src/screens/LogIn.js:102-105 | Pressing next, the login answer and closing the notification keep both texts and both flags. So `disabled`, which is `!(validEmail && validPassword)`, does not change with the loader or `formValid`. |
| LogInScreen.LogIn.HandleNextButton | src/screens/LogIn.js:59-60 | Submit-start sets `loadingVisible` and nothing else. |
| LogInScreen.LogIn.CompleteLogIn | src/screens/LogIn.js:62-70 | Completion asks `logIn` with the current address and password. It hides the loader, sets `formValid` to the answer and keeps every other field. It returns `TurnOnNotification` exactly when the answer is true. |
| LogInScreen.LogInOutcome | src/screens/LogIn.js:63-69 | After the answer, the loader is hidden and `formValid` equals the answer. The notification shows, with margin 10, exactly on refusal (else margin 0). Only an acceptance navigates, to `TurnOnNotification`. |
| LogInScreen.LogIn.HandleCloseNotification | src/screens/LogIn.js:73-75 | Closing sets `formValid` and nothing else. |
| LogInScreen.CloseHidesNotification | src/screens/LogIn.js:73-75 | After closing, the state differs only in `formValid` = true, the notification is hidden and its margin is 0. |
| EmailAddress.IsEmail | src/screens/LogIn.js:78 | `emailCheckRegex.test`: cut at the last `@`, then split the local part and the domain at their dots. `IsEmailMatchesPattern` proves it equal to the expression's language. |
| EmailAddress.MatchesEmailPattern | src/screens/LogIn.js:78 | The expression's language read off its structure: some `@` splits the string into a dot-atom or quoted local part and an address-literal or host-name domain. |
| EmailAddress.IsEmailMatchesPattern | src/screens/LogIn.js:78 | The recogniser accepts exactly the strings the expression's structure admits (both directions). |
| EmailAddress.IsEmailSound | src/screens/LogIn.js:78 | Every accepted string has a cut into local part, `@` and domain that the expression admits. |
| EmailAddress.IsEmailComplete | src/screens/LogIn.js:78 | Every string the expression admits is accepted, so cutting at the last `@` loses nothing. |
| EmailAddress.DotAtomIff | src/screens/LogIn.js:78 | Splitting at dots decides `atom(.atom)*`. |
| EmailAddress.AddressLiteralIff | src/screens/LogIn.js:78 | Splitting inside the brackets decides the four 1-3 digit parts. |
| EmailAddress.HostNameIff | src/screens/LogIn.js:78 | Splitting at dots decides `(label.)+` followed by at least two letters. |
| EmailAddress.DomainHasNoAt | src/screens/LogIn.js:78 | No domain the expression admits contains `@`. |
| EmailAddress.MissingAtRejected | src/screens/LogIn.js:78 | A string without `@` is rejected. |
| EmailAddress.ShortTopLabelRejected | src/screens/LogIn.js:78 | A string whose second-to-last character is a dot is rejected: the final label is shorter than 2 letters. |
| EmailAddress.EmptyAtomRejected | src/screens/LogIn.js:78 | An unquoted local part with two dots in a row is rejected, whatever the domain. |
| EmailAddress.AcceptsHostNameExample | src/screens/LogIn.js:78 | `user@example.com` is accepted. |
| EmailAddress.AcceptsAddressLiteralExample | src/screens/LogIn.js:78 | `a@[1.2.3.4]` is accepted. |
| EmailAddress.RejectsExamples | src/screens/LogIn.js:78 | `a@b.c`, `a..b@x.com` and `userexample.com` are rejected. |
| EmailAddress.HostNameExample | src/screens/LogIn.js:78 | `example.com` is a host name. |
| EmailAddress.AddressLiteralExample | src/screens/LogIn.js:78 | `[1.2.3.4]` is an address literal. |
| EmailAddress.LettersAreLocalPart | src/screens/LogIn.js:78 | A non-empty run of ASCII letters is a local part. |
| JsNumber.NumeralValue | src/screens/LogIn.js:97 | The StringNumericLiteral grammar applied to trimmed text. Empty text is 0. Then a `0x`/`0o`/`0b` integer, a signed or an unsigned decimal literal; anything else is NaN. The convert lemmas and samples below state its values. |
| JsNumber.StringToNumber | src/screens/LogIn.js:97 | Converting an empty or all-`\s` string gives 0. |
| JsNumber.LessOrEqual | src/screens/LogIn.js:97 | A comparison with NaN is false. |
| JsNumber.DecimalRoundTrip | src/screens/LogIn.js:97 | The decimal numeral of n converts to exactly n. |
| JsNumber.DigitsConvert | src/screens/LogIn.js:97 | Any run of decimal digits converts to its value, with leading zeros ignored rather than read as octal. |
| JsNumber.LeadingZeroSample | src/screens/LogIn.js:97 | `"010"` converts to 10. |
| JsNumber.LeadingZerosSample | src/screens/LogIn.js:97 | `"00003"` converts to 3. |
| JsNumber.ConvertsTrimmed | src/screens/LogIn.js:97 | The conversion depends only on the trimmed text. |
| JsNumber.PaddedSample | src/screens/LogIn.js:97 | `" 3 "` converts to 3. |
| JsNumber.SignedDigitsConvert | src/screens/LogIn.js:97 | `-` or `+` followed by digits converts to the signed value of the digits. |
| JsNumber.NegativeSample | src/screens/LogIn.js:97 | `"-1"` converts to -1. |
| JsNumber.PositiveSample | src/screens/LogIn.js:97 | `"+7"` converts to 7. |
| JsNumber.UnsignedFraction | src/screens/LogIn.js:97 | The unsigned literal `a.b` reads as a plus b shifted right by its number of digits. |
| JsNumber.FractionConvert | src/screens/LogIn.js:97 | The text `a.b` of digits converts to a plus b shifted right by its number of digits. |
| JsNumber.FractionSample | src/screens/LogIn.js:97 | `"4.5"` converts to 4.5. |
| JsNumber.UnsignedExponent | src/screens/LogIn.js:97 | The unsigned literal made of digits a, the letter `e` and digits b reads as a times 10^b. |
| JsNumber.ExponentConvert | src/screens/LogIn.js:97 | The text made of digits a, the letter `e` and digits b converts to a times 10^b. |
| JsNumber.ExponentSample | src/screens/LogIn.js:97 | `"1e1"` converts to 10. |
| JsNumber.NonDecimalConvert | src/screens/LogIn.js:97 | A `0x`, `0o` or `0b` integer without `\s` converts to its value in that radix. |
| JsNumber.HexSample | src/screens/LogIn.js:97 | `"0x1f"` converts to 31. |
| JsNumber.NoDigitIsNaN | src/screens/LogIn.js:97 | A non-blank string with no decimal digit and no `I` converts to NaN. |
| JsText.Trim | src/screens/LogIn.js:97 | The trimmed text is a contiguous piece `s[lo..hi]` of the text, with only `\s` before `lo` and after `hi`. It neither starts nor ends with `\s`, so it is empty iff the text is all `\s`. |
| JsText.TrimIdempotent | src/screens/LogIn.js:97 | Trimming a trimmed text changes nothing. |
| JsText.TrimSample | src/screens/LogIn.js:97 | `" 3 "` trims to `"3"`. |
| JsText.Utf16Length | src/screens/LogIn.js:94 | `length` lies between the number of code points and twice that, and equals it when every code point is in the BMP. |

## Left out

- The heading font size (`androidSize()` and `headingTextSize`, lines 15-22) is left out. It depends on a device query and affects layout only.
- Rendering is left out: the JSX tree, `StyleSheet` objects, colours (including the background chosen at line 110) and the `navigationOptions` header buttons. This is presentation, with no decision logic.
- The two-second `setTimeout` in `handleNextButton` is left out. Start and completion are two separate events (`NextButtonPressed`, `LogInAnswered`). Any events in between are simply events before the answer, and there is no timing or concurrency. Nothing stops a second press while the loader is up, and the source has no guard either.
- `logIn` is not modelled: the redux action and `connect`/`mapStateToProps`/`mapDispatchToProps` (lines 64, 197-203). It is a parameter of `CompleteLogIn` (a function of the address and password), and its answer is the boolean of `LogInAnswered`. Navigation is returned as a route name rather than performed.
- The `console.log` at line 112 is left out; it is a side effect with no behaviour.
- The screen the app shows after navigation is left out; this model ends at the route name.
- JsNumber.StringToNumber: the value is exact (a `real`), not rounded to IEEE 754 binary64. The comparison with 4 can differ only for numerals within rounding distance of 4, such as `4.0000000000000001`, which JavaScript reads as 4.
- JsText.IsSpace: the `\s` class is the fixed set of WhiteSpace and LineTerminator code points (Unicode category Zs plus TAB, VT, FF, NBSP, ZWNBSP, LF, CR, LS, PS). It does not follow later Unicode versions.
- The email expression is read with the string taken as code points, not UTF-16 units. Every class in it treats both halves of a surrogate pair as it treats the code point they encode, so the two readings accept the same strings.
- React batches `setState` calls and applies them after the handler returns. Each handler's calls are applied in order as one update. This matters nowhere, because the handlers read only the flags, which their first `setState` does not change.
