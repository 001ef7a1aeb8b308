/**
 * The login screen's form: the component state `this.state`, the handlers
 * that change it, and the values `render` derives from it.
 *
 * `FormState` is `this.state`; each `this.setState({...})` is a record
 * update. `Step` gives the effect of one event on the state, exactly as the
 * handlers are written; the class `LogIn` performs the same updates in place
 * and its methods are proved against `Step`.
 *
 * `handleNextButton` shows the loader and, after a timer, asks the external
 * `logIn` action whether the current address and password are accepted. The
 * timer is not modelled: pressing the button and the arrival of the answer
 * are two events, and anything the user does in between is a sequence of
 * other events.
 */
module LogInScreen {
  import opened Sequences
  import opened JsText
  import opened EmailAddress
  import opened JsNumber

  /** `this.state` of the component. */
  datatype FormState = FormState(
    formValid: bool,
    validEmail: bool,
    emailAddress: string,
    password: string,
    validPassword: bool,
    loadingVisible: bool)

  /** The state the constructor sets. */
  const Initial := FormState(
    formValid := true,
    validEmail := false,
    emailAddress := "",
    password := "",
    validPassword := false,
    loadingVisible := false)

  /** The screen the successful login navigates to. */
  const AfterLogInRoute := "TurnOnNotification"

  /** What reaches the component: the two text inputs, the next button, the
      answer of the `logIn` action when the timer fires, and the close button
      of the error notification. */
  datatype Event =
    | EmailChanged(email: string)
    | PasswordChanged(text: string)
    | NextButtonPressed
    | LogInAnswered(accepted: bool)
    | NotificationClosed

  /** The test `password <= 4` of `handlePasswordChange`, which compares the
      string itself, converted to a number, with 4. */
  predicate AtMostFour(password: string)
  {
    LessOrEqual(StringToNumber(password), 4.0)
  }

  /** The effect of one event on the state, branch by branch as the handlers
      are written. The text fields and their flags change only on their own
      input event, the input events touch neither `formValid` nor the
      loader, and an e-mail change leaves the flag equal to the check on the
      new text whichever branch it takes. */
  function Step(s: FormState, e: Event): (r: FormState)
    ensures !e.EmailChanged? ==> r.emailAddress == s.emailAddress && r.validEmail == s.validEmail
    ensures !e.PasswordChanged? ==> r.password == s.password && r.validPassword == s.validPassword
    ensures e.EmailChanged? || e.PasswordChanged? ==>
              r.formValid == s.formValid && r.loadingVisible == s.loadingVisible
    ensures e.EmailChanged? ==> r.emailAddress == e.email && r.validEmail == IsEmail(e.email)
    ensures e.PasswordChanged? ==> r.password == e.text
  {
    match e
    case EmailChanged(email) =>
      var t := s.(emailAddress := email);
      if !s.validEmail then
        if IsEmail(email) then t.(validEmail := true) else t
      else
        if !IsEmail(email) then t.(validEmail := false) else t
    case PasswordChanged(p) =>
      var t := s.(password := p);
      if !s.validPassword then
        if Utf16Length(p) > 4 then t.(validPassword := true) else t
      else if AtMostFour(p) then t.(validPassword := false)
      else t
    case NextButtonPressed =>
      s.(loadingVisible := true)
    case LogInAnswered(accepted) =>
      if accepted then s.(formValid := true, loadingVisible := false)
      else s.(formValid := false, loadingVisible := false)
    case NotificationClosed =>
      s.(formValid := true)
  }

  /** Where an event navigates to: only an accepted login does. */
  function Navigation(e: Event): Option<string>
  {
    if e == LogInAnswered(true) then Some(AfterLogInRoute) else None
  }

  /** The state after a sequence of events, first event first. */
  function Run(s: FormState, events: seq<Event>): FormState
    decreases |events|
  {
    if events == [] then s else Run(Step(s, events[0]), events[1..])
  }

  /** `toggleNextButtonState`: the next button's `disabled` property. */
  function NextButtonDisabled(s: FormState): bool
  {
    !(s.validEmail && s.validPassword)
  }

  /** `showNotification` in `render`. */
  function ShowNotification(s: FormState): bool
  {
    !s.formValid
  }

  /** `notificationMarginTop` in `render`. */
  function NotificationMarginTop(s: FormState): int
  {
    if ShowNotification(s) then 10 else 0
  }

  // ---------------------------------------------------------------------
  // One event at a time.

  /** The screen opens with the next button disabled and no notification. */
  lemma InitialView()
    ensures NextButtonDisabled(Initial)
    ensures !ShowNotification(Initial) && NotificationMarginTop(Initial) == 0
    ensures !Initial.loadingVisible
  {
  }

  /** The two-branch update of `validEmail` amounts to re-checking the new
      text: whatever the flag was, it ends equal to the check, and only the
      address and the flag change. */
  lemma EmailChangeRechecks(s: FormState, email: string)
    ensures Step(s, EmailChanged(email)) == s.(emailAddress := email, validEmail := IsEmail(email))
  {
  }

  /** An address that stops matching clears the flag at once: the flag has
      no memory of earlier valid input. */
  lemma EmailFlagDropsImmediately(s: FormState, email: string)
    requires s.validEmail && '@' !in email
    ensures !Step(s, EmailChanged(email)).validEmail
  {
    MissingAtRejected(email);
  }

  /** From an invalid password, the flag is set exactly when the new text is
      longer than four UTF-16 code units. */
  lemma PasswordFromInvalid(s: FormState, p: string)
    requires !s.validPassword
    ensures Step(s, PasswordChanged(p)) == s.(password := p, validPassword := Utf16Length(p) > 4)
  {
  }

  /** From a valid password, the flag is cleared exactly when the new text,
      read as a number, is at most 4; its length plays no part. */
  lemma PasswordFromValid(s: FormState, p: string)
    requires s.validPassword
    ensures Step(s, PasswordChanged(p)) == s.(password := p, validPassword := !AtMostFour(p))
  {
  }

  /** From an invalid password, `abcd` keeps it invalid and `abcde` makes it
      valid. */
  lemma PasswordLengthSamples(s: FormState, four: string, five: string)
    requires !s.validPassword
    requires four == "abcd" && five == "abcde"
    ensures !Step(s, PasswordChanged(four)).validPassword
    ensures Step(s, PasswordChanged(five)).validPassword
  {
    assert Utf16Length(four) == 4;
    assert Utf16Length(five) == 5;
  }

  /** From a valid password, the numeral of a number up to 4 clears the flag
      and the numeral of a larger number, however short, keeps it. */
  lemma NumeralPassword(s: FormState, n: nat)
    requires s.validPassword
    ensures Step(s, PasswordChanged(DecimalString(n))).validPassword <==> n > 4
  {
    DecimalRoundTrip(n);
  }

  /** From a valid password, blank text clears the flag (it reads as 0). */
  lemma BlankPasswordRevokes(s: FormState, p: string)
    requires s.validPassword && AllSpace(p)
    ensures !Step(s, PasswordChanged(p)).validPassword
  {
  }

  /** From a valid password, text with no digit and no `I` (`ab`, say) reads
      as NaN, so the flag stays set whatever its length. */
  lemma NonNumericPasswordKeeps(s: FormState, p: string)
    requires s.validPassword && !AllSpace(p)
    requires forall i :: 0 <= i < |p| ==> !IsDecimalDigit(p[i]) && p[i] != 'I'
    ensures Step(s, PasswordChanged(p)).validPassword
  {
    NoDigitIsNaN(p);
  }

  /** From a valid password, `"3"` clears the flag although it is one
      character long. */
  lemma ShortNumeralRevokes(s: FormState, three: string)
    requires s.validPassword && three == "3"
    ensures !Step(s, PasswordChanged(three)).validPassword
  {
    assert three == DecimalString(3);
    NumeralPassword(s, 3);
  }

  /** From a valid password, `"ab"` keeps the flag although it is two
      characters long. */
  lemma ShortWordKeeps(s: FormState, ab: string)
    requires s.validPassword && ab == "ab"
    ensures Step(s, PasswordChanged(ab)).validPassword
  {
    assert !AllSpace(ab) by { assert !IsSpace(ab[0]); }
    NonNumericPasswordKeeps(s, ab);
  }

  /** `"00003"` flips the flag either way: five characters set an invalid
      flag, and the value 3 clears a valid one. */
  lemma LeadingZerosPassword(s: FormState, p: string)
    requires p == "00003"
    ensures Step(s, PasswordChanged(p)).validPassword == !s.validPassword
  {
    LeadingZerosSample(p);
    assert Utf16Length(p) == 5;
  }

  /** From a valid password, `"4.5"` keeps the flag: it reads as a number
      above 4. */
  lemma FractionPasswordKeeps(s: FormState, p: string)
    requires s.validPassword && p == "4.5"
    ensures Step(s, PasswordChanged(p)).validPassword
  {
    FractionSample(p);
  }

  /** Pressing the button, the login answer and closing the notification
      leave the address, the password and both flags as they were, so the
      next button's state does not depend on the loader or the notification. */
  lemma SubmitKeepsFields(s: FormState, e: Event)
    requires e.NextButtonPressed? || e.LogInAnswered? || e.NotificationClosed?
    ensures Step(s, e).emailAddress == s.emailAddress && Step(s, e).password == s.password
    ensures Step(s, e).validEmail == s.validEmail && Step(s, e).validPassword == s.validPassword
    ensures NextButtonDisabled(Step(s, e)) == NextButtonDisabled(s)
  {
  }

  /** The answer of `logIn` hides the loader, sets `formValid` to the answer,
      shows the error notification (10 units down) exactly when it is a
      refusal, and navigates exactly when it is an acceptance. */
  lemma LogInOutcome(s: FormState, accepted: bool)
    ensures !Step(s, LogInAnswered(accepted)).loadingVisible
    ensures Step(s, LogInAnswered(accepted)).formValid == accepted
    ensures ShowNotification(Step(s, LogInAnswered(accepted))) == !accepted
    ensures NotificationMarginTop(Step(s, LogInAnswered(accepted))) == if accepted then 0 else 10
    ensures Navigation(LogInAnswered(accepted)) == if accepted then Some(AfterLogInRoute) else None
  {
  }

  /** Closing the notification hides it and changes nothing else. */
  lemma CloseHidesNotification(s: FormState)
    ensures Step(s, NotificationClosed) == s.(formValid := true)
    ensures !ShowNotification(Step(s, NotificationClosed))
    ensures NotificationMarginTop(Step(s, NotificationClosed)) == 0
  {
  }

  // ---------------------------------------------------------------------
  // Whole sessions.

  predicate EmailFlagCurrent(s: FormState)
  {
    s.validEmail == IsEmail(s.emailAddress)
  }

  lemma EmailFlagCurrentStep(s: FormState, e: Event)
    requires EmailFlagCurrent(s)
    ensures EmailFlagCurrent(Step(s, e))
  {
    match e
    case EmailChanged(email) => EmailChangeRechecks(s, email);
    case PasswordChanged(p) =>
    case NextButtonPressed =>
    case LogInAnswered(accepted) =>
    case NotificationClosed =>
  }

  lemma {:induction false} EmailFlagCurrentPreserved(s: FormState, events: seq<Event>)
    requires EmailFlagCurrent(s)
    ensures EmailFlagCurrent(Run(s, events))
    decreases |events|
  {
    if events != [] {
      EmailFlagCurrentStep(s, events[0]);
      EmailFlagCurrentPreserved(Step(s, events[0]), events[1..]);
    }
  }

  /** In every session, the e-mail check mark shows exactly when the text in
      the field has the shape of an address. */
  lemma EmailFlagAlwaysCurrent(events: seq<Event>)
    ensures Run(Initial, events).validEmail == IsEmail(Run(Initial, events).emailAddress)
  {
    MissingAtRejected("");
    EmailFlagCurrentPreserved(Initial, events);
  }

  /** What the password text alone decides about the flag: a text longer
      than four code units that does not read as a number up to 4 always has
      the flag set, and a text of at most four code units that reads as a
      number up to 4 never has it. Any other text (`ab`, `00003`) may have
      either, depending on what was typed before. */
  predicate PasswordFlagBounded(s: FormState)
  {
    (Utf16Length(s.password) > 4 && !AtMostFour(s.password) ==> s.validPassword) &&
    (Utf16Length(s.password) <= 4 && AtMostFour(s.password) ==> !s.validPassword)
  }

  lemma PasswordFlagBoundedOnChange(s: FormState, p: string)
    requires PasswordFlagBounded(s)
    ensures PasswordFlagBounded(Step(s, PasswordChanged(p)))
  {
    if s.validPassword {
      PasswordFromValid(s, p);
    } else {
      PasswordFromInvalid(s, p);
    }
  }

  lemma PasswordFlagBoundedStep(s: FormState, e: Event)
    requires PasswordFlagBounded(s)
    ensures PasswordFlagBounded(Step(s, e))
  {
    match e
    case EmailChanged(email) => EmailChangeRechecks(s, email);
    case PasswordChanged(p) => PasswordFlagBoundedOnChange(s, p);
    case NextButtonPressed =>
    case LogInAnswered(accepted) =>
    case NotificationClosed =>
  }

  lemma {:induction false} PasswordFlagBoundedPreserved(s: FormState, events: seq<Event>)
    requires PasswordFlagBounded(s)
    ensures PasswordFlagBounded(Run(s, events))
    decreases |events|
  {
    if events != [] {
      PasswordFlagBoundedStep(s, events[0]);
      PasswordFlagBoundedPreserved(Step(s, events[0]), events[1..]);
    }
  }

  /** In every session the password flag stays within those bounds. */
  lemma PasswordFlagAlwaysBounded(events: seq<Event>)
    ensures PasswordFlagBounded(Run(Initial, events))
  {
    PasswordFlagBoundedPreserved(Initial, events);
  }

  /** The flag can be stale: typing `abcde` and then `ab` leaves a two-letter
      password marked valid. */
  lemma PasswordFlagCanBeStale(long: string, short: string)
    requires long == "abcde" && short == "ab"
    ensures Run(Initial, [PasswordChanged(long), PasswordChanged(short)]).validPassword
    ensures Utf16Length(Run(Initial, [PasswordChanged(long), PasswordChanged(short)]).password) == 2
  {
    var events := [PasswordChanged(long), PasswordChanged(short)];
    var s1 := Step(Initial, events[0]);
    PasswordFromInvalid(Initial, long);
    assert Utf16Length(long) == 5;
    var s2 := Step(s1, events[1]);
    assert !AllSpace(short) by { assert !IsSpace(short[0]); }
    NonNumericPasswordKeeps(s1, short);
    assert Utf16Length(short) == 2;
    assert events[1..][1..] == [];
    assert Run(Initial, events) == Run(s1, events[1..]) == Run(s2, []);
  }

  // ---------------------------------------------------------------------
  // The component.

  class LogIn {
    var state: FormState

    constructor ()
      ensures state == Initial
    {
      state := Initial;
    }

    /** `handleEmailChange`. `this.state` still holds the previous state when
        the handler reads it, since React applies `setState` later; the
        first update does not touch `validEmail`, so the order is immaterial. */
    method HandleEmailChange(email: string)
      modifies this
      ensures state == Step(old(state), EmailChanged(email))
      ensures state == old(state).(emailAddress := email, validEmail := IsEmail(email))
    {
      var wasValid := state.validEmail;
      state := state.(emailAddress := email);
      if !wasValid {
        if IsEmail(email) {
          state := state.(validEmail := true);
        }
      } else {
        if !IsEmail(email) {
          state := state.(validEmail := false);
        }
      }
    }

    /** `handlePasswordChange`. */
    method HandlePasswordChange(password: string)
      modifies this
      ensures state == Step(old(state), PasswordChanged(password))
      ensures state.password == password
      ensures !old(state).validPassword ==> state.validPassword == (Utf16Length(password) > 4)
      ensures old(state).validPassword ==> state.validPassword == !AtMostFour(password)
    {
      var wasValid := state.validPassword;
      state := state.(password := password);
      if !wasValid {
        if Utf16Length(password) > 4 {
          state := state.(validPassword := true);
        }
      } else if AtMostFour(password) {
        state := state.(validPassword := false);
      }
    }

    /** The first half of `handleNextButton`: show the loader and start the
        timer. */
    method HandleNextButton()
      modifies this
      ensures state == Step(old(state), NextButtonPressed)
      ensures state == old(state).(loadingVisible := true)
    {
      state := state.(loadingVisible := true);
    }

    /** The timer callback of `handleNextButton`: ask `logIn` about the
        address and password held now, record the answer and hide the
        loader; on acceptance, return the screen to navigate to. */
    method CompleteLogIn(logIn: (string, string) -> bool) returns (route: Option<string>)
      modifies this
      ensures var accepted := logIn(old(state).emailAddress, old(state).password);
              state == Step(old(state), LogInAnswered(accepted)) &&
              route == Navigation(LogInAnswered(accepted))
      ensures state == old(state).(formValid := state.formValid, loadingVisible := false)
      ensures route.Some? <==> state.formValid
      ensures route.Some? ==> route.value == AfterLogInRoute
    {
      var emailAddress, password := state.emailAddress, state.password;
      if logIn(emailAddress, password) {
        state := state.(formValid := true, loadingVisible := false);
        route := Some(AfterLogInRoute);
      } else {
        state := state.(formValid := false, loadingVisible := false);
        route := None;
      }
    }

    /** `handleCloseNotification`. */
    method HandleCloseNotification()
      modifies this
      ensures state == Step(old(state), NotificationClosed)
      ensures state == old(state).(formValid := true)
    {
      state := state.(formValid := true);
    }
  }
}
