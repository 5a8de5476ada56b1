/** The form checks of `src/pages/Auth.jsx`: the chain of guarded early returns in
    `handleSubmit` that sets one error message, and the login/signup toggle. */
module AuthPage {
  import opened Wrappers

  datatype LoginMethod = ByEmail | ByPhone

  /** The form fields, as the text inputs hold them. */
  datatype Form = Form(name: string, email: string, mobile: string, age: string,
                       gender: string, city: string, state: string, country: string)

  const NameMessage: string := "Please enter your name"
  const EmailMessage: string := "Please enter your email"
  const MobileMessage: string := "Please enter a valid mobile number"
  const AgeMessage: string := "Please enter your age"
  const GenderMessage: string := "Please select your gender"
  const CityMessage: string := "Please enter your city"
  const StateMessage: string := "Please enter your state"
  const CountryMessage: string := "Please enter your country"

  /** `s.length`: the number of UTF-16 code units, two for a character above U+FFFF. */
  function Utf16Length(s: string): (n: nat)
    ensures |s| <= n <= 2 * |s|
  {
    if s == [] then 0 else (if s[0] as int > 0xFFFF then 2 else 1) + Utf16Length(s[1..])
  }

  /** `!mobile || mobile.length < 10`. */
  predicate BadMobile(mobile: string) {
    mobile == "" || Utf16Length(mobile) < 10
  }

  /** The message `handleSubmit` sets, or `None` when every check passes. */
  function Validate(isLogin: bool, how: LoginMethod, f: Form): (r: Option<string>)
  {
    if isLogin then
      if how == ByEmail && f.email == "" then Some(EmailMessage)
      else if how == ByPhone && BadMobile(f.mobile) then Some(MobileMessage)
      else None
    else if f.name == "" then Some(NameMessage)
    else if f.email == "" then Some(EmailMessage)
    else if BadMobile(f.mobile) then Some(MobileMessage)
    else if f.age == "" then Some(AgeMessage)
    else if f.gender == "" then Some(GenderMessage)
    else if f.city == "" then Some(CityMessage)
    else if f.state == "" then Some(StateMessage)
    else if f.country == "" then Some(CountryMessage)
    else None
  }

  // ---------------------------------------------------------------------------
  // The signup order, stated as a list of checks

  /** A check that fails when `fails` holds, with the message it sets. */
  datatype Check = Check(fails: bool, message: string)

  function SignupChecks(f: Form): seq<Check> {
    [Check(f.name == "", NameMessage), Check(f.email == "", EmailMessage),
     Check(BadMobile(f.mobile), MobileMessage), Check(f.age == "", AgeMessage),
     Check(f.gender == "", GenderMessage), Check(f.city == "", CityMessage),
     Check(f.state == "", StateMessage), Check(f.country == "", CountryMessage)]
  }

  /** The message of the first failing check. */
  function FirstFailure(checks: seq<Check>): Option<string>
    decreases |checks|
  {
    if checks == [] then None
    else if checks[0].fails then Some(checks[0].message)
    else FirstFailure(checks[1..])
  }

  /** No message exactly when every check passes; otherwise the message is that of a
      failing check all of whose predecessors pass. */
  lemma {:induction false} FirstFailureSpec(checks: seq<Check>)
    ensures FirstFailure(checks).None? <==> forall k :: 0 <= k < |checks| ==> !checks[k].fails
    ensures FirstFailure(checks).Some? ==>
      exists k :: 0 <= k < |checks| && checks[k].fails && checks[k].message == FirstFailure(checks).value
                  && forall j :: 0 <= j < k ==> !checks[j].fails
    decreases |checks|
  {
    if checks != [] && !checks[0].fails {
      FirstFailureSpec(checks[1..]);
      assert forall k :: 1 <= k < |checks| ==> checks[k] == checks[1..][k - 1];
      if FirstFailure(checks).Some? {
        var k :| 0 <= k < |checks[1..]| && checks[1..][k].fails
          && checks[1..][k].message == FirstFailure(checks).value
          && forall j :: 0 <= j < k ==> !checks[1..][j].fails;
        assert checks[k + 1].fails;
      }
    }
  }

  /** Signup reports the first failing check in the order name, email, mobile, age,
      gender, city, state, country. */
  lemma SignupOrder(how: LoginMethod, f: Form)
    ensures Validate(false, how, f) == FirstFailure(SignupChecks(f))
  {
    var c := SignupChecks(f);
    FirstFailureStep(c, 0);
    FirstFailureStep(c, 1);
    FirstFailureStep(c, 2);
    FirstFailureStep(c, 3);
    SignupLaterChecks(f);
  }

  /** The last four checks: gender, city, state and country. */
  lemma SignupLaterChecks(f: Form)
    ensures FirstFailure(SignupChecks(f)[4..]) ==
      if f.gender == "" then Some(GenderMessage)
      else if f.city == "" then Some(CityMessage)
      else if f.state == "" then Some(StateMessage)
      else if f.country == "" then Some(CountryMessage)
      else None
  {
    var c := SignupChecks(f);
    FirstFailureStep(c, 4);
    FirstFailureStep(c, 5);
    FirstFailureStep(c, 6);
    FirstFailureStep(c, 7);
    assert c[8..] == [];
  }

  lemma FirstFailureStep(c: seq<Check>, i: nat)
    requires i < |c|
    ensures FirstFailure(c[i..]) == if c[i].fails then Some(c[i].message) else FirstFailure(c[i + 1..])
  {
    assert c[i..][1..] == c[i + 1..];
  }

  /** Signup goes ahead exactly when every field is filled and the number is long
      enough; its message is then that of the first field in the order that fails. */
  lemma SignupComplete(how: LoginMethod, f: Form)
    ensures Validate(false, how, f).None? <==>
      f.name != "" && f.email != "" && !BadMobile(f.mobile) && f.age != "" && f.gender != ""
      && f.city != "" && f.state != "" && f.country != ""
    ensures Validate(false, how, f).Some? ==>
      exists k :: (0 <= k < 8 && SignupChecks(f)[k].fails
                   && SignupChecks(f)[k].message == Validate(false, how, f).value
                   && forall j :: 0 <= j < k ==> !SignupChecks(f)[j].fails)
  {
    SignupOrder(how, f);
    FirstFailureSpec(SignupChecks(f));
    var c := SignupChecks(f);
    assert (forall k :: 0 <= k < |c| ==> !c[k].fails) ==>
      (!c[0].fails && !c[1].fails && !c[2].fails && !c[3].fails
       && !c[4].fails && !c[5].fails && !c[6].fails && !c[7].fails);
  }

  /** Email login: the only possible message is the email one, set exactly when the
      email is empty; the mobile number is not looked at. */
  lemma LoginByEmail(f: Form)
    ensures Validate(true, ByEmail, f) == if f.email == "" then Some(EmailMessage) else None
  {
  }

  /** Phone login: the mobile message is set exactly when the number is empty or
      shorter than ten; the email is not looked at. */
  lemma LoginByPhone(f: Form)
    ensures Validate(true, ByPhone, f) == if BadMobile(f.mobile) then Some(MobileMessage) else None
  {
  }

  /** A number with characters above U+FFFF can pass the length test with fewer than
      ten characters. */
  lemma MobileCountsCodeUnits()
    ensures !BadMobile("\U{1D7CE}\U{1D7CF}\U{1D7D0}\U{1D7D1}\U{1D7D2}")
  {
  }

  // ---------------------------------------------------------------------------
  // The page state

  /** The page's `isLogin`, `loginMethod`, `loading` and `error` state. */
  datatype PageState = PageState(isLogin: bool, loginMethod: LoginMethod, loading: bool, error: string)

  /** The page opens on email login, with no error and nothing loading. */
  const Initial: PageState := PageState(true, ByEmail, false, "")

  /** The synchronous part of `handleSubmit`: the error is cleared, then set by the
      first failing check; loading starts only when no check failed. */
  function Submit(st: PageState, f: Form): (r: PageState)
    ensures r.isLogin == st.isLogin && r.loginMethod == st.loginMethod
    ensures r.error == "" <==> Validate(st.isLogin, st.loginMethod, f).None?
    ensures r.error != "" ==> Some(r.error) == Validate(st.isLogin, st.loginMethod, f)
    ensures Validate(st.isLogin, st.loginMethod, f).None? ==> r.loading
    ensures Validate(st.isLogin, st.loginMethod, f).Some? ==> r.loading == st.loading
  {
    match Validate(st.isLogin, st.loginMethod, f)
    case Some(message) => st.(error := message)
    case None => st.(error := "", loading := true)
  }

  /** The "Sign Up" / "Login" link, disabled while loading: switches mode and clears
      the error. */
  function Toggle(st: PageState): (r: PageState)
    requires !st.loading
    ensures r.isLogin == !st.isLogin && r.error == ""
    ensures r.loginMethod == st.loginMethod && r.loading == st.loading
  {
    st.(isLogin := !st.isLogin, error := "")
  }

  /** Toggling twice returns to the same mode with the error cleared, and a submit in
      the new mode reports that mode's checks. */
  lemma ToggleTwice(st: PageState, f: Form)
    requires !st.loading
    ensures Toggle(Toggle(st)) == st.(error := "")
    ensures Submit(Toggle(st), f).error == Validate(!st.isLogin, st.loginMethod, f).GetOr("")
  {
  }
}
