/**
 * The sign-up form: the ordered checks, the account creation, and the
 * profile row written for the new account.
 */
module SignUp {
  import opened Common
  import opened Store
  import opened Forms
  import opened ProfilePage

  datatype SignUpForm = SignUpForm(email: string, password: string, repeatPassword: string, fullName: string, career: string)

  /** The form's checks in order: the password pair, then name and career. */
  function Validate(f: SignUpForm): (r: Option<string>)
    ensures r.None? <==> CheckPasswords(f.password, f.repeatPassword).None? && CheckIdentity(f.fullName, f.career).None?
    ensures f.password != f.repeatPassword ==> r == Some(MsgPasswordsDiffer)
    ensures CheckPasswords(f.password, f.repeatPassword).None? ==> r == CheckIdentity(f.fullName, f.career)
  {
    var pw := CheckPasswords(f.password, f.repeatPassword);
    if pw.Some? then pw else CheckIdentity(f.fullName, f.career)
  }

  /**
   * What the auth provider and the database answer: the sign-up error, if
   * any; the created user (null when, for instance, the address must be
   * confirmed first); whether the profile upsert succeeds.
   */
  datatype AuthEnv = AuthEnv(signUpError: Option<string>, newUser: Option<UserId>, upsertOk: bool)

  datatype Outcome = Outcome(
    error: Option<string>,
    isLoading: bool,
    signUpCalled: bool,
    profiles: map<UserId, Profile>,
    navigated: bool)

  /** The profile row the sign-up writes: the form's name and career, no avatar, counters at zero. */
  function NewProfile(user: UserId, f: SignUpForm): (r: Profile)
    ensures r.id == user && r.fullName == Some(f.fullName) && r.career == Some(f.career)
    ensures r.avatarUrl.None?
    ensures r.booksRead == Some(0) && r.hoursReading == Some(0) && r.favorites == Some(0)
  {
    Profile(user, Some(f.fullName), Some(f.career), None, Some(0), Some(0), Some(0))
  }

  /**
   * `handleSignUp`: a failed check shows its message, clears the busy flag
   * and calls nothing. Otherwise the account is requested; an error shows
   * its message. With a user, the profile is upserted, and the page moves on
   * to the profile even when the upsert failed (its error is only logged).
   */
  function HandleSignUp(f: SignUpForm, profiles: map<UserId, Profile>, env: AuthEnv): (r: Outcome)
    ensures !r.isLoading
    ensures Validate(f).Some? ==> r == Outcome(Validate(f), false, false, profiles, false)
    ensures Validate(f).None? ==> r.signUpCalled
    ensures r.navigated <==> Validate(f).None? && env.signUpError.None? && env.newUser.Some?
    ensures r.error.Some? <==> Validate(f).Some? || env.signUpError.Some?
    ensures r.navigated && env.upsertOk ==> r.profiles == profiles[env.newUser.value := NewProfile(env.newUser.value, f)]
    ensures !(r.navigated && env.upsertOk) ==> r.profiles == profiles
  {
    match Validate(f)
    case Some(e) => Outcome(Some(e), false, false, profiles, false)
    case None =>
      match env.signUpError
      case Some(e) => Outcome(Some(e), false, true, profiles, false)
      case None =>
        match env.newUser
        case None => Outcome(None, false, true, profiles, false)
        case Some(u) =>
          var written := if env.upsertOk then profiles[u := NewProfile(u, f)] else profiles;
          Outcome(None, false, true, written, true)
  }

  /**
   * A sign-up that writes its profile leaves a complete one: the profile
   * page goes straight to the profile view, with every counter at 0.
   */
  lemma SignUpCompletesProfile(f: SignUpForm, profiles: map<UserId, Profile>, env: AuthEnv, borrowed: seq<Borrowed>)
    requires HandleSignUp(f, profiles, env).navigated && env.upsertOk
    ensures var p := HandleSignUp(f, profiles, env).profiles[env.newUser.value];
            && !ProfileIncomplete(Some(p))
            && ProfileStats(Some(p), borrowed) == Stats(0, 0, 0, |borrowed|)
  {
    AcceptedNameHasText(f.fullName, f.career);
  }

  /** A sign-up whose upsert fails still moves on, to a profile page that asks for the profile again. */
  lemma FailedUpsertStillNavigates(f: SignUpForm, profiles: map<UserId, Profile>, env: AuthEnv)
    requires Validate(f).None? && env.signUpError.None? && env.newUser.Some? && !env.upsertOk
    requires env.newUser.value !in profiles
    ensures HandleSignUp(f, profiles, env).navigated
    ensures var written := HandleSignUp(f, profiles, env).profiles;
            ProfileIncomplete(if env.newUser.value in written then Some(written[env.newUser.value]) else None)
  {
  }
}
