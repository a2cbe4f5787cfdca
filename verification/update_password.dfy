/**
 * The password-reset page reached from the recovery e-mail: a session gate,
 * then the password pair checks and the update.
 */
module UpdatePassword {
  import opened Common
  import opened Forms

  const MsgPasswordUpdated := "Contraseña actualizada correctamente"

  /** The page shows the invalid-session card unless the session check found a session. */
  datatype Page = InvalidSessionCard | PasswordForm

  function Render(isValidSession: bool): (r: Page)
    ensures r == PasswordForm <==> isValidSession
  {
    if isValidSession then PasswordForm else InvalidSessionCard
  }

  datatype Ui = Ui(error: Option<string>, isLoading: bool)

  datatype Outcome = Outcome(ui: Ui, updateCalled: bool, alert: Option<string>, navigatedToLogin: bool)

  /**
   * `handleUpdatePassword`: a failed check shows its message and returns
   * before the busy flag is set and before any call. Otherwise the password
   * is sent; `updateError` is the provider's answer. Success alerts and goes
   * to the login page; an error is shown. The busy flag ends cleared either way.
   */
  function HandleUpdatePassword(ui: Ui, password: string, confirm: string, updateError: Option<string>): (r: Outcome)
    ensures CheckPasswords(password, confirm).Some? ==>
              r == Outcome(Ui(CheckPasswords(password, confirm), ui.isLoading), false, None, false)
    ensures CheckPasswords(password, confirm).None? ==> r.updateCalled && !r.ui.isLoading
    ensures r.navigatedToLogin <==> CheckPasswords(password, confirm).None? && updateError.None?
    ensures r.navigatedToLogin ==> r.alert == Some(MsgPasswordUpdated) && r.ui.error.None?
    ensures CheckPasswords(password, confirm).None? && updateError.Some? ==>
              r.ui.error == updateError && r.alert.None?
  {
    match CheckPasswords(password, confirm)
    case Some(e) => Outcome(Ui(Some(e), ui.isLoading), false, None, false)
    case None =>
      match updateError
      case Some(e) => Outcome(Ui(Some(e), false), true, None, false)
      case None => Outcome(Ui(None, false), true, Some(MsgPasswordUpdated), true)
  }

  /**
   * Differing passwords are reported as a mismatch, whatever their length,
   * and never reach the provider.
   */
  lemma MismatchReportedFirst(ui: Ui, password: string, confirm: string, updateError: Option<string>)
    requires password != confirm
    ensures HandleUpdatePassword(ui, password, confirm, updateError).ui.error == Some(MsgPasswordsDiffer)
    ensures !HandleUpdatePassword(ui, password, confirm, updateError).updateCalled
    ensures !HandleUpdatePassword(ui, password, confirm, updateError).navigatedToLogin
  {
  }
}
