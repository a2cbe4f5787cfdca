/**
 * The administrator capability: a user is an administrator when the
 * `admin_users` registry holds a row for them. Every administrator action
 * passes the same two-step gate before touching the store.
 */
module Access {
  import opened Common
  import opened Store

  /** `checkIsAdmin`: false without a signed-in user, otherwise whether a registry row exists. */
  function CheckIsAdmin(s: State): (r: bool)
    ensures s.user.None? ==> !r
    ensures s.user.Some? ==> (r <==> s.user.value in s.admins)
  {
    match s.user
    case None => false
    case Some(u) => u in s.admins
  }

  /**
   * `getAdminRole`: the registry row's role, or null. `data?.role || null`
   * also maps an empty role to null.
   */
  function GetAdminRole(s: State): (r: Option<Role>)
    ensures r.Some? ==> s.user.Some? && s.user.value in s.admins && r.value == s.admins[s.user.value]
    ensures r.Some? ==> r.value != ""
  {
    match s.user
    case None => None
    case Some(u) =>
      if u in s.admins && s.admins[u] != "" then Some(s.admins[u]) else None
  }

  /** A role is reported exactly for administrators whose role is not empty. */
  lemma RoleIffAdmin(s: State)
    ensures GetAdminRole(s).Some? <==> CheckIsAdmin(s) && s.admins[s.user.value] != ""
  {
  }

  /**
   * The check every administrator action opens with: "No autenticado" without
   * a user, the permission error for a user outside the registry, else none.
   */
  function AdminGate(s: State): (r: Option<string>)
    ensures r.None? <==> CheckIsAdmin(s)
    ensures s.user.None? ==> r == Some(MsgNotSignedIn)
    ensures s.user.Some? && s.user.value !in s.admins ==> r == Some(MsgNotAdmin)
  {
    match s.user
    case None => Some(MsgNotSignedIn)
    case Some(u) => if u in s.admins then None else Some(MsgNotAdmin)
  }
}
