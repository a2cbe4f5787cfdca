/**
 * The form that completes a profile: drafts seeded from the page, the name
 * and career checks, and the upsert, which also resets the reading counters.
 */
module EditProfile {
  import opened Common
  import opened Store
  import opened Forms
  import opened ProfilePage

  datatype Draft = Draft(fullName: string, career: string)

  /** The drafts start from the values the page passes. */
  function InitialDraft(currentName: string, currentCareer: string): (r: Draft)
    ensures r.fullName == currentName && r.career == currentCareer
  {
    Draft(currentName, currentCareer)
  }

  /**
   * The row the upsert leaves: name, career and the three counters at 0 are
   * written; the avatar, which the payload does not name, keeps the stored
   * value (null for a new row).
   */
  function Upserted(prior: Option<Profile>, userId: UserId, d: Draft): (r: Profile)
    ensures r.id == userId && r.fullName == Some(d.fullName) && r.career == Some(d.career)
    ensures r.booksRead == Some(0) && r.hoursReading == Some(0) && r.favorites == Some(0)
    ensures r.avatarUrl == if prior.Some? then prior.value.avatarUrl else None
  {
    var avatar := if prior.Some? then prior.value.avatarUrl else None;
    Profile(userId, Some(d.fullName), Some(d.career), avatar, Some(0), Some(0), Some(0))
  }

  datatype Outcome = Outcome(error: Option<string>, isLoading: bool, profiles: map<UserId, Profile>, refreshed: bool)

  /**
   * `handleSubmit`: a failed check shows its message and writes nothing;
   * otherwise the row is upserted (`upsertError` is the database's answer)
   * and the page refreshes, or the error is shown. The busy flag ends cleared.
   */
  function HandleSubmit(d: Draft, userId: UserId, profiles: map<UserId, Profile>, upsertError: Option<string>): (r: Outcome)
    ensures !r.isLoading
    ensures CheckIdentity(d.fullName, d.career).Some? ==>
              r == Outcome(CheckIdentity(d.fullName, d.career), false, profiles, false)
    ensures r.refreshed <==> CheckIdentity(d.fullName, d.career).None? && upsertError.None?
    ensures !r.refreshed ==> r.profiles == profiles && r.error.Some?
    ensures r.refreshed ==>
              r.profiles == profiles[userId := Upserted(if userId in profiles then Some(profiles[userId]) else None, userId, d)]
  {
    match CheckIdentity(d.fullName, d.career)
    case Some(e) => Outcome(Some(e), false, profiles, false)
    case None =>
      match upsertError
      case Some(e) => Outcome(Some(e), false, profiles, false)
      case None =>
        var prior := if userId in profiles then Some(profiles[userId]) else None;
        Outcome(None, false, profiles[userId := Upserted(prior, userId, d)], true)
  }

  /**
   * A saved form completes the profile, so the refreshed page shows the
   * profile view; and it does so by zeroing the reading counters, whatever
   * they held before.
   */
  lemma SaveCompletesProfileAndResetsCounters(d: Draft, userId: UserId, profiles: map<UserId, Profile>, borrowed: seq<Borrowed>)
    requires HandleSubmit(d, userId, profiles, None).refreshed
    ensures var p := HandleSubmit(d, userId, profiles, None).profiles[userId];
            && !ProfileIncomplete(Some(p))
            && ProfileScreen(Some(p), borrowed) == ProfileView(Stats(0, 0, 0, |borrowed|))
  {
    AcceptedNameHasText(d.fullName, d.career);
  }

  /** The form opened on an incomplete profile starts from the profile's own name and career. */
  lemma FormSeededFromProfile(p: Profile, borrowed: seq<Borrowed>)
    requires ProfileIncomplete(Some(p))
    ensures var s := ProfileScreen(Some(p), borrowed);
            InitialDraft(s.currentName, s.currentCareer) == Draft(p.fullName.GetOr(""), p.career.GetOr(""))
  {
  }
}
