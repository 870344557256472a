/** The administrator session: `login` against the fixed credentials,
    `logout`, and the one-time restore from the browser's stored record. */
module AdminSession {
  import opened Wrappers

  const AdminUsername := "TTJY"
  const AdminPassword := "MadeByTTJYTeam"

  /** The `{ isLoggedIn, adminName }` state the context exposes. */
  datatype Session = Session(isLoggedIn: bool, adminName: string)

  /** The parsed `admin_auth` record. */
  datatype Saved = Saved(isLoggedIn: bool, adminName: string)

  /** The session together with the stored record (`None` when absent). */
  datatype Admin = Admin(session: Session, storage: Option<Saved>)

  const LoggedOut := Session(false, "")

  /** The state before restore runs: logged out, storage as found. */
  function Initial(storage: Option<Saved>): (a: Admin)
    ensures !a.session.isLoggedIn && a.session.adminName == ""
    ensures a.storage == storage
  {
    Admin(LoggedOut, storage)
  }

  /** The mount effect: a stored record logs in under its stored name when
      it says it is logged in and the name is non-empty; anything else
      leaves the session logged out. The name is not checked against the
      credentials. */
  function Restore(a: Admin): (r: Admin)
    ensures r.storage == a.storage
    ensures a.storage.Some? && a.storage.value.isLoggedIn && a.storage.value.adminName != "" ==>
              r.session == Session(true, a.storage.value.adminName)
    ensures !(a.storage.Some? && a.storage.value.isLoggedIn && a.storage.value.adminName != "") ==>
              r.session == a.session
  {
    match a.storage
    case Some(s) =>
      if s.isLoggedIn && s.adminName != "" then a.(session := Session(true, s.adminName)) else a
    case None => a
  }

  /** `login`: succeeds exactly for the fixed username and password,
      logging in under that username and storing the same record; a failed
      attempt changes nothing. */
  function Login(a: Admin, username: string, password: string): (res: (bool, Admin))
    ensures res.0 <==> username == AdminUsername && password == AdminPassword
    ensures res.0 ==> res.1 == Admin(Session(true, username), Some(Saved(true, username)))
    ensures !res.0 ==> res.1 == a
  {
    if username == AdminUsername && password == AdminPassword then
      (true, Admin(Session(true, username), Some(Saved(true, username))))
    else (false, a)
  }

  /** `logout`: logged out with an empty name and no stored record. */
  function Logout(a: Admin): (r: Admin)
    ensures r == Admin(LoggedOut, None)
  {
    Admin(LoggedOut, None)
  }

  lemma LogoutIdempotent(a: Admin)
    ensures Logout(Logout(a)) == Logout(a)
  {
  }

  datatype Event = LoginAttempt(username: string, password: string) | LogoutEvent | RestoreEvent

  function Step(a: Admin, e: Event): Admin {
    match e
    case LoginAttempt(u, p) => Login(a, u, p).1
    case LogoutEvent => Logout(a)
    case RestoreEvent => Restore(a)
  }

  function Run(a: Admin, events: seq<Event>): Admin
    decreases |events|
  {
    if |events| == 0 then a else Run(Step(a, events[0]), events[1..])
  }

  /** The states this application itself produces: logged in exactly as
      the administrator, or logged out with no name; and no stored record
      other than the administrator's. */
  predicate Consistent(a: Admin) {
    (a.session == Session(true, AdminUsername) || a.session == LoggedOut)
    && (a.storage.None? || a.storage == Some(Saved(true, AdminUsername)))
  }

  lemma StepConsistent(a: Admin, e: Event)
    requires Consistent(a)
    ensures Consistent(Step(a, e))
  {
  }

  /** Over any sequence of logins, logouts and restores, starting logged
      out with no record or with a record this application stored, the
      session is logged in exactly when the name is the administrator's. */
  lemma {:induction false} RunConsistent(a: Admin, events: seq<Event>)
    requires Consistent(a)
    ensures Consistent(Run(a, events))
    ensures Run(a, events).session.isLoggedIn <==> Run(a, events).session.adminName == AdminUsername
    decreases |events|
  {
    if |events| > 0 {
      StepConsistent(a, events[0]);
      RunConsistent(Step(a, events[0]), events[1..]);
    }
  }

  /** From a fresh browser, any sequence of events keeps the invariant. */
  lemma FreshRunConsistent(events: seq<Event>)
    ensures Run(Initial(None), events).session.isLoggedIn
        <==> Run(Initial(None), events).session.adminName == AdminUsername
  {
    RunConsistent(Initial(None), events);
  }

  /** A record written by another hand restores a session under any
      non-empty name: restore trusts storage. */
  lemma ForgedRecordRestores(name: string)
    requires name != ""
    ensures Restore(Initial(Some(Saved(true, name)))).session == Session(true, name)
  {
  }
}
