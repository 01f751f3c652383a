// From the text of a session cookie to what the guards answer, over whole runs.
module Cookies {
  import opened Collections
  import opened Accounts
  import opened Access
  import opened Tokens

  /** A verified payload as a session. */
  function SessionOf(j: Json, nowMs: int): (s: Session)
    requires IsLiveSession(j, nowMs)
    ensures s.sub != "" && s.role != ""
  {
    Session(j.fields["sub"].s, j.fields["role"].s, j.fields["exp"].n.Floor)
  }

  /** The session a request presents: none without a cookie that verifies, and verification may throw. */
  function Presented(p: Platform, cookie: string, nowMs: int): Reply<Option<Session>> {
    match VerifySession(p, cookie, nowMs)
    case Throws => Thrown
    case Rejected => Returned(None)
    case Payload(j) => Returned(Some(SessionOf(j, nowMs)))
  }

  /** What the guards answer a request with that cookie. */
  function AskWith(p: Platform, w: World, cookie: string, nowMs: int, bearer: Option<string>, key: string): Answers {
    match Presented(p, cookie, nowMs)
    case Thrown => Answers(Thrown, Thrown, Thrown, Thrown, Thrown)
    case Returned(session) => Ask(w, session, bearer, key)
  }

  /** What a user is owed by the history: the access of the role it gives them, or that of a stranger. */
  ghost function Owed(w: World, steps: seq<Step>, name: string, bearer: Option<string>, key: string): Answers {
    var w', role := After(w, steps), RoleByHistory(w, steps, name);
    if role.Some? && role.value != "" then AnswersFor(w', name, Worth(w', role.value), bearer)(key)
    else Ask(w', None, bearer, key)
  }

  /**
   * After every run in which the database answers, any cookie text that verifies gets exactly what the
   * history owes the user it names: of the text, nothing but that name matters.
   */
  lemma OnlyTheNameCounts(p: Platform, w: World, steps: seq<Step>, cookie: string, nowMs: int, s: Session,
                          bearer: Option<string>, key: string)
    requires Answering(After(w, steps)) && Presented(p, cookie, nowMs) == Returned(Some(s))
    ensures AskWith(p, After(w, steps), cookie, nowMs, bearer, key) == Owed(w, steps, s.sub, bearer, key)
  {
    hide Presented, After, RoleByHistory, Ask, AnswersFor, Worth;
    StoredRoleDecides(w, steps, s, bearer, key);
  }

  /** So two cookies of one name cannot be told apart, whatever their roles and expiries. */
  lemma CookiesOfOneNameAreAlike(p: Platform, w: World, steps: seq<Step>, a: string, aMs: int, s: Session,
                                 b: string, bMs: int, t: Session, bearer: Option<string>, key: string)
    requires Answering(After(w, steps)) && s.sub == t.sub
    requires Presented(p, a, aMs) == Returned(Some(s)) && Presented(p, b, bMs) == Returned(Some(t))
    ensures AskWith(p, After(w, steps), a, aMs, bearer, key) == AskWith(p, After(w, steps), b, bMs, bearer, key)
  {
    hide Presented, AskWith, After, Owed;
    OnlyTheNameCounts(p, w, steps, a, aMs, s, bearer, key);
    OnlyTheNameCounts(p, w, steps, b, bMs, t, bearer, key);
  }

  /**
   * If one cookie of a name passes the admin guard, every cookie of that name that verifies passes the
   * admin guard, may transmit under that name and passes every module guard, with or without a token.
   */
  lemma AdminByNameIsEnough(p: Platform, w: World, steps: seq<Step>, a: string, aMs: int, s: Session,
                            b: string, bMs: int, t: Session, bearer: Option<string>, key: string)
    requires Answering(After(w, steps)) && s.sub == t.sub
    requires Presented(p, a, aMs) == Returned(Some(s)) && Presented(p, b, bMs) == Returned(Some(t))
    requires AskWith(p, After(w, steps), a, aMs, None, "").admin == Returned(true)
    ensures var answers := AskWith(p, After(w, steps), b, bMs, bearer, key);
      && answers.admin == Returned(true) && answers.tx == Returned(Some(s.sub)) && answers.mod == Returned(true)
      && answers.api == answers.page && answers.api.Returned? && answers.api.value.admin
  {
    hide Presented, After, RoleByHistory;
    OnlyTheNameCounts(p, w, steps, a, aMs, s, None, "");
    OnlyTheNameCounts(p, w, steps, b, bMs, t, bearer, key);
  }

  /**
   * The life of a cookie: signed at login, presented after any run in which the database answers, it
   * gets what the history owes its user through its expiry second, and what a stranger gets from then on.
   */
  lemma CookieLife(p: Platform, sub: string, role: string, ttlSec: real, signedMs: int, w: World, steps: seq<Step>,
                   laterMs: int, bearer: Option<string>, key: string)
    requires sub != "" && role != "" && Answering(After(w, steps))
    requires MacIsHex(p) && RoundTrips(p, SessionJson(Session(sub, role, Seconds(signedMs) + MaxAge(ttlSec))))
    ensures AskWith(p, After(w, steps), SignSession(p, sub, role, ttlSec, signedMs).0, laterMs, bearer, key) ==
            if Seconds(laterMs) <= Seconds(signedMs) + MaxAge(ttlSec) then Owed(w, steps, sub, bearer, key)
            else Ask(After(w, steps), None, bearer, key)
  {
    hide VerifySession, Sign, MaxAge, After, RoleByHistory, Ask, AnswersFor, Worth;
    SessionRoundTrip(p, sub, role, ttlSec, signedMs, laterMs);
    var s := Session(sub, role, Seconds(signedMs) + MaxAge(ttlSec));
    if Seconds(laterMs) <= s.exp {
      SignedIsPresented(p, s, SignSession(p, sub, role, ttlSec, signedMs).0, laterMs);
      OnlyTheNameCounts(p, w, steps, SignSession(p, sub, role, ttlSec, signedMs).0, laterMs, s, bearer, key);
    }
  }

  lemma SignedIsPresented(p: Platform, s: Session, cookie: string, nowMs: int)
    requires VerifySession(p, cookie, nowMs) == Payload(SessionJson(s))
    ensures Presented(p, cookie, nowMs) == Returned(Some(s))
  {
    assert (s.exp as real).Floor == s.exp;
  }
}
