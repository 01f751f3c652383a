// Role resolution and the request guards, over a world made of the account table, the API tokens,
// the role configuration, and a database that may or may not answer each query.
module Access {
  import opened Collections
  import opened Accounts

  datatype Role = Role(key: string, admin: bool, canTx: bool, modules: set<string>)

  datatype Config = Config(roles: seq<Role>, anonymousRole: string, memberRole: string,
                           tokenDefaultRole: string, anonymousReadOnly: bool)

  datatype Grant = Grant(roleKey: string, admin: bool, canTx: bool, modules: set<string>)

  datatype Session = Session(sub: string, role: string, exp: int)

  datatype Token = Token(roleKey: string, canTx: bool, revoked: bool, lastUsed: Option<int>)

  /** Which of the three queries a request makes are answered; the others throw. */
  datatype Database = Database(configUp: bool, usersUp: bool, tokensUp: bool)

  /** `tokens` is keyed by token hash; `allModules` is the module table's keys. */
  datatype World = World(users: Users, tokens: map<string, Token>, cfg: Config, allModules: set<string>, db: Database)

  datatype Reply<+T> = Thrown | Returned(value: T)

  // Roles.

  function NoAccess(): Grant { Grant("none", false, false, {}) }

  /** The first role of that key. */
  predicate IsFirst(roles: seq<Role>, key: string, k: nat) {
    k < |roles| && roles[k].key == key && forall j | 0 <= j < k :: roles[j].key != key
  }

  function FindRole(roles: seq<Role>, key: string): (r: Option<Role>)
    ensures r.Some? ==> r.value in roles && r.value.key == key
    ensures r.Some? ==> exists k: nat :: IsFirst(roles, key, k) && roles[k] == r.value
    ensures r.None? ==> forall x | x in roles :: x.key != key
  {
    if roles == [] then None
    else if roles[0].key == key then
      assert IsFirst(roles, key, 0);
      Some(roles[0])
    else
      assert forall k: nat | IsFirst(roles[1..], key, k) :: IsFirst(roles, key, k + 1) && roles[k + 1] == roles[1..][k];
      FindRole(roles[1..], key)
  }

  function RoleToAccess(w: World, roleKey: string): Grant {
    var exact := FindRole(w.cfg.roles, roleKey);
    var r := if exact.Some? then exact else FindRole(w.cfg.roles, w.cfg.anonymousRole);
    match r
    case None => Grant(roleKey, false, false, {})
    case Some(role) =>
      Grant(role.key, role.admin, role.admin || role.canTx, if role.admin then w.allModules else role.modules)
  }

  function RoleKeyOrMember(cfg: Config, roleKey: string): string {
    if exists r | r in cfg.roles :: r.key == roleKey then roleKey else cfg.memberRole
  }

  /** The role key of a session, None when its account is gone. */
  function SessionRoleKey(w: World, s: Session): Option<string> {
    if !w.db.usersUp then Some(RoleKeyOrMember(w.cfg, s.role))
    else if s.sub !in w.users || w.users[s.sub].role == "" then None
    else Some(RoleKeyOrMember(w.cfg, w.users[s.sub].role))
  }

  function SessionAccess(w: World, s: Session): Reply<Grant> {
    if !w.db.configUp then Thrown
    else match SessionRoleKey(w, s)
      case None => Returned(NoAccess())
      case Some(key) => Returned(RoleToAccess(w, key))
  }

  function AnonymousAccess(w: World): Grant {
    if w.cfg.anonymousReadOnly then RoleToAccess(w, w.cfg.anonymousRole) else NoAccess()
  }

  predicate Live(w: World, hash: string) {
    hash in w.tokens && !w.tokens[hash].revoked
  }

  /** An API request: the session if its account exists, else the token, else anonymous. */
  function ResolveAccess(w: World, session: Option<Session>, bearer: Option<string>): Reply<Grant> {
    if !w.db.configUp then Thrown
    else if session.Some? && SessionRoleKey(w, session.value).Some? then
      Returned(RoleToAccess(w, SessionRoleKey(w, session.value).value))
    else if bearer.Some? && !w.db.tokensUp then Thrown
    else if bearer.Some? && Live(w, bearer.value) then
      var token := w.tokens[bearer.value];
      var a := RoleToAccess(w, if token.roleKey != "" then token.roleKey else w.cfg.tokenDefaultRole);
      Returned(a.(canTx := a.canTx || token.canTx))
    else Returned(AnonymousAccess(w))
  }

  function PageAccess(w: World, session: Option<Session>): Reply<Grant> {
    if !w.db.configUp then Thrown
    else if session.Some? && SessionRoleKey(w, session.value).Some? then
      Returned(RoleToAccess(w, SessionRoleKey(w, session.value).value))
    else Returned(AnonymousAccess(w))
  }

  // Guards.

  function RequireModule(w: World, session: Option<Session>, bearer: Option<string>, key: string): Reply<bool> {
    match ResolveAccess(w, session, bearer)
    case Thrown => Thrown
    case Returned(acc) => Returned(acc.admin || key in acc.modules)
  }

  function RequireAdmin(w: World, session: Option<Session>): Reply<bool> {
    if session.None? then Returned(false)
    else match SessionAccess(w, session.value)
      case Thrown => Thrown
      case Returned(acc) => Returned(acc.admin)
  }

  /** Who may transmit: the session's user, else "token" for a token that may. */
  function TxActor(w: World, session: Option<Session>, bearer: Option<string>): Reply<Option<string>> {
    if session.Some? && SessionAccess(w, session.value).Thrown? then Thrown
    else if session.Some? && SessionAccess(w, session.value).value.canTx then Returned(Some(session.value.sub))
    else if bearer.Some? && !w.db.tokensUp then Thrown
    else if bearer.Some? && Live(w, bearer.value) && w.tokens[bearer.value].canTx then Returned(Some("token"))
    else Returned(None)
  }

  class Guard {
    var world: World

    constructor (w: World)
      ensures world == w
    {
      world := w;
    }

    /** The one guard that writes: a token that is let through has its last use stamped. */
    method RequireTx(session: Option<Session>, bearer: Option<string>, now: int) returns (r: Reply<Option<string>>)
      modifies this
      ensures r == TxActor(old(world), session, bearer)
      ensures var w := old(world);
        var session_ := session.Some? && (SessionAccess(w, session.value).Thrown? ||
          SessionAccess(w, session.value).value.canTx);
        var token := bearer.Some? && bearer.value in w.tokens && !w.tokens[bearer.value].revoked &&
          w.tokens[bearer.value].canTx;
        world == if !session_ && w.db.tokensUp && token then
          w.(tokens := w.tokens[bearer.value := w.tokens[bearer.value].(lastUsed := Some(now))])
        else w
      ensures forall s, b :: TxActor(world, s, b) == TxActor(old(world), s, b)
    {
      if session.Some? {
        var acc := SessionAccess(world, session.value);
        if acc.Thrown? { return Thrown; }
        if acc.value.canTx { return Returned(Some(session.value.sub)); }
      }
      if bearer.Some? {
        if !world.db.tokensUp { return Thrown; }
        if Live(world, bearer.value) && world.tokens[bearer.value].canTx {
          var stamped := world.tokens[bearer.value].(lastUsed := Some(now));
          ghost var before := world;
          world := world.(tokens := world.tokens[bearer.value := stamped]);
          forall s, b
            ensures TxActor(world, s, b) == TxActor(before, s, b)
          {
            StampChangesNothing(before, bearer.value, now, s, b);
          }
          return Returned(Some("token"));
        }
      }
      return Returned(None);
    }
  }

  lemma StampChangesNothing(w: World, hash: string, now: int, s: Option<Session>, b: Option<string>)
    requires hash in w.tokens
    ensures TxActor(w.(tokens := w.tokens[hash := w.tokens[hash].(lastUsed := Some(now))]), s, b) == TxActor(w, s, b)
  {
  }

  // What a session is worth.

  predicate Answering(w: World) { w.db.configUp && w.db.usersUp }

  predicate HasAccount(w: World, name: string) { name in w.users && w.users[name].role != "" }

  /** The role a stored role key stands for: the first configured of itself, the member and the anonymous role. */
  function ChosenRole(cfg: Config, roleKey: string): (r: Option<Role>)
    ensures r.Some? ==> r.value in cfg.roles && r.value.key in [roleKey, cfg.memberRole, cfg.anonymousRole]
    ensures r.None? ==> forall x | x in cfg.roles :: x.key !in [roleKey, cfg.memberRole, cfg.anonymousRole]
  {
    if FindRole(cfg.roles, roleKey).Some? then FindRole(cfg.roles, roleKey)
    else if FindRole(cfg.roles, cfg.memberRole).Some? then FindRole(cfg.roles, cfg.memberRole)
    else FindRole(cfg.roles, cfg.anonymousRole)
  }

  /** The access that goes with a role key. */
  function Worth(w: World, roleKey: string): Grant {
    match ChosenRole(w.cfg, roleKey)
    case None => Grant(w.cfg.memberRole, false, false, {})
    case Some(r) => Grant(r.key, r.admin, r.admin || r.canTx, if r.admin then w.allModules else r.modules)
  }

  lemma WorthIs(w: World, roleKey: string)
    ensures RoleToAccess(w, RoleKeyOrMember(w.cfg, roleKey)) == Worth(w, roleKey)
  {
  }

  /** What all the guards answer one request. */
  datatype Answers = Answers(admin: Reply<bool>, tx: Reply<Option<string>>, api: Reply<Grant>, mod: Reply<bool>,
                             page: Reply<Grant>)

  function Ask(w: World, session: Option<Session>, bearer: Option<string>, key: string): Answers {
    Answers(RequireAdmin(w, session), TxActor(w, session, bearer), ResolveAccess(w, session, bearer),
            RequireModule(w, session, bearer, key), PageAccess(w, session))
  }

  /** What they answer a user with that access; a bearer token is looked at only to transmit. */
  function AnswersFor(w: World, name: string, g: Grant, bearer: Option<string>): (string -> Answers) {
    key => Answers(Returned(g.admin), if g.canTx then Returned(Some(name)) else TxActor(w, None, bearer),
                   Returned(g), Returned(Allows(g, key)), Returned(g))
  }

  lemma AskStored(w: World, s: Session, bearer: Option<string>, key: string)
    requires Answering(w)
    ensures Ask(w, Some(s), bearer, key) ==
            if HasAccount(w, s.sub) then AnswersFor(w, s.sub, Worth(w, w.users[s.sub].role), bearer)(key)
            else Ask(w, None, bearer, key)
  {
    hide RoleToAccess, RoleKeyOrMember, Worth;
    if HasAccount(w, s.sub) { WorthIs(w, w.users[s.sub].role); }
  }

  predicate Allows(g: Grant, key: string) { g.admin || key in g.modules }

  // Outages.

  /** The configuration is read but the account is not. */
  predicate HalfOutage(w: World) { w.db.configUp && !w.db.usersUp }

  lemma AskInHalfOutage(w: World, s: Session, bearer: Option<string>, key: string)
    requires HalfOutage(w)
    ensures Ask(w, Some(s), bearer, key) == AnswersFor(w, s.sub, Worth(w, s.role), bearer)(key)
  {
    hide RoleToAccess, RoleKeyOrMember, Worth;
    WorthIs(w, s.role);
  }

  lemma AskWithoutConfig(w: World, s: Session, bearer: Option<string>, key: string)
    requires !w.db.configUp
    ensures Ask(w, Some(s), bearer, key) == Answers(Thrown, Thrown, Thrown, Thrown, Thrown)
  {
  }

  lemma SameOutsideHalfOutage(w: World, s: Session, t: Session, bearer: Option<string>, key: string)
    requires s.sub == t.sub && !HalfOutage(w)
    ensures Ask(w, Some(s), bearer, key) == Ask(w, Some(t), bearer, key)
  {
    hide Ask, AnswersFor, Worth;
    if w.db.configUp {
      AskStored(w, s, bearer, key);
      AskStored(w, t, bearer, key);
    } else {
      AskWithoutConfig(w, s, bearer, key);
      AskWithoutConfig(w, t, bearer, key);
    }
  }

  /** Two cookies of the name that the guards, compared through `view`, tell apart. */
  ghost predicate ToldApart<T(!new)>(w: World, name: string, bearer: Option<string>, key: string,
                              view: Answers -> Reply<T>) {
    exists s: Session, t: Session | s.sub == name && t.sub == name ::
      view(Ask(w, Some(s), bearer, key)) != view(Ask(w, Some(t), bearer, key))
  }

  lemma ToldApartIff<T(!new)>(w: World, name: string, bearer: Option<string>, key: string, view: Answers -> Reply<T>)
    ensures ToldApart(w, name, bearer, key, view) <==>
            HalfOutage(w) && exists x, y ::
              view(AnswersFor(w, name, Worth(w, x), bearer)(key)) != view(AnswersFor(w, name, Worth(w, y), bearer)(key))
  {
    hide Ask, AnswersFor, Worth;
    if s: Session, t: Session :| s.sub == name && t.sub == name
                                 && view(Ask(w, Some(s), bearer, key)) != view(Ask(w, Some(t), bearer, key)) {
      if HalfOutage(w) {
        AskInHalfOutage(w, s, bearer, key);
        AskInHalfOutage(w, t, bearer, key);
      } else {
        SameOutsideHalfOutage(w, s, t, bearer, key);
      }
    }
    if HalfOutage(w) {
      if x, y :| view(AnswersFor(w, name, Worth(w, x), bearer)(key))
                 != view(AnswersFor(w, name, Worth(w, y), bearer)(key)) {
        var s, t := Session(name, x, 0), Session(name, y, 0);
        AskInHalfOutage(w, s, bearer, key);
        AskInHalfOutage(w, t, bearer, key);
        assert view(Ask(w, Some(s), bearer, key)) != view(Ask(w, Some(t), bearer, key));
      }
    }
  }

  lemma TransmittersToldApart(w: World, name: string, bearer: Option<string>, key: string)
    ensures ToldApart(w, name, bearer, key, (a: Answers) => a.tx) <==>
            HalfOutage(w) && TxActor(w, None, bearer) != Returned(Some(name))
            && exists x, y :: Worth(w, x).canTx != Worth(w, y).canTx
  {
    hide ToldApart, Worth, TxActor;
    ToldApartIff(w, name, bearer, key, (a: Answers) => a.tx);
  }

  /**
   * The role in the cookie changes a guard's answer exactly in the outage in which the configuration is
   * read but the account is not, and then exactly when two role keys differ in what the guard looks at.
   */
  lemma WhenTheCookieCounts(w: World, name: string, bearer: Option<string>, key: string)
    ensures ToldApart(w, name, bearer, key, (a: Answers) => a.admin) <==>
            HalfOutage(w) && exists x, y :: Worth(w, x).admin != Worth(w, y).admin
    ensures ToldApart(w, name, bearer, key, (a: Answers) => a.api) <==>
            HalfOutage(w) && exists x, y :: Worth(w, x) != Worth(w, y)
    ensures ToldApart(w, name, bearer, key, (a: Answers) => a.page) <==>
            HalfOutage(w) && exists x, y :: Worth(w, x) != Worth(w, y)
    ensures ToldApart(w, name, bearer, key, (a: Answers) => a.mod) <==>
            HalfOutage(w) && exists x, y :: Allows(Worth(w, x), key) != Allows(Worth(w, y), key)
    ensures ToldApart(w, name, bearer, key, (a: Answers) => a.tx) <==>
            HalfOutage(w) && TxActor(w, None, bearer) != Returned(Some(name))
            && exists x, y :: Worth(w, x).canTx != Worth(w, y).canTx
  {
    hide ToldApart, Worth, TxActor;
    ToldApartIff(w, name, bearer, key, (a: Answers) => a.admin);
    ToldApartIff(w, name, bearer, key, (a: Answers) => a.api);
    ToldApartIff(w, name, bearer, key, (a: Answers) => a.page);
    ToldApartIff(w, name, bearer, key, (a: Answers) => a.mod);
    TransmittersToldApart(w, name, bearer, key);
  }

  /** The access a session is worth while the configuration is read. */
  function SessionWorth(w: World, s: Session): Grant {
    if !w.db.usersUp then Worth(w, s.role)
    else if HasAccount(w, s.sub) then Worth(w, w.users[s.sub].role)
    else NoAccess()
  }

  /** Which outage makes which guard throw on a session. */
  lemma WhenGuardsThrow(w: World, s: Session, bearer: Option<string>, key: string)
    ensures var a, noToken := Ask(w, Some(s), bearer, key), bearer.Some? && !w.db.tokensUp;
      && (a.admin.Thrown? <==> !w.db.configUp) && (a.page.Thrown? <==> !w.db.configUp)
      && (a.api.Thrown? <==> !w.db.configUp || (noToken && w.db.usersUp && !HasAccount(w, s.sub)))
      && (a.mod.Thrown? <==> a.api.Thrown?)
      && (a.tx.Thrown? <==> !w.db.configUp || (noToken && !SessionWorth(w, s).canTx))
  {
    hide Worth, RoleToAccess, RoleKeyOrMember;
    WorthIs(w, s.role);
    if s.sub in w.users { WorthIs(w, w.users[s.sub].role); }
  }

  /** Whoever passes the admin guard passes the transmit guard and every module guard in that state. */
  lemma AdminPassesEverything(w: World, session: Option<Session>, bearer: Option<string>, key: string)
    requires RequireAdmin(w, session) == Returned(true)
    ensures TxActor(w, session, bearer) == Returned(Some(session.value.sub))
    ensures RequireModule(w, session, bearer, key) == Returned(true)
  {
    hide FindRole, RoleKeyOrMember;
  }

  /** A page grants what the same request without a bearer token is granted on the API, outages included. */
  lemma PageMatchesApi(w: World, session: Option<Session>)
    ensures PageAccess(w, session) == ResolveAccess(w, session, None)
    ensures session.Some? && SessionRoleKey(w, session.value).Some? ==>
      forall bearer :: PageAccess(w, session) == SessionAccess(w, session.value) == ResolveAccess(w, session, bearer)
  {
  }

  // Runs of the whole system.

  datatype Step = OnAccounts(e: Event) | OnConfig(cfg: Config) | OnTokens(tokens: map<string, Token>)
      | OnDatabase(db: Database)

  ghost function Next(w: World, step: Step): World {
    match step
    case OnAccounts(e) => w.(users := Apply(w.users, e))
    case OnConfig(cfg) => w.(cfg := cfg)
    case OnTokens(tokens) => w.(tokens := tokens)
    case OnDatabase(db) => w.(db := db)
  }

  ghost function After(w: World, steps: seq<Step>): World {
    if steps == [] then w else Next(After(w, steps[..|steps| - 1]), steps[|steps| - 1])
  }

  /** The account event gives an absent name an account. */
  ghost predicate Creates(t: Users, e: Event, name: string) {
    match e
    case Upserting(n, _, _) => n == name
    case Provisioning(id, discordName, _) => Owner(t, id) == None && PickName(t, BaseName(id, discordName)) == name
    case Seeding(seed) => t == map[] && exists p | p in seed :: p.0 == name && p.0 != "" && p.1 != ""
    case _ => false
  }

  lemma {:induction false} InsertIgnoreNames(seed: seq<(string, string)>, name: string)
    ensures name in InsertIgnore(map[], seed) <==> exists p | p in seed :: p.0 == name && p.0 != "" && p.1 != ""
  {
    if seed != [] {
      var rest, last := seed[..|seed| - 1], seed[|seed| - 1];
      assert seed == rest + [last];
      InsertIgnoreNames(rest, name);
    }
  }

  /** An absent name appears by exactly these events. */
  lemma AppearsIffCreated(t: Users, e: Event, name: string)
    requires name !in t
    ensures name in Apply(t, e) <==> Creates(t, e, name)
  {
    hide PickName, BaseName;
    if e.Seeding? { InsertIgnoreNames(e.seed, name); }
  }

  /** No step of the run creates the name. */
  ghost predicate NeverCreated(w: World, steps: seq<Step>, name: string) {
    forall k | 0 <= k < |steps| && steps[k].OnAccounts? :: !Creates(After(w, steps[..k]).users, steps[k].e, name)
  }

  lemma {:induction false} StaysGone(w: World, steps: seq<Step>, name: string)
    requires name !in w.users && NeverCreated(w, steps, name)
    ensures name !in After(w, steps).users
  {
    hide Apply, Creates;
    if steps != [] {
      var rest, last := steps[..|steps| - 1], steps[|steps| - 1];
      forall k | 0 <= k < |rest| && rest[k].OnAccounts?
        ensures !Creates(After(w, rest[..k]).users, rest[k].e, name)
      {
        assert rest[..k] == steps[..k];
      }
      StaysGone(w, rest, name);
      if last.OnAccounts? { AppearsIffCreated(After(w, rest).users, last.e, name); }
    }
  }

  // What the history decides.

  /** The role the history gives the name, None while it has no account. */
  ghost function RoleByHistory(w: World, steps: seq<Step>, name: string): Option<string> {
    if steps == [] then (if name in w.users then Some(w.users[name].role) else None)
    else
      var rest, last := steps[..|steps| - 1], steps[|steps| - 1];
      var before := RoleByHistory(w, rest, name);
      match last
      case OnAccounts(Upserting(n, _, role)) => if n == name then Some(role) else before
      case OnAccounts(ReRoling(n, role)) => if n == name && before.Some? then Some(role) else before
      case OnAccounts(Deleting(n)) => if n == name then None else before
      case OnAccounts(Seeding(_)) =>
        if before.None? && Creates(After(w, rest).users, last.e, name) then Some("admin") else before
      case OnAccounts(Provisioning(_, _, memberRole)) =>
        if before.None? && Creates(After(w, rest).users, last.e, name) then Some(memberRole) else before
      case _ => before
  }

  lemma {:induction false} SeedsAreAdmins(seed: seq<(string, string)>, name: string)
    ensures name in InsertIgnore(map[], seed) ==> InsertIgnore(map[], seed)[name].role == "admin"
  {
    if seed != [] { SeedsAreAdmins(seed[..|seed| - 1], name); }
  }

  function RoleIn(t: Users, name: string): Option<string> { if name in t then Some(t[name].role) else None }

  /** The table holds the role that the history decides. */
  lemma {:induction false} HistoryDecidesRole(w: World, steps: seq<Step>, name: string)
    ensures RoleIn(After(w, steps).users, name) == RoleByHistory(w, steps, name)
  {
    hide PickName, BaseName;
    if steps != [] {
      var rest, last := steps[..|steps| - 1], steps[|steps| - 1];
      HistoryDecidesRole(w, rest, name);
      if last.OnAccounts? {
        var t := After(w, rest).users;
        if name !in t { AppearsIffCreated(t, last.e, name); }
        if last.e.Seeding? { SeedsAreAdmins(last.e.seed, name); }
      }
    }
  }

  /**
   * After every run in which the database answers, all guards answer a session by the role that the
   * history gives its user, under the configuration of the moment, and not by the role in the cookie; a
   * session whose user has no account is answered as no session at all.
   */
  lemma StoredRoleDecides(w: World, steps: seq<Step>, s: Session, bearer: Option<string>, key: string)
    requires Answering(After(w, steps))
    ensures var w', role := After(w, steps), RoleByHistory(w, steps, s.sub);
      Ask(w', Some(s), bearer, key) ==
      if role.Some? && role.value != "" then AnswersFor(w', s.sub, Worth(w', role.value), bearer)(key)
      else Ask(w', None, bearer, key)
  {
    hide Ask, AnswersFor, Worth, After;
    HistoryDecidesRole(w, steps, s.sub);
    AskStored(After(w, steps), s, bearer, key);
  }

  /** Passing the admin guard traces back to a role with the admin flag, reached from the user's role by history. */
  lemma AdminIsConfigured(w: World, steps: seq<Step>, s: Session)
    requires Answering(After(w, steps))
    ensures var w', role := After(w, steps), RoleByHistory(w, steps, s.sub);
      RequireAdmin(w', Some(s)) == Returned(true) <==>
      role.Some? && role.value != "" && ChosenRole(w'.cfg, role.value).Some? &&
        ChosenRole(w'.cfg, role.value).value.admin
  {
    hide ChosenRole, After;
    StoredRoleDecides(w, steps, s, None, "");
  }

  /**
   * Deleting an account voids every cookie issued for it, whatever role it carries, through every
   * run until an event re-creates the name: every guard answers as without it.
   */
  lemma DeletionVoidsCookies(w: World, steps: seq<Step>, s: Session, bearer: Option<string>, key: string)
    requires NeverCreated(Next(w, OnAccounts(Deleting(s.sub))), steps, s.sub)
    ensures var w' := After(Next(w, OnAccounts(Deleting(s.sub))), steps);
      Answering(w') ==>
        && SessionAccess(w', s) == Returned(NoAccess())
        && RequireAdmin(w', Some(s)) == Returned(false)
        && Ask(w', Some(s), bearer, key) == Ask(w', None, bearer, key)
  {
    hide NeverCreated;
    var w' := After(Next(w, OnAccounts(Deleting(s.sub))), steps);
    StaysGone(Next(w, OnAccounts(Deleting(s.sub))), steps, s.sub);
    if Answering(w') { AskStored(w', s, bearer, key); }
  }

  /** The step may change or end the name's role, once it has an account. */
  predicate Touches(step: Step, name: string) {
    match step
    case OnAccounts(Upserting(n, _, _)) => n == name
    case OnAccounts(ReRoling(n, _)) => n == name
    case OnAccounts(Deleting(n)) => n == name
    case _ => false
  }

  lemma {:induction false} RoleLasts(w: World, steps: seq<Step>, later: seq<Step>, name: string)
    requires RoleByHistory(w, steps, name).Some? && forall x | x in later :: !Touches(x, name)
    ensures RoleByHistory(w, steps + later, name) == RoleByHistory(w, steps, name)
  {
    if later == [] {
      assert steps + later == steps;
    } else {
      var rest, last := later[..|later| - 1], later[|later| - 1];
      assert (steps + later)[..|steps + later| - 1] == steps + rest;
      assert last in later;
      forall x | x in rest ensures x in later {}
      RoleLasts(w, steps, rest, name);
    }
  }

  /**
   * A re-role is in force from the next request on, for every cookie the user holds and through every
   * run that does not touch the account again.
   */
  lemma ReRoleIsImmediate(w: World, steps: seq<Step>, name: string, role: string, later: seq<Step>, s: Session,
                          bearer: Option<string>, key: string)
    requires name in After(w, steps).users && role != "" && s.sub == name
    requires forall x | x in later :: !Touches(x, name)
    ensures var w' := After(w, steps + [OnAccounts(ReRoling(name, role))] + later);
      Answering(w') ==> Ask(w', Some(s), bearer, key) == AnswersFor(w', name, Worth(w', role), bearer)(key)
  {
    hide Ask, AnswersFor, Worth, After;
    var reRoled := steps + [OnAccounts(ReRoling(name, role))];
    assert reRoled[..|reRoled| - 1] == steps;
    HistoryDecidesRole(w, steps, name);
    RoleLasts(w, reRoled, later, name);
    if Answering(After(w, reRoled + later)) { StoredRoleDecides(w, reRoled + later, s, bearer, key); }
  }

  /**
   * Once the name has an account again, every cookie from before works again, with the role of the new
   * account, through every run that does not touch it.
   */
  lemma RecreationRevivesCookies(w: World, steps: seq<Step>, name: string, password: string, role: string,
                                 later: seq<Step>, s: Session, bearer: Option<string>, key: string)
    requires role != "" && s.sub == name
    requires forall x | x in later :: !Touches(x, name)
    ensures var w' := After(w, steps + [OnAccounts(Upserting(name, password, role))] + later);
      Answering(w') ==> Ask(w', Some(s), bearer, key) == AnswersFor(w', name, Worth(w', role), bearer)(key)
  {
    hide Ask, AnswersFor, Worth, After;
    var recreated := steps + [OnAccounts(Upserting(name, password, role))];
    assert recreated[..|recreated| - 1] == steps;
    RoleLasts(w, recreated, later, name);
    if Answering(After(w, recreated + later)) { StoredRoleDecides(w, recreated + later, s, bearer, key); }
  }
}
