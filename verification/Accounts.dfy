// The account table: creating, re-roling, deleting, and linking accounts to Discord ids.
module Accounts {
  import opened Collections
  import opened Decimals

  const UNUSABLE_PASSWORD := "!"

  datatype User = User(password: string, role: string, discordId: Option<string>, discordName: Option<string>)

  /** The table is keyed by user name, as its unique index demands. */
  type Users = map<string, User>

  // The statements, as functions of the table.

  function Upsert(t: Users, name: string, password: string, role: string): Users {
    t[name := if name in t then t[name].(password := password, role := role) else User(password, role, None, None)]
  }

  function SetRole(t: Users, name: string, role: string): Users {
    if name in t then t[name := t[name].(role := role)] else t
  }

  function Delete(t: Users, name: string): Users { t - {name} }

  predicate HasDiscord(t: Users, name: string, id: string) {
    name in t && t[name].discordId == Some(id)
  }

  /** Whom the id is linked to. */
  ghost function Owner(t: Users, id: string): (r: Option<string>)
    ensures r.Some? ==> HasDiscord(t, r.value, id)
    ensures r.None? ==> forall n :: !HasDiscord(t, n, id)
  {
    if n :| HasDiscord(t, n, id) then Some(n) else None
  }

  predicate TakenByOther(t: Users, name: string, id: string) {
    exists n | n in t :: n != name && HasDiscord(t, n, id)
  }

  function Link(t: Users, name: string, id: string, discordName: string): Users {
    if name !in t || TakenByOther(t, name, id) then t
    else t[name := t[name].(discordId := Some(id), discordName := Some(discordName))]
  }

  function Unlink(t: Users, name: string): Users {
    if name in t then t[name := t[name].(discordId := None, discordName := None)] else t
  }

  /** The configured first accounts, entered only into an empty table; a repeated name is ignored. */
  function Seed(t: Users, seed: seq<(string, string)>): Users {
    if t == map[] then InsertIgnore(t, seed) else t
  }

  function InsertIgnore(t: Users, seed: seq<(string, string)>): Users {
    if seed == [] then t
    else
      var before, (name, password) := InsertIgnore(t, seed[..|seed| - 1]), seed[|seed| - 1];
      if name == "" || password == "" || name in before then before
      else before[name := User(password, "admin", None, None)]
  }

  // The user name a Discord login gets.

  predicate AllowedChar(c: char) {
    'A' <= c <= 'Z' || 'a' <= c <= 'z' || '0' <= c <= '9' || c == '_' || c == '.' || c == '-'
  }

  function Sanitize(s: string): (r: string)
    ensures forall i | 0 <= i < |r| :: AllowedChar(r[i])
  {
    if s == "" then ""
    else Sanitize(s[..|s| - 1]) + if AllowedChar(s[|s| - 1]) then [s[|s| - 1]] else ""
  }

  function Cut(s: string, n: nat): (r: string)
    ensures r <= s && |r| <= n && (|s| <= n ==> r == s)
  {
    if |s| <= n then s else s[..n]
  }

  function BaseName(discordId: string, discordName: string): string {
    var fallback := "discord_" + discordId;
    var base := Cut(Sanitize(if discordName != "" then discordName else fallback), 48);
    if base != "" then base else fallback
  }

  const TRIES := 50
  const MAX_NAME := 60

  /** The names meant to be tried: base, base_2, base_3, ... */
  function Numbered(base: string, k: nat): string {
    if k == 0 then base else base + "_" + Print(k + 1)
  }

  /** The names actually tried: numbered ones are cut to 60 characters. */
  function Candidate(base: string, k: nat): string {
    if k == 0 then base else Cut(Numbered(base, k), MAX_NAME)
  }

  /** The first try, from `k` on, that is free; 50 when none of the fifty is. */
  function FirstFreeTry(t: Users, base: string, k: nat): (r: nat)
    requires k <= TRIES
    ensures k <= r <= TRIES
    ensures r < TRIES ==> Candidate(base, r) !in t
    ensures forall i | k <= i < r :: Candidate(base, i) in t
    decreases TRIES - k
  {
    if k == TRIES || Candidate(base, k) !in t then k else FirstFreeTry(t, base, k + 1)
  }

  function PickName(t: Users, base: string): string {
    Candidate(base, FirstFreeTry(t, base, 0))
  }

  datatype Provisioned = Account(name: string, role: string) | DuplicateName

  /** Log in by Discord id: the linked account, or a new one under the picked name. */
  ghost function Provision(t: Users, id: string, discordName: string, memberRole: string): (Users, Provisioned) {
    match Owner(t, id)
    case Some(n) => (t, Account(n, t[n].role))
    case None =>
      var name := PickName(t, BaseName(id, discordName));
      if name in t then (t, DuplicateName)
      else
        var shown := if discordName != "" then Some(discordName) else None;
        (t[name := User(UNUSABLE_PASSWORD, memberRole, Some(id), shown)], Account(name, memberRole))
  }

  // The table itself.

  ghost predicate UniqueDiscord(t: Users) {
    forall a, b, id | HasDiscord(t, a, id) && HasDiscord(t, b, id) :: a == b
  }

  /** Writing one row keeps the ids unique as long as it takes no other row's id. */
  lemma RowKeepsUnique(t: Users, name: string, u: User)
    requires UniqueDiscord(t)
    requires u.discordId.Some? ==> !TakenByOther(t, name, u.discordId.value)
    ensures UniqueDiscord(t[name := u])
  {
    var t' := t[name := u];
    forall a, b, id | HasDiscord(t', a, id) && HasDiscord(t', b, id)
      ensures a == b
    {
      if a != name { assert HasDiscord(t, a, id); }
      if b != name { assert HasDiscord(t, b, id); }
    }
  }

  class AccountTable {
    var users: Users

    constructor ()
      ensures users == map[]
    {
      users := map[];
    }

    method UpsertUser(name: string, password: string, role: string)
      modifies this
      ensures users == Upsert(old(users), name, password, role)
    {
      var u := User(password, role, None, None);
      if name in users {
        u := users[name].(password := password, role := role);
      }
      users := users[name := u];
    }

    method SetUserRole(name: string, role: string)
      modifies this
      ensures users == SetRole(old(users), name, role)
    {
      if name in users { users := users[name := users[name].(role := role)]; }
    }

    method DeleteUser(name: string)
      modifies this
      ensures users == Delete(old(users), name)
    {
      users := users - {name};
    }

    method FindUserByDiscordId(id: string) returns (r: Option<string>)
      ensures r.Some? ==> HasDiscord(users, r.value, id)
      ensures r.None? ==> forall n :: !HasDiscord(users, n, id)
    {
      var todo := users.Keys;
      while todo != {}
        invariant todo <= users.Keys
        invariant forall n | n in users && n !in todo :: !HasDiscord(users, n, id)
        decreases todo
      {
        var n := AnyOf(todo);
        if users[n].discordId == Some(id) { return Some(n); }
        todo := todo - {n};
      }
      return None;
    }

    method LinkDiscord(name: string, id: string, discordName: string) returns (ok: bool)
      requires UniqueDiscord(users)
      modifies this
      ensures UniqueDiscord(users) && users == Link(old(users), name, id, discordName)
      ensures ok <==> !TakenByOther(old(users), name, id)
    {
      var owner := FindUserByDiscordId(id);
      if owner.Some? && owner.value != name { return false; }
      assert !TakenByOther(users, name, id) by {
        if n :| n in users && n != name && HasDiscord(users, n, id) {
          assert owner.Some? && HasDiscord(users, owner.value, id);
        }
      }
      if name in users {
        var u := users[name].(discordId := Some(id), discordName := Some(discordName));
        RowKeepsUnique(users, name, u);
        users := users[name := u];
      }
      return true;
    }

    method UnlinkDiscord(name: string)
      requires UniqueDiscord(users)
      modifies this
      ensures UniqueDiscord(users) && users == Unlink(old(users), name)
    {
      if name in users {
        var u := users[name].(discordId := None, discordName := None);
        RowKeepsUnique(users, name, u);
        users := users[name := u];
      }
    }

    method EnsureAdminSeed(seed: seq<(string, string)>)
      modifies this
      ensures users == Seed(old(users), seed)
    {
      if users != map[] { return; }
      for i := 0 to |seed|
        invariant users == InsertIgnore(map[], seed[..i])
      {
        var (name, password) := seed[i];
        assert seed[..i + 1][..i] == seed[..i];
        if name == "" || password == "" { continue; }
        if name !in users { users := users[name := User(password, "admin", None, None)]; }
      }
      assert seed[..|seed|] == seed;
    }

    method ProvisionDiscordUser(id: string, discordName: string, memberRole: string) returns (r: Provisioned)
      requires UniqueDiscord(users)
      modifies this
      ensures UniqueDiscord(users) && (users, r) == Provision(old(users), id, discordName, memberRole)
    {
      hide Print;
      var owner := FindUserByDiscordId(id);
      if owner.Some? { return Account(owner.value, users[owner.value].role); }
      var base := BaseName(id, discordName);
      var username := base;
      var i := 0;
      while i < TRIES
        invariant 0 <= i <= TRIES && username == Candidate(base, i)
        invariant FirstFreeTry(users, base, 0) == FirstFreeTry(users, base, i)
        decreases TRIES - i
      {
        if username !in users { break; }
        username := Cut(base + "_" + Print(i + 2), MAX_NAME);
        i := i + 1;
      }
      if username in users { return DuplicateName; }
      var shown := if discordName != "" then Some(discordName) else None;
      var u := User(UNUSABLE_PASSWORD, memberRole, Some(id), shown);
      RowKeepsUnique(users, username, u);
      users := users[username := u];
      return Account(username, memberRole);
    }
  }

  // Runs.

  datatype Event =
    | Upserting(name: string, password: string, role: string)
    | ReRoling(name: string, role: string)
    | Deleting(name: string)
    | Linking(name: string, id: string, discordName: string)
    | Unlinking(name: string)
    | Seeding(seed: seq<(string, string)>)
    | Provisioning(id: string, discordName: string, memberRole: string)

  ghost function Apply(t: Users, e: Event): Users {
    match e
    case Upserting(name, password, role) => Upsert(t, name, password, role)
    case ReRoling(name, role) => SetRole(t, name, role)
    case Deleting(name) => Delete(t, name)
    case Linking(name, id, discordName) => Link(t, name, id, discordName)
    case Unlinking(name) => Unlink(t, name)
    case Seeding(seed) => Seed(t, seed)
    case Provisioning(id, discordName, memberRole) => Provision(t, id, discordName, memberRole).0
  }

  // What each event does to each row.

  function RowOf(t: Users, name: string): Option<User> { if name in t then Some(t[name]) else None }

  /** The seed's first entry for the name that has a name and a password. */
  function FirstSeed(seed: seq<(string, string)>, name: string): Option<User> {
    if seed == [] then None
    else if seed[0].0 == name && name != "" && seed[0].1 != "" then Some(User(seed[0].1, "admin", None, None))
    else FirstSeed(seed[1..], name)
  }

  lemma {:induction false} FirstSeedSnoc(seed: seq<(string, string)>, p: (string, string), name: string)
    ensures FirstSeed(seed + [p], name) ==
            if FirstSeed(seed, name).Some? then FirstSeed(seed, name) else FirstSeed([p], name)
  {
    if seed == [] {
      assert seed + [p] == [p];
    } else {
      assert (seed + [p])[1..] == seed[1..] + [p];
      FirstSeedSnoc(seed[1..], p, name);
    }
  }

  lemma {:induction false} SeededRow(seed: seq<(string, string)>, name: string)
    ensures RowOf(InsertIgnore(map[], seed), name) == FirstSeed(seed, name)
  {
    if seed != [] {
      var rest, last := seed[..|seed| - 1], seed[|seed| - 1];
      assert seed == rest + [last];
      SeededRow(rest, name);
      FirstSeedSnoc(rest, last, name);
    }
  }

  /**
   * An upsert sets password and role and keeps the link; a re-role sets the role alone; a link, refused
   * when another account has the id, and an unlink set the link alone; seeds fill an empty table;
   * a provisioning enters at most one row, without a usable password. No event touches another row.
   */
  lemma RowAfter(t: Users, e: Event, name: string)
    ensures var b, a := RowOf(t, name), RowOf(Apply(t, e), name);
      var r := if b.Some? then b.value else User("", "", None, None);
      && (e.Upserting? ==>
        a == if e.name == name then Some(User(e.password, e.role, r.discordId, r.discordName)) else b)
      && (e.ReRoling? ==>
        a == if e.name == name && b.Some? then Some(User(r.password, e.role, r.discordId, r.discordName)) else b)
      && (e.Deleting? ==> a == if e.name == name then None else b)
      && (e.Linking? ==>
        if e.name == name && b.Some? && forall m :: HasDiscord(t, m, e.id) ==> m == name
        then a == Some(User(r.password, r.role, Some(e.id), Some(e.discordName))) else a == b)
      && (e.Unlinking? ==>
        a == if e.name == name && b.Some? then Some(User(r.password, r.role, None, None)) else b)
    ensures e.Seeding? ==> RowOf(Apply(t, e), name) == if t == map[] then FirstSeed(e.seed, name) else RowOf(t, name)
    ensures e.Provisioning? && RowOf(Apply(t, e), name) != RowOf(t, name) ==>
      && name !in t && (forall m :: !HasDiscord(t, m, e.id))
      && RowOf(Apply(t, e), name) ==
         Some(User("!", e.memberRole, Some(e.id), if e.discordName == "" then None else Some(e.discordName)))
  {
    hide BaseName, PickName;
    if e.Seeding? { SeededRow(e.seed, name); }
  }

  ghost function Run(t: Users, events: seq<Event>): Users {
    if events == [] then t else Apply(Run(t, events[..|events| - 1]), events[|events| - 1])
  }

  lemma {:induction false} SeedsHaveNoDiscord(seed: seq<(string, string)>)
    ensures forall n, id :: !HasDiscord(InsertIgnore(map[], seed), n, id)
  {
    if seed != [] {
      SeedsHaveNoDiscord(seed[..|seed| - 1]);
      var before, after := InsertIgnore(map[], seed[..|seed| - 1]), InsertIgnore(map[], seed);
      forall n, id
        ensures !HasDiscord(after, n, id)
      {
        assert !HasDiscord(before, n, id);
      }
    }
  }

  lemma ApplyKeepsUnique(t: Users, e: Event)
    requires UniqueDiscord(t)
    ensures UniqueDiscord(Apply(t, e))
  {
    hide BaseName, PickName, UniqueDiscord;
    match e
    case Upserting(name, password, role) =>
      if name in t { OwnRow(t, name); RowKeepsUnique(t, name, t[name].(password := password, role := role)); }
      else { RowKeepsUnique(t, name, User(password, role, None, None)); }
    case ReRoling(name, role) =>
      if name in t { OwnRow(t, name); RowKeepsUnique(t, name, t[name].(role := role)); }
    case Deleting(name) => DeleteKeepsUnique(t, name);
    case Linking(name, id, discordName) =>
      if name in t && !TakenByOther(t, name, id) {
        RowKeepsUnique(t, name, t[name].(discordId := Some(id), discordName := Some(discordName)));
      }
    case Unlinking(name) =>
      if name in t { RowKeepsUnique(t, name, t[name].(discordId := None, discordName := None)); }
    case Seeding(seed) => SeedKeepsUnique(t, seed);
    case Provisioning(id, discordName, memberRole) =>
      var name := PickName(t, BaseName(id, discordName));
      if Owner(t, id) == None && name !in t {
        var shown := if discordName != "" then Some(discordName) else None;
        RowKeepsUnique(t, name, User(UNUSABLE_PASSWORD, memberRole, Some(id), shown));
      }
  }

  lemma OwnRow(t: Users, name: string)
    requires UniqueDiscord(t) && name in t
    ensures t[name].discordId.Some? ==> !TakenByOther(t, name, t[name].discordId.value)
  {
    if t[name].discordId.Some? { assert HasDiscord(t, name, t[name].discordId.value); }
  }

  lemma DeleteKeepsUnique(t: Users, name: string)
    requires UniqueDiscord(t)
    ensures UniqueDiscord(Delete(t, name))
  {
    forall a, b, id | HasDiscord(Delete(t, name), a, id) && HasDiscord(Delete(t, name), b, id)
      ensures a == b
    {
      assert HasDiscord(t, a, id) && HasDiscord(t, b, id);
    }
  }

  lemma SeedKeepsUnique(t: Users, seed: seq<(string, string)>)
    requires UniqueDiscord(t)
    ensures UniqueDiscord(Seed(t, seed))
  {
    SeedsHaveNoDiscord(seed);
  }

  /** Over every run no Discord id belongs to two accounts. */
  lemma {:induction false} RunKeepsUnique(t: Users, events: seq<Event>)
    requires UniqueDiscord(t)
    ensures UniqueDiscord(Run(t, events))
  {
    if events != [] {
      RunKeepsUnique(t, events[..|events| - 1]);
      ApplyKeepsUnique(Run(t, events[..|events| - 1]), events[|events| - 1]);
    }
  }

  /** The event may take the account's link away, or the account itself. */
  predicate Detaches(e: Event, name: string) {
    match e
    case Deleting(n) => n == name
    case Unlinking(n) => n == name
    case Linking(n, _, _) => n == name
    case _ => false
  }

  lemma StepKeepsLink(t: Users, e: Event, name: string, id: string)
    requires UniqueDiscord(t) && HasDiscord(t, name, id) && !Detaches(e, name)
    ensures HasDiscord(Apply(t, e), name, id)
  {
    hide BaseName, PickName, UniqueDiscord;
  }

  lemma {:induction false} RunKeepsLink(t: Users, events: seq<Event>, name: string, id: string)
    requires UniqueDiscord(t) && HasDiscord(t, name, id)
    requires forall e | e in events :: !Detaches(e, name)
    ensures HasDiscord(Run(t, events), name, id)
  {
    if events != [] {
      var rest, last := events[..|events| - 1], events[|events| - 1];
      assert last in events;
      forall e | e in rest ensures e in events {}
      RunKeepsLink(t, rest, name, id);
      RunKeepsUnique(t, rest);
      StepKeepsLink(Run(t, rest), last, name, id);
    }
  }

  /**
   * Provisioning is idempotent per Discord id: until the account is deleted, unlinked or relinked,
   * the same id gets the same account, whatever the Discord name, and nothing is written.
   */
  lemma ProvisionIsIdempotent(t: Users, id: string, discordName: string, memberRole: string,
                              events: seq<Event>, laterName: string, laterRole: string)
    requires UniqueDiscord(t)
    ensures var (t1, r) := Provision(t, id, discordName, memberRole);
      r.Account? && (forall e | e in events :: !Detaches(e, r.name)) ==>
        var t2 := Run(t1, events);
        r.name in t2 && Provision(t2, id, laterName, laterRole) == (t2, Account(r.name, t2[r.name].role))
  {
    hide BaseName, PickName, UniqueDiscord;
    var (t1, r) := Provision(t, id, discordName, memberRole);
    ApplyKeepsUnique(t, Provisioning(id, discordName, memberRole));
    if r.Account? && (forall e | e in events :: !Detaches(e, r.name)) {
      RunKeepsLink(t1, events, r.name, id);
      RunKeepsUnique(t1, events);
      SoleOwner(Run(t1, events), r.name, id);
    }
  }

  lemma SoleOwner(t: Users, name: string, id: string)
    requires UniqueDiscord(t) && HasDiscord(t, name, id)
    ensures Owner(t, id) == Some(name)
  {
    assert HasDiscord(t, Owner(t, id).value, id);
  }

  // Which name is picked.

  /** The least numbered name that is free, were there no limit on its length. */
  ghost predicate PicksFirstFree(t: Users, base: string) {
    forall k: nat | k < TRIES && Numbered(base, k) !in t && (forall i: nat | i < k :: Numbered(base, i) in t) ::
      PickName(t, base) == Numbered(base, k)
  }

  lemma ShortIsUncut(base: string, k: nat)
    requires |base| <= 57 && k <= TRIES
    ensures Candidate(base, k) == Numbered(base, k)
  {
  }

  lemma ShortPicksFirstFree(t: Users, base: string)
    requires |base| <= 57
    ensures PicksFirstFree(t, base)
  {
    hide Print;
    forall k: nat | k < TRIES && Numbered(base, k) !in t && (forall i: nat | i < k :: Numbered(base, i) in t)
      ensures PickName(t, base) == Numbered(base, k)
    {
      var r := FirstFreeTry(t, base, 0);
      ShortIsUncut(base, k);
      ShortIsUncut(base, r);
    }
  }

  function Row(role: string): User { User(UNUSABLE_PASSWORD, role, None, None) }

  /** A table in which the first nine numbered names are taken. */
  function NineTaken(base: string, role: string, n: nat): (t: Users)
    ensures forall x :: x in t <==> exists i: nat | i < n :: x == Numbered(base, i)
  {
    if n == 0 then map[] else NineTaken(base, role, n - 1)[Numbered(base, n - 1) := Row(role)]
  }

  lemma LongMissesFirstFree(base: string, role: string)
    requires |base| >= 58
    ensures !PicksFirstFree(NineTaken(base, role, 9), base)
  {
    var t := NineTaken(base, role, 9);
    forall i: nat | i < 9
      ensures Numbered(base, i) in t && Numbered(base, i) != Numbered(base, 9)
    {
      assert |Numbered(base, i)| < |Numbered(base, 9)|;
    }
    assert Numbered(base, 9) !in t;
    var r := FirstFreeTry(t, base, 0);
    assert Candidate(base, 0) == Numbered(base, 0) && Numbered(base, 0) in t;
    assert r != 0;
    assert |PickName(t, base)| <= 60 < |Numbered(base, 9)|;
  }

  /** The first free name is picked on every table exactly when the base leaves room for the number. */
  lemma PicksFirstFreeIff(base: string)
    ensures (forall t :: PicksFirstFree(t, base)) <==> |base| <= 57
  {
    if |base| <= 57 {
      forall t ensures PicksFirstFree(t, base) { ShortPicksFirstFree(t, base); }
    } else {
      LongMissesFirstFree(base, "member");
    }
  }

  /** A real Discord id, at most 20 digits, always leaves room. */
  lemma RealIdsLeaveRoom(id: string, discordName: string)
    requires |id| <= 20
    ensures |BaseName(id, discordName)| <= 48
  {
  }

  /**
   * Provisioning fails exactly when nobody has the id and all 51 names that could be entered, the
   * last of them never looked up, are taken.
   */
  lemma FailsIffAllTaken(t: Users, id: string, discordName: string, memberRole: string)
    ensures Provision(t, id, discordName, memberRole).1 == DuplicateName <==>
            (forall n :: !HasDiscord(t, n, id)) && forall k: nat | k <= TRIES ::
              Candidate(BaseName(id, discordName), k) in t
  {
    hide BaseName, Candidate, HasDiscord;
    var base := BaseName(id, discordName);
    var r := FirstFreeTry(t, base, 0);
    assert PickName(t, base) == Candidate(base, r);
    assert r < TRIES ==> Candidate(base, r) !in t;
  }

  /** Cutting can also let provisioning through under a name that is none of the numbered ones. */
  lemma CutNameEscapes(base: string, role: string)
    requires |base| == 58
    ensures var t := NineTaken(base, role, 9);
      PickName(t, base) == base + "_1" && base + "_1" !in t && forall k: nat | k < TRIES ::
        Numbered(base, k) != base + "_1"
  {
    var t, name := NineTaken(base, role, 9), base + "_1";
    forall k: nat | k < TRIES
      ensures Numbered(base, k) != name && (k < 9 ==> Candidate(base, k) == Numbered(base, k))
    {
      NumberedIsNotOne(base, k);
    }
    assert name !in t;
    assert Numbered(base, 9) == base + "_" + "10" by { assert Print(10) == "10"; }
    assert Candidate(base, 9) == name;
    forall k: nat | k < 9
      ensures Candidate(base, k) in t
    {
      assert Candidate(base, k) == Numbered(base, k);
    }
  }

  lemma NumberedIsNotOne(base: string, k: nat)
    requires |base| == 58 && k < TRIES
    ensures Numbered(base, k) != base + "_1" && (k < 9 ==> Candidate(base, k) == Numbered(base, k))
  {
    if 0 < k < 9 { assert Numbered(base, k)[59] == Print(k + 1)[0] != '1'; }
  }

  // The name a Discord login asks for.

  /** Letters, digits, underscore, dot and hyphen are kept, in order; everything else is dropped. */
  lemma {:induction false} SanitizeDrops(a: string, c: char, b: string)
    ensures var kept := 'A' <= c <= 'Z' || 'a' <= c <= 'z' || '0' <= c <= '9' || c in "_.-";
      Sanitize(a + [c] + b) == Sanitize(a) + (if kept then [c] else []) + Sanitize(b)
  {
    if b == "" {
      assert (a + [c] + b)[..|a|] == a && (a + [c] + b)[|a|] == c;
    } else {
      var rest, last := b[..|b| - 1], b[|b| - 1];
      assert (a + [c] + b)[..|a| + |b|] == a + [c] + rest && (a + [c] + b)[|a| + |b|] == last;
      SanitizeDrops(a, c, rest);
    }
  }

  /**
   * The name asked for is the Discord name, or `discord_` and the id for an empty one, without the
   * characters dropped and cut to 48; and `discord_` and the id if nothing is left of it.
   */
  lemma BaseNameIs(id: string, discordName: string)
    ensures var kept := Sanitize(if discordName == "" then "discord_" + id else discordName);
      var base := BaseName(id, discordName);
      if kept == "" then base == "discord_" + id
      else base <= kept && (|base| == 48 || (|base| < 48 && base == kept))
  {
  }

  lemma {:induction false} AllKept(s: string)
    requires forall i | 0 <= i < |s| :: AllowedChar(s[i])
    ensures Sanitize(s) == s
  {
    if s != "" {
      AllKept(s[..|s| - 1]);
      assert s == s[..|s| - 1] + [s[|s| - 1]];
    }
  }

  /** A usable Discord name that is free is the name of the new account. */
  lemma UsableNameIsTaken(t: Users, id: string, discordName: string, memberRole: string)
    requires 0 < |discordName| <= 48 && (forall i | 0 <= i < |discordName| :: AllowedChar(discordName[i]))
    requires discordName !in t && forall n :: !HasDiscord(t, n, id)
    ensures Provision(t, id, discordName, memberRole) ==
            (t[discordName := User("!", memberRole, Some(id), Some(discordName))], Account(discordName, memberRole))
  {
    hide Sanitize, Print;
    AllKept(discordName);
    assert BaseName(id, discordName) == discordName;
    hide BaseName;
    assert FirstFreeTry(t, discordName, 0) == 0;
  }
}
