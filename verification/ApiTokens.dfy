// API tokens: what a bearer token is worth to each guard, and what revoking it means.
module ApiTokens {
  import opened Collections
  import opened Accounts
  import opened Access

  /** A token that is gone or revoked. */
  predicate Void(tokens: map<string, Token>, hash: string) {
    hash in tokens ==> tokens[hash].revoked
  }

  /** While the token table answers, a void token gets from every guard what no token gets, session or not. */
  lemma VoidTokenIsNone(w: World, session: Option<Session>, hash: string, key: string)
    requires w.db.tokensUp && Void(w.tokens, hash)
    ensures Ask(w, session, Some(hash), key) == Ask(w, session, None, key)
  {
  }

  /** No session that may transmit, and none on which the guard throws. */
  predicate CannotTransmit(w: World, session: Option<Session>) {
    session.Some? ==> w.db.configUp && !SessionWorth(w, session.value).canTx
  }

  lemma WorthOfSession(w: World, s: Session)
    requires w.db.configUp
    ensures SessionAccess(w, s) == Returned(SessionWorth(w, s))
  {
    hide Worth, RoleToAccess, RoleKeyOrMember;
    WorthIs(w, s.role);
    if s.sub in w.users { WorthIs(w, w.users[s.sub].role); }
  }

  /** Without a session that may transmit, exactly the unrevoked tokens with the transmit flag do, as "token". */
  lemma TokenTransmitsIff(w: World, session: Option<Session>, bearer: Option<string>)
    requires CannotTransmit(w, session) && (w.db.tokensUp || bearer.None?)
    ensures TxActor(w, session, bearer) ==
            if bearer.Some? && bearer.value in w.tokens && !w.tokens[bearer.value].revoked &&
               w.tokens[bearer.value].canTx then Returned(Some("token"))
            else Returned(None)
  {
    hide SessionAccess, SessionWorth;
    if session.Some? { WorthOfSession(w, session.value); }
  }

  /** A session that may transmit does so under its own name, whatever the token. */
  lemma SessionGoesFirst(w: World, s: Session, bearer: Option<string>)
    requires w.db.configUp && SessionWorth(w, s).canTx
    ensures TxActor(w, Some(s), bearer) == Returned(Some(s.sub))
  {
    hide SessionAccess, SessionWorth;
    WorthOfSession(w, s);
  }

  /** The access that goes with the first role of that key, or else with the first anonymous role. */
  predicate GrantsRole(w: World, roleKey: string, g: Grant) {
    match (FindRole(w.cfg.roles, roleKey), FindRole(w.cfg.roles, w.cfg.anonymousRole))
    case (Some(r), _) => GrantedBy(w, r, g)
    case (None, Some(r)) => GrantedBy(w, r, g)
    case (None, None) => g == Grant(roleKey, false, false, {})
  }

  /** An administrator has every module and may transmit; others what their role lists. */
  predicate GrantedBy(w: World, r: Role, g: Grant) {
    && g.roleKey == r.key && (g.admin <==> r.admin) && (g.canTx <==> r.admin || r.canTx)
    && g.modules == (if r.admin then w.allModules else r.modules)
  }

  /**
   * On the API an unrevoked token gets its own role, or the role for tokens when it names none, and its
   * own transmit flag on top; pages and the admin guard do not look at it.
   */
  lemma TokenOnApi(w: World, session: Option<Session>, hash: string, key: string)
    requires w.db.configUp && w.db.tokensUp && hash in w.tokens && !w.tokens[hash].revoked
    requires session.Some? ==> w.db.usersUp && !HasAccount(w, session.value.sub)
    ensures var t, a := w.tokens[hash], Ask(w, session, Some(hash), key);
      && (exists g :: GrantsRole(w, if t.roleKey != "" then t.roleKey else w.cfg.tokenDefaultRole, g)
           && a.api == Returned(g.(canTx := g.canTx || t.canTx)))
      && a.mod == Returned(Allows(a.api.value, key))
      && a.admin == Returned(false) && a.page == Ask(w, None, None, key).page
  {
    hide FindRole;
    var t := w.tokens[hash];
    var g := RoleToAccess(w, if t.roleKey != "" then t.roleKey else w.cfg.tokenDefaultRole);
    assert GrantsRole(w, if t.roleKey != "" then t.roleKey else w.cfg.tokenDefaultRole, g);
  }

  /** With neither session nor token: the anonymous role if reading is open to all, else nothing. */
  lemma StrangerGets(w: World, key: string)
    requires w.db.configUp
    ensures var a := Ask(w, None, None, key);
      && a.admin == Returned(false) && a.tx == Returned(None) && a.page == a.api
      && a.api.Returned? && a.mod == Returned(a.api.value.admin || key in a.api.value.modules)
      && (if w.cfg.anonymousReadOnly then GrantsRole(w, w.cfg.anonymousRole, a.api.value)
          else a.api.value == Grant("none", false, false, {}))
  {
    hide FindRole;
  }

  // Runs.

  /** No step of the run brings the token back. */
  predicate StaysVoid(steps: seq<Step>, hash: string) {
    forall x | x in steps && x.OnTokens? :: Void(x.tokens, hash)
  }

  lemma {:induction false} VoidLasts(w: World, steps: seq<Step>, hash: string)
    requires Void(w.tokens, hash) && StaysVoid(steps, hash)
    ensures Void(After(w, steps).tokens, hash)
  {
    if steps != [] {
      var rest, last := steps[..|steps| - 1], steps[|steps| - 1];
      assert last in steps;
      forall x | x in rest ensures x in steps {}
      VoidLasts(w, rest, hash);
    }
  }

  /**
   * Revoking or removing a token is in force from the next request on and through every run that does
   * not bring it back: whenever the token table answers, every guard answers as without it.
   */
  lemma RevocationIsImmediate(w: World, tokens: map<string, Token>, later: seq<Step>, session: Option<Session>,
                              hash: string, key: string)
    requires Void(tokens, hash) && StaysVoid(later, hash)
    ensures var w' := After(Next(w, OnTokens(tokens)), later);
      w'.db.tokensUp ==> Ask(w', session, Some(hash), key) == Ask(w', session, None, key)
  {
    hide Ask, After, Void;
    var w' := After(Next(w, OnTokens(tokens)), later);
    VoidLasts(Next(w, OnTokens(tokens)), later, hash);
    if w'.db.tokensUp { VoidTokenIsNone(w', session, hash, key); }
  }

  lemma {:induction false} TokensLast(w: World, later: seq<Step>)
    requires forall x | x in later :: !x.OnTokens?
    ensures After(w, later).tokens == w.tokens
  {
    if later != [] {
      var rest, last := later[..|later| - 1], later[|later| - 1];
      assert last in later;
      forall x | x in rest ensures x in later {}
      TokensLast(w, rest);
    }
  }

  /** An unrevoked token keeps its say, to transmit or not, through every run that leaves the tokens alone. */
  lemma TokenStaysInForce(w: World, tokens: map<string, Token>, later: seq<Step>, hash: string)
    requires hash in tokens && !tokens[hash].revoked && forall x | x in later :: !x.OnTokens?
    ensures var w' := After(Next(w, OnTokens(tokens)), later);
      w'.db.tokensUp ==>
        TxActor(w', None, Some(hash)) == Returned(if tokens[hash].canTx then Some("token") else None)
  {
    hide TxActor, After;
    var w' := After(Next(w, OnTokens(tokens)), later);
    TokensLast(Next(w, OnTokens(tokens)), later);
    if w'.db.tokensUp { TokenTransmitsIff(w', None, Some(hash)); }
  }
}
