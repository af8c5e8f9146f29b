/** The handlers as the server runs them: one statement after another on the users table, the issued
    tokens and the cutoff cache. Each is proved to take exactly its step of `Accounts`. Mail, pages and
    cookies are left out; the password's verdict, password hashes and fresh tokens come as parameters, and
    `minted` and `effects` record what became of the tokens. */
module AccountServer {
  import opened Prelude
  import opened Roles
  import opened Accounts
  import opened AccountInvariant
  import opened AccountProofs

  class Server {
    const cfg: Config
    var users: map<Id, User>
    var nextId: Id
    var issued: set<Claims>
    var cache: map<Id, Cached>
    var clock: Time
    ghost var minted: map<Token, Mint>
    ghost var effects: seq<Effect>

    ghost function Abs(): State
      reads this
    {
      State(users, nextId, issued, cache, clock, minted, effects)
    }

    ghost predicate Valid()
      reads this
    {
      WellFormed(cfg.roles) && Inv(cfg, Abs())
    }

    constructor (cfg: Config)
      requires WellFormed(cfg.roles)
      ensures this.cfg == cfg && Abs() == Initial() && Valid()
    {
      this.cfg := cfg;
      users, nextId, issued, cache, clock := map[], 1, {}, map[], 0;
      minted, effects := map[], [];
      new;
      InitialInv(cfg);
    }

    // ----- sessions

    method InvalidateSessionCache(id: Id)
      modifies this`cache
      ensures cache == old(cache) - {id}
    {
      cache := cache - {id};
    }

    /** Stamps `sessions_valid_after` and drops the cached cutoff. */
    method RevokeSessions(id: Id)
      requires Valid()
      modifies this
      ensures Valid() && Abs() == Apply(cfg, old(Abs()), Revoke(id))
    {
      ghost var before := Abs();
      if id in users {
        users := users[id := users[id].(validAfter := Seconds(clock))];
      }
      InvalidateSessionCache(id);
      StepKeeps(cfg, before, Revoke(id));
    }

    /** The user's cutoff, from the cache when fresh; a miss is read and cached, absence included. */
    method SessionCutoff(id: Id) returns (cutoff: Option<int>)
      modifies this`cache
      ensures (cutoff, cache) == Cutoff(old(Abs()), id)
    {
      if id in cache && Live(cache[id], clock) {
        return cache[id].cutoff;
      }
      cutoff := if id in users then Some(users[id].validAfter) else None;
      cache := cache[id := Cached(cutoff, clock)];
    }

    /** Accepts a token that is valid and newer than its user's cutoff. */
    method FromRequest(c: Claims) returns (accepted: bool)
      requires Valid()
      modifies this
      ensures Valid() && Abs() == AfterLookup(cfg, old(Abs()), c)
      ensures accepted == Accepts(cfg, old(Abs()), c)
      ensures accepted ==> c.sub in users && c.role == FromRoleStr(cfg.roles, users[c.sub].role)
    {
      ghost var before := Abs();
      if !(c in issued && Seconds(clock) <= c.exp + cfg.leeway) {
        return false;
      }
      var cutoff := SessionCutoff(c.sub);
      accepted := NewerThan(c, cutoff);
      LookupKeeps(cfg, before, c);
      if accepted { AcceptedRole(cfg, before, c); }
    }

    // ----- anonymous handlers

    method BootstrapAdmin(email: string, hash: string)
      requires Valid()
      modifies this
      ensures Valid() && Abs() == Apply(cfg, old(Abs()), Bootstrap(email, hash))
    {
      StepKeeps(cfg, Abs(), Bootstrap(email, hash));
      InsertAdmin(email, hash);
    }

    /** The guards and the insertion of the first admin. */
    method InsertAdmin(email: string, hash: string)
      requires WellFormed(cfg.roles)
      modifies this
      ensures Abs() == ApplyBootstrap(cfg, old(Abs()), email, hash)
    {
      var role := FirstAdmin(cfg.roles);
      if role.None? || email == "" { return; }
      if exists id | id in users :: NamesAdmin(cfg, users[id].role) { return; }
      if EmailTaken(users, email) { return; }
      users := users[nextId := NewUser(email, hash, role.value.name)];
      nextId := nextId + 1;
    }

    method LoginSubmit(email: string, passwordOk: bool) returns (token: Option<Claims>, ghost row: Option<Id>)
      requires Valid()
      modifies this
      ensures RowExists(old(Abs()), row) && (row.Some? ==> old(users)[row.value].email == email)
      ensures row == None <==> !EmailTaken(old(users), email)
      ensures token.Some? <==> row.Some? && passwordOk && old(users)[row.value].verified
                               && !FromRoleStr(cfg.roles, old(users)[row.value].role).none
      ensures Valid() && Abs() == Apply(cfg, old(Abs()), Login(row, passwordOk))
      ensures token.Some? ==> token.value in issued && row == Some(token.value.sub)
                              && token.value.role == FromRoleStr(cfg.roles, users[token.value.sub].role)
    {
      ghost var before := Abs();
      row, token := None, None;
      if id :| id in users && users[id].email == email {
        row := Some(id);
        StepKeeps(cfg, before, Login(row, passwordOk));
        var role := FromRoleStr(cfg.roles, users[id].role);
        if !passwordOk || role.none || !users[id].verified { return; }
        var now := Seconds(clock);
        token := Some(Claims(id, role, now + SESSION_SECONDS, now));
        issued := issued + {token.value};
      }
    }

    /** Inserts the new account's row, with its verification token if the app asks for one. */
    method InsertAccount(email: string, hash: string, token: Token)
      requires !EmailTaken(users, email)
      modifies this
      ensures Abs() == ApplyRegister(cfg, old(Abs()), email, hash, token)
    {
      var u := NewUser(email, hash, DEFAULT_ROLE);
      if cfg.verifyEmails {
        u := u.(verified := false, verification := Slot(Some(token), Some(clock + TOKEN_TTL)));
        minted := minted[token := Mint(Verification, nextId, clock + TOKEN_TTL)];
      }
      users := users[nextId := u];
      nextId := nextId + 1;
    }

    method RegisterSubmit(email: string, hash: string, token: Token)
      requires Valid() && Fresh(Abs(), token)
      modifies this
      ensures Valid() && Abs() == Apply(cfg, old(Abs()), Register(email, hash, token))
    {
      StepKeeps(cfg, Abs(), Register(email, hash, token));
      if EmailTaken(users, email) { return; }
      InsertAccount(email, hash, token);
    }

    method VerifyEmailLink(token: Token) returns (row: Option<Id>)
      requires Valid()
      modifies this
      ensures FindsRow(old(Abs()), Verification, token, row)
      ensures Valid() && Abs() == Apply(cfg, old(Abs()), VerifyEmail(token, row))
    {
      row := None;
      if id :| id in users && Matches(users[id], Verification, token, clock) {
        row := Some(id);
        StepKeeps(cfg, Abs(), VerifyEmail(token, row));
        users := users[id := users[id].(verified := true, verification := EMPTY)];
        effects := effects + [Effect(token, Verification, id, clock)];
      }
    }

    /** Mints a reset token for a row and stores it, replacing any older one. */
    method StoreResetToken(id: Id, token: Token)
      requires id in users
      modifies this
      ensures Abs() == MintReset(old(Abs()), id, token)
    {
      users := users[id := users[id].(reset := Slot(Some(token), Some(clock + TOKEN_TTL)))];
      minted := minted[token := Mint(Reset, id, clock + TOKEN_TTL)];
    }

    method ForgotPasswordSubmit(email: string, token: Token) returns (ghost row: Option<Id>)
      requires Valid() && Fresh(Abs(), token)
      modifies this
      ensures RowExists(old(Abs()), row)
      ensures row == None <==> !EmailTaken(old(users), email)
      ensures Valid() && Abs() == Apply(cfg, old(Abs()), Forgot(row, token))
    {
      row := None;
      if id :| id in users && users[id].email == email {
        row := Some(id);
        StepKeeps(cfg, Abs(), Forgot(row, token));
        StoreResetToken(id, token);
      }
    }

    method ResetPasswordSubmit(token: Token, hash: string) returns (row: Option<Id>)
      requires Valid()
      modifies this
      ensures FindsRow(old(Abs()), Reset, token, row)
      ensures Valid() && Abs() == Apply(cfg, old(Abs()), ResetPassword(token, hash, row))
    {
      row := None;
      if id :| id in users && Matches(users[id], Reset, token, clock) {
        row := Some(id);
        StepKeeps(cfg, Abs(), ResetPassword(token, hash, row));
        users := users[id := users[id].(password := hash, reset := EMPTY, validAfter := Seconds(clock))];
        InvalidateSessionCache(id);
        effects := effects + [Effect(token, Reset, id, clock)];
      }
    }

    method VerifyEmailChange(token: Token) returns (row: Option<Id>)
      requires Valid()
      modifies this
      ensures FindsRow(old(Abs()), EmailChange, token, row)
      ensures Valid() && Abs() == Apply(cfg, old(Abs()), ConfirmEmail(token, row))
    {
      row := None;
      if id :| id in users && Matches(users[id], EmailChange, token, clock) {
        row := Some(id);
        StepKeeps(cfg, Abs(), ConfirmEmail(token, row));
        var u := users[id];
        if u.pendingEmail.None? { return; }
        var email := u.pendingEmail.value;
        if EmailTaken(users - {id}, email) { return; }
        users := users[id := u.(email := email, pendingEmail := None, emailChange := EMPTY,
            validAfter := Seconds(clock))];
        InvalidateSessionCache(id);
        effects := effects + [Effect(token, EmailChange, id, clock)];
      }
    }

    // ----- handlers of signed-in callers

    /** Changes the address of the caller's own row, or stages it behind a token. */
    method StageEmail(id: Id, newEmail: string, token: Token)
      requires id in users
      modifies this
      ensures Abs() == ApplyChangeEmail(cfg, old(Abs()), id, newEmail, token)
    {
      if users[id].email == newEmail || EmailTaken(users, newEmail) { return; }
      var u := users[id];
      if !cfg.verifyEmails {
        users := users[id := u.(email := newEmail, pendingEmail := None, emailChange := u.emailChange.(token := None))];
      } else {
        var slot := Slot(Some(token), Some(clock + TOKEN_TTL));
        users := users[id := u.(pendingEmail := Some(newEmail), emailChange := slot)];
        minted := minted[token := Mint(EmailChange, id, clock + TOKEN_TTL)];
      }
    }

    method ChangeEmailSubmit(c: Claims, newEmail: string, token: Token)
      requires Valid() && Fresh(Abs(), token)
      modifies this
      ensures Valid() && Abs() == Apply(cfg, old(Abs()), Call(c, ChangeEmail(newEmail, token)))
    {
      StepKeeps(cfg, Abs(), Call(c, ChangeEmail(newEmail, token)));
      var accepted := FromRequest(c);
      if accepted { StageEmail(c.sub, newEmail, token); }
    }

    method SettingsPasswordReset(c: Claims, token: Token)
      requires Valid() && Fresh(Abs(), token)
      modifies this
      ensures Valid() && Abs() == Apply(cfg, old(Abs()), Call(c, ResetOwn(token)))
    {
      StepKeeps(cfg, Abs(), Call(c, ResetOwn(token)));
      var accepted := FromRequest(c);
      if accepted { StoreResetToken(c.sub, token); }
    }

    method DeleteAccount(c: Claims)
      requires Valid()
      modifies this
      ensures Valid() && Abs() == Apply(cfg, old(Abs()), Call(c, DeleteOwn))
    {
      StepKeeps(cfg, Abs(), Call(c, DeleteOwn));
      var accepted := FromRequest(c);
      if accepted { RemoveRow(c.sub); }
    }

    method RemoveRow(id: Id)
      modifies this
      ensures Abs() == RemoveUser(old(Abs()), id)
    {
      users := users - {id};
      InvalidateSessionCache(id);
    }

    method UserUpdate(c: Claims, id: Id, input: string)
      requires Valid()
      modifies this
      ensures Valid() && Abs() == Apply(cfg, old(Abs()), Call(c, SetRole(id, input)))
    {
      StepKeeps(cfg, Abs(), Call(c, SetRole(id, input)));
      var accepted := FromRequest(c);
      if accepted { StoreRole(c.role, id, input); }
    }

    /** The guards and the write of a role change, for a caller holding `caller`. */
    method StoreRole(caller: Role, id: Id, input: string)
      requires WellFormed(cfg.roles)
      modifies this
      ensures Abs() == ApplySetRole(cfg, old(Abs()), caller, id, input)
    {
      if !HasPermission(caller, "users.write") { return; }
      var role := FromRoleStr(cfg.roles, input);
      if role.name != Lower(Trim(input)) { return; }
      if !role.admin && id !in users { return; }
      if (role.admin || FromRoleStr(cfg.roles, users[id].role).admin) && !caller.admin { return; }
      if id in users {
        users := users[id := users[id].(role := role.name, validAfter := Seconds(clock))];
      }
      InvalidateSessionCache(id);
    }

    method UserDelete(c: Claims, id: Id)
      requires Valid()
      modifies this
      ensures Valid() && Abs() == Apply(cfg, old(Abs()), Call(c, DeleteUser(id)))
    {
      StepKeeps(cfg, Abs(), Call(c, DeleteUser(id)));
      var accepted := FromRequest(c);
      if accepted { DeleteRow(c.role, id); }
    }

    /** The guards and the write of a deletion, for a caller holding `caller`. */
    method DeleteRow(caller: Role, id: Id)
      requires WellFormed(cfg.roles)
      modifies this
      ensures Abs() == ApplyDeleteUser(cfg, old(Abs()), caller, id)
    {
      if !HasPermission(caller, "users.write") || id !in users { return; }
      if FromRoleStr(cfg.roles, users[id].role).admin && !caller.admin { return; }
      RemoveRow(id);
    }
  }
}
