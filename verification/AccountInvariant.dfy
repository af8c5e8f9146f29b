/** The invariant of accounts and sessions, and that every handler keeps it. Addresses are unique, ids were
    given out and roles are canonical; a session token that the stored cutoff admits carries the stored
    role, and a cached cutoff is the stored one; a single-use token in a column was minted for it, and
    each effect used one token, once and in time. */
module AccountInvariant {
  import opened Prelude
  import opened Roles
  import opened Accounts

  // ----- the invariant

  ghost predicate EmailsUnique(s: State) {
    forall i, j | i in s.users && j in s.users && i != j :: s.users[i].email != s.users[j].email
  }

  ghost predicate IdsUsed(s: State) {
    && (forall id | id in s.users :: id < s.nextId)
    && (forall id | id in s.cache :: id < s.nextId)
    && (forall c | c in s.issued :: c.sub < s.nextId)
  }

  /** A token in a column was minted for that column's kind, that account and that expiry. */
  ghost predicate SlotMinted(s: State, id: Id, kind: Kind) {
    id in s.users && SlotOf(s.users[id], kind).token.Some? ==>
      var slot := SlotOf(s.users[id], kind);
      && slot.token.value in s.minted
      && slot.expiry.Some?
      && s.minted[slot.token.value] == Mint(kind, id, slot.expiry.value)
  }

  /** A session token that the stored cutoff still admits carries the stored role. */
  ghost predicate RoleFresh(cfg: Config, s: State, c: Claims)
    requires WellFormed(cfg.roles)
  {
    && c.iat <= Seconds(s.clock)
    && (c.sub in s.users && c.iat > s.users[c.sub].validAfter ==>
          c.role == FromRoleStr(cfg.roles, s.users[c.sub].role))
  }

  /** An effect is one minted token used in time on its own account, and the token is gone. */
  ghost predicate EffectSound(s: State, e: Effect) {
    && e.token in s.minted
    && s.minted[e.token].kind == e.kind && s.minted[e.token].id == e.id
    && e.at < s.minted[e.token].expiry
    && Retired(s, e.token)
  }

  /** A minted token that no column holds. */
  ghost predicate Retired(s: State, token: Token) {
    && token in s.minted
    && forall id, kind | id in s.users :: SlotOf(s.users[id], kind).token != Some(token)
  }

  ghost predicate CanonicalRoles(s: State) {
    forall id | id in s.users :: Lower(s.users[id].role) == s.users[id].role
  }

  ghost predicate TableInv(s: State) {
    EmailsUnique(s) && IdsUsed(s) && CanonicalRoles(s)
  }

  ghost predicate SessionInv(cfg: Config, s: State)
    requires WellFormed(cfg.roles)
  {
    && (forall c | c in s.issued :: RoleFresh(cfg, s, c))
    && (forall id | id in s.cache :: s.cache[id].cutoff == TableCutoff(s, id))
  }

  ghost predicate TokenInv(s: State) {
    && (forall id, kind :: SlotMinted(s, id, kind))
    && (forall i | 0 <= i < |s.effects| :: EffectSound(s, s.effects[i]))
    && (forall i, j | 0 <= i < j < |s.effects| :: s.effects[i].token != s.effects[j].token)
  }

  ghost predicate Inv(cfg: Config, s: State)
    requires WellFormed(cfg.roles)
  {
    TableInv(s) && SessionInv(cfg, s) && TokenInv(s)
  }

  lemma InitialInv(cfg: Config)
    requires WellFormed(cfg.roles)
    ensures Inv(cfg, Initial())
  {
  }

  // ----- one step keeps it

  /** Every slot is as it was, empty, or holds a token minted in this very step. */
  ghost predicate SlotsFrom(s: State, s': State) {
    forall id, kind | id in s'.users && SlotOf(s'.users[id], kind).token.Some? ::
      || (id in s.users && SlotOf(s'.users[id], kind) == SlotOf(s.users[id], kind))
      || (SlotOf(s'.users[id], kind).token.value !in s.minted && SlotMinted(s', id, kind))
  }

  lemma TokensFrame(s: State, s': State)
    requires TokenInv(s) && SlotsFrom(s, s') && s'.effects == s.effects
    requires forall t | t in s.minted :: t in s'.minted && s'.minted[t] == s.minted[t]
    ensures TokenInv(s')
  {
    forall id, kind ensures SlotMinted(s', id, kind) {
      assert SlotMinted(s, id, kind);
    }
    forall i | 0 <= i < |s.effects| ensures EffectSound(s', s.effects[i]) {
      assert EffectSound(s, s.effects[i]);
    }
  }

  lemma SessionsFrame(cfg: Config, s: State, s': State)
    requires WellFormed(cfg.roles) && SessionInv(cfg, s) && IdsUsed(s)
    requires s'.issued == s.issued && s'.clock >= s.clock
    requires forall id | id in s'.users && id !in s.users :: id >= s.nextId
    requires forall id | id in s'.users && id in s.users ::
               || s'.users[id].validAfter >= Seconds(s.clock)
               || (s'.users[id].role == s.users[id].role && s'.users[id].validAfter == s.users[id].validAfter)
    requires forall id | id in s'.cache ::
               id in s.cache && s'.cache[id] == s.cache[id] && TableCutoff(s', id) == TableCutoff(s, id)
    ensures SessionInv(cfg, s')
  {
    forall c | c in s'.issued ensures RoleFresh(cfg, s', c) {
      assert RoleFresh(cfg, s, c);
    }
  }

  /** What has to hold of a new row for the invariant to survive putting it in place of the old. */
  ghost predicate Replaces(s: State, id: Id, u: User)
    requires id in s.users
  {
    && (forall j | j in s.users && j != id :: s.users[j].email != u.email)
    && Lower(u.role) == u.role
    && (u.validAfter >= Seconds(s.clock) || (u.role == s.users[id].role && u.validAfter == s.users[id].validAfter))
    && (forall kind :: SlotOf(u, kind) == SlotOf(s.users[id], kind) || SlotOf(u, kind).token.None?)
  }

  lemma PutUserKeeps(cfg: Config, s: State, id: Id, u: User)
    requires WellFormed(cfg.roles) && Inv(cfg, s) && id in s.users && Replaces(s, id, u)
    requires u.validAfter == s.users[id].validAfter || id !in s.cache
    ensures Inv(cfg, PutUser(s, id, u))
  {
    TokensFrame(s, PutUser(s, id, u));
    SessionsFrame(cfg, s, PutUser(s, id, u));
  }

  /** Every write to a row's cutoff or role is followed by dropping the cached cutoff. */
  lemma PutAndDropKeeps(cfg: Config, s: State, id: Id, u: User)
    requires WellFormed(cfg.roles) && Inv(cfg, s) && id in s.users && Replaces(s, id, u)
    ensures Inv(cfg, DropCached(PutUser(s, id, u), id))
  {
    var s1 := DropCached(s, id);
    TokensFrame(s, s1);
    SessionsFrame(cfg, s, s1);
    PutUserKeeps(cfg, s1, id, u);
    assert PutUser(s1, id, u) == DropCached(PutUser(s, id, u), id);
  }

  lemma MintSlots(s: State, id: Id, u: User, token: Token, kind: Kind)
    requires id in s.users && Fresh(s, token)
    requires SlotOf(u, kind) == Slot(Some(token), Some(s.clock + TOKEN_TTL))
    requires forall k | k != kind :: SlotOf(u, k) == SlotOf(s.users[id], k)
    ensures SlotsFrom(s, MintFor(PutUser(s, id, u), token, kind, id))
  {
  }

  lemma MintKeeps(cfg: Config, s: State, id: Id, u: User, token: Token, kind: Kind)
    requires WellFormed(cfg.roles) && Inv(cfg, s) && id in s.users && Fresh(s, token)
    requires u.email == s.users[id].email && u.role == s.users[id].role && u.validAfter == s.users[id].validAfter
    requires SlotOf(u, kind) == Slot(Some(token), Some(s.clock + TOKEN_TTL))
    requires forall k | k != kind :: SlotOf(u, k) == SlotOf(s.users[id], k)
    ensures Inv(cfg, MintFor(PutUser(s, id, u), token, kind, id))
  {
    var s' := MintFor(PutUser(s, id, u), token, kind, id);
    MintSlots(s, id, u, token, kind);
    TokensFrame(s, s');
    SessionsFrame(cfg, s, s');
  }

  /** Consuming a token: the row gives it up and the effect is recorded. */
  lemma ConsumeKeeps(cfg: Config, s: State, s': State, id: Id, u: User, token: Token, kind: Kind)
    requires WellFormed(cfg.roles) && Inv(cfg, s) && Inv(cfg, s')
    requires id in s.users && Matches(s.users[id], kind, token, s.clock)
    requires s'.users == s.users[id := u] && s'.minted == s.minted && s'.clock == s.clock && s'.effects == s.effects
    requires SlotOf(u, kind).token.None? && forall k | k != kind :: SlotOf(u, k) == SlotOf(s.users[id], k)
    ensures Inv(cfg, Record(s', token, kind, id))
  {
    assert SlotMinted(s, id, kind);
    forall j, k | j in s'.users ensures SlotOf(s'.users[j], k).token != Some(token) {
      assert SlotMinted(s, j, k);
    }
    var r := Record(s', token, kind, id);
    forall i | 0 <= i < |r.effects| ensures EffectSound(r, r.effects[i]) {
      if i < |s.effects| { assert EffectSound(s', s.effects[i]); }
    }
    forall i | 0 <= i < |s.effects| ensures s.effects[i].token != token {
      assert EffectSound(s, s.effects[i]);
    }
    forall j, k ensures SlotMinted(r, j, k) {
      assert SlotMinted(s', j, k);
    }
    SessionsFrame(cfg, s', r);
  }

  lemma AddUserKeeps(cfg: Config, s: State, u: User)
    requires WellFormed(cfg.roles) && Inv(cfg, s)
    requires !EmailTaken(s.users, u.email) && Lower(u.role) == u.role
    requires forall kind :: SlotOf(u, kind).token.None?
    ensures Inv(cfg, PutUser(s, s.nextId, u).(nextId := s.nextId + 1))
  {
    var s' := PutUser(s, s.nextId, u).(nextId := s.nextId + 1);
    TokensFrame(s, s');
    SessionsFrame(cfg, s, s');
  }

  lemma RemoveUserKeeps(cfg: Config, s: State, id: Id)
    requires WellFormed(cfg.roles) && Inv(cfg, s)
    ensures Inv(cfg, RemoveUser(s, id))
  {
    TokensFrame(s, RemoveUser(s, id));
    SessionsFrame(cfg, s, RemoveUser(s, id));
  }

  lemma DefaultIsLower()
    ensures Lower(DEFAULT_ROLE) == DEFAULT_ROLE
  {
  }

  lemma RegisterKeeps(cfg: Config, s: State, email: string, hash: string, token: Token)
    requires WellFormed(cfg.roles) && Inv(cfg, s) && Fresh(s, token)
    ensures Inv(cfg, ApplyRegister(cfg, s, email, hash, token))
  {
    if !EmailTaken(s.users, email) {
      DefaultIsLower();
      var plain := NewUser(email, hash, DEFAULT_ROLE);
      RegisterIs(cfg, s, email, hash, token);
      if cfg.verifyEmails {
        AddUserKeeps(cfg, s, plain.(verified := false));
        RegisterUnverified(cfg, s, plain.(verified := false), token);
      } else {
        AddUserKeeps(cfg, s, plain);
      }
    }
  }

  lemma RegisterIs(cfg: Config, s: State, email: string, hash: string, token: Token)
    requires !EmailTaken(s.users, email)
    ensures var u := NewUser(email, hash, DEFAULT_ROLE);
            var slot := Slot(Some(token), Some(s.clock + TOKEN_TTL));
            ApplyRegister(cfg, s, email, hash, token) ==
            if cfg.verifyEmails
            then MintFor(PutUser(s.(nextId := s.nextId + 1), s.nextId, u.(verified := false).(verification := slot)),
                token, Verification, s.nextId)
            else PutUser(s, s.nextId, u).(nextId := s.nextId + 1)
  {
  }

  lemma RegisterUnverified(cfg: Config, s: State, u: User, token: Token)
    requires WellFormed(cfg.roles) && Fresh(s, token) && u.reset == EMPTY && u.emailChange == EMPTY
    requires var s1 := PutUser(s, s.nextId, u).(nextId := s.nextId + 1); Inv(cfg, s1)
    ensures var slot := Slot(Some(token), Some(s.clock + TOKEN_TTL));
            Inv(cfg, MintFor(PutUser(s.(nextId := s.nextId + 1), s.nextId, u.(verification := slot)), token,
                Verification, s.nextId))
  {
    var slot := Slot(Some(token), Some(s.clock + TOKEN_TTL));
    var u' := u.(verification := slot);
    var s1 := PutUser(s, s.nextId, u).(nextId := s.nextId + 1);
    MintKeeps(cfg, s1, s.nextId, u', token, Verification);
    assert s.users[s.nextId := u][s.nextId := u'] == s.users[s.nextId := u'];
    assert PutUser(s1, s.nextId, u') == PutUser(s.(nextId := s.nextId + 1), s.nextId, u');
  }

  lemma LoginKeeps(cfg: Config, s: State, row: Option<Id>, passwordOk: bool)
    requires WellFormed(cfg.roles) && Inv(cfg, s) && RowExists(s, row)
    ensures Inv(cfg, ApplyLogin(cfg, s, row, passwordOk))
  {
    var s' := ApplyLogin(cfg, s, row, passwordOk);
    TokensFrame(s, s');
    forall c | c in s'.issued ensures RoleFresh(cfg, s', c) {
      if c in s.issued { assert RoleFresh(cfg, s, c); }
    }
  }

  lemma LookupKeeps(cfg: Config, s: State, c: Claims)
    requires WellFormed(cfg.roles) && Inv(cfg, s)
    ensures Inv(cfg, AfterLookup(cfg, s, c))
  {
    var s' := AfterLookup(cfg, s, c);
    TokensFrame(s, s');
    forall c | c in s'.issued ensures RoleFresh(cfg, s', c) {
      assert RoleFresh(cfg, s, c);
    }
  }

  lemma TickKeeps(cfg: Config, s: State, elapsed: nat)
    requires WellFormed(cfg.roles) && Inv(cfg, s)
    ensures Inv(cfg, s.(clock := s.clock + elapsed))
  {
    var s' := s.(clock := s.clock + elapsed);
    TokensFrame(s, s');
    SessionsFrame(cfg, s, s');
  }

  lemma DropKeeps(cfg: Config, s: State, id: Id)
    requires WellFormed(cfg.roles) && Inv(cfg, s)
    ensures Inv(cfg, DropCached(s, id))
  {
    TokensFrame(s, DropCached(s, id));
    SessionsFrame(cfg, s, DropCached(s, id));
  }

  lemma ChangeEmailKeeps(cfg: Config, s: State, id: Id, newEmail: string, token: Token)
    requires WellFormed(cfg.roles) && Inv(cfg, s) && Fresh(s, token)
    ensures Inv(cfg, ApplyChangeEmail(cfg, s, id, newEmail, token))
  {
    if id in s.users && !EmailTaken(s.users, newEmail) {
      var u := s.users[id];
      if cfg.verifyEmails {
        var slot := Slot(Some(token), Some(s.clock + TOKEN_TTL));
        MintKeeps(cfg, s, id, u.(pendingEmail := Some(newEmail), emailChange := slot), token, EmailChange);
      } else {
        PutUserKeeps(cfg, s, id, u.(email := newEmail, pendingEmail := None,
            emailChange := u.emailChange.(token := None)));
      }
    }
  }

  lemma SetRoleKeeps(cfg: Config, s: State, caller: Role, id: Id, input: string)
    requires WellFormed(cfg.roles) && Inv(cfg, s)
    ensures Inv(cfg, ApplySetRole(cfg, s, caller, id, input))
  {
    DropKeeps(cfg, s, id);
    if id in s.users { RoleWriteKeeps(cfg, s, id, input); }
  }

  lemma RoleWriteKeeps(cfg: Config, s: State, id: Id, input: string)
    requires WellFormed(cfg.roles) && Inv(cfg, s) && id in s.users
    ensures var u := s.users[id].(role := FromRoleStr(cfg.roles, input).name, validAfter := Seconds(s.clock));
            Inv(cfg, DropCached(PutUser(s, id, u), id))
  {
    var role := FromRoleStr(cfg.roles, input);
    var i :| 0 <= i < |cfg.roles| && cfg.roles[i] == role;
    PutAndDropKeeps(cfg, s, id, s.users[id].(role := role.name, validAfter := Seconds(s.clock)));
  }

  lemma ActKeeps(cfg: Config, s: State, c: Claims, action: Action)
    requires WellFormed(cfg.roles) && Inv(cfg, s)
    requires action.ChangeEmail? || action.ResetOwn? ==> Fresh(s, action.token)
    ensures Inv(cfg, Act(cfg, s, c, action))
  {
    match action
    case ReadPage =>
    case ChangeEmail(newEmail, token) => ChangeEmailKeeps(cfg, s, c.sub, newEmail, token);
    case ResetOwn(token) => if c.sub in s.users { MintResetKeeps(cfg, s, c.sub, token); }
    case DeleteOwn => RemoveUserKeeps(cfg, s, c.sub);
    case SetRole(id, input) => SetRoleKeeps(cfg, s, c.role, id, input);
    case DeleteUser(id) => RemoveUserKeeps(cfg, s, id);
  }

  lemma CallKeeps(cfg: Config, s: State, caller: Claims, action: Action)
    requires WellFormed(cfg.roles) && Inv(cfg, s) && Allowed(s, Call(caller, action))
    ensures Inv(cfg, Apply(cfg, s, Call(caller, action)))
  {
    LookupKeeps(cfg, s, caller);
    ActKeeps(cfg, AfterLookup(cfg, s, caller), caller, action);
  }

  lemma MintResetKeeps(cfg: Config, s: State, id: Id, token: Token)
    requires WellFormed(cfg.roles) && Inv(cfg, s) && id in s.users && Fresh(s, token)
    ensures Inv(cfg, MintReset(s, id, token))
  {
    var slot := Slot(Some(token), Some(s.clock + TOKEN_TTL));
    MintKeeps(cfg, s, id, s.users[id].(reset := slot), token, Reset);
  }

  lemma ConsumingKeeps(cfg: Config, s: State, step: Step)
    requires WellFormed(cfg.roles) && Inv(cfg, s) && Allowed(s, step)
    requires step.VerifyEmail? || step.ResetPassword? || step.ConfirmEmail?
    ensures Inv(cfg, Apply(cfg, s, step))
  {
    match step
    case VerifyEmail(token, Some(id)) => VerifyKeeps(cfg, s, token, id);
    case ResetPassword(token, hash, Some(id)) => ResetKeeps(cfg, s, token, hash, id);
    case ConfirmEmail(token, Some(id)) => ConfirmKeeps(cfg, s, token, id);
    case _ =>
  }

  lemma VerifyKeeps(cfg: Config, s: State, token: Token, id: Id)
    requires WellFormed(cfg.roles) && Inv(cfg, s)
    requires id in s.users && Matches(s.users[id], Verification, token, s.clock)
    ensures Inv(cfg, ApplyVerify(s, token, Some(id)))
  {
    var u := s.users[id].(verified := true, verification := EMPTY);
    PutUserKeeps(cfg, s, id, u);
    ConsumeKeeps(cfg, s, PutUser(s, id, u), id, u, token, Verification);
  }

  lemma ResetKeeps(cfg: Config, s: State, token: Token, hash: string, id: Id)
    requires WellFormed(cfg.roles) && Inv(cfg, s)
    requires id in s.users && Matches(s.users[id], Reset, token, s.clock)
    ensures Inv(cfg, ApplyReset(s, token, hash, Some(id)))
  {
    var u := s.users[id].(password := hash, reset := EMPTY, validAfter := Seconds(s.clock));
    PutAndDropKeeps(cfg, s, id, u);
    ConsumeKeeps(cfg, s, DropCached(PutUser(s, id, u), id), id, u, token, Reset);
  }

  lemma ConfirmKeeps(cfg: Config, s: State, token: Token, id: Id)
    requires WellFormed(cfg.roles) && Inv(cfg, s)
    requires id in s.users && Matches(s.users[id], EmailChange, token, s.clock)
    ensures Inv(cfg, ApplyConfirm(s, token, Some(id)))
  {
    if s.users[id].pendingEmail.Some? && !EmailTaken(s.users - {id}, s.users[id].pendingEmail.value) {
      var email := s.users[id].pendingEmail.value;
      var u := s.users[id].(email := email, pendingEmail := None, emailChange := EMPTY,
          validAfter := Seconds(s.clock));
      forall j | j in s.users && j != id ensures s.users[j].email != email {
        assert j in s.users - {id};
      }
      PutAndDropKeeps(cfg, s, id, u);
      ConsumeKeeps(cfg, s, DropCached(PutUser(s, id, u), id), id, u, token, EmailChange);
    }
  }

  lemma BootstrapKeeps(cfg: Config, s: State, email: string, hash: string)
    requires WellFormed(cfg.roles) && Inv(cfg, s)
    ensures Inv(cfg, ApplyBootstrap(cfg, s, email, hash))
  {
    var role := FirstAdmin(cfg.roles);
    if role.Some? && !EmailTaken(s.users, email) {
      var i :| 0 <= i < |cfg.roles| && cfg.roles[i] == role.value;
      AddUserKeeps(cfg, s, NewUser(email, hash, role.value.name));
    }
  }

  lemma RevokeKeeps(cfg: Config, s: State, id: Id)
    requires WellFormed(cfg.roles) && Inv(cfg, s)
    ensures Inv(cfg, ApplyRevoke(s, id))
  {
    if id in s.users {
      PutAndDropKeeps(cfg, s, id, s.users[id].(validAfter := Seconds(s.clock)));
    } else {
      DropKeeps(cfg, s, id);
    }
  }

  lemma StepKeeps(cfg: Config, s: State, step: Step)
    requires WellFormed(cfg.roles) && Inv(cfg, s) && Allowed(s, step)
    ensures Inv(cfg, Apply(cfg, s, step))
  {
    match step
    case Tick(elapsed) => TickKeeps(cfg, s, elapsed);
    case Bootstrap(email, hash) => BootstrapKeeps(cfg, s, email, hash);
    case Login(row, passwordOk) => LoginKeeps(cfg, s, row, passwordOk);
    case Register(email, hash, token) => RegisterKeeps(cfg, s, email, hash, token);
    case Forgot(row, token) => if row.Some? { MintResetKeeps(cfg, s, row.value, token); }
    case Revoke(id) => RevokeKeeps(cfg, s, id);
    case Evict(id) => DropKeeps(cfg, s, id);
    case Call(caller, action) => CallKeeps(cfg, s, caller, action);
    case _ => ConsumingKeeps(cfg, s, step);
  }
}
