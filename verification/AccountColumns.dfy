/** Every handler's effect again, column by column, without the functions that compute it: which sessions
    are accepted, when a session token is issued, what a step may change of each account and to what, which
    tokens it gives away and which cutoffs stay cached. `IssuedExactly` follows the session tokens over
    whole runs. */
module AccountColumns {
  import opened Prelude
  import opened Roles
  import opened Accounts
  import opened AccountInvariant
  import opened AccountProofs

  const DAY: nat := 86400000

  predicate Free(s: State, email: string) {
    forall id | id in s.users :: s.users[id].email != email
  }

  /** The caller is accepted. */
  predicate ByCaller(cfg: Config, s: State, step: Step) {
    step.Call? && Accepts(cfg, s, step.caller)
  }

  /** Acceptance: an issued, unexpired token of an existing account, signed in a later second than its cutoff. */
  lemma AcceptsExactly(cfg: Config, s: State, c: Claims)
    requires WellFormed(cfg.roles) && Inv(cfg, s)
    ensures Accepts(cfg, s, c) <==>
            && c in s.issued && s.clock / 1000 <= c.exp + cfg.leeway
            && c.sub in s.users && c.iat > 0 && c.iat > s.users[c.sub].validAfter
  {
    assert Cutoff(s, c.sub).0 == TableCutoff(s, c.sub);
  }

  ghost predicate StoredAdmin(cfg: Config, s: State, id: Id) {
    id in s.users && exists r :: r in cfg.roles && r.admin && r.name == Lower(s.users[id].role)
  }

  predicate Permitted(c: Claims) {
    c.role.admin || "users.write" in c.role.permissions
  }

  // ----- sessions

  /** A sign-in with the right password to a verified account whose role has access signs this token. */
  predicate SignsIn(cfg: Config, s: State, step: Step, c: Claims)
    requires WellFormed(cfg.roles)
  {
    && step == Login(Some(c.sub), true)
    && c.sub in s.users && s.users[c.sub].verified
    && c.role == FromRoleStr(cfg.roles, s.users[c.sub].role) && !c.role.none
    && c.iat == s.clock / 1000 && c.exp == c.iat + 3600
  }

  lemma IssuedAfter(cfg: Config, s: State, step: Step, c: Claims)
    requires WellFormed(cfg.roles) && Allowed(s, step)
    ensures c in Apply(cfg, s, step).issued <==> c in s.issued || SignsIn(cfg, s, step, c)
  {
  }

  /** Some step of the run signs the token in. */
  ghost predicate SignedInDuring(cfg: Config, s: State, steps: seq<Step>, c: Claims)
    requires WellFormed(cfg.roles) && AllowedRun(cfg, s, steps)
    decreases |steps|
  {
    steps != [] && (SignsIn(cfg, s, steps[0], c) || SignedInDuring(cfg, Apply(cfg, s, steps[0]), steps[1..], c))
  }

  /** In every run the issued tokens are exactly those that sign-ins signed. */
  lemma {:induction false} IssuedExactly(cfg: Config, s: State, steps: seq<Step>, c: Claims)
    requires WellFormed(cfg.roles) && AllowedRun(cfg, s, steps)
    ensures c in After(cfg, s, steps).issued <==> c in s.issued || SignedInDuring(cfg, s, steps, c)
    decreases |steps|
  {
    if steps != [] {
      IssuedAfter(cfg, s, steps[0], c);
      IssuedExactly(cfg, Apply(cfg, s, steps[0]), steps[1..], c);
    }
  }

  // ----- the users table

  predicate Verifies(step: Step, id: Id) {
    step.VerifyEmail? && step.row == Some(id)
  }

  predicate Resets(step: Step, id: Id) {
    step.ResetPassword? && step.row == Some(id)
  }

  /** The address staged for this account is confirmed, and still free. */
  predicate Confirms(s: State, step: Step, id: Id) {
    && step.ConfirmEmail? && step.row == Some(id) && id in s.users && s.users[id].pendingEmail.Some?
    && forall other | other in s.users && other != id :: s.users[other].email != s.users[id].pendingEmail.value
  }

  lemma ConfirmsExactly(s: State, step: Step, id: Id)
    ensures Confirms(s, step, id) <==>
            && step.ConfirmEmail? && step.row == Some(id) && id in s.users && s.users[id].pendingEmail.Some?
            && !EmailTaken(s.users - {id}, s.users[id].pendingEmail.value)
  {
    if id in s.users && s.users[id].pendingEmail.Some? {
      var rest := s.users - {id};
      assert forall other :: other in rest <==> other in s.users && other != id;
      assert forall other | other in rest :: rest[other] == s.users[other];
    }
  }

  /** The account asks for an address that nobody has. */
  predicate AsksAddress(cfg: Config, s: State, step: Step, id: Id) {
    ByCaller(cfg, s, step) && step.action.ChangeEmail? && step.caller.sub == id && Free(s, step.action.newEmail)
  }

  /** A role change that goes through: permitted, to a declared role named as the input trimmed and in lower case,
      and to or from an admin role only by an admin. */
  ghost predicate Gives(cfg: Config, s: State, step: Step, id: Id)
    requires WellFormed(cfg.roles)
  {
    && ByCaller(cfg, s, step) && step.action.SetRole? && step.action.id == id && Permitted(step.caller)
    && exists r :: ReadsAs(cfg.roles, step.action.input, r) && r.name == Lower(Trim(step.action.input))
                   && (r.admin || StoredAdmin(cfg, s, id) ==> step.caller.role.admin)
  }

  lemma GivesExactly(cfg: Config, s: State, step: Step, id: Id)
    requires WellFormed(cfg.roles) && step.Call? && step.action.SetRole? && id in s.users
    ensures var role := FromRoleStr(cfg.roles, step.action.input);
            Gives(cfg, s, step, id) <==>
            && ByCaller(cfg, s, step) && step.action.id == id && HasPermission(step.caller.role, "users.write")
            && role.name == Lower(Trim(step.action.input))
            && (role.admin || FromRoleStr(cfg.roles, s.users[id].role).admin ==> step.caller.role.admin)
  {
    var role := FromRoleStr(cfg.roles, step.action.input);
    AdminIsNamed(cfg.roles, s.users[id].role);
    forall r ensures FromRoleStr(cfg.roles, step.action.input) == r <==> ReadsAs(cfg.roles, step.action.input, r) {
      ReadExactly(cfg.roles, step.action.input, r);
    }
  }

  /** The sessions of the account are revoked. */
  ghost predicate Ends(cfg: Config, s: State, step: Step, id: Id)
    requires WellFormed(cfg.roles)
  {
    || step == Revoke(id)
    || Resets(step, id)
    || Confirms(s, step, id)
    || Gives(cfg, s, step, id)
  }

  /** A reset token is asked for the account, by address or by its owner. */
  predicate AsksReset(cfg: Config, s: State, step: Step, id: Id) {
    || (step.Forgot? && step.row == Some(id))
    || (ByCaller(cfg, s, step) && step.action.ResetOwn? && step.caller.sub == id)
  }

  function ResetToken(step: Step): Option<Token> {
    match step
    case Forgot(_, token) => Some(token)
    case Call(_, ResetOwn(token)) => Some(token)
    case _ => None
  }

  /** What every column of an account holds after a step. */
  ghost function RowAfter(cfg: Config, s: State, step: Step, id: Id): User
    requires WellFormed(cfg.roles) && id in s.users
  {
    var u := s.users[id];
    var confirmed, asked, reset := Confirms(s, step, id), AsksAddress(cfg, s, step, id), Resets(step, id);
    User(
      if confirmed then u.pendingEmail.value else if asked && !cfg.verifyEmails then step.action.newEmail else u.email,
      if reset then step.hash else u.password,
      if Gives(cfg, s, step, id) then Lower(Trim(step.action.input)) else u.role,
      u.verified || Verifies(step, id),
      if Verifies(step, id) then Slot(None, None) else u.verification,
      if reset then Slot(None, None)
      else if AsksReset(cfg, s, step, id) then Slot(ResetToken(step), Some(s.clock + DAY)) else u.reset,
      if confirmed then Slot(None, None)
      else if !asked then u.emailChange
      else if cfg.verifyEmails then Slot(Some(step.action.token), Some(s.clock + DAY))
      else Slot(None, u.emailChange.expiry),
      if confirmed then None
      else if !asked then u.pendingEmail
      else if cfg.verifyEmails then Some(step.action.newEmail) else None,
      if Ends(cfg, s, step, id) then s.clock / 1000 else u.validAfter)
  }

  /** Every step leaves every account that stays with exactly these columns. */
  lemma RowExactly(cfg: Config, s: State, step: Step, id: Id)
    requires WellFormed(cfg.roles) && Allowed(s, step) && id < s.nextId
    requires id in s.users && id in Apply(cfg, s, step).users
    ensures Apply(cfg, s, step).users[id] == RowAfter(cfg, s, step, id)
  {
    if step.Call? {
      if step.action.SetRole? {
        SetRoleRow(cfg, s, step, id);
      } else if step.action.ChangeEmail? {
        AddressRow(cfg, s, step, id);
      } else {
        OtherCallRow(cfg, s, step, id);
      }
    } else if step.ConfirmEmail? {
      ConfirmRow(cfg, s, step, id);
    } else {
      PlainRow(cfg, s, step, id);
    }
  }

  lemma SetRoleRow(cfg: Config, s: State, step: Step, id: Id)
    requires WellFormed(cfg.roles) && Allowed(s, step) && id < s.nextId && step.Call? && step.action.SetRole?
    requires id in s.users && id in Apply(cfg, s, step).users
    ensures Apply(cfg, s, step).users[id] == RowAfter(cfg, s, step, id)
  {
    GivesExactly(cfg, s, step, id);
  }

  lemma AddressRow(cfg: Config, s: State, step: Step, id: Id)
    requires WellFormed(cfg.roles) && Allowed(s, step) && id < s.nextId && step.Call? && step.action.ChangeEmail?
    requires id in s.users && id in Apply(cfg, s, step).users
    ensures Apply(cfg, s, step).users[id] == RowAfter(cfg, s, step, id)
  {
  }

  lemma OtherCallRow(cfg: Config, s: State, step: Step, id: Id)
    requires WellFormed(cfg.roles) && Allowed(s, step) && id < s.nextId
    requires step.Call? && !step.action.SetRole? && !step.action.ChangeEmail?
    requires id in s.users && id in Apply(cfg, s, step).users
    ensures Apply(cfg, s, step).users[id] == RowAfter(cfg, s, step, id)
  {
  }

  lemma ConfirmRow(cfg: Config, s: State, step: Step, id: Id)
    requires WellFormed(cfg.roles) && Allowed(s, step) && id < s.nextId && step.ConfirmEmail?
    requires id in s.users && id in Apply(cfg, s, step).users
    ensures Apply(cfg, s, step).users[id] == RowAfter(cfg, s, step, id)
  {
    ConfirmsExactly(s, step, id);
  }

  lemma PlainRow(cfg: Config, s: State, step: Step, id: Id)
    requires WellFormed(cfg.roles) && Allowed(s, step) && id < s.nextId && !step.Call? && !step.ConfirmEmail?
    requires id in s.users && id in Apply(cfg, s, step).users
    ensures Apply(cfg, s, step).users[id] == RowAfter(cfg, s, step, id)
  {
  }

  // ----- rows

  /** The account deletes itself, or is deleted by a permitted caller, who must be an admin to delete one. */
  ghost predicate Deletes(cfg: Config, s: State, step: Step, id: Id)
    requires WellFormed(cfg.roles)
  {
    && ByCaller(cfg, s, step) && id in s.users
    && (|| (step.action.DeleteOwn? && step.caller.sub == id)
        || (step.action == DeleteUser(id) && Permitted(step.caller)
            && (StoredAdmin(cfg, s, id) ==> step.caller.role.admin)))
  }

  /** Nobody holds an admin role, and there is one to give. */
  ghost predicate NeedsAdmin(cfg: Config, s: State) {
    && (exists r :: r in cfg.roles && r.admin)
    && forall id, r | id in s.users && r in cfg.roles && r.admin :: s.users[id].role != r.name
  }

  ghost predicate Creates(cfg: Config, s: State, step: Step) {
    || (step.Register? && Free(s, step.email))
    || (step.Bootstrap? && step.email != "" && NeedsAdmin(cfg, s) && Free(s, step.email))
  }

  lemma RowsAfter(cfg: Config, s: State, step: Step, id: Id)
    requires WellFormed(cfg.roles) && Allowed(s, step)
    ensures var s' := Apply(cfg, s, step);
            && (id in s'.users <==>
                  (id in s.users && !Deletes(cfg, s, step, id)) || (Creates(cfg, s, step) && id == s.nextId))
            && s'.nextId == s.nextId + if Creates(cfg, s, step) then 1 else 0
  {
    if step.Call? {
      CallRows(cfg, s, step, id);
    } else if step.Bootstrap? {
      FirstAdminExactly(cfg.roles);
      BootstrapRows(cfg, s, step);
    } else {
      OtherRows(cfg, s, step, id);
    }
  }

  lemma CallRows(cfg: Config, s: State, step: Step, id: Id)
    requires WellFormed(cfg.roles) && Allowed(s, step) && step.Call?
    ensures id in Apply(cfg, s, step).users <==> id in s.users && !Deletes(cfg, s, step, id)
    ensures Apply(cfg, s, step).nextId == s.nextId
  {
    if id in s.users { AdminIsNamed(cfg.roles, s.users[id].role); }
  }

  lemma OtherRows(cfg: Config, s: State, step: Step, id: Id)
    requires WellFormed(cfg.roles) && Allowed(s, step) && !step.Call? && !step.Bootstrap?
    ensures var s' := Apply(cfg, s, step);
            && (id in s'.users <==> id in s.users || (Creates(cfg, s, step) && id == s.nextId))
            && s'.nextId == s.nextId + if Creates(cfg, s, step) then 1 else 0
  {
  }

  lemma BootstrapRows(cfg: Config, s: State, step: Step)
    requires WellFormed(cfg.roles) && step.Bootstrap?
    requires FirstAdmin(cfg.roles).Some? <==> exists r :: r in cfg.roles && r.admin
    ensures Creates(cfg, s, step) <==> Apply(cfg, s, step) != s
    ensures var s' := Apply(cfg, s, step);
            s'.users.Keys == s.users.Keys + if Creates(cfg, s, step) then {s.nextId} else {}
    ensures Apply(cfg, s, step).nextId == s.nextId + if Creates(cfg, s, step) then 1 else 0
  {
  }

  lemma {:induction false} FirstAdminExactly(roles: seq<Role>)
    ensures FirstAdmin(roles).Some? <==> exists r :: r in roles && r.admin
    ensures FirstAdmin(roles).Some? ==> exists i :: FirstAdminAt(roles, i) && roles[i] == FirstAdmin(roles).value
  {
    if roles != [] {
      FirstAdminExactly(roles[1..]);
      if roles[0].admin {
        assert roles[0] in roles && FirstAdminAt(roles, 0);
      } else if FirstAdmin(roles).Some? {
        var i :| FirstAdminAt(roles[1..], i) && roles[1..][i] == FirstAdmin(roles[1..]).value;
        assert roles[i + 1] == FirstAdmin(roles).value;
        forall k | 0 <= k < i + 1 ensures !roles[k].admin { if k > 0 { assert roles[1..][k - 1] == roles[k]; } }
        assert FirstAdminAt(roles, i + 1);
      }
    }
  }

  ghost predicate FirstAdminAt(roles: seq<Role>, i: int) {
    0 <= i < |roles| && roles[i].admin && forall k | 0 <= k < i :: !roles[k].admin
  }

  /** A new account has what it was created with, the default role or the first admin role, and a verification token
      only where addresses are verified. */
  lemma CreatedRow(cfg: Config, s: State, step: Step)
    requires WellFormed(cfg.roles) && Allowed(s, step) && Creates(cfg, s, step)
    ensures s.nextId in Apply(cfg, s, step).users
    ensures var u := Apply(cfg, s, step).users[s.nextId];
            && u.email == step.email && u.password == step.hash
            && (step.Register? ==> u.role == "user" && (u.verified <==> !cfg.verifyEmails))
            && (step.Bootstrap? ==> u.verified && exists i :: FirstAdminAt(cfg.roles, i) && u.role == cfg.roles[i].name)
            && u.verification == (if u.verified then Slot(None, None) else Slot(Some(step.token), Some(s.clock + DAY)))
            && u.reset == Slot(None, None) && u.emailChange == Slot(None, None)
            && u.pendingEmail == None && u.validAfter == 0
  {
    if step.Bootstrap? { FirstAdminExactly(cfg.roles); }
  }

  // ----- effects and tokens minted

  /** The single-use token a step consumes: to verify an address, to reset a password, to confirm a change. */
  function Consumed(s: State, step: Step): Option<Effect> {
    match step
    case VerifyEmail(token, Some(id)) => Some(Effect(token, Verification, id, s.clock))
    case ResetPassword(token, _, Some(id)) => Some(Effect(token, Reset, id, s.clock))
    case ConfirmEmail(token, Some(id)) =>
      if Confirms(s, step, id) then Some(Effect(token, EmailChange, id, s.clock)) else None
    case _ => None
  }

  lemma EffectsAfter(cfg: Config, s: State, step: Step)
    requires WellFormed(cfg.roles) && Allowed(s, step)
    ensures Apply(cfg, s, step).effects ==
            s.effects + if Consumed(s, step).Some? then [Consumed(s, step).value] else []
  {
    if step.ConfirmEmail? && step.row.Some? { ConfirmsExactly(s, step, step.row.value); }
  }

  // ----- the cache

  predicate LooksUp(cfg: Config, s: State, step: Step, id: Id) {
    step.Call? && step.caller.sub == id && step.caller in s.issued && s.clock / 1000 <= step.caller.exp + cfg.leeway
  }

  /** Revoking and deleting drop the cached cutoff. */
  lemma CacheDropped(cfg: Config, s: State, step: Step, id: Id)
    requires WellFormed(cfg.roles) && Allowed(s, step) && id in s.users
    requires Ends(cfg, s, step, id) || Deletes(cfg, s, step, id) || step == Evict(id)
    ensures id !in Apply(cfg, s, step).cache
  {
    ConfirmsExactly(s, step, id);
    AdminIsNamed(cfg.roles, s.users[id].role);
    if step.Call? && step.action.SetRole? { GivesExactly(cfg, s, step, id); }
  }

  /** What is cached of an account whose cutoff does not move: a cutoff is cached, with the row's value, when it is
      looked up and not current. */
  ghost predicate CachedAfter(cfg: Config, s: State, s': State, step: Step, id: Id)
    requires id in s.users
  {
    var current := id in s.cache && s.clock < s.cache[id].at + 5000;
    && (id in s'.cache <==> id in s.cache || LooksUp(cfg, s, step, id))
    && (id in s'.cache ==> s'.cache[id] == if LooksUp(cfg, s, step, id) && !current
                                           then Cached(Some(s.users[id].validAfter), s.clock) else s.cache[id])
  }

  lemma CacheAfter(cfg: Config, s: State, step: Step, id: Id)
    requires WellFormed(cfg.roles) && Allowed(s, step) && id in s.users && id < s.nextId
    requires !Ends(cfg, s, step, id) && !Deletes(cfg, s, step, id) && step != Evict(id)
    ensures CachedAfter(cfg, s, Apply(cfg, s, step), step, id)
  {
    if step.Call? {
      LookedUp(cfg, s, step, id);
      if step.action.SetRole? { GivesExactly(cfg, s, step, id); }
      ActKeepsCache(cfg, s, step, id);
    } else {
      ConfirmsExactly(s, step, id);
      PlainCache(cfg, s, step, id);
    }
  }

  lemma LookedUp(cfg: Config, s: State, step: Step, id: Id)
    requires step.Call? && id in s.users
    ensures CachedAfter(cfg, s, AfterLookup(cfg, s, step.caller), step, id)
  {
  }

  lemma ActKeepsCache(cfg: Config, s: State, step: Step, id: Id)
    requires WellFormed(cfg.roles) && Allowed(s, step) && id in s.users && step.Call?
    requires !Deletes(cfg, s, step, id)
    requires step.action.SetRole? ==>
               var role := FromRoleStr(cfg.roles, step.action.input);
               !(&& ByCaller(cfg, s, step) && step.action.id == id && HasPermission(step.caller.role, "users.write")
                 && role.name == Lower(Trim(step.action.input))
                 && (role.admin || FromRoleStr(cfg.roles, s.users[id].role).admin ==> step.caller.role.admin))
    ensures var s' := Apply(cfg, s, step);
            var looked := AfterLookup(cfg, s, step.caller);
            && (id in s'.cache <==> id in looked.cache) && (id in s'.cache ==> s'.cache[id] == looked.cache[id])
  {
    AdminIsNamed(cfg.roles, s.users[id].role);
  }

  lemma PlainCache(cfg: Config, s: State, step: Step, id: Id)
    requires WellFormed(cfg.roles) && Allowed(s, step) && id in s.users && !step.Call?
    requires !Ends(cfg, s, step, id) && step != Evict(id)
    requires Confirms(s, step, id) <==>
             && step.ConfirmEmail? && step.row == Some(id) && id in s.users && s.users[id].pendingEmail.Some?
             && !EmailTaken(s.users - {id}, s.users[id].pendingEmail.value)
    ensures CachedAfter(cfg, s, Apply(cfg, s, step), step, id)
  {
  }
}
