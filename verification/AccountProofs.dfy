/** What every run of the handlers keeps: accepted sessions carry the stored role, revocations hold for good,
    and single-use tokens work once, in time, for their account. */
module AccountProofs {
  import opened Prelude
  import opened Roles
  import opened Accounts
  import opened AccountInvariant

  // ----- runs

  ghost predicate AllowedRun(cfg: Config, s: State, steps: seq<Step>)
    requires WellFormed(cfg.roles)
    decreases |steps|
  {
    steps == [] || (Allowed(s, steps[0]) && AllowedRun(cfg, Apply(cfg, s, steps[0]), steps[1..]))
  }

  ghost function After(cfg: Config, s: State, steps: seq<Step>): State
    requires WellFormed(cfg.roles) && AllowedRun(cfg, s, steps)
    decreases |steps|
  {
    if steps == [] then s else After(cfg, Apply(cfg, s, steps[0]), steps[1..])
  }

  lemma {:induction false} RunKeeps(cfg: Config, s: State, steps: seq<Step>)
    requires WellFormed(cfg.roles) && Inv(cfg, s) && AllowedRun(cfg, s, steps)
    ensures Inv(cfg, After(cfg, s, steps))
    decreases |steps|
  {
    if steps != [] {
      StepKeeps(cfg, s, steps[0]);
      RunKeeps(cfg, Apply(cfg, s, steps[0]), steps[1..]);
    }
  }

  // ----- sessions

  /** In every run, an accepted session token carries the role stored for its user now. */
  lemma AcceptedRoleIsStored(cfg: Config, steps: seq<Step>, c: Claims)
    requires WellFormed(cfg.roles) && AllowedRun(cfg, Initial(), steps)
    requires Accepts(cfg, After(cfg, Initial(), steps), c)
    ensures var s := After(cfg, Initial(), steps);
            c.sub in s.users && c.role == FromRoleStr(cfg.roles, s.users[c.sub].role)
  {
    InitialInv(cfg);
    RunKeeps(cfg, Initial(), steps);
    AcceptedRole(cfg, After(cfg, Initial(), steps), c);
  }

  lemma AcceptedRole(cfg: Config, s: State, c: Claims)
    requires WellFormed(cfg.roles) && Inv(cfg, s) && Accepts(cfg, s, c)
    ensures c.sub in s.users && c.iat > s.users[c.sub].validAfter
    ensures c.role == FromRoleStr(cfg.roles, s.users[c.sub].role)
  {
    assert Cutoff(s, c.sub).0 == TableCutoff(s, c.sub);
    assert RoleFresh(cfg, s, c);
  }

  /** One account's row across a step: it is never made for a used id, and its cutoff only moves to now. */
  ghost predicate RowMoves(s: State, s': State, id: Id) {
    && s'.nextId >= s.nextId && s'.clock >= s.clock
    && (id in s'.users ==> id in s.users
                           && (s'.users[id].validAfter == s.users[id].validAfter
                               || s'.users[id].validAfter == Seconds(s.clock)))
  }

  ghost predicate RoleKept(s: State, s': State, id: Id) {
    id in s.users ==> id in s'.users && s'.users[id].role == s.users[id].role
  }

  lemma PlainStepRow(cfg: Config, s: State, step: Step, id: Id)
    requires WellFormed(cfg.roles) && Allowed(s, step) && !step.Call? && id < s.nextId
    ensures RowMoves(s, Apply(cfg, s, step), id) && RoleKept(s, Apply(cfg, s, step), id)
  {
  }

  lemma ActRow(cfg: Config, s: State, caller: Claims, action: Action, id: Id)
    requires WellFormed(cfg.roles) && id < s.nextId
    ensures RowMoves(s, Act(cfg, s, caller, action), id)
    ensures || RoleKept(s, Act(cfg, s, caller, action), id)
            || (action.DeleteOwn? && caller.sub == id)
            || (action.SetRole? && action.id == id)
            || (action.DeleteUser? && action.id == id)
  {
  }

  /** A token whose user is gone, or revoked at or after its issue. */
  ghost predicate Dead(s: State, c: Claims) {
    && c.sub < s.nextId && c.iat <= Seconds(s.clock)
    && (c.sub in s.users ==> s.users[c.sub].validAfter >= c.iat)
  }

  lemma StepRow(cfg: Config, s: State, step: Step, id: Id)
    requires WellFormed(cfg.roles) && Allowed(s, step) && id < s.nextId
    ensures RowMoves(s, Apply(cfg, s, step), id)
  {
    if !step.Call? {
      PlainStepRow(cfg, s, step, id);
    } else {
      ActRow(cfg, AfterLookup(cfg, s, step.caller), step.caller, step.action, id);
    }
  }

  lemma DeadStays(cfg: Config, s: State, step: Step, c: Claims)
    requires WellFormed(cfg.roles) && Allowed(s, step) && Dead(s, c)
    ensures Dead(Apply(cfg, s, step), c)
  {
    StepRow(cfg, s, step, c.sub);
    var s' := Apply(cfg, s, step);
    assert Seconds(s.clock) <= Seconds(s'.clock);
  }

  /** Revoking a user's sessions rejects every token issued so far, at once and in every
      continuation. */
  lemma {:induction false} DeadForever(cfg: Config, s: State, steps: seq<Step>, c: Claims)
    requires WellFormed(cfg.roles) && Inv(cfg, s) && AllowedRun(cfg, s, steps) && Dead(s, c)
    ensures !Accepts(cfg, After(cfg, s, steps), c)
    decreases |steps|
  {
    if steps == [] {
      if Accepts(cfg, s, c) { AcceptedRole(cfg, s, c); }
    } else {
      StepKeeps(cfg, s, steps[0]);
      DeadStays(cfg, s, steps[0], c);
      DeadForever(cfg, Apply(cfg, s, steps[0]), steps[1..], c);
    }
  }

  /** The step revokes, or deletes the account, or changes its role or password, or confirms a new address. */
  ghost predicate Revokes(s: State, s': State, step: Step, id: Id) {
    || step == Revoke(id)
    || (id in s.users && id !in s'.users)
    || (id in s.users && id in s'.users
        && (s'.users[id].role != s.users[id].role || s'.users[id].password != s.users[id].password
            || (step.ConfirmEmail? && s'.users[id].email != s.users[id].email)))
  }

  /** The steps that revoke: log-out-everywhere, a used reset or email-change token, a role change
      and a deletion all kill every token issued to that account so far. */
  lemma RevocationKills(cfg: Config, s: State, step: Step, c: Claims)
    requires WellFormed(cfg.roles) && Inv(cfg, s) && Allowed(s, step) && c in s.issued
    ensures Revokes(s, Apply(cfg, s, step), step, c.sub) ==> Dead(Apply(cfg, s, step), c)
  {
    if Revokes(s, Apply(cfg, s, step), step, c.sub) {
      assert RoleFresh(cfg, s, c);
      assert c.sub < s.nextId;
      StepRow(cfg, s, step, c.sub);
      if step.Call? {
        ActionKills(cfg, AfterLookup(cfg, s, step.caller), step.caller, step.action, c);
      } else {
        PlainStepRow(cfg, s, step, c.sub);
        PlainStepKills(cfg, s, step, c);
      }
    }
  }

  lemma PlainStepKills(cfg: Config, s: State, step: Step, c: Claims)
    requires WellFormed(cfg.roles) && Allowed(s, step) && !step.Call?
    requires c.sub < s.nextId && c.iat <= Seconds(s.clock)
    ensures RoleKept(s, Apply(cfg, s, step), c.sub) && Revokes(s, Apply(cfg, s, step), step, c.sub) ==>
            Dead(Apply(cfg, s, step), c)
  {
  }

  lemma ActionKills(cfg: Config, s: State, caller: Claims, action: Action, c: Claims)
    requires WellFormed(cfg.roles) && c.sub in s.users && c.sub < s.nextId && c.iat <= Seconds(s.clock)
    ensures var s' := Act(cfg, s, caller, action);
            || Dead(s', c)
            || (c.sub in s'.users && s'.users[c.sub].role == s.users[c.sub].role
                && s'.users[c.sub].password == s.users[c.sub].password)
  {
    match action
    case SetRole(_, _) =>
    case _ =>
  }

  // ----- single-use tokens

  /** In every run, the recorded effects are of distinct tokens, each used before its expiry, for
      its own purpose and on its own account, and none of them can match a row again. */
  lemma TokensUsedOnce(cfg: Config, steps: seq<Step>)
    requires WellFormed(cfg.roles) && AllowedRun(cfg, Initial(), steps)
    ensures var s := After(cfg, Initial(), steps);
            && (forall i | 0 <= i < |s.effects| :: EffectSound(s, s.effects[i]))
            && (forall i, j | 0 <= i < j < |s.effects| :: s.effects[i].token != s.effects[j].token)
  {
    InitialInv(cfg);
    RunKeeps(cfg, Initial(), steps);
  }

  /** A statement's token clause finds the account the token was minted for, in time; so at most
      one row. */
  lemma RowIsOwner(cfg: Config, s: State, kind: Kind, token: Token, id: Id)
    requires WellFormed(cfg.roles) && Inv(cfg, s) && id in s.users && Matches(s.users[id], kind, token, s.clock)
    ensures token in s.minted && s.minted[token].kind == kind && s.minted[token].id == id
    ensures s.clock < s.minted[token].expiry
  {
    assert SlotMinted(s, id, kind);
  }

  /** A token that leaves its column, used, replaced by a newer one or cleared, is retired. */
  lemma LeavingRetires(cfg: Config, s: State, step: Step, id: Id, kind: Kind)
    requires WellFormed(cfg.roles) && Inv(cfg, s) && Allowed(s, step)
    requires id in s.users && SlotOf(s.users[id], kind).token.Some?
    requires var s' := Apply(cfg, s, step);
             id !in s'.users || SlotOf(s'.users[id], kind).token != SlotOf(s.users[id], kind).token
    ensures Retired(Apply(cfg, s, step), SlotOf(s.users[id], kind).token.value)
  {
    var s' := Apply(cfg, s, step);
    var token := SlotOf(s.users[id], kind).token.value;
    StepKeeps(cfg, s, step);
    assert SlotMinted(s, id, kind);
    MintedStays(cfg, s, step, token);
    forall j, k | j in s'.users ensures SlotOf(s'.users[j], k).token != Some(token) {
      assert SlotMinted(s', j, k);
    }
  }

  lemma MintedStays(cfg: Config, s: State, step: Step, token: Token)
    requires WellFormed(cfg.roles) && Allowed(s, step) && token in s.minted
    ensures var s' := Apply(cfg, s, step); token in s'.minted && s'.minted[token] == s.minted[token]
  {
  }

  /** Slots that are as before, empty, or newly minted hold no retired token. */
  lemma RetiredFrame(s: State, s': State, token: Token)
    requires Retired(s, token) && token in s'.minted
    requires forall id, kind | id in s'.users ::
               || SlotOf(s'.users[id], kind).token.None?
               || (id in s.users && SlotOf(s'.users[id], kind) == SlotOf(s.users[id], kind))
               || SlotOf(s'.users[id], kind).token.value !in s.minted
    ensures Retired(s', token)
  {
    forall id, kind | id in s'.users ensures SlotOf(s'.users[id], kind).token != Some(token) {
      if id in s.users { assert SlotOf(s.users[id], kind).token != Some(token); }
    }
  }

  lemma ActRetires(cfg: Config, s: State, c: Claims, action: Action, token: Token)
    requires WellFormed(cfg.roles) && Retired(s, token)
    requires action.ChangeEmail? || action.ResetOwn? ==> Fresh(s, action.token)
    ensures Retired(Act(cfg, s, c, action), token) && Act(cfg, s, c, action).effects == s.effects
  {
    RetiredFrame(s, Act(cfg, s, c, action), token);
  }

  lemma RetiredStays(cfg: Config, s: State, step: Step, token: Token)
    requires WellFormed(cfg.roles) && Allowed(s, step) && Retired(s, token)
    ensures Retired(Apply(cfg, s, step), token)
    ensures var s' := Apply(cfg, s, step);
            || s'.effects == s.effects
            || (|s'.effects| == |s.effects| + 1 && s'.effects[..|s.effects|] == s.effects
                && s'.effects[|s.effects|].token != token)
  {
    if step.Call? {
      var s' := AfterLookup(cfg, s, step.caller);
      RetiredFrame(s, s', token);
      ActRetires(cfg, s', step.caller, step.action, token);
    } else {
      RetiredFrame(s, Apply(cfg, s, step), token);
    }
  }

  /** A retired token never takes effect again, in any continuation. */
  lemma {:induction false} RetiredForever(cfg: Config, s: State, steps: seq<Step>, token: Token)
    requires WellFormed(cfg.roles) && Inv(cfg, s) && AllowedRun(cfg, s, steps) && Retired(s, token)
    ensures var s' := After(cfg, s, steps);
            && |s'.effects| >= |s.effects|
            && forall i | |s.effects| <= i < |s'.effects| :: s'.effects[i].token != token
    decreases |steps|
  {
    if steps != [] {
      var s1 := Apply(cfg, s, steps[0]);
      StepKeeps(cfg, s, steps[0]);
      RetiredStays(cfg, s, steps[0], token);
      RetiredForever(cfg, s1, steps[1..], token);
      EffectsGrow(cfg, s1, steps[1..]);
    }
  }

  lemma {:induction false} EffectsGrow(cfg: Config, s: State, steps: seq<Step>)
    requires WellFormed(cfg.roles) && AllowedRun(cfg, s, steps)
    ensures s.effects <= After(cfg, s, steps).effects
    decreases |steps|
  {
    if steps != [] {
      EffectsGrow(cfg, Apply(cfg, s, steps[0]), steps[1..]);
    }
  }
}
