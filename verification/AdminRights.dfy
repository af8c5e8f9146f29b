/** Who can become an admin and who can stop being one, over single steps: the bootstrap and the role
    changes of admins on one side; the role changes and deletions of admins, and deleting oneself, on the
    other. The column is compared as the bootstrap compares it, which agrees with reading the role. */
module AdminRights {
  import opened Roles
  import opened Accounts
  import opened AccountInvariant
  import opened AccountProofs

  ghost predicate IsAdmin(cfg: Config, s: State, id: Id)
    requires WellFormed(cfg.roles)
  {
    id in s.users && FromRoleStr(cfg.roles, s.users[id].role).admin
  }

  ghost predicate ByAdmin(cfg: Config, s: State, step: Step, target: Id)
    requires WellFormed(cfg.roles)
  {
    && step.Call?
    && Accepts(cfg, s, step.caller)
    && IsAdmin(cfg, s, step.caller.sub)
    && ((step.action.SetRole? && step.action.id == target) || (step.action.DeleteUser? && step.action.id == target))
  }

  /** The account deletes itself. */
  ghost predicate ByOwner(cfg: Config, s: State, step: Step, target: Id) {
    step.Call? && Accepts(cfg, s, step.caller) && step.action.DeleteOwn? && step.caller.sub == target
  }

  /** The bootstrap ran on a table without any admin. */
  ghost predicate ByBootstrap(cfg: Config, s: State, step: Step)
    requires WellFormed(cfg.roles)
  {
    step.Bootstrap? && forall id :: !IsAdmin(cfg, s, id)
  }

  /** `NamesAdmin`, the exact comparison the bootstrap's SELECT makes, agrees with reading the
      role, because stored roles are canonical. */
  lemma NamesAdminAgrees(cfg: Config, s: State, id: Id)
    requires WellFormed(cfg.roles) && Inv(cfg, s) && id in s.users
    ensures NamesAdmin(cfg, s.users[id].role) <==> IsAdmin(cfg, s, id)
  {
    AdminIsNamed(cfg.roles, s.users[id].role);
  }

  /** Without the admin role a caller's action leaves an admin's row alone, but for their own. */
  lemma ActNeedsAdmin(cfg: Config, s: State, caller: Claims, action: Action, id: Id)
    requires WellFormed(cfg.roles) && id in s.users && FromRoleStr(cfg.roles, s.users[id].role).admin
    requires (action.SetRole? && action.id == id) || (action.DeleteUser? && action.id == id)
    ensures caller.role.admin || Act(cfg, s, caller, action) == s
  {
  }

  /** Rows are made by the bootstrap, and by registering, which gives the default role. */
  lemma NewRow(cfg: Config, s: State, step: Step, id: Id)
    requires WellFormed(cfg.roles) && Allowed(s, step) && !step.Call? && !step.Bootstrap?
    requires id !in s.users && id in Apply(cfg, s, step).users
    ensures Apply(cfg, s, step).users[id].role == DEFAULT_ROLE
  {
  }

  /** A caller's action gives a row the admin role only as a role change by an admin. */
  lemma ActGains(cfg: Config, s: State, caller: Claims, action: Action, id: Id)
    requires WellFormed(cfg.roles) && !IsAdmin(cfg, s, id) && IsAdmin(cfg, Act(cfg, s, caller, action), id)
    ensures action.SetRole? && action.id == id && caller.role.admin
  {
    if action.SetRole? {
      RoleRoundTrip(cfg.roles, FromRoleStr(cfg.roles, action.input));
    }
  }

  /** An account becomes admin only through the bootstrap of an app without one, or by a caller
      who is admin at that moment. */
  lemma AdminGained(cfg: Config, s: State, step: Step, id: Id)
    requires WellFormed(cfg.roles) && Inv(cfg, s) && Allowed(s, step)
    ensures !FromRoleStr(cfg.roles, DEFAULT_ROLE).admin ==>
            !IsAdmin(cfg, s, id) && IsAdmin(cfg, Apply(cfg, s, step), id) ==>
              ByBootstrap(cfg, s, step) || (ByAdmin(cfg, s, step, id) && step.action.SetRole?)
  {
    if !IsAdmin(cfg, s, id) && IsAdmin(cfg, Apply(cfg, s, step), id) {
      if step.Bootstrap? {
        forall j ensures !IsAdmin(cfg, s, j) {
          if j in s.users { NamesAdminAgrees(cfg, s, j); }
        }
      } else if step.Call? {
        var looked := AfterLookup(cfg, s, step.caller);
        assert looked.users == s.users;
        if Accepts(cfg, s, step.caller) {
          AcceptedRole(cfg, s, step.caller);
          ActGains(cfg, looked, step.caller, step.action, id);
        }
      } else if id in s.users {
        PlainStepRow(cfg, s, step, id);
      } else {
        NewRow(cfg, s, step, id);
      }
    }
  }

  /** Only an admin, or the account itself, removes an admin. */
  lemma AdminLost(cfg: Config, s: State, step: Step, id: Id)
    requires WellFormed(cfg.roles) && Inv(cfg, s) && Allowed(s, step)
    ensures IsAdmin(cfg, s, id) && !IsAdmin(cfg, Apply(cfg, s, step), id) ==>
              ByAdmin(cfg, s, step, id) || ByOwner(cfg, s, step, id)
  {
    if IsAdmin(cfg, s, id) && !IsAdmin(cfg, Apply(cfg, s, step), id) {
      if !step.Call? {
        PlainStepRow(cfg, s, step, id);
      } else if Accepts(cfg, s, step.caller) {
        AcceptedRole(cfg, s, step.caller);
        var looked := AfterLookup(cfg, s, step.caller);
        assert looked.users == s.users && looked.nextId == s.nextId;
        ActRow(cfg, looked, step.caller, step.action, id);
        if (step.action.SetRole? && step.action.id == id) || (step.action.DeleteUser? && step.action.id == id) {
          ActNeedsAdmin(cfg, looked, step.caller, step.action, id);
        }
      }
    }
  }
}
