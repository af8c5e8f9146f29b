/** Role changes and deletions in any number of threads: the caller is accepted, the target's role is read
    and checked, and a separate statement writes. The bootstrap runs as one step. */
module AdminRaces {
  import opened Roles
  import opened Accounts

  type Thread = nat

  datatype Change = Give(role: Role) | Erase

  /** A request whose caller was accepted with a role, and then one that passed the guards; `wasAdmin` says
      whether its target was an admin when checked. */
  datatype Request =
    | Accepted(caller: Id, role: Role)
    | Checked(caller: Id, role: Role, target: Id, change: Change, wasAdmin: bool)

  datatype World = World(rows: map<Id, Role>, nextId: Id, threads: map<Thread, Request>)

  datatype Step =
    | Join(first: Role)
    | Seed(first: Role)
    | Accept(t: Thread, caller: Id)
    | Check(t: Thread, target: Id, change: Change)
    | Write(t: Thread)
    | DeleteSelf(t: Thread)
    | Leave(t: Thread)

  predicate IsAdmin(w: World, id: Id) {
    id in w.rows && w.rows[id].admin
  }

  /** The guards: permission; an admin caller to make an admin or to touch one. A target that is to become
      an admin is not read. */
  predicate Passes(w: World, caller: Role, target: Id, change: Change) {
    && HasPermission(caller, "users.write")
    && (change.Give? && change.role.admin ==> caller.admin)
    && (!(change.Give? && change.role.admin) ==> target in w.rows && (w.rows[target].admin ==> caller.admin))
  }

  predicate Enabled(w: World, step: Step) {
    match step
    case Join(first) => !first.admin
    case Seed(first) => first.admin && forall id | id in w.rows :: !w.rows[id].admin
    case Accept(t, caller) => t !in w.threads && caller in w.rows
    case Check(t, target, change) =>
      t in w.threads && w.threads[t].Accepted? && Passes(w, w.threads[t].role, target, change)
    case Write(t) => t in w.threads && w.threads[t].Checked?
    case DeleteSelf(t) => t in w.threads && w.threads[t].Accepted?
    case Leave(t) => t in w.threads
  }

  function Next(w: World, step: Step): World
    requires Enabled(w, step)
  {
    match step
    case Join(first) => w.(rows := w.rows[w.nextId := first], nextId := w.nextId + 1)
    case Seed(first) => w.(rows := w.rows[w.nextId := first], nextId := w.nextId + 1)
    case Accept(t, caller) => w.(threads := w.threads[t := Accepted(caller, w.rows[caller])])
    case Check(t, target, change) =>
      var r := w.threads[t];
      w.(threads := w.threads[t := Checked(r.caller, r.role, target, change, IsAdmin(w, target))])
    case Write(t) =>
      var r := w.threads[t];
      var done := w.(threads := w.threads - {t});
      if r.target !in w.rows then done
      else
        (match r.change
         case Give(role) => done.(rows := w.rows[r.target := role])
         case Erase => done.(rows := w.rows - {r.target}))
    case DeleteSelf(t) => w.(rows := w.rows - {w.threads[t].caller}, threads := w.threads - {t})
    case Leave(t) => w.(threads := w.threads - {t})
  }

  ghost predicate Schedule(w: World, steps: seq<Step>)
    decreases |steps|
  {
    steps == [] || (Enabled(w, steps[0]) && Schedule(Next(w, steps[0]), steps[1..]))
  }

  /** Who passed the guards without being an admin neither makes one nor saw one; ids are not reused. */
  ghost predicate Inv(w: World) {
    && (forall id | id in w.rows :: id < w.nextId)
    && (forall t | t in w.threads && w.threads[t].Checked? && !w.threads[t].role.admin ::
          !w.threads[t].wasAdmin && (w.threads[t].change.Give? ==> !w.threads[t].change.role.admin))
  }

  lemma StepKeeps(w: World, step: Step)
    requires Inv(w) && Enabled(w, step)
    ensures Inv(Next(w, step))
  {
  }

  // ----- who makes and removes admins

  predicate Flips(w: World, step: Step, id: Id)
    requires Enabled(w, step)
  {
    IsAdmin(w, id) != IsAdmin(Next(w, step), id)
  }

  /** Admins come and go by the bootstrap of an app without one, by someone admin at that moment, or by
      deleting themselves. */
  ghost predicate Proper(w: World, step: Step)
    requires Enabled(w, step)
  {
    forall id | Flips(w, step, id) ::
      || step.Seed?
      || (step.DeleteSelf? && w.threads[step.t].caller == id)
      || (step.Write? && w.threads[step.t].target == id && IsAdmin(w, w.threads[step.t].caller))
  }

  /** Between a request's check and its write the ground has shifted: an admin caller is admin no more, or a
      caller who never was meets a target that has become one. */
  predicate Overtaken(w: World, step: Step)
    requires Enabled(w, step)
  {
    step.Write?
    && var r := w.threads[step.t];
       && r.target in w.rows && !IsAdmin(w, r.caller)
       && (if r.role.admin then IsAdmin(w, r.target) != (r.change.Give? && r.change.role.admin)
           else !r.wasAdmin && IsAdmin(w, r.target))
  }

  lemma ProperExactly(w: World, step: Step)
    requires Inv(w) && Enabled(w, step)
    ensures Proper(w, step) <==> !Overtaken(w, step)
  {
    if Overtaken(w, step) {
      assert Flips(w, step, w.threads[step.t].target);
    }
  }

  ghost predicate AlwaysProper(w: World, steps: seq<Step>)
    requires Schedule(w, steps)
    decreases |steps|
  {
    steps == [] || (Proper(w, steps[0]) && AlwaysProper(Next(w, steps[0]), steps[1..]))
  }

  ghost predicate NeverOvertaken(w: World, steps: seq<Step>)
    requires Schedule(w, steps)
    decreases |steps|
  {
    steps == [] || (!Overtaken(w, steps[0]) && NeverOvertaken(Next(w, steps[0]), steps[1..]))
  }

  /** In an interleaving, admins come and go only as they should exactly when no request is overtaken. */
  lemma {:induction false} AlwaysProperExactly(w: World, steps: seq<Step>)
    requires Inv(w) && Schedule(w, steps)
    ensures AlwaysProper(w, steps) <==> NeverOvertaken(w, steps)
    decreases |steps|
  {
    if steps != [] {
      ProperExactly(w, steps[0]);
      StepKeeps(w, steps[0]);
      AlwaysProperExactly(Next(w, steps[0]), steps[1..]);
    }
  }

  /** Even when overtaken, nobody becomes an admin except by the bootstrap or by a caller accepted as one. */
  lemma GainNeedsAdmin(w: World, step: Step, id: Id)
    requires Inv(w) && Enabled(w, step) && !IsAdmin(w, id) && IsAdmin(Next(w, step), id)
    ensures step.Seed? || (step.Write? && w.threads[step.t].target == id && w.threads[step.t].role.admin)
  {
  }

  // ----- requests that are overtaken

  lemma OneStep(w: World, s: Step, rest: seq<Step>)
    requires Enabled(w, s) && Schedule(Next(w, s), rest)
    ensures Schedule(w, [s] + rest)
    ensures (Overtaken(w, s)) || !NeverOvertaken(Next(w, s), rest) ==> !NeverOvertaken(w, [s] + rest)
  {
    assert ([s] + rest)[1..] == rest;
  }

  lemma FourSteps(w0: World, s0: Step, w1: World, s1: Step, w2: World, s2: Step, w3: World, s3: Step)
    requires Enabled(w0, s0) && w1 == Next(w0, s0) && Enabled(w1, s1) && w2 == Next(w1, s1)
    requires Enabled(w2, s2) && w3 == Next(w2, s2) && Enabled(w3, s3)
    ensures Schedule(w0, [s0, s1, s2, s3])
    ensures Overtaken(w3, s3) ==> !NeverOvertaken(w0, [s0, s1, s2, s3])
  {
    assert Schedule(Next(w3, s3), []);
    OneStep(w3, s3, []);
    OneStep(w2, s2, [s3]);
    OneStep(w1, s1, [s2, s3]);
    OneStep(w0, s0, [s1, s2, s3]);
    assert [s3] + [] == [s3] && [s2] + [s3] == [s2, s3] && [s1] + [s2, s3] == [s1, s2, s3];
    assert [s0] + [s1, s2, s3] == [s0, s1, s2, s3];
  }

  /** A caller who is no admin checks a plain account, an admin promotes it, and the write demotes the new
      admin. */
  lemma NewAdminDemoted(admin: Role, helper: Role, plain: Role)
    requires admin.admin && !helper.admin && HasPermission(helper, "users.write") && !plain.admin
    ensures var w0 := World(map[1 := admin, 2 := helper, 3 := plain], 4,
                            map[0 := Accepted(2, helper), 1 := Accepted(1, admin)]);
            var steps := [Check(0, 3, Give(plain)), Check(1, 3, Give(admin)), Write(1), Write(0)];
            Inv(w0) && Schedule(w0, steps) && !AlwaysProper(w0, steps)
  {
    var w0 := World(map[1 := admin, 2 := helper, 3 := plain], 4,
                    map[0 := Accepted(2, helper), 1 := Accepted(1, admin)]);
    var s0, s1, s2, s3 := Check(0, 3, Give(plain)), Check(1, 3, Give(admin)), Write(1), Write(0);
    var w1 := Next(w0, s0);
    var w2 := Next(w1, s1);
    var w3 := Next(w2, s2);
    FourSteps(w0, s0, w1, s1, w2, s2, w3, s3);
    assert Overtaken(w3, s3);
    AlwaysProperExactly(w0, [s0, s1, s2, s3]);
  }

  /** An admin who is demoted after being accepted still promotes. */
  lemma DemotedAdminPromotes(admin: Role, plain: Role)
    requires admin.admin && !plain.admin
    ensures var w0 := World(map[1 := admin, 2 := admin, 3 := plain], 4,
                            map[0 := Accepted(1, admin), 1 := Accepted(2, admin)]);
            var steps := [Check(1, 1, Give(plain)), Write(1), Check(0, 3, Give(admin)), Write(0)];
            Inv(w0) && Schedule(w0, steps) && !AlwaysProper(w0, steps)
  {
    var w0 := World(map[1 := admin, 2 := admin, 3 := plain], 4,
                    map[0 := Accepted(1, admin), 1 := Accepted(2, admin)]);
    var s0, s1, s2, s3 := Check(1, 1, Give(plain)), Write(1), Check(0, 3, Give(admin)), Write(0);
    var w1 := Next(w0, s0);
    var w2 := Next(w1, s1);
    var w3 := Next(w2, s2);
    FourSteps(w0, s0, w1, s1, w2, s2, w3, s3);
    assert Overtaken(w3, s3);
    AlwaysProperExactly(w0, [s0, s1, s2, s3]);
  }
}
