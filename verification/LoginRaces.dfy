/** Signing in while roles change: any number of threads read the row, check the password and only then
    sign; a role change or a revocation reads the clock and only then runs its UPDATE. */
module LoginRaces {
  import opened Prelude
  import opened Roles
  import opened Accounts

  type Thread = nat

  datatype Row = Row(role: Role, validAfter: int)

  /** A sign-in that has read its row, or an UPDATE that has bound its cutoff: of role and cutoff, or of the
      cutoff alone. */
  datatype Pending =
    | SigningIn(id: Id, role: Role)
    | Updating(id: Id, given: Option<Role>, stamp: int)

  datatype World = World(
    rows: map<Id, Row>,
    nextId: Id,
    threads: map<Thread, Pending>,
    issued: set<Claims>,
    clock: Time)

  datatype Step =
    | Pass(elapsed: nat)
    | Join(first: Role)
    | Read(t: Thread, id: Id)
    | Sign(t: Thread)
    | Stamp(t: Thread, id: Id, given: Option<Role>)
    | Write(t: Thread)
    | Abandon(t: Thread)
    | Remove(id: Id)

  predicate Enabled(w: World, step: Step) {
    match step
    case Read(t, id) => t !in w.threads && id in w.rows
    case Sign(t) => t in w.threads && w.threads[t].SigningIn?
    case Stamp(t, id, _) => t !in w.threads && id < w.nextId
    case Write(t) => t in w.threads && w.threads[t].Updating?
    case _ => true
  }

  /** The token a sign-in signs now. */
  function Signed(w: World, t: Thread): Claims
    requires Enabled(w, Sign(t))
  {
    var now := Seconds(w.clock);
    Claims(w.threads[t].id, w.threads[t].role, now + SESSION_SECONDS, now)
  }

  /** The row an UPDATE leaves. */
  function Updated(row: Row, u: Pending): Row
    requires u.Updating?
  {
    Row(if u.given.Some? then u.given.value else row.role, u.stamp)
  }

  function Next(w: World, step: Step): World
    requires Enabled(w, step)
  {
    match step
    case Pass(elapsed) => w.(clock := w.clock + elapsed)
    case Join(first) => w.(rows := w.rows[w.nextId := Row(first, 0)], nextId := w.nextId + 1)
    case Read(t, id) => w.(threads := w.threads[t := SigningIn(id, w.rows[id].role)])
    case Sign(t) => w.(issued := w.issued + {Signed(w, t)}, threads := w.threads - {t})
    case Stamp(t, id, given) => w.(threads := w.threads[t := Updating(id, given, Seconds(w.clock))])
    case Write(t) =>
      var u := w.threads[t];
      var done := w.(threads := w.threads - {t});
      if u.id in w.rows then done.(rows := w.rows[u.id := Updated(w.rows[u.id], u)]) else done
    case Abandon(t) => w.(threads := w.threads - {t})
    case Remove(id) => w.(rows := w.rows - {id})
  }

  ghost predicate Schedule(w: World, steps: seq<Step>)
    decreases |steps|
  {
    steps == [] || (Enabled(w, steps[0]) && Schedule(Next(w, steps[0]), steps[1..]))
  }

  // ----- what an accepted token carries

  /** The cutoff of `row` admits the token, and its role is another one. */
  predicate Conflicts(c: Claims, row: Row) {
    c.iat > row.validAfter && c.role != row.role
  }

  ghost predicate AllFresh(w: World) {
    forall c | c in w.issued && c.sub in w.rows :: !Conflicts(c, w.rows[c.sub])
  }

  ghost predicate Inv(w: World) {
    && (forall id | id in w.rows :: id < w.nextId)
    && (forall c | c in w.issued :: c.sub < w.nextId && c.iat <= Seconds(w.clock))
    && (forall t | t in w.threads :: w.threads[t].id < w.nextId)
    && (forall t | t in w.threads && w.threads[t].Updating? :: w.threads[t].stamp <= Seconds(w.clock))
  }

  lemma StepKeeps(w: World, step: Step)
    requires Inv(w) && Enabled(w, step)
    ensures Inv(Next(w, step))
    ensures !step.Sign? && !step.Write? && AllFresh(w) ==> AllFresh(Next(w, step))
  {
    if step.Pass? { assert Seconds(w.clock) <= Seconds(w.clock + step.elapsed); }
  }

  /** A sign-in signs after an UPDATE it has not seen: with the role replaced, in a later second than
      the UPDATE's cutoff. */
  predicate SignsLate(w: World, step: Step)
    requires Enabled(w, step)
  {
    && step.Sign? && w.threads[step.t].id in w.rows
    && var row := w.rows[w.threads[step.t].id];
       row.role != w.threads[step.t].role && row.validAfter < Seconds(w.clock)
  }

  /** An UPDATE runs after a signing it has not seen: a token of that account was signed in a later second
      than the UPDATE's cutoff, with another role than the row is left with. */
  ghost predicate WritesLate(w: World, step: Step)
    requires Enabled(w, step)
  {
    && step.Write? && w.threads[step.t].id in w.rows
    && var u := w.threads[step.t];
       exists c :: c in w.issued && c.sub == u.id && c.iat > u.stamp && c.role != Updated(w.rows[u.id], u).role
  }

  lemma SignKeepsExactly(w: World, t: Thread)
    requires AllFresh(w) && Enabled(w, Sign(t))
    ensures AllFresh(Next(w, Sign(t))) <==> !SignsLate(w, Sign(t))
  {
    var w' := Next(w, Sign(t));
    assert Signed(w, t) in w'.issued;
    if Signed(w, t).sub in w.rows {
      assert Conflicts(Signed(w, t), w.rows[Signed(w, t).sub]) <==> SignsLate(w, Sign(t));
    }
  }

  lemma WriteKeepsExactly(w: World, t: Thread)
    requires AllFresh(w) && Enabled(w, Write(t))
    ensures AllFresh(Next(w, Write(t))) <==> !WritesLate(w, Write(t))
  {
    var w' := Next(w, Write(t));
    var u := w.threads[t];
    if u.id in w.rows {
      assert w'.rows[u.id] == Updated(w.rows[u.id], u);
      if c :| c in w.issued && c.sub == u.id && Conflicts(c, w'.rows[u.id]) {
        assert WritesLate(w, Write(t));
      }
    }
  }

  ghost predicate AlwaysFresh(w: World, steps: seq<Step>)
    requires Schedule(w, steps)
    decreases |steps|
  {
    AllFresh(w) && (steps == [] || AlwaysFresh(Next(w, steps[0]), steps[1..]))
  }

  ghost predicate NeverLate(w: World, steps: seq<Step>)
    requires Schedule(w, steps)
    decreases |steps|
  {
    steps == [] ||
    (!SignsLate(w, steps[0]) && !WritesLate(w, steps[0]) && NeverLate(Next(w, steps[0]), steps[1..]))
  }

  /** In an interleaving, every token admitted at every moment carries the role then stored, exactly when no
      token is signed in a later second than the cutoff of an UPDATE that leaves another role, whichever of
      the two comes last. */
  lemma {:induction false} FreshExactly(w: World, steps: seq<Step>)
    requires Inv(w) && AllFresh(w) && Schedule(w, steps)
    ensures AlwaysFresh(w, steps) <==> NeverLate(w, steps)
    decreases |steps|
  {
    if steps != [] {
      var w' := Next(w, steps[0]);
      StepKeeps(w, steps[0]);
      if steps[0].Sign? { SignKeepsExactly(w, steps[0].t); }
      if steps[0].Write? { WriteKeepsExactly(w, steps[0].t); }
      if AllFresh(w') {
        FreshExactly(w', steps[1..]);
      } else {
        assert !AlwaysFresh(w', steps[1..]);
      }
    }
  }

  /** An UPDATE that runs in the second it bound is never late. */
  lemma PromptIsNotLate(w: World, step: Step)
    requires Inv(w) && Enabled(w, step)
    ensures WritesLate(w, step) ==> w.threads[step.t].stamp < Seconds(w.clock)
  {
  }

  // ----- revoked tokens

  predicate Dead(w: World, c: Claims) {
    c.sub in w.rows ==> c.iat <= w.rows[c.sub].validAfter
  }

  ghost predicate AlwaysDead(w: World, steps: seq<Step>, c: Claims)
    requires Schedule(w, steps)
    decreases |steps|
  {
    Dead(w, c) && (steps == [] || AlwaysDead(Next(w, steps[0]), steps[1..], c))
  }

  /** An UPDATE of the token's account runs that had bound a cutoff before the token. */
  predicate Revives(w: World, step: Step, c: Claims)
    requires Enabled(w, step)
  {
    step.Write? && w.threads[step.t].id == c.sub && c.sub in w.rows && w.threads[step.t].stamp < c.iat
  }

  ghost predicate NeverRevives(w: World, steps: seq<Step>, c: Claims)
    requires Schedule(w, steps)
    decreases |steps|
  {
    steps == [] || (!Revives(w, steps[0], c) && NeverRevives(Next(w, steps[0]), steps[1..], c))
  }

  /** In an interleaving a revoked token stays revoked exactly when no UPDATE of its account runs later that
      had bound its cutoff before the token was signed. */
  lemma {:induction false} DeadExactly(w: World, steps: seq<Step>, c: Claims)
    requires Inv(w) && Schedule(w, steps) && c.sub < w.nextId && Dead(w, c)
    ensures AlwaysDead(w, steps, c) <==> NeverRevives(w, steps, c)
    decreases |steps|
  {
    if steps != [] {
      var w' := Next(w, steps[0]);
      StepKeeps(w, steps[0]);
      assert Dead(w', c) <==> !Revives(w, steps[0], c);
      if Dead(w', c) {
        DeadExactly(w', steps[1..], c);
      } else {
        assert !AlwaysDead(w', steps[1..], c);
      }
    }
  }

  // ----- schedules that fail

  lemma OneStep(w: World, s: Step, rest: seq<Step>)
    requires Enabled(w, s) && Schedule(Next(w, s), rest)
    ensures Schedule(w, [s] + rest)
    ensures (SignsLate(w, s) || WritesLate(w, s)) || !NeverLate(Next(w, s), rest) ==> !NeverLate(w, [s] + rest)
  {
    assert ([s] + rest)[1..] == rest;
  }

  lemma FiveSteps(w0: World, s0: Step, w1: World, s1: Step, w2: World, s2: Step, w3: World, s3: Step,
                  w4: World, s4: Step)
    requires Enabled(w0, s0) && w1 == Next(w0, s0) && Enabled(w1, s1) && w2 == Next(w1, s1)
    requires Enabled(w2, s2) && w3 == Next(w2, s2) && Enabled(w3, s3) && w4 == Next(w3, s3) && Enabled(w4, s4)
    ensures Schedule(w0, [s0, s1, s2, s3, s4])
    ensures SignsLate(w4, s4) || WritesLate(w4, s4) ==> !NeverLate(w0, [s0, s1, s2, s3, s4])
  {
    assert Schedule(Next(w4, s4), []);
    assert [s4] + [] == [s4] && [s3] + [s4] == [s3, s4] && [s2] + [s3, s4] == [s2, s3, s4];
    assert [s1] + [s2, s3, s4] == [s1, s2, s3, s4] && [s0] + [s1, s2, s3, s4] == [s0, s1, s2, s3, s4];
    OneStep(w4, s4, []);
    OneStep(w3, s3, [s4]);
    OneStep(w2, s2, [s3, s4]);
    OneStep(w1, s1, [s2, s3, s4]);
    OneStep(w0, s0, [s1, s2, s3, s4]);
  }

  /** A sign-in reads the old role, the role is changed, a second passes, and the token signed then carries
      the old role and is admitted. */
  lemma OldRoleAdmitted(was: Role, given: Role, id: Id)
    requires was != given
    ensures var w0 := World(map[id := Row(was, 0)], id + 1, map[], {}, 0);
            var steps := [Read(0, id), Stamp(1, id, Some(given)), Write(1), Pass(1000), Sign(0)];
            Inv(w0) && AllFresh(w0) && Schedule(w0, steps) && !AlwaysFresh(w0, steps)
  {
    var w0 := World(map[id := Row(was, 0)], id + 1, map[], {}, 0);
    var s0, s1, s2, s3, s4 := Read(0, id), Stamp(1, id, Some(given)), Write(1), Pass(1000), Sign(0);
    var w1 := Next(w0, s0);
    var w2 := Next(w1, s1);
    var w3 := Next(w2, s2);
    var w4 := Next(w3, s3);
    FiveSteps(w0, s0, w1, s1, w2, s2, w3, s3, w4, s4);
    assert SignsLate(w4, s4);
    FreshExactly(w0, [s0, s1, s2, s3, s4]);
  }

  /** A role change binds its cutoff, a sign-in reads the old role and signs a second later, and the UPDATE
      then leaves that token admitted with the old role. */
  lemma LateWriteAdmitted(was: Role, given: Role, id: Id)
    requires was != given
    ensures var w0 := World(map[id := Row(was, 0)], id + 1, map[], {}, 0);
            var steps := [Stamp(1, id, Some(given)), Pass(1000), Read(0, id), Sign(0), Write(1)];
            Inv(w0) && AllFresh(w0) && Schedule(w0, steps) && !AlwaysFresh(w0, steps)
  {
    var w0 := World(map[id := Row(was, 0)], id + 1, map[], {}, 0);
    var s0, s1, s2, s3, s4 := Stamp(1, id, Some(given)), Pass(1000), Read(0, id), Sign(0), Write(1);
    var w1 := Next(w0, s0);
    var w2 := Next(w1, s1);
    var w3 := Next(w2, s2);
    var w4 := Next(w3, s3);
    FiveSteps(w0, s0, w1, s1, w2, s2, w3, s3, w4, s4);
    assert Signed(w3, 0) in w4.issued && WritesLate(w4, s4);
    FreshExactly(w0, [s0, s1, s2, s3, s4]);
  }

  /** Of two revocations the one that bound its cutoff first runs last, and a token signed in between, once
      revoked, is admitted again. */
  lemma RevokedTokenReturns(role: Role, id: Id, c: Claims)
    requires c.sub == id && c.iat == 1
    ensures var w0 := World(map[id := Row(role, 0)], id + 1, map[0 := Updating(id, None, 0)], {c}, 1000);
            var w := Next(Next(w0, Stamp(1, id, None)), Write(1));
            Inv(w0) && !Dead(w0, c) && Dead(w, c) && Enabled(w, Write(0)) && !Dead(Next(w, Write(0)), c)
  {
  }
}
