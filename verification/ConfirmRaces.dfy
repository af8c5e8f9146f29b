/** Confirming an address change in any number of threads: a SELECT finds the token's row, a separate
    UPDATE writes it. */
module ConfirmRaces {
  import opened Prelude
  import opened Accounts

  type Thread = nat

  /** The address-change columns of one account. */
  datatype Row = Row(token: Option<Token>, expiry: Time)

  /** A request that has found its row: until when the token runs, and after how many effects and changes. */
  datatype Pending = Pending(id: Id, token: Token, expiry: Time, after: nat, since: nat)

  /** `changed` lists the accounts whose columns were written, in order. */
  datatype World = World(
    rows: map<Id, Row>,
    nextId: Id,
    minted: set<Token>,
    threads: map<Thread, Pending>,
    effects: seq<Effect>,
    changed: seq<Id>,
    clock: Time)

  /** A statement binds a clock read before it runs (`read`). `refused` is an UPDATE the database rejects
      because the address was taken meanwhile; `Clear` is a change of address without verification. */
  datatype Step =
    | Pass(elapsed: nat)
    | Join
    | Stage(id: Id, token: Token, read: Time)
    | Clear(id: Id)
    | Find(t: Thread, id: Id, token: Token, read: Time)
    | Write(t: Thread, refused: bool)
    | Remove(id: Id)

  predicate Enabled(w: World, step: Step) {
    match step
    case Stage(id, token, read) => id in w.rows && token !in w.minted && read <= w.clock
    case Clear(id) => id in w.rows
    case Find(t, id, token, read) =>
      && t !in w.threads && id in w.rows
      && w.rows[id].token == Some(token) && read < w.rows[id].expiry && read <= w.clock
    case Write(t, _) => t in w.threads
    case _ => true
  }

  /** The SELECT finds a row as its clause over the two columns does. */
  lemma FindMatches(w: World, t: Thread, id: Id, token: Token, read: Time, u: User)
    requires id in w.rows && u.emailChange == Slot(w.rows[id].token, Some(w.rows[id].expiry))
    ensures Enabled(w, Find(t, id, token, read)) <==>
            t !in w.threads && read <= w.clock && Matches(u, EmailChange, token, read)
  {
  }

  /** Does the UPDATE change a row? */
  predicate TakesEffect(w: World, step: Step)
    requires Enabled(w, step)
  {
    step.Write? && !step.refused && w.threads[step.t].id in w.rows
  }

  function Next(w: World, step: Step): World
    requires Enabled(w, step)
  {
    match step
    case Pass(elapsed) => w.(clock := w.clock + elapsed)
    case Join => w.(rows := w.rows[w.nextId := Row(None, w.clock)], nextId := w.nextId + 1)
    case Stage(id, token, read) =>
      w.(rows := w.rows[id := Row(Some(token), read + TOKEN_TTL)], minted := w.minted + {token},
         changed := w.changed + [id])
    case Clear(id) => w.(rows := w.rows[id := w.rows[id].(token := None)], changed := w.changed + [id])
    case Find(t, id, token, _) =>
      w.(threads := w.threads[t := Pending(id, token, w.rows[id].expiry, |w.effects|, |w.changed|)])
    case Write(t, _) =>
      var p := w.threads[t];
      var done := w.(threads := w.threads - {t});
      if TakesEffect(w, step) then
        done.(rows := w.rows[p.id := Row(None, w.clock)], changed := w.changed + [p.id],
              effects := w.effects + [Effect(p.token, EmailChange, p.id, w.clock)])
      else done
    case Remove(id) => w.(rows := w.rows - {id})
  }

  ghost predicate Schedule(w: World, steps: seq<Step>)
    decreases |steps|
  {
    steps == [] || (Enabled(w, steps[0]) && Schedule(Next(w, steps[0]), steps[1..]))
  }

  // ----- once only

  ghost predicate Used(effects: seq<Effect>, from: nat, token: Token) {
    exists i :: from <= i < |effects| && effects[i].token == token
  }

  /** No token has taken effect twice. */
  ghost predicate OnceEach(w: World) {
    forall i, j | 0 <= i < j < |w.effects| :: w.effects[i].token != w.effects[j].token
  }

  ghost predicate RowInv(w: World, id: Id) {
    id in w.rows && w.rows[id].token.Some? ==>
      w.rows[id].token.value in w.minted && !Used(w.effects, 0, w.rows[id].token.value)
  }

  /** A request in flight had found a token no effect had used. */
  ghost predicate ThreadInv(w: World, t: Thread) {
    t in w.threads ==>
      var p := w.threads[t];
      && p.token in w.minted && p.after <= |w.effects|
      && (Used(w.effects, 0, p.token) ==> Used(w.effects, p.after, p.token))
  }

  /** Two accounts never hold the same token, and a token in flight is no other account's. */
  ghost predicate OwnersDiffer(w: World) {
    && (forall i, j | i in w.rows && j in w.rows && i != j && w.rows[i].token.Some? ::
          w.rows[i].token != w.rows[j].token)
    && (forall t, j | t in w.threads && j in w.rows && w.threads[t].id != j ::
          w.rows[j].token != Some(w.threads[t].token))
  }

  ghost predicate Inv(w: World) {
    && (forall id :: RowInv(w, id)) && (forall t :: ThreadInv(w, t)) && OwnersDiffer(w)
    && (forall i | 0 <= i < |w.effects| :: w.effects[i].token in w.minted)
  }

  lemma UsedMore(effects: seq<Effect>, e: Effect, from: nat, token: Token)
    ensures Used(effects + [e], from, token) <==> Used(effects, from, token) || (from <= |effects| && e.token == token)
  {
    var more := effects + [e];
    if Used(effects, from, token) {
      var i :| from <= i < |effects| && effects[i].token == token;
      assert more[i].token == token;
    }
    if from <= |effects| && e.token == token { assert more[|effects|].token == token; }
  }

  /** A token being staged is in no row, no effect and no request. */
  lemma StagedIsNew(w: World, step: Step)
    requires Inv(w) && Enabled(w, step)
    ensures step.Stage? ==> forall i | i in w.rows :: w.rows[i].token != Some(step.token)
    ensures step.Stage? ==> !Used(w.effects, 0, step.token)
    ensures step.Stage? ==> forall t | t in w.threads :: w.threads[t].token != step.token
  {
    forall i | i in w.rows ensures step.Stage? ==> w.rows[i].token != Some(step.token) { assert RowInv(w, i); }
    forall t | t in w.threads ensures step.Stage? ==> w.threads[t].token != step.token { assert ThreadInv(w, t); }
  }

  lemma QuietStepKeeps(w: World, step: Step)
    requires Inv(w) && Enabled(w, step) && !TakesEffect(w, step)
    ensures Inv(Next(w, step)) && Next(w, step).effects == w.effects
  {
    var w' := Next(w, step);
    StagedIsNew(w, step);
    forall id ensures RowInv(w', id) {
      assert RowInv(w, id);
    }
    forall t ensures ThreadInv(w', t) {
      assert ThreadInv(w, t);
      if step.Find? { assert RowInv(w, step.id); }
    }
  }

  lemma EffectKeeps(w: World, step: Step)
    requires Inv(w) && Enabled(w, step) && TakesEffect(w, step)
    ensures Inv(Next(w, step))
  {
    var w' := Next(w, step);
    var p := w.threads[step.t];
    var e := Effect(p.token, EmailChange, p.id, w.clock);
    assert ThreadInv(w, step.t);
    forall id ensures RowInv(w', id) {
      assert RowInv(w, id);
      if id in w'.rows && w'.rows[id].token.Some? { UsedMore(w.effects, e, 0, w'.rows[id].token.value); }
    }
    forall t ensures ThreadInv(w', t) {
      assert ThreadInv(w, t);
      if t in w'.threads {
        UsedMore(w.effects, e, 0, w.threads[t].token);
        UsedMore(w.effects, e, w.threads[t].after, w.threads[t].token);
      }
    }
  }

  /** Another request's UPDATE used the token between this one's SELECT and its UPDATE. */
  ghost predicate Overtaken(w: World, step: Step)
    requires Enabled(w, step)
  {
    TakesEffect(w, step) && Used(w.effects, w.threads[step.t].after, w.threads[step.t].token)
  }

  lemma WriteKeepsExactly(w: World, step: Step)
    requires Inv(w) && OnceEach(w) && Enabled(w, step)
    ensures Inv(Next(w, step)) && (OnceEach(Next(w, step)) <==> !Overtaken(w, step))
  {
    if TakesEffect(w, step) {
      EffectKeeps(w, step);
      assert ThreadInv(w, step.t);
      var p := w.threads[step.t];
      var more := Next(w, step).effects;
      assert more[|w.effects|].token == p.token;
      if Used(w.effects, p.after, p.token) {
        var i :| p.after <= i < |w.effects| && w.effects[i].token == p.token;
        assert more[i].token == more[|w.effects|].token;
      } else {
        assert !Used(w.effects, 0, p.token);
      }
    } else {
      QuietStepKeeps(w, step);
    }
  }

  ghost predicate AlwaysOnce(w: World, steps: seq<Step>)
    requires Schedule(w, steps)
    decreases |steps|
  {
    OnceEach(w) && (steps == [] || AlwaysOnce(Next(w, steps[0]), steps[1..]))
  }

  ghost predicate NeverOvertaken(w: World, steps: seq<Step>)
    requires Schedule(w, steps)
    decreases |steps|
  {
    steps == [] || (!Overtaken(w, steps[0]) && NeverOvertaken(Next(w, steps[0]), steps[1..]))
  }

  /** In an interleaving, no address-change token takes effect twice exactly when no request's SELECT and
      UPDATE enclose another's UPDATE for the same token. */
  lemma {:induction false} OnceExactly(w: World, steps: seq<Step>)
    requires Inv(w) && OnceEach(w) && Schedule(w, steps)
    ensures AlwaysOnce(w, steps) <==> NeverOvertaken(w, steps)
    decreases |steps|
  {
    if steps != [] {
      var w' := Next(w, steps[0]);
      WriteKeepsExactly(w, steps[0]);
      if OnceEach(w') {
        OnceExactly(w', steps[1..]);
      } else {
        assert !AlwaysOnce(w', steps[1..]);
      }
    }
  }

  lemma OneStep(w: World, s: Step, rest: seq<Step>)
    requires Enabled(w, s) && Schedule(Next(w, s), rest)
    ensures Schedule(w, [s] + rest)
    ensures (Overtaken(w, s)) || !NeverOvertaken(Next(w, s), rest) ==> !NeverOvertaken(w, [s] + rest)
  {
    assert ([s] + rest)[1..] == rest;
  }

  lemma FourSteps(w0: World, s0: Step, w1: World, s1: Step, w2: World, s2: Step, w3: World, s3: Step)
    requires Enabled(w0, s0) && w1 == Next(w0, s0) && Enabled(w1, s1) && w2 == Next(w1, s1)
    requires Enabled(w2, s2) && w3 == Next(w2, s2) && Enabled(w3, s3)
    ensures Schedule(w0, [s0, s1, s2, s3])
    ensures Overtaken(w3, s3) ==> !NeverOvertaken(w0, [s0, s1, s2, s3])
  {
    assert Schedule(Next(w3, s3), []);
    OneStep(w3, s3, []);
    OneStep(w2, s2, [s3]);
    OneStep(w1, s1, [s2, s3]);
    OneStep(w0, s0, [s1, s2, s3]);
    assert [s3] + [] == [s3] && [s2] + [s3] == [s2, s3] && [s1] + [s2, s3] == [s1, s2, s3];
    assert [s0] + [s1, s2, s3] == [s0, s1, s2, s3];
  }

  /** It can happen: two requests with one token both find the row, and both write it. */
  lemma UsedTwice(id: Id, token: Token)
    ensures var w0 := World(map[id := Row(Some(token), 1)], id + 1, {token}, map[], [], [], 0);
            var steps := [Find(0, id, token, 0), Find(1, id, token, 0), Write(0, false), Write(1, false)];
            Inv(w0) && OnceEach(w0) && Schedule(w0, steps) && !AlwaysOnce(w0, steps)
  {
    var w0 := World(map[id := Row(Some(token), 1)], id + 1, {token}, map[], [], [], 0);
    var s0, s1, s2, s3 := Find(0, id, token, 0), Find(1, id, token, 0), Write(0, false), Write(1, false);
    var w1 := Next(w0, s0);
    var w2 := Next(w1, s1);
    var w3 := Next(w2, s2);
    FourSteps(w0, s0, w1, s1, w2, s2, w3, s3);
    assert w3.effects[0].token == token;
    assert Overtaken(w3, s3);
    OnceExactly(w0, [s0, s1, s2, s3]);
  }

  // ----- the token then in the row, and in time

  ghost predicate Changed(changed: seq<Id>, from: nat, id: Id) {
    exists i :: from <= i < |changed| && changed[i] == id
  }

  lemma ChangedMore(changed: seq<Id>, last: Id, from: nat, id: Id)
    ensures Changed(changed + [last], from, id) <==> Changed(changed, from, id) || (from <= |changed| && last == id)
  {
    var more := changed + [last];
    if Changed(changed, from, id) {
      var i :| from <= i < |changed| && changed[i] == id;
      assert more[i] == id;
    }
    if from <= |changed| && last == id { assert more[|changed|] == id; }
  }

  /** While its account is unchanged a request's row holds what it found; once changed, never that token. */
  ghost predicate Tracks(w: World, t: Thread) {
    t in w.threads ==>
      var p := w.threads[t];
      && p.token in w.minted && p.since <= |w.changed| && p.id < w.nextId
      && (p.id in w.rows ==>
            if Changed(w.changed, p.since, p.id) then w.rows[p.id].token != Some(p.token)
            else w.rows[p.id] == Row(Some(p.token), p.expiry))
  }

  ghost predicate Tracking(w: World) {
    && (forall t :: Tracks(w, t))
    && (forall id | id in w.rows :: id < w.nextId)
    && (forall id | id in w.rows && w.rows[id].token.Some? :: w.rows[id].token.value in w.minted)
  }

  lemma TracksOn(w: World, step: Step, t: Thread)
    requires Tracking(w) && Enabled(w, step)
    ensures Tracks(Next(w, step), t)
  {
    assert Tracks(w, t);
    var w' := Next(w, step);
    if t in w'.threads && w'.changed != w.changed {
      ChangedMore(w.changed, w'.changed[|w.changed|], w.threads[t].since, w.threads[t].id);
    }
  }

  lemma TrackingKeeps(w: World, step: Step)
    requires Tracking(w) && Enabled(w, step)
    ensures Tracking(Next(w, step))
  {
    forall t ensures Tracks(Next(w, step), t) { TracksOn(w, step, t); }
    if step.Write? { assert Tracks(w, step.t); }
  }

  /** The UPDATE uses the token now in the row, before it runs out. */
  predicate Sound(w: World, step: Step)
    requires Enabled(w, step)
  {
    TakesEffect(w, step) ==>
      var p := w.threads[step.t];
      w.rows[p.id].token == Some(p.token) && w.clock < w.rows[p.id].expiry
  }

  /** Since the SELECT the account's columns were written, or the token ran out. */
  ghost predicate Outrun(w: World, step: Step)
    requires Enabled(w, step)
  {
    TakesEffect(w, step)
    && (Changed(w.changed, w.threads[step.t].since, w.threads[step.t].id) || w.threads[step.t].expiry <= w.clock)
  }

  lemma WriteSoundExactly(w: World, step: Step)
    requires Tracking(w) && Enabled(w, step)
    ensures Sound(w, step) <==> !Outrun(w, step)
  {
    if TakesEffect(w, step) { assert Tracks(w, step.t); }
  }

  ghost predicate AlwaysSound(w: World, steps: seq<Step>)
    requires Schedule(w, steps)
    decreases |steps|
  {
    steps == [] || (Sound(w, steps[0]) && AlwaysSound(Next(w, steps[0]), steps[1..]))
  }

  ghost predicate NeverOutrun(w: World, steps: seq<Step>)
    requires Schedule(w, steps)
    decreases |steps|
  {
    steps == [] || (!Outrun(w, steps[0]) && NeverOutrun(Next(w, steps[0]), steps[1..]))
  }

  /** In an interleaving every effect is of the token then in the row, in time, exactly when between no
      SELECT and its UPDATE the account is written (a token reissued, cleared or used) or the token runs out. */
  lemma {:induction false} SoundExactly(w: World, steps: seq<Step>)
    requires Tracking(w) && Schedule(w, steps)
    ensures AlwaysSound(w, steps) <==> NeverOutrun(w, steps)
    decreases |steps|
  {
    if steps != [] {
      WriteSoundExactly(w, steps[0]);
      TrackingKeeps(w, steps[0]);
      SoundExactly(Next(w, steps[0]), steps[1..]);
    }
  }

  ghost predicate UnsoundAfter(w: World, s0: Step, s1: Step, s2: Step) {
    && Enabled(w, s0) && Enabled(Next(w, s0), s1)
    && var w2 := Next(Next(w, s0), s1); Enabled(w2, s2) && TakesEffect(w2, s2) && !Sound(w2, s2)
  }

  /** It can happen: a token reissued after the SELECT still takes effect, and clears the new one. */
  lemma RetiredTakesEffect(id: Id, token: Token, newer: Token)
    requires token != newer
    ensures var w := World(map[id := Row(Some(token), 1)], id + 1, {token}, map[], [], [], 0);
            Tracking(w) && UnsoundAfter(w, Find(0, id, token, 0), Stage(id, newer, 0), Write(0, false))
  {
    var w := World(map[id := Row(Some(token), 1)], id + 1, {token}, map[], [], [], 0);
    var w1 := Next(w, Find(0, id, token, 0));
    assert newer !in w1.minted && Enabled(w1, Stage(id, newer, 0));
    var w2 := Next(w1, Stage(id, newer, 0));
    assert w2.threads[0].id == id && w2.rows[id].token == Some(newer);
  }

  /** And one that runs out after the SELECT takes effect late. */
  lemma LateEffect(id: Id, token: Token)
    ensures var w := World(map[id := Row(Some(token), 1)], id + 1, {token}, map[], [], [], 0);
            Tracking(w) && UnsoundAfter(w, Find(0, id, token, 0), Pass(1), Write(0, false))
  {
  }
}
