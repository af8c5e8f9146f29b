/** The session-cutoff cache under concurrency: any number of threads interleave read-throughs (lookup,
    SELECT, insert) and revocations (UPDATE, invalidate). */
module SessionCache {
  import opened Prelude
  import opened Accounts

  type Thread = nat

  /** A cached cutoff: which version of the user's row it was read from, which version the row had
      reached when it was inserted, and when that was. */
  datatype Entry = Entry(cutoff: Option<int>, readVersion: nat, writeVersion: nat, at: Time)

  /** What a thread is in the middle of. A revocation has run its UPDATE but not its invalidate. */
  datatype Phase =
    | Missed(c: Claims)
    | Selected(c: Claims, cutoff: Option<int>, version: nat)
    | Revoking(id: Id)

  /** `rows[id]` is every value the user's `sessions_valid_after` has had, the current one last;
      a user never written has no row. */
  datatype World = World(
    rows: map<Id, seq<Option<int>>>,
    cache: map<Id, Entry>,
    threads: map<Thread, Phase>,
    clock: Time)

  function Values(w: World, id: Id): (vs: seq<Option<int>>)
    ensures vs != []
  {
    if id in w.rows && w.rows[id] != [] then w.rows[id] else [None]
  }

  function Version(w: World, id: Id): nat {
    |Values(w, id)| - 1
  }

  function Table(w: World, id: Id): Option<int> {
    Values(w, id)[Version(w, id)]
  }

  datatype Step =
    | Pass(elapsed: nat)
    | Evict(victim: Id)
    | Hit(t: Thread, c: Claims)
    | Miss(t: Thread, c: Claims)
    | Select(t: Thread)
    | Insert(t: Thread)
    | Update(t: Thread, id: Id, value: Option<int>)
    | Invalidate(t: Thread)

  predicate LiveEntry(w: World, id: Id) {
    id in w.cache && w.clock < w.cache[id].at + CUTOFF_TTL
  }

  predicate Enabled(w: World, step: Step) {
    match step
    case Pass(_) => true
    case Evict(_) => true
    case Hit(t, c) => t !in w.threads && LiveEntry(w, c.sub)
    case Miss(t, c) => t !in w.threads && !LiveEntry(w, c.sub)
    case Select(t) => t in w.threads && w.threads[t].Missed?
    case Insert(t) => t in w.threads && w.threads[t].Selected?
    case Update(t, _, _) => t !in w.threads
    case Invalidate(t) => t in w.threads && w.threads[t].Revoking?
  }

  function Next(w: World, step: Step): World
    requires Enabled(w, step)
  {
    match step
    case Pass(elapsed) => w.(clock := w.clock + elapsed)
    case Evict(id) => w.(cache := w.cache - {id})
    case Hit(_, _) => w
    case Miss(t, c) => w.(threads := w.threads[t := Missed(c)])
    case Select(t) =>
      var c := w.threads[t].c;
      w.(threads := w.threads[t := Selected(c, Table(w, c.sub), Version(w, c.sub))])
    case Insert(t) =>
      var p := w.threads[t];
      w.(cache := w.cache[p.c.sub := Entry(p.cutoff, p.version, Version(w, p.c.sub), w.clock)],
         threads := w.threads - {t})
    case Update(t, id, value) =>
      w.(rows := w.rows[id := Values(w, id) + [value]], threads := w.threads[t := Revoking(id)])
    case Invalidate(t) => w.(cache := w.cache - {w.threads[t].id}, threads := w.threads - {t})
  }

  /** The decision a step makes: whose token, and the cutoff it is compared with. */
  function Decision(w: World, step: Step): Option<(Claims, Option<int>)>
    requires Enabled(w, step)
  {
    match step
    case Hit(_, c) => Some((c, w.cache[c.sub].cutoff))
    case Insert(t) => Some((w.threads[t].c, w.threads[t].cutoff))
    case _ => None
  }

  // ----- what every interleaving keeps

  ghost predicate RevocationPending(w: World, id: Id) {
    exists t :: t in w.threads && w.threads[t] == Revoking(id)
  }

  ghost predicate EntryOk(w: World, id: Id) {
    id in w.cache ==>
      var e := w.cache[id];
      && e.readVersion <= e.writeVersion <= Version(w, id)
      && e.cutoff == Values(w, id)[e.readVersion]
      && e.at <= w.clock
      && (e.writeVersion < Version(w, id) ==> RevocationPending(w, id))
  }

  ghost predicate PhaseOk(w: World, t: Thread) {
    t in w.threads && w.threads[t].Selected? ==>
      var p := w.threads[t];
      p.version <= Version(w, p.c.sub) && p.cutoff == Values(w, p.c.sub)[p.version]
  }

  ghost predicate Inv(w: World) {
    (forall id :: EntryOk(w, id)) && (forall t :: PhaseOk(w, t))
  }

  lemma StepKeeps(w: World, step: Step)
    requires Inv(w) && Enabled(w, step)
    ensures Inv(Next(w, step))
  {
    var w' := Next(w, step);
    forall id ensures EntryOk(w', id) {
      assert EntryOk(w, id);
      if id in w'.cache && RevocationPending(w, id) {
        var t :| t in w.threads && w.threads[t] == Revoking(id);
        assert t in w'.threads && w'.threads[t] == Revoking(id);
      }
      if step.Update? && step.id == id {
        assert w'.threads[step.t] == Revoking(id);
      }
      if step.Insert? { assert PhaseOk(w, step.t); }
    }
    forall t ensures PhaseOk(w', t) {
      assert PhaseOk(w, t);
    }
  }

  ghost predicate Schedule(w: World, steps: seq<Step>)
    decreases |steps|
  {
    steps == [] || (Enabled(w, steps[0]) && Schedule(Next(w, steps[0]), steps[1..]))
  }

  ghost function After(w: World, steps: seq<Step>): World
    requires Schedule(w, steps)
    decreases |steps|
  {
    if steps == [] then w else After(Next(w, steps[0]), steps[1..])
  }

  lemma {:induction false} RunKeeps(w: World, steps: seq<Step>)
    requires Inv(w) && Schedule(w, steps)
    ensures Inv(After(w, steps))
    decreases |steps|
  {
    if steps != [] {
      StepKeeps(w, steps[0]);
      RunKeeps(Next(w, steps[0]), steps[1..]);
    }
  }

  ghost predicate Start(w: World) {
    w.cache == map[] && w.threads == map[]
  }

  /** In every interleaving, a cutoff served from the cache is a value the row really had, inserted
      less than the time to live ago. */
  lemma ServedWasRead(start: World, steps: seq<Step>, hit: Step)
    requires Start(start) && Schedule(start, steps) && hit.Hit? && Enabled(After(start, steps), hit)
    ensures var w := After(start, steps);
            && w.cache[hit.c.sub].cutoff in Values(w, hit.c.sub)
            && w.cache[hit.c.sub].at <= w.clock < w.cache[hit.c.sub].at + 5000
  {
    RunKeeps(start, steps);
    assert EntryOk(After(start, steps), hit.c.sub);
  }

  /** Was the row updated between this entry's SELECT and its insert? */
  predicate Overtaken(e: Entry) {
    e.readVersion < e.writeVersion
  }

  /** With no revocation of the user between UPDATE and invalidate, a cached cutoff is the row's
      latest version exactly when no UPDATE overtook its read-through. */
  lemma CacheCurrentExactly(start: World, steps: seq<Step>, id: Id)
    requires Start(start) && Schedule(start, steps)
    requires var w := After(start, steps); id in w.cache && !RevocationPending(w, id)
    ensures var w := After(start, steps);
            && (w.cache[id].readVersion == Version(w, id) <==> !Overtaken(w.cache[id]))
            && (!Overtaken(w.cache[id]) ==> w.cache[id].cutoff == Table(w, id))
  {
    RunKeeps(start, steps);
    assert EntryOk(After(start, steps), id);
  }

  lemma FiveSteps(w0: World, s0: Step, w1: World, s1: Step, w2: World, s2: Step, w3: World, s3: Step,
                  w4: World, s4: Step, w5: World)
    requires Enabled(w0, s0) && w1 == Next(w0, s0) && Enabled(w1, s1) && w2 == Next(w1, s1)
    requires Enabled(w2, s2) && w3 == Next(w2, s2) && Enabled(w3, s3) && w4 == Next(w3, s3)
    requires Enabled(w4, s4) && w5 == Next(w4, s4)
    ensures Schedule(w0, [s0, s1, s2, s3, s4]) && After(w0, [s0, s1, s2, s3, s4]) == w5
  {
    assert [s0, s1, s2, s3, s4][1..] == [s1, s2, s3, s4] && [s1, s2, s3, s4][1..] == [s2, s3, s4];
    assert [s2, s3, s4][1..] == [s3, s4] && [s3, s4][1..] == [s4] && [s4][1..] == [];
    assert Schedule(w5, []) && After(w5, []) == w5;
    assert Schedule(w4, [s4]) && After(w4, [s4]) == w5;
    assert Schedule(w3, [s3, s4]) && After(w3, [s3, s4]) == w5;
    assert Schedule(w2, [s2, s3, s4]) && After(w2, [s2, s3, s4]) == w5;
    assert Schedule(w1, [s1, s2, s3, s4]) && After(w1, [s1, s2, s3, s4]) == w5;
  }

  /** That nothing is in flight is not enough. A request reads the old cutoff; a revocation runs to
      completion; the request inserts what it read. Then, with every thread idle, the next request
      with the revoked token is served the old cutoff and accepted. */
  lemma StaleWithNothingInFlight(c: Claims, stored: int, revoked: int)
    requires 0 <= stored < c.iat <= revoked
    ensures var w0 := World(map[c.sub := [Some(stored)]], map[], map[], 0);
            var steps := [Miss(0, c), Select(0), Update(1, c.sub, Some(revoked)), Invalidate(1), Insert(0)];
            && Start(w0) && Schedule(w0, steps)
            && var w := After(w0, steps);
               && w.threads == map[]
               && Table(w, c.sub) == Some(revoked) && !NewerThan(c, Table(w, c.sub))
               && Enabled(w, Hit(0, c)) && NewerThan(c, Decision(w, Hit(0, c)).value.1)
  {
    var w0 := World(map[c.sub := [Some(stored)]], map[], map[], 0);
    var s0, s1, s2, s3, s4 := Miss(0, c), Select(0), Update(1, c.sub, Some(revoked)), Invalidate(1), Insert(0);
    var w1 := Next(w0, s0);
    var w2 := Next(w1, s1);
    var w3 := Next(w2, s2);
    var w4 := Next(w3, s3);
    var w5 := Next(w4, s4);
    FiveSteps(w0, s0, w1, s1, w2, s2, w3, s3, w4, s4, w5);
    assert w5.threads == map[];
  }

  // ----- when revocation is immediate

  /** Nothing in the cache or in flight for this user is older than the row. */
  ghost predicate Settled(w: World, id: Id) {
    && (id in w.cache ==> w.cache[id].cutoff == Table(w, id))
    && (forall t | t in w.threads && w.threads[t].Selected? && w.threads[t].c.sub == id ::
          w.threads[t].cutoff == Table(w, id))
  }

  /** Completing a revocation settles the user exactly when no read-through in flight holds an
      older value. */
  lemma InvalidateSettlesExactly(w: World, t: Thread)
    requires Enabled(w, Invalidate(t))
    ensures var id := w.threads[t].id;
            Settled(Next(w, Invalidate(t)), id) <==>
            forall r | r in w.threads && w.threads[r].Selected? && w.threads[r].c.sub == id ::
              w.threads[r].cutoff == Table(w, id)
  {
    var id := w.threads[t].id;
    var w' := Next(w, Invalidate(t));
    assert Table(w', id) == Table(w, id);
    assert forall r | r in w.threads && w.threads[r].Selected? :: r in w'.threads;
  }

  ghost predicate Updates(steps: seq<Step>, id: Id) {
    exists i :: 0 <= i < |steps| && steps[i].Update? && steps[i].id == id
  }

  /** Once settled, every decision about the user's tokens uses the row itself, until the next
      UPDATE: a token not newer than the cutoff is rejected at the very next request. */
  lemma {:induction false} SettledDecides(w: World, steps: seq<Step>, id: Id, step: Step)
    requires Settled(w, id) && Schedule(w, steps) && !Updates(steps, id)
    requires Enabled(After(w, steps), step) && Decision(After(w, steps), step).Some?
    requires Decision(After(w, steps), step).value.0.sub == id
    ensures Decision(After(w, steps), step).value.1 == Table(w, id)
    decreases |steps|
  {
    if steps != [] {
      var w' := Next(w, steps[0]);
      assert Table(w', id) == Table(w, id) by {
        assert !(steps[0].Update? && steps[0].id == id);
      }
      assert Settled(w', id);
      forall i | 0 <= i < |steps| - 1 ensures !(steps[1..][i].Update? && steps[1..][i].id == id) {
        assert steps[1..][i] == steps[i + 1];
      }
      SettledDecides(w', steps[1..], id, step);
    }
  }

  /** Every decision about the user, until the next UPDATE of the row, is made on the row itself. */
  ghost predicate DecidesByTable(w: World, id: Id) {
    forall steps, step | Schedule(w, steps) && !Updates(steps, id) && Enabled(After(w, steps), step) ::
      DecidedBy(After(w, steps), step, id, Table(w, id))
  }

  ghost predicate DecidedBy(w: World, step: Step, id: Id, cutoff: Option<int>)
    requires Enabled(w, step)
  {
    Decision(w, step).Some? && Decision(w, step).value.0.sub == id ==> Decision(w, step).value.1 == cutoff
  }

  /** Completing a revocation is effective at once, in every continuation, exactly when no read-through in
      flight holds another cutoff; one that does decides by it as its next step. */
  lemma RevocationImmediateExactly(w: World, t: Thread)
    requires Enabled(w, Invalidate(t))
    ensures var id := w.threads[t].id;
            DecidesByTable(Next(w, Invalidate(t)), id) <==>
            forall r | r in w.threads && w.threads[r].Selected? && w.threads[r].c.sub == id ::
              w.threads[r].cutoff == Table(w, id)
  {
    var id := w.threads[t].id;
    var w' := Next(w, Invalidate(t));
    assert Table(w', id) == Table(w, id);
    if forall r | r in w.threads && w.threads[r].Selected? && w.threads[r].c.sub == id ::
         w.threads[r].cutoff == Table(w, id) {
      InvalidateSettlesExactly(w, t);
      forall steps, step | Schedule(w', steps) && !Updates(steps, id) && Enabled(After(w', steps), step)
        ensures DecidedBy(After(w', steps), step, id, Table(w', id))
      {
        if Decision(After(w', steps), step).Some? && Decision(After(w', steps), step).value.0.sub == id {
          SettledDecides(w', steps, id, step);
        }
      }
    } else {
      var r :| r in w.threads && w.threads[r].Selected? && w.threads[r].c.sub == id
          && w.threads[r].cutoff != Table(w, id);
      assert w'.threads[r] == w.threads[r];
      assert Schedule(w', []) && !Updates([], id) && After(w', []) == w';
      assert !DecidedBy(After(w', []), Insert(r), id, Table(w', id));
    }
  }
}
