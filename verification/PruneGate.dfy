/** The gate that lets at most one request per minute prune the rate limiter's store, with any number
    of threads passing it at once. */
module PruneGate {

  const INTERVAL: nat := 60

  /** Where a thread is inside the gate. */
  datatype Phase = Outside | Timed(elapsed: nat) | Swapping(elapsed: nat, last: nat)

  /** `values` is the modification order of the shared cell, newest last; `prunes` what the winners
      wrote, which is when they had read the clock. */
  datatype World = World(clock: nat, values: seq<nat>, threads: map<nat, Phase>, prunes: seq<nat>)

  /** One atomic step. A relaxed load may see an older value, the `seen`-th. */
  datatype Step = Tick(seconds: nat) | ReadClock(thread: nat) | Load(thread: nat, seen: nat) | Swap(thread: nat)

  const BOOT := World(0, [0], map[], [])

  function PhaseOf(w: World, thread: nat): Phase {
    if thread in w.threads then w.threads[thread] else Outside
  }

  function Since(elapsed: nat, last: nat): nat {
    if elapsed < last then 0 else elapsed - last
  }

  function Next(w: World, step: Step): World {
    match step
    case Tick(seconds) => w.(clock := w.clock + seconds)
    case ReadClock(t) => if PhaseOf(w, t).Outside? then w.(threads := w.threads[t := Timed(w.clock)]) else w
    case Load(t, seen) =>
      if PhaseOf(w, t).Timed? && seen < |w.values| then
        var elapsed, last := PhaseOf(w, t).elapsed, w.values[seen];
        w.(threads := w.threads[t := if Since(elapsed, last) < INTERVAL then Outside else Swapping(elapsed, last)])
      else w
    case Swap(t) =>
      if !PhaseOf(w, t).Swapping? || w.values == [] then w
      else
        var out := w.threads[t := Outside];
        if w.values[|w.values| - 1] == PhaseOf(w, t).last then
          w.(threads := out, values := w.values + [PhaseOf(w, t).elapsed], prunes := w.prunes + [PhaseOf(w, t).elapsed])
        else w.(threads := out)
  }

  function Run(w: World, steps: seq<Step>): World
    decreases |steps|
  {
    if steps == [] then w else Run(Next(w, steps[0]), steps[1..])
  }

  // ----- what every run keeps

  ghost predicate PhaseInv(clock: nat, phase: Phase) {
    match phase
    case Outside => true
    case Timed(elapsed) => elapsed <= clock
    case Swapping(elapsed, last) => elapsed <= clock && elapsed >= last + INTERVAL
  }

  function Latest(prunes: seq<nat>): nat {
    if prunes == [] then 0 else prunes[|prunes| - 1]
  }

  /** Each prune is at least a minute after the one before, the first after the start. */
  ghost predicate Spaced(prunes: seq<nat>)
    decreases |prunes|
  {
    prunes == [] || (Latest(prunes) >= Latest(prunes[..|prunes| - 1]) + INTERVAL && Spaced(prunes[..|prunes| - 1]))
  }

  ghost predicate ThreadsInv(clock: nat, threads: map<nat, Phase>) {
    forall t | t in threads :: PhaseInv(clock, threads[t])
  }

  /** The cell holds the latest prune, which is not in the future. */
  ghost predicate Inv(w: World) {
    && w.values == [0] + w.prunes
    && Spaced(w.prunes) && Latest(w.prunes) <= w.clock
    && ThreadsInv(w.clock, w.threads)
  }

  lemma SpacedMore(prunes: seq<nat>, elapsed: nat)
    requires Spaced(prunes) && elapsed >= Latest(prunes) + INTERVAL
    ensures Spaced(prunes + [elapsed])
  {
    assert (prunes + [elapsed])[..|prunes|] == prunes;
  }

  lemma SwapKeeps(w: World, thread: nat)
    requires Inv(w)
    ensures Inv(Next(w, Swap(thread)))
  {
    if PhaseOf(w, thread).Swapping? {
      var elapsed := PhaseOf(w, thread).elapsed;
      assert PhaseInv(w.clock, w.threads[thread]);
      assert w.values[|w.values| - 1] == Latest(w.prunes);
      if Latest(w.prunes) == PhaseOf(w, thread).last {
        SpacedMore(w.prunes, elapsed);
        assert [0] + (w.prunes + [elapsed]) == [0] + w.prunes + [elapsed];
      }
    }
  }

  lemma StepKeeps(w: World, step: Step)
    requires Inv(w)
    ensures Inv(Next(w, step))
  {
    if step.Swap? { SwapKeeps(w, step.thread); }
  }

  lemma {:induction false} RunKeeps(w: World, steps: seq<Step>)
    requires Inv(w)
    ensures Inv(Run(w, steps))
    decreases |steps|
  {
    if steps != [] {
      StepKeeps(w, steps[0]);
      RunKeeps(Next(w, steps[0]), steps[1..]);
    }
  }

  lemma {:induction false} MinuteEach(prunes: seq<nat>)
    requires Spaced(prunes)
    ensures INTERVAL * |prunes| <= Latest(prunes)
    decreases |prunes|
  {
    if prunes != [] { MinuteEach(prunes[..|prunes| - 1]); }
  }

  lemma {:induction false} MinuteApart(prunes: seq<nat>, i: nat, j: nat)
    requires Spaced(prunes) && i < j < |prunes|
    ensures prunes[j] >= prunes[i] + INTERVAL
    decreases |prunes|
  {
    var n := |prunes| - 1;
    if j < n {
      MinuteApart(prunes[..n], i, j);
    } else if i < n - 1 {
      MinuteApart(prunes[..n], i, n - 1);
    }
  }

  /** In every interleaving, at most one prune per minute since the start, and any two are at least a
      minute apart. */
  lemma AtMostOncePerMinute(steps: seq<Step>)
    ensures var w := Run(BOOT, steps);
            && |w.prunes| <= w.clock / 60
            && forall i, j | 0 <= i < j < |w.prunes| :: w.prunes[j] >= w.prunes[i] + 60
  {
    RunKeeps(BOOT, steps);
    var prunes := Run(BOOT, steps).prunes;
    MinuteEach(prunes);
    forall i, j | 0 <= i < j < |prunes| ensures prunes[j] >= prunes[i] + INTERVAL {
      MinuteApart(prunes, i, j);
    }
  }

  /** A winning swap raises the shared value by at least a minute. */
  lemma SwapRaises(w: World, thread: nat)
    requires Inv(w)
    ensures var after := Next(w, Swap(thread));
            after.values == w.values
            || (|after.values| == |w.values| + 1 && after.values[|w.values|] >= w.values[|w.values| - 1] + INTERVAL
                && |after.prunes| == |w.prunes| + 1)
  {
  }

  /** Of the threads that loaded the same value, one wins: after its swap the others' swaps fail. */
  lemma OneWinner(w: World, a: nat, b: nat)
    requires Inv(w) && a != b && PhaseOf(w, a).Swapping? && PhaseOf(w, b).Swapping?
    requires PhaseOf(w, a).last == PhaseOf(w, b).last == w.values[|w.values| - 1]
    ensures var won := Next(w, Swap(a));
            |won.prunes| == |w.prunes| + 1 && Next(won, Swap(b)).prunes == won.prunes
  {
    var won := Next(w, Swap(a));
    assert won.threads[b] == w.threads[b];
  }

  // ----- one thread alone

  class Shared {
    var lastPrune: nat
    var prunes: nat

    constructor ()
      ensures lastPrune == 0 && prunes == 0
    {
      lastPrune, prunes := 0, 0;
    }

    /** The gate passed without interruption: it prunes exactly when a minute has gone by. */
    method MaybePrune(elapsed: nat)
      modifies this
      ensures old(lastPrune) + 60 <= elapsed ==> lastPrune == elapsed && prunes == old(prunes) + 1
      ensures elapsed < old(lastPrune) + 60 ==> lastPrune == old(lastPrune) && prunes == old(prunes)
    {
      var last := lastPrune;
      if Since(elapsed, last) < INTERVAL { return; }
      if lastPrune == last {
        lastPrune := elapsed;
        prunes := prunes + 1;
      }
    }
  }

  /** The gate as three steps of one thread with none in between does what the method does. */
  lemma AloneIsAtomic(w: World, thread: nat)
    requires Inv(w) && PhaseOf(w, thread).Outside?
    ensures var last := w.values[|w.values| - 1];
            var after := Run(w, [ReadClock(thread), Load(thread, |w.values| - 1), Swap(thread)]);
            && PhaseOf(after, thread).Outside?
            && after.prunes == if w.clock >= last + 60 then w.prunes + [w.clock] else w.prunes
  {
    var read := Next(w, ReadClock(thread));
    var load := Next(read, Load(thread, |w.values| - 1));
    var after := Next(load, Swap(thread));
    var rest := [Load(thread, |w.values| - 1), Swap(thread)];
    assert ([ReadClock(thread)] + rest)[1..] == rest;
    assert Run(w, [ReadClock(thread)] + rest) == Run(read, rest);
    assert rest[1..] == [Swap(thread)];
    assert Run(read, rest) == Run(load, [Swap(thread)]);
    assert [Swap(thread)][1..] == [];
    assert Run(load, [Swap(thread)]) == Run(after, []) == after;
  }
}
