/** Named things with an optional parent name: walking up, cycles, and the pigeonhole argument
    behind both theme resolution and build order. */
module Ancestry {
  import opened Prelude

  /** Each name's parent, for the names that exist. */
  type Parents = map<string, Option<string>>

  /** The name `k` steps up from `name`; `None` once the walk leaves the existing names. */
  function Up(ps: Parents, name: string, k: nat): Option<string>
    decreases k
  {
    if name !in ps then None
    else if k == 0 then Some(name)
    else if ps[name].None? then None
    else Up(ps, ps[name].value, k - 1)
  }

  ghost predicate OnCycle(ps: Parents, name: string) {
    exists k: nat :: k >= 1 && Up(ps, name, k) == Some(name)
  }

  /** The walk up from `name` leaves the existing names. */
  ghost predicate Ends(ps: Parents, name: string) {
    exists k: nat :: Up(ps, name, k) == None
  }

  lemma {:induction false} UpCompose(ps: Parents, name: string, j: nat, k: nat)
    requires Up(ps, name, j).Some?
    ensures Up(ps, name, j + k) == Up(ps, Up(ps, name, j).value, k)
    decreases j
  {
    if j > 0 {
      UpCompose(ps, ps[name].value, j - 1, k);
    }
  }

  /** More places than values: some value stands at two places. */
  lemma {:induction false} Pigeonhole(xs: seq<string>, values: set<string>) returns (i: nat, j: nat)
    requires |xs| > |values| && forall k | 0 <= k < |xs| :: xs[k] in values
    ensures i < j < |xs| && xs[i] == xs[j]
  {
    if exists k :: 1 <= k < |xs| && xs[k] == xs[0] {
      var k :| 1 <= k < |xs| && xs[k] == xs[0];
      i, j := 0, k;
    } else {
      var i', j' := Pigeonhole(xs[1..], values - {xs[0]});
      i, j := i' + 1, j' + 1;
    }
  }

  ghost predicate HasChild(ps: Parents, name: string) {
    exists c :: c in ps && ps[c] == Some(name)
  }

  /** `down[i + 1]` is a child of `down[i]`. */
  ghost predicate Descends(ps: Parents, down: seq<string>) {
    && (forall i | 0 <= i < |down| :: down[i] in ps)
    && (forall i | 0 <= i < |down| - 1 :: ps[down[i + 1]] == Some(down[i]))
  }

  lemma {:induction false} UpFromDescent(ps: Parents, down: seq<string>, i: nat)
    requires Descends(ps, down) && i < |down|
    ensures Up(ps, down[i], i) == Some(down[0])
  {
    if i > 0 {
      UpFromDescent(ps, down, i - 1);
    }
  }

  lemma {:induction false} DescentOf(ps: Parents, name: string, length: nat) returns (down: seq<string>)
    requires name in ps && forall n {:trigger HasChild(ps, n)} | n in ps :: HasChild(ps, n)
    ensures Descends(ps, down) && |down| == length + 1 && down[0] == name
  {
    if length == 0 {
      down := [name];
    } else {
      var upper := DescentOf(ps, name, length - 1);
      assert HasChild(ps, upper[|upper| - 1]);
      var c :| c in ps && ps[c] == Some(upper[|upper| - 1]);
      down := upper + [c];
    }
  }

  /** If everyone has a child, everyone lies on a cycle. */
  lemma NoLeafMeansCycles(ps: Parents, name: string)
    requires name in ps && forall n {:trigger HasChild(ps, n)} | n in ps :: HasChild(ps, n)
    ensures OnCycle(ps, name)
  {
    var down := DescentOf(ps, name, |ps.Keys|);
    var i, j := Pigeonhole(down, ps.Keys);
    UpFromDescent(ps, down, i);
    UpFromDescent(ps, down, j);
    UpCompose(ps, down[j], i, j - i);
    assert Up(ps, name, j - i) == Some(name);
  }

  /** A nonempty set that is closed under taking parents holds a cycle. */
  lemma ClosedMeansCycle(ps: Parents, names: set<string>) returns (name: string)
    requires names != {} && names <= ps.Keys
    requires forall n | n in names :: ps[n].Some? && ps[n].value in names
    ensures name in names && OnCycle(ps, name)
  {
    var start :| start in names;
    var walk := ClimbOf(ps, names, start, |names|);
    var i, j := Pigeonhole(walk, names);
    UpCompose(ps, start, i, j - i);
    name := walk[i];
    assert Up(ps, name, j - i) == Some(name);
  }

  lemma {:induction false} ClimbOf(ps: Parents, names: set<string>, start: string, length: nat)
      returns (walk: seq<string>)
    requires start in names && names <= ps.Keys
    requires forall n | n in names :: ps[n].Some? && ps[n].value in names
    ensures |walk| == length + 1
    ensures forall k | 0 <= k <= length :: walk[k] in names && Up(ps, start, k) == Some(walk[k])
  {
    if length == 0 {
      walk := [start];
    } else {
      var lower := ClimbOf(ps, names, start, length - 1);
      UpCompose(ps, start, length - 1, 1);
      walk := lower + [ps[lower[length - 1]].value];
    }
  }

  /** A walk that ends never enters a set closed under taking parents. */
  lemma {:induction false} EndsOutside(ps: Parents, names: set<string>, name: string, k: nat)
    requires names <= ps.Keys && forall n | n in names :: ps[n].Some? && ps[n].value in names
    requires Up(ps, name, k) == None
    ensures name !in names
    decreases k
  {
    if name in names && k > 0 {
      EndsOutside(ps, names, ps[name].value, k - 1);
    }
  }

  /** Every walk either ends or runs into a cycle. */
  lemma CycleNeverEnds(ps: Parents, name: string, k: nat)
    requires OnCycle(ps, name)
    ensures Up(ps, name, k).Some?
    decreases k
  {
    var n: nat :| n >= 1 && Up(ps, name, n) == Some(name);
    if k >= n {
      UpCompose(ps, name, n, k - n);
      CycleNeverEnds(ps, name, k - n);
    } else {
      UpPrefix(ps, name, k, n);
    }
  }

  lemma {:induction false} UpPrefix(ps: Parents, name: string, j: nat, k: nat)
    requires j <= k && Up(ps, name, k).Some?
    ensures Up(ps, name, j).Some?
    decreases j
  {
    if j > 0 { UpPrefix(ps, ps[name].value, j - 1, k - 1); }
  }
}
