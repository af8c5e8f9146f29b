/** The order in which local themes are built once: a local parent before its children. */
module BuildOrder {
  import opened Prelude
  import opened Ancestry

  datatype LocalTheme = LocalTheme(name: string, parent: Option<string>)

  ghost predicate UniqueNames(themes: seq<LocalTheme>) {
    forall i, j | 0 <= i < j < |themes| :: themes[i].name != themes[j].name
  }

  predicate IsLocal(themes: seq<LocalTheme>, name: string) {
    exists i | 0 <= i < |themes| :: themes[i].name == name
  }

  function ParentsOf(themes: seq<LocalTheme>): Parents {
    if themes == [] then map[]
    else
      var last := themes[|themes| - 1];
      ParentsOf(themes[..|themes| - 1])[last.name := last.parent]
  }

  lemma {:induction false} Linked(themes: seq<LocalTheme>, i: nat)
    requires UniqueNames(themes) && i < |themes|
    ensures themes[i].name in ParentsOf(themes) && ParentsOf(themes)[themes[i].name] == themes[i].parent
  {
    var n := |themes| - 1;
    if i < n {
      Linked(themes[..n], i);
      assert themes[i].name != themes[n].name;
    }
  }

  lemma {:induction false} LinkedBack(themes: seq<LocalTheme>, name: string) returns (i: nat)
    requires name in ParentsOf(themes)
    ensures i < |themes| && themes[i].name == name
  {
    var n := |themes| - 1;
    if themes[n].name == name { i := n; } else { i := LinkedBack(themes[..n], name); }
  }

  lemma Links(themes: seq<LocalTheme>)
    requires UniqueNames(themes)
    ensures forall i | 0 <= i < |themes| ::
              themes[i].name in ParentsOf(themes) && ParentsOf(themes)[themes[i].name] == themes[i].parent
    ensures forall n | n in ParentsOf(themes) :: IsLocal(themes, n)
  {
    forall i | 0 <= i < |themes|
      ensures themes[i].name in ParentsOf(themes) && ParentsOf(themes)[themes[i].name] == themes[i].parent
    {
      Linked(themes, i);
    }
    forall n | n in ParentsOf(themes) ensures IsLocal(themes, n) {
      var i := LinkedBack(themes, n);
    }
  }

  /** The themes not built yet, in their own order. */
  function Undone(themes: seq<LocalTheme>, done: set<string>): seq<LocalTheme> {
    if themes == [] then []
    else (if themes[0].name in done then [] else [themes[0]]) + Undone(themes[1..], done)
  }

  lemma {:induction false} UndoneMembers(themes: seq<LocalTheme>, done: set<string>)
    ensures forall t :: t in Undone(themes, done) <==> t in themes && t.name !in done
  {
    if themes != [] { UndoneMembers(themes[1..], done); }
  }

  lemma {:induction false} UndoneSame(themes: seq<LocalTheme>, done: set<string>, name: string)
    requires !IsLocal(themes, name)
    ensures Undone(themes, done + {name}) == Undone(themes, done)
  {
    if themes != [] {
      forall i | 0 <= i < |themes[1..]| ensures themes[1..][i].name != name {
        assert themes[1..][i] == themes[i + 1];
      }
      assert themes[0].name != name;
      UndoneSame(themes[1..], done, name);
    }
  }

  lemma {:induction false} UndoneStep(themes: seq<LocalTheme>, done: set<string>, i: nat)
    requires UniqueNames(themes) && i < |themes| && themes[i].name !in done
    ensures multiset(Undone(themes, done)) == multiset(Undone(themes, done + {themes[i].name})) + multiset{themes[i]}
  {
    var rest := themes[1..];
    assert forall j | 0 <= j < |rest| :: rest[j] == themes[j + 1];
    var more := done + {themes[i].name};
    if i == 0 {
      UndoneHead(themes, done);
    } else {
      UndoneStep(rest, done, i - 1);
      assert themes[0].name in more <==> themes[0].name in done;
      SameHead(if themes[0].name in done then [] else [themes[0]], Undone(rest, done), Undone(rest, more), themes[i]);
    }
  }

  lemma UndoneHead(themes: seq<LocalTheme>, done: set<string>)
    requires UniqueNames(themes) && themes != [] && themes[0].name !in done
    ensures multiset(Undone(themes, done)) ==
            multiset(Undone(themes, done + {themes[0].name})) + multiset{themes[0]}
  {
    var rest := themes[1..];
    assert forall j | 0 <= j < |rest| :: rest[j] == themes[j + 1];
    UndoneSame(rest, done, themes[0].name);
    assert Undone(themes, done + {themes[0].name}) == Undone(rest, done + {themes[0].name});
  }

  lemma SameHead(head: seq<LocalTheme>, a: seq<LocalTheme>, b: seq<LocalTheme>, t: LocalTheme)
    requires multiset(a) == multiset(b) + multiset{t}
    ensures multiset(head + a) == multiset(head + b) + multiset{t}
  {
  }

  lemma {:induction false} UndoneNone(themes: seq<LocalTheme>)
    ensures Undone(themes, {}) == themes
  {
    if themes != [] { UndoneNone(themes[1..]); }
  }

  predicate IsReady(themes: seq<LocalTheme>, done: set<string>, t: LocalTheme) {
    t.parent.None? || t.parent.value in done || !IsLocal(themes, t.parent.value)
  }

  /** `out[i]` stands after its local parent. */
  ghost predicate AfterParent(themes: seq<LocalTheme>, out: seq<LocalTheme>, i: nat)
    requires i < |out|
  {
    out[i].parent.Some? && IsLocal(themes, out[i].parent.value) ==>
      exists j :: 0 <= j < i && out[j].name == out[i].parent.value
  }

  ghost predicate Placed(themes: seq<LocalTheme>, out: seq<LocalTheme>, done: set<string>) {
    && (forall n :: n in done <==> IsLocal(out, n))
    && (forall i | 0 <= i < |out| :: AfterParent(themes, out, i))
    && (UniqueNames(themes) ==> multiset(themes) == multiset(out) + multiset(Undone(themes, done)))
  }

  lemma PlaceOne(themes: seq<LocalTheme>, out: seq<LocalTheme>, done: set<string>, i: nat)
    requires Placed(themes, out, done) && i < |themes| && themes[i].name !in done
    requires IsReady(themes, done, themes[i])
    ensures Placed(themes, out + [themes[i]], done + {themes[i].name})
  {
    var t := themes[i];
    var more := out + [t];
    forall n ensures n in done + {t.name} <==> IsLocal(more, n) {
      if n in done {
        var j :| 0 <= j < |out| && out[j].name == n;
        assert more[j].name == n;
      }
      assert more[|out|].name == t.name;
    }
    forall k | 0 <= k < |more| ensures AfterParent(themes, more, k) {
      if k < |out| {
        AfterParentStays(themes, out, t, k);
      } else if t.parent.Some? && t.parent.value in done {
        var j :| 0 <= j < |out| && out[j].name == t.parent.value;
        assert more[j].name == more[k].parent.value;
      }
    }
    if UniqueNames(themes) { UndoneStep(themes, done, i); }
  }

  lemma AfterParentStays(themes: seq<LocalTheme>, out: seq<LocalTheme>, t: LocalTheme, k: nat)
    requires k < |out| && AfterParent(themes, out, k)
    ensures AfterParent(themes, out + [t], k)
  {
    if out[k].parent.Some? && IsLocal(themes, out[k].parent.value) {
      var j :| 0 <= j < k && out[j].name == out[k].parent.value;
      assert (out + [t])[j].name == out[k].parent.value;
    }
  }

  /** What the order promises: a permutation, in which every theme whose parents end comes after its
      local parent; all do exactly when no theme is its own ancestor. */
  ghost predicate Ordered(themes: seq<LocalTheme>, out: seq<LocalTheme>) {
    var ps := ParentsOf(themes);
    && multiset(out) == multiset(themes)
    && (forall i | 0 <= i < |out| :: Ends(ps, out[i].name) ==> AfterParent(themes, out, i))
    && ((forall i | 0 <= i < |out| :: AfterParent(themes, out, i)) <==> forall n | n in ps :: !OnCycle(ps, n))
  }

  lemma NonePlaced(themes: seq<LocalTheme>)
    ensures Placed(themes, [], {})
  {
    UndoneNone(themes);
  }

  ghost predicate AllWait(themes: seq<LocalTheme>, done: set<string>, n: nat) {
    forall k | 0 <= k < |themes| && k < n && themes[k].name !in done :: !IsReady(themes, done, themes[k])
  }

  /** One round: every theme whose parent is done, or done earlier in the round, is added. */
  method Round(themes: seq<LocalTheme>, out0: seq<LocalTheme>, done0: set<string>)
    returns (out: seq<LocalTheme>, done: set<string>)
    requires Placed(themes, out0, done0)
    ensures Placed(themes, out, done) && |out0| <= |out|
    ensures |out| == |out0| ==> AllWait(themes, done, |themes|)
  {
    out, done := out0, done0;
    for i := 0 to |themes|
      invariant Placed(themes, out, done) && |out0| <= |out|
      invariant |out| == |out0| ==> AllWait(themes, done, i)
    {
      var theme := themes[i];
      if IsReady(themes, done, theme) && theme.name !in done {
        PlaceOne(themes, out, done, i);
        done := done + {theme.name};
        out := out + [theme];
      }
    }
  }

  /** Rounds over the themes, each adding those whose parent is done; when a round adds none, the rest
      is appended as it stands (`fellBack`), which happens only if some theme is its own ancestor. */
  method ParentsFirst(themes: seq<LocalTheme>) returns (out: seq<LocalTheme>, ghost fellBack: bool)
    ensures UniqueNames(themes) ==> Ordered(themes, out)
    ensures UniqueNames(themes) ==> (fellBack <==> exists n :: n in ParentsOf(themes) && OnCycle(ParentsOf(themes), n))
  {
    var done: set<string> := {};
    out := [];
    fellBack := false;
    NonePlaced(themes);
    while |out| < |themes|
      invariant Placed(themes, out, done)
    {
      var before := |out|;
      out, done := Round(themes, out, done);
      if |out| == before {
        fellBack := true;
        if UniqueNames(themes) { FallBack(themes, out, done); }
        out := out + Undone(themes, done);
        return;
      }
    }
    if UniqueNames(themes) { AllPlaced(themes, out, done); }
  }

  lemma Shared(a: seq<LocalTheme>, b: seq<LocalTheme>, i: nat) returns (j: nat)
    requires multiset(a) == multiset(b) && i < |a|
    ensures j < |b| && b[j] == a[i]
  {
    assert a[i] in multiset(a);
    assert a[i] in multiset(b);
    j :| 0 <= j < |b| && b[j] == a[i];
  }

  /** If everyone comes after their local parent, going up goes left. */
  lemma {:induction false} UpIsBefore(themes: seq<LocalTheme>, out: seq<LocalTheme>, i: nat, k: nat)
    requires UniqueNames(themes) && multiset(out) == multiset(themes) && i < |out|
    requires forall j | 0 <= j < |out| :: AfterParent(themes, out, j)
    requires Up(ParentsOf(themes), out[i].name, k).Some?
    ensures k <= i
    ensures exists j :: 0 <= j <= i - k && Some(out[j].name) == Up(ParentsOf(themes), out[i].name, k)
    decreases k
  {
    var ps := ParentsOf(themes);
    Links(themes);
    if k > 0 {
      var n := Shared(out, themes, i);
      var p := themes[n].parent.value;
      assert IsLocal(themes, p);
      assert AfterParent(themes, out, i);
      var j :| 0 <= j < i && out[j].name == p;
      UpIsBefore(themes, out, j, k - 1);
    }
  }

  lemma OrderMeansNoCycle(themes: seq<LocalTheme>, out: seq<LocalTheme>, name: string)
    requires UniqueNames(themes) && multiset(out) == multiset(themes)
    requires forall j | 0 <= j < |out| :: AfterParent(themes, out, j)
    requires name in ParentsOf(themes)
    ensures !OnCycle(ParentsOf(themes), name)
  {
    var ps := ParentsOf(themes);
    Links(themes);
    var n :| 0 <= n < |themes| && themes[n].name == name;
    var i := Shared(themes, out, n);
    if OnCycle(ps, name) {
      CycleNeverEnds(ps, name, i + 1);
      UpIsBefore(themes, out, i, i + 1);
    }
  }

  lemma AllPlaced(themes: seq<LocalTheme>, out: seq<LocalTheme>, done: set<string>)
    requires UniqueNames(themes) && Placed(themes, out, done) && |out| >= |themes|
    ensures Ordered(themes, out)
    ensures forall n | n in ParentsOf(themes) :: !OnCycle(ParentsOf(themes), n)
  {
    assert |multiset(themes)| == |multiset(out)| + |multiset(Undone(themes, done))|;
    assert Undone(themes, done) == [];
    forall n | n in ParentsOf(themes) ensures !OnCycle(ParentsOf(themes), n) {
      OrderMeansNoCycle(themes, out, n);
    }
  }

  /** When a round adds nothing, what is left is closed under parents, so it holds a cycle. */
  lemma LeftIsClosed(themes: seq<LocalTheme>, done: set<string>, rest: set<string>)
    requires UniqueNames(themes) && AllWait(themes, done, |themes|) && rest == ParentsOf(themes).Keys - done
    ensures forall n | n in rest :: ParentsOf(themes)[n].Some? && ParentsOf(themes)[n].value in rest
  {
    var ps := ParentsOf(themes);
    Links(themes);
    forall n | n in rest ensures ps[n].Some? && ps[n].value in rest {
      var i :| 0 <= i < |themes| && themes[i].name == n;
      assert !IsReady(themes, done, themes[i]);
      var j :| 0 <= j < |themes| && themes[j].name == ps[n].value;
    }
  }

  lemma SomeLeft(themes: seq<LocalTheme>, out: seq<LocalTheme>, done: set<string>)
    requires UniqueNames(themes) && Placed(themes, out, done) && |out| < |themes|
    ensures ParentsOf(themes).Keys - done != {}
  {
    Links(themes);
    var left := Undone(themes, done);
    UndoneMembers(themes, done);
    assert |multiset(themes)| == |multiset(out)| + |multiset(left)|;
    assert left[0] in left;
    var i :| 0 <= i < |themes| && themes[i] == left[0];
    assert left[0].name in ParentsOf(themes).Keys - done;
  }

  lemma EndsIsPlaced(themes: seq<LocalTheme>, out: seq<LocalTheme>, left: seq<LocalTheme>, rest: set<string>, i: nat)
    requires rest <= ParentsOf(themes).Keys && i < |out + left| && Ends(ParentsOf(themes), (out + left)[i].name)
    requires forall n | n in rest :: ParentsOf(themes)[n].Some? && ParentsOf(themes)[n].value in rest
    requires forall k | 0 <= k < |left| :: left[k].name in rest
    requires forall k | 0 <= k < |out| :: AfterParent(themes, out, k)
    ensures AfterParent(themes, out + left, i)
  {
    var name := (out + left)[i].name;
    var k: nat :| Up(ParentsOf(themes), name, k) == None;
    EndsOutside(ParentsOf(themes), rest, name, k);
    PrefixAfterParent(themes, out, left, i);
  }

  lemma FallBack(themes: seq<LocalTheme>, out: seq<LocalTheme>, done: set<string>)
    requires UniqueNames(themes) && Placed(themes, out, done) && |out| < |themes|
    requires AllWait(themes, done, |themes|)
    ensures Ordered(themes, out + Undone(themes, done))
    ensures exists n :: n in ParentsOf(themes) && OnCycle(ParentsOf(themes), n)
  {
    var ps := ParentsOf(themes);
    var rest := ps.Keys - done;
    LeftIsClosed(themes, done, rest);
    SomeLeft(themes, out, done);
    var cyclic := ClosedMeansCycle(ps, rest);
    var left := Undone(themes, done);
    LeftNames(themes, done);
    forall i | 0 <= i < |out + left| && Ends(ps, (out + left)[i].name) ensures AfterParent(themes, out + left, i) {
      EndsIsPlaced(themes, out, left, rest, i);
    }
    if forall i | 0 <= i < |out + left| :: AfterParent(themes, out + left, i) {
      OrderMeansNoCycle(themes, out + left, cyclic);
    }
  }

  lemma LeftNames(themes: seq<LocalTheme>, done: set<string>)
    requires UniqueNames(themes)
    ensures forall k | 0 <= k < |Undone(themes, done)| :: Undone(themes, done)[k].name in ParentsOf(themes).Keys - done
  {
    Links(themes);
    UndoneMembers(themes, done);
    var left := Undone(themes, done);
    forall k | 0 <= k < |left| ensures left[k].name in ParentsOf(themes).Keys - done {
      assert left[k] in left;
      var i :| 0 <= i < |themes| && themes[i] == left[k];
    }
  }

  lemma PrefixAfterParent(themes: seq<LocalTheme>, out: seq<LocalTheme>, left: seq<LocalTheme>, k: nat)
    requires k < |out| && AfterParent(themes, out, k)
    ensures AfterParent(themes, out + left, k)
  {
    if out[k].parent.Some? && IsLocal(themes, out[k].parent.value) {
      var j :| 0 <= j < k && out[j].name == out[k].parent.value;
      assert (out + left)[j].name == out[k].parent.value;
    }
  }
}
