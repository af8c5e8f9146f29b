/** The boot check no single model definition can make: nesting is one level deep and private, and no
    two children of a model share a URL segment. */
module ModelCheck {
  import opened Prelude
  import opened TextOrder
  import Resources

  /** The column `parent = ...` names, with the struct it references, if any. */
  datatype ParentColumn = ParentColumn(column: string, references: Option<string>)

  datatype Definition = Definition(structName: string, parent: Option<ParentColumn>, publicRead: bool, api: bool,
      segment: string)

  datatype Link = Link(owner: string, segment: string)

  datatype Problem =
    | ParentNotModel(name: string, column: string)
    | ParentNested(name: string, parent: string)
    | NestedPublic(name: string)
    | SegmentTwice(name: string, segment: string)
    | SegmentReserved(name: string)

  /** The first registered model of that name. */
  function ByStruct(models: seq<Definition>, name: string): (i: Option<nat>)
    ensures i.Some? ==> i.value < |models| && models[i.value].structName == name
    ensures i.None? ==> forall k | 0 <= k < |models| :: models[k].structName != name
  {
    if models == [] then None
    else if models[0].structName == name then Some(0)
    else
      var rest := ByStruct(models[1..], name);
      if rest.Some? then Some(rest.value + 1) else None
  }

  function ParentOf(models: seq<Definition>, m: Definition): (i: Option<nat>)
    ensures i.Some? ==> i.value < |models|
  {
    if m.parent.None? || m.parent.value.references.None? then None
    else ByStruct(models, m.parent.value.references.value)
  }

  /** The positions below `n` that `p` picks, in order. */
  function Where(n: nat, p: int -> bool): (ids: seq<nat>)
    ensures forall k: int :: k in ids <==> 0 <= k < n && p(k)
    ensures forall a, b | 0 <= a < b < |ids| :: ids[a] < ids[b]
  {
    if n == 0 then []
    else
      var before := Where(n - 1, p);
      assert forall a | 0 <= a < |before| :: before[a] in before;
      before + if p(n - 1) then [n - 1] else []
  }

  predicate IsChild(models: seq<Definition>, i: nat, k: int) {
    0 <= k < |models| && ParentOf(models, models[k]) == Some(i)
  }

  function ChildSegments(models: seq<Definition>, i: nat): seq<string> {
    var ids := Where(|models|, k => IsChild(models, i, k));
    seq(|ids|, a requires 0 <= a < |ids| => assert ids[a] in ids; models[ids[a]].segment)
  }

  predicate IsOwned(links: seq<Link>, owner: string, k: int) {
    0 <= k < |links| && links[k].owner == owner
  }

  function LinkSegments(links: seq<Link>, owner: string): seq<string> {
    var ids := Where(|links|, k => IsOwned(links, owner, k));
    seq(|ids|, a requires 0 <= a < |ids| => assert ids[a] in ids; links[ids[a]].segment)
  }

  /** The segments that share the model's `{base}/{id}/` space. */
  function Segments(models: seq<Definition>, links: seq<Link>, i: nat): seq<string>
    requires i < |models|
  {
    ChildSegments(models, i) + LinkSegments(links, models[i].structName)
  }

  /** A child is a model whose parent column references a struct, of whose models the first is this one. */
  lemma ChildExactly(models: seq<Definition>, i: nat, k: int)
    requires i < |models|
    ensures IsChild(models, i, k) <==>
            && 0 <= k < |models| && models[k].parent.Some?
            && models[k].parent.value.references == Some(models[i].structName)
            && forall n | 0 <= n < i :: models[n].structName != models[i].structName
  {
    if 0 <= k < |models| && models[k].parent.Some? && models[k].parent.value.references.Some? {
      FirstOfName(models, models[k].parent.value.references.value);
    }
  }

  lemma {:induction false} FirstOfName(models: seq<Definition>, name: string)
    ensures var found := ByStruct(models, name);
            found.Some? ==> forall n | 0 <= n < found.value :: models[n].structName != name
  {
    if models != [] {
      FirstOfName(models[1..], name);
      assert forall n | 0 < n < |models| :: models[1..][n - 1] == models[n];
    }
  }

  /** Two children, two links, or a child and a link of the model want the same segment. */
  ghost predicate Clash(models: seq<Definition>, links: seq<Link>, i: nat)
    requires i < |models|
  {
    var owner := models[i].structName;
    || (exists k, l :: k < l && IsChild(models, i, k) && IsChild(models, i, l)
                       && models[k].segment == models[l].segment)
    || (exists k, l | 0 <= k < l < |links| :: links[k].owner == owner && links[l].owner == owner
                                              && links[k].segment == links[l].segment)
    || (exists k, l | 0 <= l < |links| :: IsChild(models, i, k) && links[l].owner == owner
                                          && models[k].segment == links[l].segment)
  }

  ghost predicate Wanted(models: seq<Definition>, links: seq<Link>, i: nat, segment: string)
    requires i < |models|
  {
    || (exists k :: IsChild(models, i, k) && models[k].segment == segment)
    || (exists k | 0 <= k < |links| :: links[k].owner == models[i].structName && links[k].segment == segment)
  }

  lemma ChildAt(models: seq<Definition>, i: nat, k: int) returns (a: nat)
    requires IsChild(models, i, k)
    ensures var ids := Where(|models|, k => IsChild(models, i, k));
            a < |ids| && ids[a] == k && ChildSegments(models, i)[a] == models[k].segment
  {
    var ids := Where(|models|, k => IsChild(models, i, k));
    assert k in ids;
    a :| a < |ids| && ids[a] == k;
  }

  lemma LinkAt(links: seq<Link>, owner: string, k: int) returns (a: nat)
    requires IsOwned(links, owner, k)
    ensures var ids := Where(|links|, k => IsOwned(links, owner, k));
            a < |ids| && ids[a] == k && LinkSegments(links, owner)[a] == links[k].segment
  {
    var ids := Where(|links|, k => IsOwned(links, owner, k));
    assert k in ids;
    a :| a < |ids| && ids[a] == k;
  }

  /** A model is reported exactly when two of its children and links clash, or one wants a reserved segment. */
  lemma SegmentsExactly(models: seq<Definition>, links: seq<Link>, i: nat)
    requires i < |models|
    ensures Repeats(Segments(models, links, i)) <==> Clash(models, links, i)
    ensures forall s :: s in Segments(models, links, i) <==> Wanted(models, links, i, s)
  {
    ClashRepeats(models, links, i);
    RepeatClashes(models, links, i);
    var children, owned := ChildSegments(models, i), LinkSegments(links, models[i].structName);
    forall s ensures s in children + owned <==> Wanted(models, links, i, s) {
      if k :| IsChild(models, i, k) && models[k].segment == s { var a := ChildAt(models, i, k); }
      if k :| IsOwned(links, models[i].structName, k) && links[k].segment == s {
        var a := LinkAt(links, models[i].structName, k);
      }
      SegmentWanted(models, links, i, s);
    }
  }

  /** A model's segments pass exactly when none clash and none wants one of the three reserved names. */
  lemma WellExactly(models: seq<Definition>, links: seq<Link>, i: nat)
    requires i < |models|
    ensures SegmentsWell(Segments(models, links, i)) <==>
            && !Clash(models, links, i) && !Wanted(models, links, i, "actions")
            && !Wanted(models, links, i, "create") && !Wanted(models, links, i, "delete")
  {
    SegmentsExactly(models, links, i);
    ReservedExactly(Segments(models, links, i));
  }

  lemma ReservedExactly(segments: seq<string>)
    ensures (forall k | 0 <= k < |segments| :: !IsReserved(segments[k])) <==>
            "actions" !in segments && "create" !in segments && "delete" !in segments
  {
  }

  lemma SegmentWanted(models: seq<Definition>, links: seq<Link>, i: nat, s: string)
    requires i < |models|
    ensures s in ChildSegments(models, i) ==> exists k :: IsChild(models, i, k) && models[k].segment == s
    ensures s in LinkSegments(links, models[i].structName) ==>
              exists k :: IsOwned(links, models[i].structName, k) && links[k].segment == s
  {
    var cs := Where(|models|, k => IsChild(models, i, k));
    var ls := Where(|links|, k => IsOwned(links, models[i].structName, k));
    if s in ChildSegments(models, i) {
      var a :| 0 <= a < |cs| && ChildSegments(models, i)[a] == s;
      assert cs[a] in cs && IsChild(models, i, cs[a]);
    }
    if s in LinkSegments(links, models[i].structName) {
      var a :| 0 <= a < |ls| && LinkSegments(links, models[i].structName)[a] == s;
      assert ls[a] in ls && IsOwned(links, models[i].structName, ls[a]);
    }
  }

  lemma ClashRepeats(models: seq<Definition>, links: seq<Link>, i: nat)
    requires i < |models|
    ensures Clash(models, links, i) ==> Repeats(Segments(models, links, i))
  {
    var owner := models[i].structName;
    if k, l :| k < l && IsChild(models, i, k) && IsChild(models, i, l) && models[k].segment == models[l].segment {
      ChildrenRepeat(models, links, i, k, l);
    } else if k, l :| k < l && IsOwned(links, owner, k) && IsOwned(links, owner, l)
                      && links[k].segment == links[l].segment {
      LinksRepeat(models, links, i, k, l);
    } else if k, l :| IsChild(models, i, k) && IsOwned(links, owner, l) && models[k].segment == links[l].segment {
      var a := ChildAt(models, i, k);
      var b := LinkAt(links, owner, l);
      AcrossRepeat(ChildSegments(models, i), LinkSegments(links, owner), a, b);
    }
  }

  lemma ChildrenRepeat(models: seq<Definition>, links: seq<Link>, i: nat, k: int, l: int)
    requires i < |models| && k < l && IsChild(models, i, k) && IsChild(models, i, l)
    requires models[k].segment == models[l].segment
    ensures Repeats(Segments(models, links, i))
  {
    var a := ChildAt(models, i, k);
    var b := ChildAt(models, i, l);
    WithinRepeat([], ChildSegments(models, i), LinkSegments(links, models[i].structName), a, b);
    assert [] + ChildSegments(models, i) == ChildSegments(models, i);
  }

  lemma LinksRepeat(models: seq<Definition>, links: seq<Link>, i: nat, k: int, l: int)
    requires i < |models| && k < l
    requires IsOwned(links, models[i].structName, k) && IsOwned(links, models[i].structName, l)
    requires links[k].segment == links[l].segment
    ensures Repeats(Segments(models, links, i))
  {
    var owner := models[i].structName;
    var a := LinkAt(links, owner, k);
    var b := LinkAt(links, owner, l);
    WithinRepeat(ChildSegments(models, i), LinkSegments(links, owner), [], a, b);
    assert ChildSegments(models, i) + LinkSegments(links, owner) + [] == Segments(models, links, i);
  }

  lemma WithinRepeat(before: seq<string>, s: seq<string>, after: seq<string>, a: nat, b: nat)
    requires a != b && a < |s| && b < |s| && s[a] == s[b]
    ensures Repeats(before + s + after)
  {
    var all := before + s + after;
    assert all[|before| + a] == all[|before| + b];
  }

  lemma AcrossRepeat(s: seq<string>, t: seq<string>, a: nat, b: nat)
    requires a < |s| && b < |t| && s[a] == t[b]
    ensures Repeats(s + t)
  {
    assert (s + t)[a] == (s + t)[|s| + b];
  }

  lemma RepeatClashes(models: seq<Definition>, links: seq<Link>, i: nat)
    requires i < |models|
    ensures Repeats(Segments(models, links, i)) ==> Clash(models, links, i)
  {
    var owner := models[i].structName;
    var cs, ls := Where(|models|, k => IsChild(models, i, k)), Where(|links|, k => IsOwned(links, owner, k));
    var all := Segments(models, links, i);
    if a, b :| 0 <= a < b < |all| && all[a] == all[b] {
      if b < |cs| {
        assert cs[a] in cs && cs[b] in cs && cs[a] < cs[b];
        assert IsChild(models, i, cs[a]) && IsChild(models, i, cs[b]);
      } else if a < |cs| {
        assert cs[a] in cs && ls[b - |cs|] in ls;
        assert IsChild(models, i, cs[a]) && IsOwned(links, owner, ls[b - |cs|]);
      } else {
        assert ls[a - |cs|] in ls && ls[b - |cs|] in ls && ls[a - |cs|] < ls[b - |cs|];
        assert IsOwned(links, owner, ls[a - |cs|]) && IsOwned(links, owner, ls[b - |cs|]);
      }
    }
  }

  predicate IsReserved(segment: string) {
    segment == "actions" || segment == "create" || segment == "delete"
  }

  ghost predicate NestedWell(models: seq<Definition>, m: Definition) {
    m.parent.Some? ==>
      ParentOf(models, m).Some? && models[ParentOf(models, m).value].parent.None? && !m.publicRead && !m.api
  }

  ghost predicate SegmentsWell(segments: seq<string>) {
    !Repeats(segments) && forall k | 0 <= k < |segments| :: !IsReserved(segments[k])
  }

  ghost predicate WellAt(models: seq<Definition>, links: seq<Link>, i: nat)
    requires i < |models|
  {
    NestedWell(models, models[i]) && SegmentsWell(Segments(models, links, i))
  }

  method CheckNesting(models: seq<Definition>, m: Definition) returns (problems: seq<Problem>)
    ensures problems == [] <==> NestedWell(models, m)
    ensures forall p | p in problems :: p.name == m.structName
  {
    problems := [];
    if m.parent.Some? {
      var parent := ParentOf(models, m);
      if parent.None? {
        problems := [ParentNotModel(m.structName, m.parent.value.column)];
      } else if models[parent.value].parent.Some? {
        problems := [ParentNested(m.structName, models[parent.value].structName)];
      }
      if m.publicRead || m.api { problems := problems + [NestedPublic(m.structName)]; }
    }
  }

  /** Sorts the segments and looks for equal neighbours. */
  method CheckSegments(name: string, segments: seq<string>) returns (problems: seq<Problem>)
    ensures problems == [] <==> SegmentsWell(segments)
    ensures forall p | p in problems :: p.name == name && (p.SegmentTwice? ==> Repeats(segments))
  {
    problems := [];
    var sorted := Sort(segments);
    var twice := false;
    for k := 0 to if |sorted| == 0 then 0 else |sorted| - 1
      invariant twice <==> exists n :: n < k && Twins(sorted, n)
      invariant problems == [] <==> !twice
      invariant forall p | p in problems :: p.name == name && p.SegmentTwice?
    {
      if sorted[k] == sorted[k + 1] {
        assert Twins(sorted, k);
        twice := true;
        problems := problems + [SegmentTwice(name, sorted[k])];
      }
    }
    RepeatsAreNeighbours(sorted);
    if Repeats(sorted) { RepeatsInAnyOrder(sorted, segments); }
    if Repeats(segments) { RepeatsInAnyOrder(segments, sorted); }
    if exists k | 0 <= k < |segments| :: IsReserved(segments[k]) {
      problems := problems + [SegmentReserved(name)];
    }
  }

  /** Every model is checked and every problem is reported together. */
  method Check(models: seq<Definition>, links: seq<Link>) returns (problems: seq<Problem>)
    ensures problems == [] <==> forall i | 0 <= i < |models| :: WellAt(models, links, i)
    ensures forall i | 0 <= i < |models| && !WellAt(models, links, i) ::
              exists p :: p in problems && p.name == models[i].structName
  {
    problems := [];
    for i := 0 to |models|
      invariant Tells(models, links, i, problems)
    {
      var nesting := CheckNesting(models, models[i]);
      var segments := CheckSegments(models[i].structName, Segments(models, links, i));
      TellsMore(models, links, i, problems, nesting + segments);
      problems := problems + (nesting + segments);
    }
    forall i | 0 <= i < |models| && !WellAt(models, links, i)
      ensures exists p :: p in problems && p.name == models[i].structName
    {
      assert Blamed(problems, models[i].structName);
    }
  }

  /** What is to be reported of the first `i` definitions, and nothing when they are well. */
  ghost predicate Tells(models: seq<Definition>, links: seq<Link>, i: nat, problems: seq<Problem>)
    requires i <= |models|
  {
    && (problems == [] <==> forall k | 0 <= k < i :: WellAt(models, links, k))
    && (forall k | 0 <= k < i && !WellAt(models, links, k) :: Blamed(problems, models[k].structName))
  }

  lemma TellsMore(models: seq<Definition>, links: seq<Link>, i: nat, told: seq<Problem>, more: seq<Problem>)
    requires i < |models| && Tells(models, links, i, told)
    requires more == [] <==> WellAt(models, links, i)
    requires forall p | p in more :: p.name == models[i].structName
    ensures Tells(models, links, i + 1, told + more)
  {
    BlamedJoin(told, more, models[i].structName);
    assert |told + more| == |told| + |more|;
    forall k | 0 <= k < i && !WellAt(models, links, k) ensures Blamed(told + more, models[k].structName) {
      BlamedMore(told, more, models[k].structName);
    }
  }

  ghost predicate Blamed(problems: seq<Problem>, name: string) {
    exists p :: p in problems && p.name == name
  }

  lemma BlamedMore(a: seq<Problem>, b: seq<Problem>, name: string)
    requires Blamed(a, name)
    ensures Blamed(a + b, name)
  {
    var p :| p in a && p.name == name;
    assert p in a + b;
  }

  lemma BlamedJoin(a: seq<Problem>, b: seq<Problem>, name: string)
    requires forall p | p in b :: p.name == name
    ensures b != [] ==> Blamed(a + b, name)
  {
    if b != [] { assert b[0] in b && b[0] in a + b; }
  }

  /** `reg` holds the registered definitions. */
  ghost predicate Describes(models: seq<Definition>, reg: Resources.Registry) {
    && (forall i | 0 <= i < |models| :: models[i].structName in reg)
    && forall name | name in reg ::
      && ByStruct(models, name).Some?
      && var m := models[ByStruct(models, name).value];
         && (reg[name].parent.Some? <==> m.parent.Some?)
         && (m.parent.Some? && m.parent.value.references.Some? ==>
             reg[name].parent.value.1 == m.parent.value.references.value)
  }

  /** Checked definitions nest one level deep, which is what makes the scopes' recursion through
      parents end. */
  lemma CheckedNesting(models: seq<Definition>, links: seq<Link>, reg: Resources.Registry)
    requires Describes(models, reg) && forall i | 0 <= i < |models| :: WellAt(models, links, i)
    ensures Resources.Checked(reg)
  {
    forall name | name in reg && reg[name].parent.Some?
      ensures reg[name].parent.value.1 in reg && reg[reg[name].parent.value.1].parent.None?
    {
      var i := ByStruct(models, name).value;
      assert WellAt(models, links, i);
      var parent := ParentOf(models, models[i]).value;
      assert models[parent].structName == reg[name].parent.value.1;
      assert models[parent].structName in reg;
    }
  }
}
