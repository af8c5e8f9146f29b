/** Theme resolution: the active theme and its chain of parents, the templates the chain provides,
    and the repair of a template set with missing parents. */
module Themes {
  import opened Prelude
  import opened Ancestry

  /** `templates` is the theme's `(template name, source)` list in path order. */
  datatype Theme = Theme(name: string, parent: Option<string>, unbuilt: Option<string>,
      templates: seq<(string, string)>)

  datatype ThemeError =
    | NoThemes
    | Duplicate(name: string)
    | UnknownActive(name: string)
    | AmbiguousActive(names: seq<string>)
    | MissingParent(child: string, parent: string)
    | Cycle(names: seq<string>)
    | Unbuilt(name: string, location: string)

  ghost predicate UniqueNames(themes: seq<Theme>) {
    forall i, j | 0 <= i < j < |themes| :: themes[i].name != themes[j].name
  }

  function Names(themes: seq<Theme>): (names: seq<string>)
    ensures |names| == |themes| && forall i | 0 <= i < |themes| :: names[i] == themes[i].name
  {
    seq(|themes|, i requires 0 <= i < |themes| => themes[i].name)
  }

  function Find(themes: seq<Theme>, name: string): (t: Option<Theme>)
    ensures t.Some? ==> t.value in themes && t.value.name == name
    ensures t.None? ==> forall i | 0 <= i < |themes| :: themes[i].name != name
  {
    if themes == [] then None
    else if themes[0].name == name then Some(themes[0])
    else Find(themes[1..], name)
  }

  function ParentsOf(themes: seq<Theme>): Parents {
    map n | n in Names(themes) :: Find(themes, n).value.parent
  }

  // ----- the active theme

  predicate IsLeaf(themes: seq<Theme>, name: string) {
    !exists i | 0 <= i < |themes| :: themes[i].parent == Some(name)
  }

  function LeafNames(themes: seq<Theme>, order: seq<string>): (leaves: seq<string>)
    ensures forall n :: n in leaves <==> n in order && IsLeaf(themes, n)
  {
    if order == [] then []
    else (if IsLeaf(themes, order[0]) then [order[0]] else []) + LeafNames(themes, order[1..])
  }

  predicate Installed(themes: seq<Theme>, name: string) {
    exists i | 0 <= i < |themes| :: themes[i].name == name
  }

  /** The theme to activate: the configured one, which must be installed; or, when none is configured, the one
      installed theme that no installed theme names as its parent. */
  ghost predicate Chosen(themes: seq<Theme>, active: Option<string>, name: string) {
    && Installed(themes, name)
    && (active.Some? ==> name == active.value)
    && (active.None? ==>
          !NamedParent(themes, name) && forall other | Installed(themes, other) && !NamedParent(themes, other) ::
                                          other == name)
  }

  predicate NamedParent(themes: seq<Theme>, name: string) {
    exists t | t in themes :: t.parent == Some(name)
  }

  lemma LeafExactly(themes: seq<Theme>, name: string)
    ensures IsLeaf(themes, name) <==> !NamedParent(themes, name)
  {
    if t :| t in themes && t.parent == Some(name) {
      var i :| 0 <= i < |themes| && themes[i] == t;
    }
  }

  lemma ChosenIsOne(themes: seq<Theme>, active: Option<string>, a: string, b: string)
    requires Chosen(themes, active, a) && Chosen(themes, active, b)
    ensures a == b
  {
  }

  lemma NamesInstalled(themes: seq<Theme>, name: string)
    ensures name in Names(themes) <==> Installed(themes, name)
  {
    if i :| 0 <= i < |themes| && themes[i].name == name { assert Names(themes)[i] == name; }
  }

  // ----- what a stack is

  /** A chain of installed, built themes from `start` along parent links to a root. */
  ghost predicate IsStack(themes: seq<Theme>, start: string, chain: seq<Theme>) {
    && chain != [] && chain[0].name == start
    && (forall i | 0 <= i < |chain| :: chain[i] in themes && chain[i].unbuilt.None?)
    && (forall i, j | 0 <= i < j < |chain| && j == i + 1 :: chain[i].parent == Some(chain[j].name))
    && chain[|chain| - 1].parent.None?
  }

  lemma InParents(themes: seq<Theme>, t: Theme)
    requires UniqueNames(themes) && t in themes
    ensures t.name in ParentsOf(themes) && ParentsOf(themes)[t.name] == t.parent
  {
    var i :| 0 <= i < |themes| && themes[i] == t;
    assert Names(themes)[i] == t.name;
    SameName(themes, t, Find(themes, t.name).value);
  }

  lemma SameName(themes: seq<Theme>, t: Theme, u: Theme)
    requires UniqueNames(themes) && t in themes && u in themes && t.name == u.name
    ensures t == u
  {
    var i :| 0 <= i < |themes| && themes[i] == t;
    var j :| 0 <= j < |themes| && themes[j] == u;
  }

  /** A stack is the walk up from its start, and the walk ends with it. */
  lemma {:induction false} StackIsWalk(themes: seq<Theme>, start: string, chain: seq<Theme>, k: nat)
    requires UniqueNames(themes) && IsStack(themes, start, chain) && k <= |chain|
    ensures Up(ParentsOf(themes), start, k) == if k < |chain| then Some(chain[k].name) else None
  {
    var ps := ParentsOf(themes);
    if k == 0 {
      InParents(themes, chain[0]);
    } else {
      StackIsWalk(themes, start, chain, k - 1);
      InParents(themes, chain[k - 1]);
      UpCompose(ps, start, k - 1, 1);
      if k < |chain| { InParents(themes, chain[k]); }
    }
  }

  /** There is at most one stack from a start, and it repeats no theme. */
  lemma StackUnique(themes: seq<Theme>, start: string, a: seq<Theme>, b: seq<Theme>)
    requires UniqueNames(themes) && IsStack(themes, start, a) && IsStack(themes, start, b)
    ensures a == b
    ensures forall i, j | 0 <= i < j < |a| :: a[i].name != a[j].name
  {
    StackIsWalk(themes, start, a, |a|);
    StackIsWalk(themes, start, b, |b|);
    if |a| < |b| {
      StackIsWalk(themes, start, b, |a|);
    } else if |b| < |a| {
      StackIsWalk(themes, start, a, |b|);
    }
    forall i | 0 <= i < |a| ensures a[i] == b[i] {
      StackIsWalk(themes, start, a, i);
      StackIsWalk(themes, start, b, i);
      SameName(themes, a[i], b[i]);
    }
    forall i, j | 0 <= i < j < |a| ensures a[i].name != a[j].name { StackDistinct(themes, start, a, i, j); }
  }

  lemma MeetsAgain(ps: Parents, start: string, name: string, i: nat, j: nat)
    requires Up(ps, start, i) == Some(name) == Up(ps, start, j) && i < j
    ensures OnCycle(ps, name)
  {
    UpCompose(ps, start, i, j - i);
  }

  lemma StackDistinct(themes: seq<Theme>, start: string, a: seq<Theme>, i: nat, j: nat)
    requires UniqueNames(themes) && IsStack(themes, start, a) && i < j < |a|
    ensures a[i].name != a[j].name
  {
    StackIsWalk(themes, start, a, i);
    StackIsWalk(themes, start, a, j);
    NoCycleInStack(themes, start, a, i);
    if a[i].name == a[j].name { MeetsAgain(ParentsOf(themes), start, a[i].name, i, j); }
  }

  lemma NoCycleInStack(themes: seq<Theme>, start: string, chain: seq<Theme>, k: nat)
    requires UniqueNames(themes) && IsStack(themes, start, chain) && k < |chain|
    ensures !OnCycle(ParentsOf(themes), chain[k].name)
  {
    StackIsWalk(themes, start, chain, k);
    StackIsWalk(themes, start, chain, |chain|);
    EndsOffCycle(ParentsOf(themes), start, chain[k].name, k, |chain|);
  }

  lemma EndsOffCycle(ps: Parents, start: string, name: string, k: nat, n: nat)
    requires Up(ps, start, k) == Some(name) && Up(ps, start, n).None? && k <= n
    ensures !OnCycle(ps, name)
  {
    UpCompose(ps, start, k, n - k);
    if OnCycle(ps, name) { CycleNeverEnds(ps, name, n - k); }
  }

  // ----- what an error means

  ghost predicate OnWalk(ps: Parents, start: string, name: string) {
    exists k: nat :: Up(ps, start, k) == Some(name)
  }

  /** What stops the walk up from `start`. */
  ghost predicate Stuck(themes: seq<Theme>, ps: Parents, start: string, e: ThemeError) {
    match e
    case Cycle(names) => names != [] && OnWalk(ps, start, names[|names| - 1]) && OnCycle(ps, names[|names| - 1])
    case MissingParent(child, parent) => OnWalk(ps, start, child) && child in ps && ps[child] == Some(parent)
        && parent !in ps
    case Unbuilt(name, location) =>
      OnWalk(ps, start, name) && exists t :: t in themes && t.name == name && t.unbuilt == Some(location)
    case _ => false
  }

  /** The facts an error reports. */
  ghost predicate Justified(themes: seq<Theme>, active: Option<string>, e: ThemeError) {
    match e
    case NoThemes => themes == []
    case Duplicate(name) => exists i, j | 0 <= i < j < |themes| :: themes[i].name == name == themes[j].name
    case UnknownActive(name) => active == Some(name) && name !in Names(themes)
    case AmbiguousActive(names) => active.None? && |names| >= 2 && names == LeafNames(themes, Names(themes))
    case _ =>
      if exists start :: Chosen(themes, active, start)
      then exists start :: Chosen(themes, active, start) && Stuck(themes, ParentsOf(themes), start, e)
      else e.Cycle? && forall t | t in themes :: OnCycle(ParentsOf(themes), t.name)
  }

  /** A justified error rules every stack out. */
  lemma ErrorMeansNoStack(themes: seq<Theme>, active: Option<string>, e: ThemeError, start: string, chain: seq<Theme>)
    requires UniqueNames(themes) && Justified(themes, active, e) && Chosen(themes, active, start)
    ensures !IsStack(themes, start, chain)
  {
    if IsStack(themes, start, chain) {
      if e.Cycle? || e.MissingParent? || e.Unbuilt? {
        var chosen :| Chosen(themes, active, chosen) && Stuck(themes, ParentsOf(themes), chosen, e);
        ChosenIsOne(themes, active, chosen, start);
        StuckMeansNoStack(themes, start, e, chain);
      } else {
        NamesInstalled(themes, start);
        OneLeaf(themes, active, start);
      }
    }
  }

  /** Where a theme is chosen by elimination there is one leaf. */
  lemma OneLeaf(themes: seq<Theme>, active: Option<string>, name: string)
    requires UniqueNames(themes) && Chosen(themes, active, name) && active.None?
    ensures |LeafNames(themes, Names(themes))| == 1
  {
    assert Once(Names(themes));
    LeavesOnce(themes, Names(themes));
    forall other ensures IsLeaf(themes, other) <==> !NamedParent(themes, other) { LeafExactly(themes, other); }
    NamesInstalled(themes, name);
    var leaves := LeafNames(themes, Names(themes));
    assert name in leaves;
    forall i | 0 <= i < |leaves| ensures leaves[i] == name {
      assert leaves[i] in leaves;
      NamesInstalled(themes, leaves[i]);
    }
    FirstTwo(leaves);
  }

  lemma FirstTwo(names: seq<string>)
    requires Once(names)
    ensures |names| > 1 ==> names[0] != names[1]
  {
  }

  ghost predicate Once(names: seq<string>) {
    forall i, j | 0 <= i < j < |names| :: names[i] != names[j]
  }

  lemma {:induction false} LeavesOnce(themes: seq<Theme>, order: seq<string>)
    requires Once(order)
    ensures Once(LeafNames(themes, order))
  {
    if order != [] {
      assert forall i | 0 <= i < |order| - 1 :: order[1..][i] == order[i + 1];
      LeavesOnce(themes, order[1..]);
      var rest := LeafNames(themes, order[1..]);
      assert order[0] !in order[1..] && order[0] !in rest;
      OnceMore(order[0], rest);
      assert [] + rest == rest;
    }
  }

  lemma OnceMore(name: string, rest: seq<string>)
    requires Once(rest) && name !in rest
    ensures Once([name] + rest)
  {
  }

  /** With one leaf it is the chosen theme, with another number of leaves none is. */
  lemma ChosenByLeaves(themes: seq<Theme>, name: string)
    requires UniqueNames(themes)
    ensures Chosen(themes, None, name) <==> LeafNames(themes, Names(themes)) == [name]
  {
    var leaves := LeafNames(themes, Names(themes));
    forall other ensures IsLeaf(themes, other) <==> !NamedParent(themes, other) { LeafExactly(themes, other); }
    if Chosen(themes, None, name) {
      OneLeaf(themes, None, name);
      NamesInstalled(themes, name);
      assert name in leaves;
    }
    if leaves == [name] {
      assert name in leaves;
      NamesInstalled(themes, name);
      forall other | Installed(themes, other) && IsLeaf(themes, other) ensures other == name {
        NamesInstalled(themes, other);
        assert other in leaves;
      }
    }
  }

  lemma StuckMeansNoStack(themes: seq<Theme>, start: string, e: ThemeError, chain: seq<Theme>)
    requires UniqueNames(themes) && Stuck(themes, ParentsOf(themes), start, e)
    ensures !IsStack(themes, start, chain)
  {
    var ps := ParentsOf(themes);
    if IsStack(themes, start, chain) {
      var name := match e
        case Cycle(names) => names[|names| - 1]
        case MissingParent(child, _) => child
        case Unbuilt(n, _) => n;
      var k: nat :| Up(ps, start, k) == Some(name);
      StackIsWalk(themes, start, chain, |chain|);
      if k >= |chain| { UpPrefix(ps, start, |chain|, k); }
      StackIsWalk(themes, start, chain, k);
      match e
      case Cycle(_) => NoCycleInStack(themes, start, chain, k);
      case MissingParent(_, parent) =>
        InParents(themes, chain[k]);
        if k + 1 < |chain| { InParents(themes, chain[k + 1]); }
      case Unbuilt(_, _) =>
    }
  }

  /** When no theme is a leaf, every installed theme lies on an inheritance cycle. */
  lemma NoLeafAllOnCycles(themes: seq<Theme>, t: Theme)
    requires UniqueNames(themes) && LeafNames(themes, Names(themes)) == [] && t in themes
    ensures OnCycle(ParentsOf(themes), t.name)
  {
    var ps := ParentsOf(themes);
    forall n | n in ps ensures HasChild(ps, n) {
      assert !IsLeaf(themes, n);
      var j :| 0 <= j < |themes| && themes[j].parent == Some(n);
      InParents(themes, themes[j]);
    }
    InParents(themes, t);
    NoLeafMeansCycles(ps, t.name);
  }

  // ----- resolve

  /** The installed themes by name, refusing a second theme of the same name. */
  method ByName(installed: seq<Theme>) returns (r: Result<map<string, Theme>, ThemeError>)
    ensures r.Ok? <==> UniqueNames(installed)
    ensures r.Ok? ==> r.value.Keys == ParentsOf(installed).Keys
                      && forall n | n in r.value :: r.value[n].name == n && r.value[n] in installed
    ensures r.Err? ==> Justified(installed, None, r.error) && r.error.Duplicate?
  {
    var byName: map<string, Theme> := map[];
    for i := 0 to |installed|
      invariant forall n :: n in byName <==> exists k :: 0 <= k < i && installed[k].name == n
      invariant forall n | n in byName :: byName[n].name == n && byName[n] in installed
      invariant forall k, l | 0 <= k < l < i :: installed[k].name != installed[l].name
    {
      var theme := installed[i];
      if theme.name in byName {
        assert Names(installed)[i] == theme.name;
        return Err(Duplicate(theme.name));
      }
      byName := byName[theme.name := theme];
      assert installed[i].name in byName;
    }
    forall n ensures n in byName <==> n in Names(installed) {
      if n in Names(installed) {
        var k :| 0 <= k < |installed| && Names(installed)[k] == n;
        assert installed[k].name == n;
      }
      if n in byName {
        var k :| 0 <= k < |installed| && installed[k].name == n;
        assert Names(installed)[k] == n;
      }
    }
    r := Ok(byName);
  }

  /** The theme to activate, as configured or by elimination. */
  method PickActive(installed: seq<Theme>, active: Option<string>) returns (r: Result<string, ThemeError>)
    requires UniqueNames(installed)
    ensures r.Ok? ==> Chosen(installed, active, r.value) && r.value in Names(installed)
    ensures r.Err? ==> Justified(installed, active, r.error) && forall name :: !Chosen(installed, active, name)
  {
    if active.Some? {
      NamesInstalled(installed, active.value);
      if active.value !in Names(installed) { return Err(UnknownActive(active.value)); }
      return Ok(active.value);
    }
    forall name ensures Chosen(installed, None, name) <==> LeafNames(installed, Names(installed)) == [name] {
      ChosenByLeaves(installed, name);
    }
    var leaves := LeafNames(installed, Names(installed));
    if leaves == [] {
      forall t | t in installed ensures OnCycle(ParentsOf(installed), t.name) {
        NoLeafAllOnCycles(installed, t);
      }
      return Err(Cycle(Names(installed)));
    }
    if |leaves| > 1 { return Err(AmbiguousActive(leaves)); }
    assert leaves == [leaves[0]] && leaves[0] in leaves;
    r := Ok(leaves[0]);
  }

  /** Picks the active theme and follows its parents. It succeeds exactly when names are unique, one
      active theme is determined, and that theme heads a stack; every error reports a fact that
      rules a stack out. */
  method Resolve(installed: seq<Theme>, active: Option<string>) returns (r: Result<seq<Theme>, ThemeError>)
    ensures r.Ok? <==> installed != [] && UniqueNames(installed) && exists name, chain ::
                         Chosen(installed, active, name) && IsStack(installed, name, chain)
    ensures r.Ok? ==> r.value != [] && Chosen(installed, active, r.value[0].name)
                      && IsStack(installed, r.value[0].name, r.value)
    ensures r.Err? ==> Justified(installed, active, r.error)
  {
    if installed == [] { return Err(NoThemes); }
    var byName := ByName(installed);
    if byName.Err? { return Err(byName.error); }
    var start := PickActive(installed, active);
    if start.Err? { return Err(start.error); }
    ParentsLink(installed);
    r := Climb(installed, ParentsOf(installed), start.value, byName.value);
    if r.Err? {
      forall name, chain | Chosen(installed, active, name) ensures !IsStack(installed, name, chain) {
        ErrorMeansNoStack(installed, active, r.error, name, chain);
      }
    }
  }

  ghost predicate Links(installed: seq<Theme>, ps: Parents) {
    forall t | t in installed :: t.name in ps && ps[t.name] == t.parent
  }

  lemma ParentsLink(installed: seq<Theme>)
    requires UniqueNames(installed)
    ensures Links(installed, ParentsOf(installed))
  {
    forall t | t in installed ensures t.name in ParentsOf(installed) && ParentsOf(installed)[t.name] == t.parent {
      InParents(installed, t);
    }
  }

  /** A walk in progress: `chain` so far, going on at `next`. */
  ghost predicate Walked(installed: seq<Theme>, ps: Parents, start: string, chain: seq<Theme>, next: Option<string>) {
    && (forall i | 0 <= i < |chain| :: chain[i] in installed && chain[i].unbuilt.None?)
    && (forall i, j | 0 <= i < j < |chain| && j == i + 1 :: chain[i].parent == Some(chain[j].name))
    && (forall i | 0 <= i < |chain| :: Up(ps, start, i) == Some(chain[i].name))
    && (if chain == [] then next == Some(start) else chain[0].name == start && next == chain[|chain| - 1].parent)
  }

  lemma WalkStep(installed: seq<Theme>, ps: Parents, start: string, chain: seq<Theme>, name: string)
    requires Links(installed, ps) && Walked(installed, ps, start, chain, Some(name))
    ensures name in ps ==> Up(ps, start, |chain|) == Some(name)
    ensures chain != [] ==> var last := chain[|chain| - 1].name; last in ps && ps[last] == Some(name)
  {
    if chain != [] {
      UpCompose(ps, start, |chain| - 1, 1);
    }
  }

  lemma WalkOn(installed: seq<Theme>, ps: Parents, start: string, chain: seq<Theme>, theme: Theme)
    requires Links(installed, ps) && Walked(installed, ps, start, chain, Some(theme.name))
    requires theme in installed && theme.unbuilt.None?
    ensures Walked(installed, ps, start, chain + [theme], theme.parent)
  {
    WalkStep(installed, ps, start, chain, theme.name);
  }

  ghost predicate SeenOf(chain: seq<Theme>, seen: seq<string>) {
    |seen| == |chain| && forall i | 0 <= i < |chain| :: seen[i] == chain[i].name
  }

  lemma SeenTwice(installed: seq<Theme>, ps: Parents, start: string, chain: seq<Theme>, seen: seq<string>, name: string)
    requires Links(installed, ps) && Walked(installed, ps, start, chain, Some(name)) && SeenOf(chain, seen)
             && name in seen
    ensures Stuck(installed, ps, start, Cycle(seen + [name]))
  {
    var i :| 0 <= i < |seen| && seen[i] == name;
    WalkStep(installed, ps, start, chain, name);
    UpCompose(ps, start, i, |chain| - i);
    assert Up(ps, name, |chain| - i) == Some(name);
    assert Up(ps, start, i) == Some(name);
  }

  lemma UnbuiltIsStuck(installed: seq<Theme>, ps: Parents, start: string, chain: seq<Theme>, theme: Theme)
    requires Links(installed, ps) && Walked(installed, ps, start, chain, Some(theme.name))
    requires theme in installed && theme.unbuilt.Some?
    ensures Stuck(installed, ps, start, Unbuilt(theme.name, theme.unbuilt.value))
  {
    WalkStep(installed, ps, start, chain, theme.name);
    assert Up(ps, start, |chain|) == Some(theme.name);
  }

  lemma WalkEnds(installed: seq<Theme>, ps: Parents, start: string, chain: seq<Theme>)
    requires Walked(installed, ps, start, chain, None)
    ensures IsStack(installed, start, chain)
  {
  }

  lemma MissingIsStuck(installed: seq<Theme>, ps: Parents, start: string, chain: seq<Theme>, name: string)
    requires Links(installed, ps) && Walked(installed, ps, start, chain, Some(name)) && name !in ps && start in ps
    ensures chain != [] && Stuck(installed, ps, start, MissingParent(chain[|chain| - 1].name, name))
  {
    WalkStep(installed, ps, start, chain, name);
  }

  /** The themes the walk has not taken yet. */
  ghost predicate Left(themes: map<string, Theme>, seen: seq<string>, byName: map<string, Theme>) {
    && (forall n :: n in byName <==> n in themes && n !in seen)
    && (forall n | n in byName :: byName[n] == themes[n])
  }

  lemma TakeOne(themes: map<string, Theme>, seen: seq<string>, byName: map<string, Theme>, name: string)
    requires Left(themes, seen, byName) && name in byName
    ensures Left(themes, seen + [name], byName - {name}) && |byName - {name}| < |byName|
  {
    assert byName.Keys == (byName - {name}).Keys + {name};
  }

  /** What stops the walk at `name`: seen before, not installed, or not built. */
  method Stop(ghost installed: seq<Theme>, ghost ps: Parents, ghost start: string, ghost themes: map<string, Theme>,
              ghost chain: seq<Theme>, seen: seq<string>, byName: map<string, Theme>, name: string)
    returns (e: Option<ThemeError>)
    requires Links(installed, ps) && themes.Keys == ps.Keys && start in ps
    requires forall n | n in themes :: themes[n].name == n && themes[n] in installed
    requires SeenOf(chain, seen) && Walked(installed, ps, start, chain, Some(name)) && Left(themes, seen, byName)
    ensures e.Some? ==> Stuck(installed, ps, start, e.value)
    ensures e.None? ==>
              name in byName && byName[name].name == name && byName[name] in installed && byName[name].unbuilt.None?
  {
    if name in seen {
      SeenTwice(installed, ps, start, chain, seen, name);
      return Some(Cycle(seen + [name]));
    }
    if name !in byName {
      MissingIsStuck(installed, ps, start, chain, name);
      return Some(MissingParent(if seen == [] then "" else seen[|seen| - 1], name));
    }
    if byName[name].unbuilt.Some? {
      UnbuiltIsStuck(installed, ps, start, chain, byName[name]);
      return Some(Unbuilt(name, byName[name].unbuilt.value));
    }
    e := None;
  }

  lemma Advance(installed: seq<Theme>, ps: Parents, start: string, themes: map<string, Theme>,
                chain: seq<Theme>, seen: seq<string>, byName: map<string, Theme>, theme: Theme)
    requires Links(installed, ps) && SeenOf(chain, seen) && Left(themes, seen, byName) && theme.name in byName
    requires Walked(installed, ps, start, chain, Some(theme.name)) && theme in installed && theme.unbuilt.None?
    ensures SeenOf(chain + [theme], seen + [theme.name]) && Walked(installed, ps, start, chain + [theme], theme.parent)
    ensures Left(themes, seen + [theme.name], byName - {theme.name}) && |byName - {theme.name}| < |byName|
  {
    WalkOn(installed, ps, start, chain, theme);
    TakeOne(themes, seen, byName, theme.name);
  }

  /** The walk: each theme is taken out of the map, so a second visit is seen as a cycle and the
      map's size bounds the walk. */
  method Climb(ghost installed: seq<Theme>, ghost ps: Parents, start: string, themes: map<string, Theme>)
    returns (r: Result<seq<Theme>, ThemeError>)
    requires Links(installed, ps) && themes.Keys == ps.Keys && start in ps
    requires forall n | n in themes :: themes[n].name == n && themes[n] in installed
    ensures r.Ok? ==> IsStack(installed, start, r.value)
    ensures r.Err? ==> Stuck(installed, ps, start, r.error)
  {
    var byName := themes;
    var chain: seq<Theme> := [];
    var seen: seq<string> := [];
    var next := Some(start);
    while next.Some?
      invariant SeenOf(chain, seen) && Walked(installed, ps, start, chain, next)
      invariant Left(themes, seen, byName)
      decreases |byName|
    {
      var name := next.value;
      var stop := Stop(installed, ps, start, themes, chain, seen, byName, name);
      if stop.Some? { return Err(stop.value); }
      var theme := byName[name];
      Advance(installed, ps, start, themes, chain, seen, byName, theme);
      byName := byName - {name};
      next := theme.parent;
      seen := seen + [name];
      chain := chain + [theme];
    }
    WalkEnds(installed, ps, start, chain);
    r := Ok(chain);
  }
}
