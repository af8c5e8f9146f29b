/** Which reads a loop can capture, and a source-level rule that rules capture out. */
module SsrCapture {
  import opened Prelude
  import opened Tera
  import opened TeraBlocks
  import opened SsrTemplates
  import opened SsrSemantics
  import opened SsrTemplateProofs

  // ----- what a read sees from inside nested loops

  /** One entered iteration: the item and its position. */
  datatype Iteration = Iteration(item: Value, i: nat)

  /** The context after entering loops `depth`, `depth + 1`, … in turn. */
  function Nested(env: Context, depth: nat, its: seq<Iteration>): Context
    decreases |its|
  {
    if its == [] then env
    else Nested(LoopContext(env, LoopName(depth), its[0].item, its[0].i), depth + 1, its[1..])
  }

  /** Names no entered loop binds read as outside. */
  lemma {:induction false} NestedKeeps(env: Context, depth: nat, its: seq<Iteration>, name: string)
    requires name != "loop" && forall k: nat | depth <= k < depth + |its| :: name != LoopName(k)
    ensures var env' := Nested(env, depth, its);
            (name in env' <==> name in env) && (name in env ==> env'[name] == env[name])
    decreases |its|
  {
    if its != [] {
      assert name != LoopName(depth);
      NestedKeeps(LoopContext(env, LoopName(depth), its[0].item, its[0].i), depth + 1, its[1..], name);
    }
  }

  /** `loop.index0` is the innermost loop's. */
  lemma {:induction false} NestedIndex(env: Context, depth: nat, its: seq<Iteration>)
    requires its != []
    ensures EvalExpr(LOOP_INDEX, Nested(env, depth, its)) == Some(Num(its[|its| - 1].i as real))
    decreases |its|
  {
    var inner := LoopContext(env, LoopName(depth), its[0].item, its[0].i);
    if |its| == 1 {
      assert its[1..] == [];
      assert EvalExpr(Ident("loop"), inner) == Some(Obj(map["index0" := Num(its[0].i as real)]));
    } else {
      NestedIndex(inner, depth + 1, its[1..]);
    }
  }

  lemma InnerNamesDiffer(depth: nat, count: nat)
    ensures forall j: nat | depth + 1 <= j < depth + 1 + count :: LoopName(depth) != LoopName(j)
  {
    forall j: nat | depth + 1 <= j < depth + 1 + count ensures LoopName(depth) != LoopName(j) {
      LoopNamesDiffer(depth, j);
    }
  }

  lemma OutermostItem(env: Context, depth: nat, its: seq<Iteration>)
    requires its != []
    ensures EvalExpr(Ident(LoopName(depth)), Nested(env, depth, its)) == Some(its[0].item)
  {
    var inner := LoopContext(env, LoopName(depth), its[0].item, its[0].i);
    LoopNamesDiffer(depth, depth);
    InnerNamesDiffer(depth, |its| - 1);
    NestedKeeps(inner, depth + 1, its[1..], LoopName(depth));
    assert LoopName(depth) in inner && inner[LoopName(depth)] == its[0].item;
  }

  /** No inner loop captures an outer item: `itN` reads its own loop's item at any depth. */
  lemma {:induction false} ItemNeverCaptured(env: Context, depth: nat, its: seq<Iteration>, k: nat)
    requires k < |its|
    ensures EvalExpr(Ident(LoopName(depth + k)), Nested(env, depth, its)) == Some(its[k].item)
    decreases k
  {
    if k == 0 {
      OutermostItem(env, depth, its);
    } else {
      var inner := LoopContext(env, LoopName(depth), its[0].item, its[0].i);
      ItemNeverCaptured(inner, depth + 1, its[1..], k - 1);
    }
  }

  ghost predicate ShowsIndexOf(own: nat, page: Context, its: seq<Iteration>)
    requires 1 <= own <= |its|
  {
    EvalExpr(LOOP_INDEX, Nested(page, 0, its)) == Some(Num(its[own - 1].i as real))
  }

  /** An index parameter of loop `own`, read `inner` loops further in, shows the innermost loop's
      index: it reads its own index in every run exactly when no loop lies between. */
  lemma IndexCapturedExactly(own: nat, inner: nat)
    requires own >= 1
    ensures (forall page: Context, its: seq<Iteration> | |its| == own + inner :: ShowsIndexOf(own, page, its))
            <==> inner == 0
  {
    var innermost := own + inner;
    forall page: Context, its: seq<Iteration> | |its| == innermost
      ensures ShowsIndexOf(innermost, page, its)
    {
      NestedIndex(page, 0, its);
    }
    if inner > 0 {
      var page: Context := map[];
      var its := seq(own + inner, n => Iteration(Null, if n < own then 0 else 1));
      assert its[own - 1].i as real != its[own + inner - 1].i as real;
      assert ShowsIndexOf(innermost, page, its);
      assert !ShowsIndexOf(own, page, its);
    }
  }

  /** A page key, read `depth` loops deep, shows the page's value in every run exactly when no
      enclosing loop binds that name. */
  lemma PageKeyCapturedExactly(key: string, depth: nat)
    ensures (forall page: Context, its: seq<Iteration> | |its| == depth ::
               EvalExpr(Ident(key), Nested(page, 0, its)) == EvalExpr(Ident(key), page))
            <==> !LoopBinds(key, depth)
  {
    if LoopBinds(key, depth) {
      var its := seq(depth, _ => Iteration(Null, 0));
      if key == "loop" {
        NestedIndex(map[], 0, its);
      } else {
        var k: nat :| k < depth && key == LoopName(k);
        ItemNeverCaptured(map[], 0, its, k);
      }
      assert EvalExpr(Ident(key), Nested(map[], 0, its)) != EvalExpr(Ident(key), map[]);
    } else {
      forall page: Context, its: seq<Iteration> | |its| == depth
        ensures EvalExpr(Ident(key), Nested(page, 0, its)) == EvalExpr(Ident(key), page)
      {
        if its == [] {
          assert Nested(page, 0, its) == page;
        } else {
          NestedKeeps(page, 0, its, key);
        }
      }
    }
  }

  // ----- a rule about the source alone

  ghost predicate LooksLikeLoop(key: string) {
    key == "loop" || exists k: nat :: key == LoopName(k)
  }

  ghost predicate PathPlain(p: Path, steady: set<string>, fleeting: set<string>) {
    match p
    case Page(key) => !LooksLikeLoop(key)
    case Local(name) => name in steady || name in fleeting
    case Prop(base, _) => PathPlain(base, steady, fleeting)
    case Computed(base, at) => PathPlain(base, steady, fleeting) && PathPlain(at, steady, fleeting) && !Counts(at)
    case Count(base) => PathPlain(base, steady, fleeting)
  }

  predicate Fleeting(p: Path, fleeting: set<string>) {
    match p
    case Page(_) => false
    case Local(name) => name in fleeting
    case Prop(base, _) => Fleeting(base, fleeting)
    case Computed(base, at) => Fleeting(base, fleeting) || Fleeting(at, fleeting)
    case Count(base) => Fleeting(base, fleeting)
  }

  /** No page key is named like a loop variable, index parameters (and lists reached through them)
      are used only in their own loop's body, and computed keys and looped lists are not counts. */
  ghost predicate Plain(src: Src, steady: set<string>, fleeting: set<string>)
    decreases src
  {
    match src
    case Template(parts) => forall i | 0 <= i < |parts| :: Plain(parts[i], steady, fleeting)
    case Read(p) => PathPlain(p, steady, fleeting)
    case ComparePaths(_, l, r) => PathPlain(l, steady, fleeting) && PathPlain(r, steady, fleeting)
    case CompareLit(_, p, _, _) => PathPlain(p, steady, fleeting)
    case Bang(e) => Plain(e, steady, fleeting)
    case AndAnd(l, r) => Plain(l, steady, fleeting) && Plain(r, steady, fleeting)
    case OrOr(l, r) => Plain(l, steady, fleeting) && Plain(r, steady, fleeting)
    case Ternary(t, yes, no) =>
      Plain(t, steady, fleeting) && Plain(yes, steady, fleeting) && Plain(no, steady, fleeting)
    case MapOver(list, item, index, all, body) =>
      && item != index && item != all && index != all
      && PathPlain(list, steady, fleeting) && !Counts(list)
      && Plain(body, SteadyInside(src, steady, fleeting), {src.index})
    case _ => true
  }

  function SteadyInside(src: Src, steady: set<string>, fleeting: set<string>): set<string>
    requires src.MapOver?
  {
    steady - {src.item, src.index, src.all} + {src.item} + if Fleeting(src.list, fleeting) then {} else {src.all}
  }

  /** Every emitted expression in scope names only loops already entered. */
  ghost predicate NamesEnteredOnly(e: Expr, depth: nat) {
    !HasPipe(e) && forall k: nat :: k >= depth ==> !Mentions(e, LoopName(k))
  }

  ghost predicate ScopePlain(scope: Scope, steady: set<string>, fleeting: set<string>, usable: set<string>,
      depth: nat) {
    && steady + fleeting <= usable && usable <= scope.Keys
    && (forall x | x in steady + fleeting :: NamesEnteredOnly(scope[x], depth))
    && (forall x | x in steady :: !Mentions(scope[x], "loop"))
  }

  lemma {:induction false} PlainPathSafe(p: Path, scope: Scope, steady: set<string>, fleeting: set<string>,
      usable: set<string>, depth: nat)
    requires PathPlain(p, steady, fleeting) && ScopePlain(scope, steady, fleeting, usable, depth)
    ensures PathSafe(p, scope, usable, depth)
    ensures PathExpr(p, scope).Ok? ==>
              var e := PathExpr(p, scope).value;
              && (HasPipe(e) <==> Counts(p))
              && (forall k: nat :: k >= depth ==> !Mentions(e, LoopName(k)))
              && (!Fleeting(p, fleeting) ==> !Mentions(e, "loop"))
  {
    match p
    case Page(_) =>
    case Local(_) =>
    case Prop(base, _) => PlainPathSafe(base, scope, steady, fleeting, usable, depth);
    case Computed(base, at) =>
      PlainPathSafe(base, scope, steady, fleeting, usable, depth);
      PlainPathSafe(at, scope, steady, fleeting, usable, depth);
    case Count(base) => PlainPathSafe(base, scope, steady, fleeting, usable, depth);
  }

  lemma EnterPlainLoop(src: Src, scope: Scope, steady: set<string>, fleeting: set<string>, usable: set<string>,
      depth: nat, e: Expr)
    requires src.MapOver? && src.item != src.index && src.item != src.all && src.index != src.all
    requires ScopePlain(scope, steady, fleeting, usable, depth)
    requires NamesEnteredOnly(e, depth) && (!Fleeting(src.list, fleeting) ==> !Mentions(e, "loop"))
    ensures ScopePlain(LoopScope(scope, src, depth, e), SteadyInside(src, steady, fleeting), {src.index},
                       UsableInside(src, scope, usable, depth, e), depth + 1)
  {
    forall k: nat ensures LoopName(k) != "loop" && (k >= depth + 1 ==> LoopName(k) != LoopName(depth)) {
      LoopNamesDiffer(k, depth);
    }
    var scope' := LoopScope(scope, src, depth, e);
    forall x | x in SteadyInside(src, steady, fleeting) + {src.index} ensures NamesEnteredOnly(scope'[x], depth + 1) {
      if x == src.index {
        assert scope'[x] == LOOP_INDEX && !HasPipe(Ident("loop"));
      } else if x != src.item && x != src.all {
        assert scope'[x] == scope[x] && NamesEnteredOnly(scope[x], depth);
      }
    }
  }

  /** The source rule is enough: such a template captures nothing. */
  lemma {:induction false} PlainIsTransparent(src: Src, scope: Scope, steady: set<string>, fleeting: set<string>,
      usable: set<string>, depth: nat)
    requires Plain(src, steady, fleeting) && ScopePlain(scope, steady, fleeting, usable, depth)
    ensures Transparent(src, scope, usable, depth)
    decreases src
  {
    match src
    case Template(parts) =>
      forall i | 0 <= i < |parts| ensures Transparent(parts[i], scope, usable, depth) {
        PlainIsTransparent(parts[i], scope, steady, fleeting, usable, depth);
      }
    case Read(p) => PlainPathSafe(p, scope, steady, fleeting, usable, depth);
    case ComparePaths(_, l, r) =>
      PlainPathSafe(l, scope, steady, fleeting, usable, depth);
      PlainPathSafe(r, scope, steady, fleeting, usable, depth);
    case CompareLit(_, p, _, _) => PlainPathSafe(p, scope, steady, fleeting, usable, depth);
    case Bang(e) => PlainIsTransparent(e, scope, steady, fleeting, usable, depth);
    case AndAnd(l, r) =>
      PlainIsTransparent(l, scope, steady, fleeting, usable, depth);
      PlainIsTransparent(r, scope, steady, fleeting, usable, depth);
    case OrOr(l, r) =>
      PlainIsTransparent(l, scope, steady, fleeting, usable, depth);
      PlainIsTransparent(r, scope, steady, fleeting, usable, depth);
    case Ternary(t, yes, no) =>
      PlainIsTransparent(t, scope, steady, fleeting, usable, depth);
      PlainIsTransparent(yes, scope, steady, fleeting, usable, depth);
      PlainIsTransparent(no, scope, steady, fleeting, usable, depth);
    case MapOver(list, _, _, _, body) =>
      PlainPathSafe(list, scope, steady, fleeting, usable, depth);
      if PathExpr(list, scope).Ok? {
        var e := PathExpr(list, scope).value;
        EnterPlainLoop(src, scope, steady, fleeting, usable, depth, e);
        PlainIsTransparent(body, LoopScope(scope, src, depth, e), SteadyInside(src, steady, fleeting), {src.index},
                           UsableInside(src, scope, usable, depth, e), depth + 1);
      }
    case _ =>
  }

  /** Every plain page that compiles renders, for every context, what its source comes to on the server. */
  lemma PlainPageRendered(src: Src, page: Context)
    requires Plain(src, {}, {}) && CompilePage(src).Ok?
    ensures Run(CompilePage(src).value, page) == Content(src, Data(page, map[]))
  {
    PlainIsTransparent(src, map[], {}, {}, {}, 0);
    PageRendered(src, page);
  }
}
