/** The template compiler preserves what the server decides: rendering the emitted Tera text gives what
    direct evaluation with Tera's truth gives, as long as no name is captured on the way. Markers carry the
    leaf invariant, chunks close their own blocks, and loops keep context and data in agreement; from these
    follow conditions, values, choices, loops and whole pages. */
module SsrTemplateProofs {
  import opened Prelude
  import opened Decimals
  import opened Tera
  import opened TeraBlocks
  import opened SsrConditions
  import opened SsrConditionProofs
  import opened SsrTemplates
  import opened SsrSemantics

  // ----- names that loops bind

  /** `depth` enclosing loops bind `it0` … and Tera's `loop`. */
  ghost predicate LoopBinds(key: string, depth: nat) {
    depth > 0 && (key == "loop" || exists k: nat :: k < depth && key == LoopName(k))
  }

  predicate Mentions(e: Expr, name: string) {
    match e
    case Ident(n) => n == name
    case Field(base, _) => Mentions(base, name)
    case Index(base, at) => Mentions(base, name) || Mentions(at, name)
    case Length(base) => Mentions(base, name)
  }

  /** Would entering one more loop change what `e` reads? */
  predicate Rebound(e: Expr, depth: nat) {
    Mentions(e, "loop") || Mentions(e, LoopName(depth))
  }

  // ----- templates without capture

  ghost predicate PathSafe(p: Path, scope: Scope, usable: set<string>, depth: nat) {
    match p
    case Page(key) => !LoopBinds(key, depth)
    case Local(name) => name in usable
    case Prop(base, _) => PathSafe(base, scope, usable, depth)
    case Computed(base, at) =>
      && PathSafe(base, scope, usable, depth)
      && PathSafe(at, scope, usable, depth)
      && (PathExpr(at, scope).Ok? ==> !HasPipe(PathExpr(at, scope).value))
    case Count(base) => PathSafe(base, scope, usable, depth)
  }

  /** The parameters that still read the same inside a loop at this depth. */
  function UsableInside(src: Src, scope: Scope, usable: set<string>, depth: nat, list: Expr): set<string>
    requires src.MapOver?
  {
    (set x | x in usable && x in scope && !Rebound(scope[x], depth))
    - {src.item, src.index, src.all}
    + {src.item, src.index}
    + if Rebound(list, depth) then {} else {src.all}
  }

  /** Checkable while compiling: every read is made where its name still means what it was bound
      to, and no computed key is itself filtered. */
  ghost predicate Transparent(src: Src, scope: Scope, usable: set<string>, depth: nat)
    decreases src
  {
    match src
    case Template(parts) => forall i | 0 <= i < |parts| :: Transparent(parts[i], scope, usable, depth)
    case Read(p) => PathSafe(p, scope, usable, depth)
    case ComparePaths(_, l, r) => PathSafe(l, scope, usable, depth) && PathSafe(r, scope, usable, depth)
    case CompareLit(_, p, _, _) => PathSafe(p, scope, usable, depth)
    case Bang(e) => Transparent(e, scope, usable, depth)
    case AndAnd(l, r) => Transparent(l, scope, usable, depth) && Transparent(r, scope, usable, depth)
    case OrOr(l, r) => Transparent(l, scope, usable, depth) && Transparent(r, scope, usable, depth)
    case Ternary(t, yes, no) =>
      && Transparent(t, scope, usable, depth)
      && Transparent(yes, scope, usable, depth)
      && Transparent(no, scope, usable, depth)
    case MapOver(list, item, index, all, body) =>
      && item != index && item != all && index != all
      && PathSafe(list, scope, usable, depth)
      && (PathExpr(list, scope).Ok? ==>
            var e := PathExpr(list, scope).value;
            Transparent(body, LoopScope(scope, src, depth, e), UsableInside(src, scope, usable, depth, e), depth + 1))
    case _ => true
  }

  // ----- contexts

  /** The render context agrees with the data on every name that may be read. */
  ghost predicate Related(scope: Scope, usable: set<string>, depth: nat, d: Data, env: Context) {
    && usable <= scope.Keys && usable <= d.locals.Keys
    && (forall x | x in usable :: EvalExpr(scope[x], env) == Some(d.locals[x]))
    && (forall key :: !LoopBinds(key, depth) ==>
          (key in env <==> key in d.page) && (key in env ==> env[key] == d.page[key]))
  }

  lemma {:induction e} OnlyMentionedMatter(e: Expr, a: Context, b: Context)
    requires forall name :: Mentions(e, name) ==> (name in a <==> name in b) && (name in a ==> a[name] == b[name])
    ensures EvalExpr(e, a) == EvalExpr(e, b)
  {
  }

  lemma LoopNamesDiffer(j: nat, k: nat)
    ensures LoopName(j) != "loop"
    ensures LoopName(j) == LoopName(k) ==> j == k
  {
    assert LoopName(j)[0] == 'i' && "loop"[0] == 'l';
    if LoopName(j) == LoopName(k) {
      assert LoopName(j)[2..] == Numeral(j) && LoopName(k)[2..] == Numeral(k);
      NumeralInjective(j, k);
    }
  }

  lemma LoopContextKeeps(e: Expr, env: Context, depth: nat, item: Value, i: nat)
    requires !Rebound(e, depth)
    ensures EvalExpr(e, LoopContext(env, LoopName(depth), item, i)) == EvalExpr(e, env)
  {
    OnlyMentionedMatter(e, LoopContext(env, LoopName(depth), item, i), env);
  }

  lemma EnterLoopLocal(src: Src, scope: Scope, usable: set<string>, depth: nat, list: Expr, d: Data, env: Context,
                       item: Value, i: nat, listValue: Value, x: string)
    requires src.MapOver? && src.item != src.index && src.item != src.all && src.index != src.all
    requires x in usable && x in scope && x in d.locals ==> EvalExpr(scope[x], env) == Some(d.locals[x])
    requires usable <= scope.Keys && usable <= d.locals.Keys
    requires EvalExpr(list, env) == Some(listValue)
    requires x in UsableInside(src, scope, usable, depth, list)
    ensures var scope' := LoopScope(scope, src, depth, list);
            var d' := LocalsIn(d, src, item, i, listValue);
            x in scope' && x in d'.locals
            && EvalExpr(scope'[x], LoopContext(env, LoopName(depth), item, i)) == Some(d'.locals[x])
  {
    var scope' := LoopScope(scope, src, depth, list);
    var d' := LocalsIn(d, src, item, i, listValue);
    assert (x in scope' && x in d'.locals);
    LoopVariables(env, depth, item, i);
    if x == src.all {
      assert scope'[x] == list && d'.locals[x] == listValue;
      LoopContextKeeps(list, env, depth, item, i);
    } else if x == src.index {
      assert scope'[x] == LOOP_INDEX && d'.locals[x] == Num(i as real);
    } else if x == src.item {
      assert scope'[x] == Ident(LoopName(depth)) && d'.locals[x] == item;
    } else {
      assert scope'[x] == scope[x] && d'.locals[x] == d.locals[x];
      LoopContextKeeps(scope[x], env, depth, item, i);
    }
  }

  lemma LoopVariables(env: Context, depth: nat, item: Value, i: nat)
    ensures var env' := LoopContext(env, LoopName(depth), item, i);
            EvalExpr(Ident(LoopName(depth)), env') == Some(item) && EvalExpr(LOOP_INDEX, env') == Some(Num(i as real))
  {
    LoopNamesDiffer(depth, depth);
    var env' := LoopContext(env, LoopName(depth), item, i);
    assert EvalExpr(Ident("loop"), env') == Some(Obj(map["index0" := Num(i as real)]));
  }

  lemma LoopBindsMore(key: string, depth: nat)
    requires LoopBinds(key, depth) || key == "loop" || key == LoopName(depth)
    ensures LoopBinds(key, depth + 1)
  {
    if key == LoopName(depth) {
      assert depth < depth + 1;
    } else if key != "loop" {
      var k: nat :| k < depth && key == LoopName(k);
      assert k < depth + 1;
    }
  }

  /** One iteration's context agrees with one iteration's data: the new loop variable shadows no
      name that is still usable. */
  lemma EnterLoop(src: Src, scope: Scope, usable: set<string>, depth: nat, list: Expr, d: Data, env: Context,
                  item: Value, i: nat, listValue: Value)
    requires src.MapOver? && src.item != src.index && src.item != src.all && src.index != src.all
    requires Related(scope, usable, depth, d, env)
    requires EvalExpr(list, env) == Some(listValue)
    ensures Related(LoopScope(scope, src, depth, list), UsableInside(src, scope, usable, depth, list), depth + 1,
                    LocalsIn(d, src, item, i, listValue), LoopContext(env, LoopName(depth), item, i))
  {
    var scope' := LoopScope(scope, src, depth, list);
    var usable' := UsableInside(src, scope, usable, depth, list);
    var d' := LocalsIn(d, src, item, i, listValue);
    var env' := LoopContext(env, LoopName(depth), item, i);
    forall x | x in usable'
      ensures x in scope' && x in d'.locals && EvalExpr(scope'[x], env') == Some(d'.locals[x])
    {
      EnterLoopLocal(src, scope, usable, depth, list, d, env, item, i, listValue, x);
    }
    forall key | !LoopBinds(key, depth + 1)
      ensures (key in env' <==> key in d'.page) && (key in env' ==> env'[key] == d'.page[key])
    {
      EnterLoopPage(env, depth, item, i, d, key);
    }
  }

  lemma EnterLoopPage(env: Context, depth: nat, item: Value, i: nat, d: Data, key: string)
    requires !LoopBinds(key, depth + 1)
    requires !LoopBinds(key, depth) ==> (key in env <==> key in d.page) && (key in env ==> env[key] == d.page[key])
    ensures var env' := LoopContext(env, LoopName(depth), item, i);
            (key in env' <==> key in d.page) && (key in env' ==> env'[key] == d.page[key])
  {
    if LoopBinds(key, depth) || key == "loop" || key == LoopName(depth) {
      LoopBindsMore(key, depth);
    }
  }

  /** A safe path reads the same value on the server as it does directly. */
  lemma {:induction false} PathAgrees(p: Path, scope: Scope, usable: set<string>, depth: nat, d: Data, env: Context)
    requires PathSafe(p, scope, usable, depth) && PathExpr(p, scope).Ok?
    requires Related(scope, usable, depth, d, env)
    ensures EvalExpr(PathExpr(p, scope).value, env) == ReadPath(p, d)
    ensures Counts(p) ==> HasPipe(PathExpr(p, scope).value)
    ensures HasPipe(PathExpr(p, scope).value) && !Counts(p) ==> ReadPath(p, d).Some?
  {
    match p
    case Page(_) =>
    case Local(_) =>
    case Prop(base, _) => PathAgrees(base, scope, usable, depth, d, env);
    case Computed(base, at) =>
      PathAgrees(base, scope, usable, depth, d, env);
      PathAgrees(at, scope, usable, depth, d, env);
    case Count(base) => PathAgrees(base, scope, usable, depth, d, env);
  }

  // ----- the shape of markers

  ghost predicate Shaped(v: Built) {
    match v
    case MarkupV(toks) => Balanced(toks)
    case CondV(node) => NegationAtLeaves(node)
    case LogicV(_, left, right) => Shaped(left) && Shaped(right)
    case TernaryV(cond, yes, no) => NegationAtLeaves(cond) && Shaped(yes) && Shaped(no)
    case BlockV(open, body, close) => open.ForTok? && close.EndFor? && Shaped(body)
    case _ => true
  }

  /** The helpers only ever build trees with negation at the leaves. */
  lemma {:induction false} CondNodeShaped(v: Built)
    requires Shaped(v) && CondNodeOf(v).Ok?
    ensures NegationAtLeaves(CondNodeOf(v).value)
  {
    if v.LogicV? {
      CondNodeShaped(v.left);
      CondNodeShaped(v.right);
    }
  }

  lemma {:induction false} ChunkBalanced(v: Built)
    requires Shaped(v) && Chunk(v).Ok?
    ensures Balanced(Chunk(v).value)
  {
    match v
    case PlainV(c) => RunLeaf(Const(c), map[]);
    case MarkupV(_) =>
    case ValueV(e) => RunLeaf(Print(e), map[]);
    case LogicV(op, left, right) =>
      ChunkBalanced(right);
      var cond := CondExprOf(left).value;
      var body := Chunk(right).value;
      if op.AndJ? {
        RunIfOnly(cond, body, map[]);
      } else {
        RunLeaf(Print(left.e), map[]);
        RunIf(cond, [Print(left.e)], body, map[]);
      }
    case TernaryV(cond, yes, no) =>
      ChunkBalanced(yes);
      ChunkBalanced(no);
      RunIf(RenderCond(cond).value, Chunk(yes).value, Chunk(no).value, map[]);
    case BlockV(open, body, _) =>
      ChunkBalanced(body);
      RunFor(open.name, open.list, Chunk(body).value, map[]);
  }

  /** Markers are exactly what needs server data; anything else has its truth known at build time. */
  lemma {:induction false} CompileShaped(src: Src, scope: Scope, depth: nat)
    requires Compile(src, scope, depth).Ok?
    ensures var v := Compile(src, scope, depth).value;
            && Shaped(v)
            && StaticTruth(src) == if IsMarker(v) then None else Some(JsTruthy(v))
    decreases src
  {
    match src
    case Raw(html) => RunLeaf(Text(html), map[]);
    case Template(parts) => PartsBalanced(parts, scope, depth);
    case Bang(e) =>
      CompileShaped(e, scope, depth);
      var v := Compile(e, scope, depth).value;
      if IsMarker(v) {
        CondNodeShaped(v);
        NegateKeepsLeaves(CondNodeOf(v).value);
      }
    case AndAnd(l, r) =>
      CompileShaped(l, scope, depth);
      if Compile(r, scope, depth).Ok? { CompileShaped(r, scope, depth); }
    case OrOr(l, r) =>
      CompileShaped(l, scope, depth);
      if Compile(r, scope, depth).Ok? { CompileShaped(r, scope, depth); }
    case Ternary(t, yes, no) =>
      CompileShaped(t, scope, depth);
      if Compile(yes, scope, depth).Ok? { CompileShaped(yes, scope, depth); }
      if Compile(no, scope, depth).Ok? { CompileShaped(no, scope, depth); }
      if IsMarker(Compile(t, scope, depth).value) { CondNodeShaped(Compile(t, scope, depth).value); }
    case MapOver(list, _, _, _, body) =>
      CompileShaped(body, LoopScope(scope, src, depth, PathExpr(list, scope).value), depth + 1);
    case _ =>
  }

  lemma {:induction false} PartsBalanced(parts: seq<Src>, scope: Scope, depth: nat)
    requires CompileParts(parts, scope, depth).Ok?
    ensures Balanced(CompileParts(parts, scope, depth).value)
    decreases parts
  {
    if parts == [] {
      EmptyBalanced(map[]);
    } else {
      CompileShaped(parts[0], scope, depth);
      var v := Compile(parts[0], scope, depth).value;
      ChunkBalanced(v);
      PartsBalanced(parts[1..], scope, depth);
      var a, b := Chunk(v).value, CompileParts(parts[1..], scope, depth).value;
      RunConcat(a, b, map[]);
      assert a + b + [] == a + b;
    }
  }

  // ----- conditions

  lemma {:induction false} StaticTruthAgrees(src: Src, scope: Scope, usable: set<string>, depth: nat, d: Data)
    requires Transparent(src, scope, usable, depth) && StaticTruth(src).Some?
    ensures TruthOfSrc(src, d) == TruthOf(StaticTruth(src).value)
    decreases src
  {
    match src
    case Bang(e) => StaticTruthAgrees(e, scope, usable, depth, d);
    case AndAnd(l, r) =>
      StaticTruthAgrees(l, scope, usable, depth, d);
      if StaticTruth(r).Some? { StaticTruthAgrees(r, scope, usable, depth, d); }
    case OrOr(l, r) =>
      StaticTruthAgrees(l, scope, usable, depth, d);
      if StaticTruth(r).Some? { StaticTruthAgrees(r, scope, usable, depth, d); }
    case Ternary(t, yes, no) =>
      StaticTruthAgrees(t, scope, usable, depth, d);
      if StaticTruth(yes).Some? { StaticTruthAgrees(yes, scope, usable, depth, d); }
      if StaticTruth(no).Some? { StaticTruthAgrees(no, scope, usable, depth, d); }
    case _ =>
  }

  /** The condition tree built for an expression has the expression's truth value, in every
      context: De Morgan, flattening and operator inversion included. */
  lemma {:induction false} TruthAgrees(src: Src, scope: Scope, usable: set<string>, depth: nat, d: Data, env: Context)
    requires Transparent(src, scope, usable, depth) && Related(scope, usable, depth, d, env)
    requires Compile(src, scope, depth).Ok? && CondNodeOf(Compile(src, scope, depth).value).Ok?
    ensures EvalNode(CondNodeOf(Compile(src, scope, depth).value).value, env) == TruthOfSrc(src, d)
    decreases src
  {
    CompileShaped(src, scope, depth);
    match src
    case Read(p) => PathAgrees(p, scope, usable, depth, d, env);
    case ComparePaths(_, l, r) =>
      PathAgrees(l, scope, usable, depth, d, env);
      PathAgrees(r, scope, usable, depth, d, env);
    case CompareLit(_, p, _, _) => PathAgrees(p, scope, usable, depth, d, env);
    case Bang(e) =>
      TruthAgrees(e, scope, usable, depth, d, env);
      NegateMeaning(CondNodeOf(Compile(e, scope, depth).value).value, env);
    case AndAnd(l, r) => LogicAgrees(src, scope, usable, depth, d, env);
    case OrOr(l, r) => LogicAgrees(src, scope, usable, depth, d, env);
    case Ternary(t, yes, no) => ChosenAgrees(src, scope, usable, depth, d, env);
    case _ =>
  }

  lemma {:induction false} ChosenAgrees(src: Src, scope: Scope, usable: set<string>, depth: nat, d: Data, env: Context)
    requires src.Ternary?
    requires Transparent(src, scope, usable, depth) && Related(scope, usable, depth, d, env)
    requires Compile(src, scope, depth).Ok? && CondNodeOf(Compile(src, scope, depth).value).Ok?
    ensures EvalNode(CondNodeOf(Compile(src, scope, depth).value).value, env) == TruthOfSrc(src, d)
    decreases src, 0
  {
    CompileShaped(src.t, scope, depth);
    StaticTruthAgrees(src.t, scope, usable, depth, d);
    TruthAgrees(if StaticTruth(src.t).value then src.yes else src.no, scope, usable, depth, d, env);
  }

  lemma {:induction false} LogicAgrees(src: Src, scope: Scope, usable: set<string>, depth: nat, d: Data, env: Context)
    requires src.AndAnd? || src.OrOr?
    requires Transparent(src, scope, usable, depth) && Related(scope, usable, depth, d, env)
    requires Compile(src, scope, depth).Ok? && CondNodeOf(Compile(src, scope, depth).value).Ok?
    ensures EvalNode(CondNodeOf(Compile(src, scope, depth).value).value, env) == TruthOfSrc(src, d)
    decreases src, 0
  {
    var l, r := src.l, src.r;
    CompileShaped(l, scope, depth);
    var a := Compile(l, scope, depth).value;
    TruthAgrees(r, scope, usable, depth, d, env);
    if IsMarker(a) {
      TruthAgrees(l, scope, usable, depth, d, env);
      PairMeaning(CondNodeOf(a).value, CondNodeOf(Compile(r, scope, depth).value).value, env);
    } else {
      StaticTruthAgrees(l, scope, usable, depth, d);
    }
  }

  lemma PairMeaning(m: CondNode, n: CondNode, env: Context)
    ensures EvalEvery([m, n], env) == if EvalNode(m, env) == Yes then EvalNode(n, env) else EvalNode(m, env)
    ensures EvalSome([m, n], env) == if EvalNode(m, env) == No then EvalNode(n, env) else EvalNode(m, env)
  {
    assert [m, n][1..] == [n] && [n][1..] == [];
    assert EvalEvery([], env) == Yes && EvalSome([], env) == No;
    assert EvalEvery([n], env) == EvalNode(n, env) && EvalSome([n], env) == EvalNode(n, env);
  }

  /** The text inside `{% if %}` decides as the source condition does. */
  lemma ConditionAgrees(src: Src, scope: Scope, usable: set<string>, depth: nat, d: Data, env: Context)
    requires Transparent(src, scope, usable, depth) && Related(scope, usable, depth, d, env)
    requires Compile(src, scope, depth).Ok? && CondExprOf(Compile(src, scope, depth).value).Ok?
    ensures EvalCondition(CondExprOf(Compile(src, scope, depth).value).value, env) == TruthOfSrc(src, d)
  {
    TruthAgrees(src, scope, usable, depth, d, env);
    CompileShaped(src, scope, depth);
    var v := Compile(src, scope, depth).value;
    CondNodeShaped(v);
    RenderCondMeaning(CondNodeOf(v).value, env);
  }

  // ----- content

  /** Rendering the emitted Tera text gives what direct evaluation gives. */
  lemma {:induction false} ContentAgrees(src: Src, scope: Scope, usable: set<string>, depth: nat, d: Data, env: Context)
    requires Transparent(src, scope, usable, depth) && Related(scope, usable, depth, d, env)
    requires Compile(src, scope, depth).Ok? && Chunk(Compile(src, scope, depth).value).Ok?
    ensures Run(Chunk(Compile(src, scope, depth).value).value, env) == Content(src, d)
    decreases src, 1
  {
    CompileShaped(src, scope, depth);
    var v := Compile(src, scope, depth).value;
    match src
    case Lit(c) => RunLeaf(Const(c), env);
    case Raw(html) => RunLeaf(Text(html), env);
    case Template(parts) => PartsAgree(parts, scope, usable, depth, d, env);
    case Read(p) =>
      PathAgrees(p, scope, usable, depth, d, env);
      RunLeaf(Print(v.e), env);
    case Bang(e) =>
      StaticTruthAgrees(src, scope, usable, depth, d);
      RunLeaf(Const(v.c), env);
    case CompareLit(_, _, _, _) => RunLeaf(Const(v.c), env);
    case AndAnd(l, r) => LogicContentAgrees(src, scope, usable, depth, d, env);
    case OrOr(l, r) => LogicContentAgrees(src, scope, usable, depth, d, env);
    case Ternary(t, yes, no) => TernaryContentAgrees(src, scope, usable, depth, d, env);
    case MapOver(list, _, _, _, body) =>
      PathAgrees(list, scope, usable, depth, d, env);
      var e := PathExpr(list, scope).value;
      var ts := Chunk(v.body).value;
      CompileShaped(body, LoopScope(scope, src, depth, e), depth + 1);
      ChunkBalanced(v.body);
      RunFor(LoopName(depth), e, ts, env);
      var list' := ReadPath(list, d);
      if ItemsOf(list').Some? {
        ItemsContentAgree(src, scope, usable, depth, d, env, list'.value, ItemsOf(list').value, 0, e, v.body);
      }
    case _ =>
  }

  lemma {:induction false} LogicContentAgrees(src: Src, scope: Scope, usable: set<string>, depth: nat, d: Data,
      env: Context)
    requires src.AndAnd? || src.OrOr?
    requires Transparent(src, scope, usable, depth) && Related(scope, usable, depth, d, env)
    requires Compile(src, scope, depth).Ok? && Chunk(Compile(src, scope, depth).value).Ok?
    ensures Run(Chunk(Compile(src, scope, depth).value).value, env) == Content(src, d)
    decreases src, 0
  {
    var l, r := src.l, src.r;
    CompileShaped(l, scope, depth);
    var a := Compile(l, scope, depth).value;
    if !IsMarker(a) {
      if JsTruthy(a) == src.AndAnd? {
        ContentAgrees(r, scope, usable, depth, d, env);
      } else {
        ContentAgrees(l, scope, usable, depth, d, env);
      }
    } else {
      CompileShaped(r, scope, depth);
      var b := Compile(r, scope, depth).value;
      ChunkBalanced(b);
      ContentAgrees(r, scope, usable, depth, d, env);
      ConditionAgrees(l, scope, usable, depth, d, env);
      var cond, body := CondExprOf(a).value, Chunk(b).value;
      if src.AndAnd? {
        RunIfOnly(cond, body, env);
      } else {
        ContentAgrees(l, scope, usable, depth, d, env);
        RunLeaf(Print(a.e), env);
        RunIf(cond, [Print(a.e)], body, env);
      }
    }
  }

  lemma {:induction false} TernaryContentAgrees(src: Src, scope: Scope, usable: set<string>, depth: nat, d: Data,
      env: Context)
    requires src.Ternary?
    requires Transparent(src, scope, usable, depth) && Related(scope, usable, depth, d, env)
    requires Compile(src, scope, depth).Ok? && Chunk(Compile(src, scope, depth).value).Ok?
    ensures Run(Chunk(Compile(src, scope, depth).value).value, env) == Content(src, d)
    decreases src, 0
  {
    var t, yes, no := src.t, src.yes, src.no;
    CompileShaped(t, scope, depth);
    var v := Compile(t, scope, depth).value;
    if !IsMarker(v) {
      StaticTruthAgrees(t, scope, usable, depth, d);
      if JsTruthy(v) {
        ContentAgrees(yes, scope, usable, depth, d, env);
      } else {
        ContentAgrees(no, scope, usable, depth, d, env);
      }
    } else {
      CompileShaped(yes, scope, depth);
      CompileShaped(no, scope, depth);
      var a, b := Compile(yes, scope, depth).value, Compile(no, scope, depth).value;
      ChunkBalanced(a);
      ChunkBalanced(b);
      ContentAgrees(yes, scope, usable, depth, d, env);
      ContentAgrees(no, scope, usable, depth, d, env);
      ConditionAgrees(t, scope, usable, depth, d, env);
      RunIf(CondExprOf(v).value, Chunk(a).value, Chunk(b).value, env);
    }
  }

  lemma {:induction false} PartsAgree(parts: seq<Src>, scope: Scope, usable: set<string>, depth: nat, d: Data,
      env: Context)
    requires forall i | 0 <= i < |parts| :: Transparent(parts[i], scope, usable, depth)
    requires Related(scope, usable, depth, d, env)
    requires CompileParts(parts, scope, depth).Ok?
    ensures Run(CompileParts(parts, scope, depth).value, env) == ContentOfAll(parts, d)
    decreases parts, 0
  {
    if parts == [] {
      EmptyBalanced(env);
    } else {
      ContentAgrees(parts[0], scope, usable, depth, d, env);
      PartsAgree(parts[1..], scope, usable, depth, d, env);
      CompileShaped(parts[0], scope, depth);
      var v := Compile(parts[0], scope, depth).value;
      ChunkBalanced(v);
      PartsBalanced(parts[1..], scope, depth);
      var a, b := Chunk(v).value, CompileParts(parts[1..], scope, depth).value;
      RunConcat(a, b, env);
      assert a + b + [] == a + b;
    }
  }

  lemma {:induction false} ItemsContentAgree(src: Src, scope: Scope, usable: set<string>, depth: nat, d: Data,
      env: Context, list: Value, items: seq<Value>, i: nat, e: Expr, body: Built)
    requires src.MapOver? && src.item != src.index && src.item != src.all && src.index != src.all && i <= |items|
    requires Related(scope, usable, depth, d, env) && EvalExpr(e, env) == Some(list)
    requires Transparent(src.body, LoopScope(scope, src, depth, e), UsableInside(src, scope, usable, depth, e),
             depth + 1)
    requires Compile(src.body, LoopScope(scope, src, depth, e), depth + 1) == Ok(body) && Chunk(body).Ok?
    ensures RunItems(LoopName(depth), items, i, Chunk(body).value, env) == ContentOfItems(src, list, items, i, d)
    decreases src, 0, |items| - i
  {
    if i < |items| {
      EnterLoop(src, scope, usable, depth, e, d, env, items[i], i, list);
      ContentAgrees(src.body, LoopScope(scope, src, depth, e), UsableInside(src, scope, usable, depth, e), depth + 1,
                    LocalsIn(d, src, items[i], i, list), LoopContext(env, LoopName(depth), items[i], i));
      ItemsContentAgree(src, scope, usable, depth, d, env, list, items, i + 1, e, body);
    }
  }

  /** A compiled page renders, for every context, what its source comes to on the server. */
  lemma PageRendered(src: Src, page: Context)
    requires Transparent(src, map[], {}, 0) && CompilePage(src).Ok?
    ensures Run(CompilePage(src).value, page) == Content(src, Data(page, map[]))
  {
    ContentAgrees(src, map[], {}, 0, Data(page, map[]), page);
  }
}
