/** Which pages build. For every expression, whether it compiles, decides a condition and can be printed,
    in terms of the source alone: the names and literals that can be written in a template, the reads that
    are paths, where callbacks may stand and where an `or` may not. The build fails on every other page. */
module SsrErrors {
  import opened Prelude
  import opened Decimals
  import opened Tera
  import opened SsrConditions
  import opened SsrTemplates
  import opened SsrSemantics
  import opened SsrConditionProofs
  import opened SsrTemplateProofs

  // ----- names and literals

  const UPPER := "ABCDEFGHIJKLMNOPQRSTUVWXYZ"
  const LOWER := "abcdefghijklmnopqrstuvwxyz"

  predicate IsLetter(c: char) {
    c in UPPER || c in LOWER || c == '_'
  }

  /** A letter or `_` followed by letters, digits and `_`, or digits only; and no name the proxies answer
      themselves. */
  predicate NameOk(key: string) {
    && key != [] && (forall c | c in key :: IsLetter(c) || c in DIGITS)
    && (key[0] in DIGITS ==> forall c | c in key :: c in DIGITS)
    && key != "map" && key != "length" && key != "then" && key != "getReader"
    && key != "toJSON" && key != "toString" && key != "valueOf"
  }

  lemma UpperExactly(c: char)
    ensures c in UPPER <==> 'A' <= c <= 'Z'
  {
    if 'A' <= c <= 'Z' { assert UPPER[c as int - 'A' as int] == c; }
  }

  lemma LowercaseExactly(c: char)
    ensures c in LOWER <==> 'a' <= c <= 'z'
  {
    if 'a' <= c <= 'z' { assert LOWER[c as int - 'a' as int] == c; }
  }

  lemma LettersExactly(c: char)
    ensures IsIdentStart(c) <==> IsLetter(c)
  {
    UpperExactly(c);
    LowercaseExactly(c);
  }

  lemma NamesExactly(key: string)
    ensures IsPropertyName(key) <==> NameOk(key)
  {
    forall c ensures IsIdentStart(c) <==> IsLetter(c) { LettersExactly(c); }
    if key != [] { assert key[0] in key; }
    forall c ensures !(IsLetter(c) && c in DIGITS) { DigitRange(c); }
  }

  lemma DigitRange(c: char)
    ensures c in DIGITS <==> '0' <= c <= '9'
  {
    if '0' <= c <= '9' { assert DIGITS[c as int - '0' as int] == c; }
  }

  /** A text can be quoted unless it holds a quote, a backslash or a line break; null can never be an operand. */
  lemma LiteralExactly(c: Scalar)
    ensures TeraLiteral(c).Ok? <==>
            !c.SNull? && (c.SStr? ==> '\'' !in c.s && '\\' !in c.s && '\n' !in c.s && '\r' !in c.s)
    ensures TeraLiteral(c).Ok? ==> TeraLiteral(c).value == Literal(c)
  {
    if c.SStr? { assert forall i | 0 <= i < |c.s| :: c.s[i] in c.s; }
  }

  // ----- paths

  /** Does the read stand for a filtered expression? `piped` says which parameters do. */
  predicate Piped(p: Path, piped: map<string, bool>) {
    match p
    case Page(_) => false
    case Local(name) => name in piped && piped[name]
    case Prop(base, _) => Piped(base, piped)
    case Computed(base, at) => Piped(base, piped) || Piped(at, piped)
    case Count(_) => true
  }

  /** Usable names, parameters in scope, and nothing read from a filtered expression but a count. */
  predicate PathOk(p: Path, piped: map<string, bool>) {
    match p
    case Page(key) => NameOk(key)
    case Local(name) => name in piped
    case Prop(base, key) => PathOk(base, piped) && !Piped(base, piped) && NameOk(key)
    case Computed(base, at) => PathOk(base, piped) && !Piped(base, piped) && PathOk(at, piped)
    case Count(base) => PathOk(base, piped)
  }

  ghost predicate SameNames(scope: Scope, piped: map<string, bool>) {
    scope.Keys == piped.Keys && forall x | x in scope :: HasPipe(scope[x]) == piped[x]
  }

  lemma {:induction false} PathExactly(p: Path, scope: Scope, piped: map<string, bool>)
    requires SameNames(scope, piped)
    ensures PathExpr(p, scope).Ok? <==> PathOk(p, piped)
    ensures PathExpr(p, scope).Ok? ==> (HasPipe(PathExpr(p, scope).value) <==> Piped(p, piped))
  {
    match p
    case Page(key) => NamesExactly(key);
    case Local(_) =>
    case Prop(base, key) =>
      PathExactly(base, scope, piped);
      NamesExactly(key);
    case Computed(base, at) =>
      PathExactly(base, scope, piped);
      PathExactly(at, scope, piped);
    case Count(base) => PathExactly(base, scope, piped);
  }

  // ----- expressions

  /** Can it decide a condition on the server? */
  predicate Decides(src: Src) {
    match src
    case Read(_) => true
    case ComparePaths(_, _, _) => true
    case CompareLit(_, _, c, _) => !c.SNull?
    case Bang(e) => StaticTruth(e).None?
    case AndAnd(l, r) =>
      (match StaticTruth(l) case Some(b) => b && Decides(r) case None => Decides(l) && Decides(r))
    case OrOr(l, r) =>
      (match StaticTruth(l) case Some(b) => !b && Decides(r) case None => Decides(l) && Decides(r))
    case Ternary(t, yes, no) =>
      (match StaticTruth(t) case Some(b) => if b then Decides(yes) else Decides(no) case None => false)
    case _ => false
  }

  /** As a condition, or its negation, it has no `or`. */
  predicate NoOr(src: Src, negated: bool) {
    match src
    case Bang(e) => NoOr(e, !negated)
    case AndAnd(l, r) => NoOr(r, negated) && (StaticTruth(l).None? ==> !negated && NoOr(l, negated))
    case OrOr(l, r) => NoOr(r, negated) && (StaticTruth(l).None? ==> negated && NoOr(l, negated))
    case Ternary(t, yes, no) => if StaticTruth(t) == Some(true) then NoOr(yes, negated) else NoOr(no, negated)
    case _ => true
  }

  /** As a condition, or its negation, it has no `or` below an `and`, for which Tera has no grouping. */
  predicate Groups(src: Src, negated: bool) {
    match src
    case Bang(e) => Groups(e, !negated)
    case AndAnd(l, r) =>
      if StaticTruth(l).Some? then Groups(r, negated)
      else if negated then Groups(l, negated) && Groups(r, negated) else NoOr(l, negated) && NoOr(r, negated)
    case OrOr(l, r) =>
      if StaticTruth(l).Some? then Groups(r, negated)
      else if negated then NoOr(l, negated) && NoOr(r, negated) else Groups(l, negated) && Groups(r, negated)
    case Ternary(t, yes, no) => if StaticTruth(t) == Some(true) then Groups(yes, negated) else Groups(no, negated)
    case _ => true
  }

  /** It comes to a value read on the server. */
  predicate IsValue(src: Src) {
    match src
    case Read(_) => true
    case AndAnd(l, r) => StaticTruth(l) == Some(true) && IsValue(r)
    case OrOr(l, r) => StaticTruth(l) == Some(false) && IsValue(r)
    case Ternary(t, yes, no) =>
      (match StaticTruth(t) case Some(b) => if b then IsValue(yes) else IsValue(no) case None => false)
    case _ => false
  }

  /** Can it be printed? Not a bare comparison or negation on the server; what stands before `||` must be a value. */
  predicate Prints(src: Src) {
    match src
    case ComparePaths(_, _, _) => false
    case CompareLit(_, _, c, _) => c.SNull?
    case Bang(e) => StaticTruth(e).Some?
    case AndAnd(l, r) =>
      (match StaticTruth(l)
       case Some(b) => if b then Prints(r) else Prints(l)
       case None => Decides(l) && Groups(l, false) && Prints(r))
    case OrOr(l, r) =>
      (match StaticTruth(l)
       case Some(b) => if b then Prints(l) else Prints(r)
       case None => IsValue(l) && Prints(r))
    case Ternary(t, yes, no) =>
      (match StaticTruth(t)
       case Some(b) => if b then Prints(yes) else Prints(no)
       case None => Groups(t, false) && Prints(yes) && Prints(no))
    case MapOver(_, _, _, _, body) => Prints(body)
    case _ => true
  }

  function PipedInside(src: Src, piped: map<string, bool>): map<string, bool>
    requires src.MapOver?
  {
    piped[src.item := false][src.index := false][src.all := Piped(src.list, piped)]
  }

  /** Does the build get through it? */
  predicate Compiles(src: Src, piped: map<string, bool>)
    decreases src
  {
    match src
    case Template(parts) => forall i | 0 <= i < |parts| :: Compiles(parts[i], piped) && Prints(parts[i])
    case Read(p) => PathOk(p, piped)
    case ComparePaths(_, l, r) => PathOk(l, piped) && PathOk(r, piped)
    case CompareLit(_, p, c, _) =>
      PathOk(p, piped) && (c.SStr? ==> '\'' !in c.s && '\\' !in c.s && '\n' !in c.s && '\r' !in c.s)
    case Bang(e) => Compiles(e, piped) && (StaticTruth(e).None? ==> Decides(e))
    case AndAnd(l, r) => Compiles(l, piped) && (StaticTruth(l) == Some(false) || Compiles(r, piped))
    case OrOr(l, r) => Compiles(l, piped) && (StaticTruth(l) == Some(true) || Compiles(r, piped))
    case Ternary(t, yes, no) =>
      Compiles(t, piped) &&
      (match StaticTruth(t)
       case Some(b) => if b then Compiles(yes, piped) else Compiles(no, piped)
       case None => Decides(t) && Compiles(yes, piped) && Compiles(no, piped))
    case MapOver(list, _, _, _, body) => PathOk(list, piped) && Compiles(body, PipedInside(src, piped))
    case _ => true
  }

  // ----- and they are exact

  ghost predicate Classified(src: Src, v: Built) {
    && (CondNodeOf(v).Ok? <==> Decides(src))
    && (v.ValueV? <==> IsValue(src))
    && (Chunk(v).Ok? <==> Prints(src))
    && (CondNodeOf(v).Ok? ==> Grouped(src, CondNodeOf(v).value))
  }

  lemma NegatedPair(m: CondNode, n: CondNode)
    ensures NegateAll([m, n]) == [Negate(m), Negate(n)]
  {
    assert [m, n][0] == m && [m, n][1..] == [n] && [n][0] == n && [n][1..] == [];
    assert NegateAll([]) == [];
    assert NegateAll([n]) == [Negate(n)] + NegateAll([]);
    assert NegateAll([m, n]) == [Negate(m)] + NegateAll([n]);
  }

  lemma PairForms(m: CondNode, n: CondNode)
    ensures OrFree(And([m, n])) <==> OrFree(m) && OrFree(n)
    ensures Expressible(And([m, n])) <==> OrFree(m) && OrFree(n)
    ensures Expressible(Or([m, n])) <==> Expressible(m) && Expressible(n)
  {
    assert forall i | 0 <= i < 2 :: [m, n][i] == (if i == 0 then m else n);
    assert [m, n][0] == m && [m, n][1] == n;
  }

  /** What a junction of two server conditions comes to. */
  lemma LogicClassified(op: Junction, l: Src, r: Src, a: Built, b: Built)
    requires StaticTruth(l).None? && Classified(l, a) && Classified(r, b) && Shaped(a)
    ensures Classified(if op.AndJ? then AndAnd(l, r) else OrOr(l, r), LogicV(op, a, b))
  {
    LogicPrints(op, l, r, a, b);
    if CondNodeOf(a).Ok? && CondNodeOf(b).Ok? {
      LogicGroups(op, l, r, a, b);
    }
  }

  lemma ChunkLogic(op: Junction, a: Built, b: Built)
    ensures Chunk(LogicV(op, a, b)).Ok? <==>
            CondExprOf(a).Ok? && Chunk(b).Ok? && (op.OrJ? ==> a.ValueV?)
    ensures a.ValueV? ==> CondExprOf(a).Ok?
  {
  }

  lemma ChunkTernary(n: CondNode, a: Built, b: Built)
    ensures Chunk(TernaryV(n, a, b)).Ok? <==> RenderCond(n).Ok? && Chunk(a).Ok? && Chunk(b).Ok?
  {
  }

  lemma ConditionRenders(src: Src, v: Built)
    requires Classified(src, v) && Shaped(v)
    ensures CondExprOf(v).Ok? <==> Decides(src) && Groups(src, false)
  {
    if CondNodeOf(v).Ok? {
      CondNodeShaped(v);
      RenderCondSucceeds(CondNodeOf(v).value);
    }
  }

  lemma LogicPrints(op: Junction, l: Src, r: Src, a: Built, b: Built)
    requires StaticTruth(l).None? && Classified(l, a) && Classified(r, b) && Shaped(a)
    ensures var src := if op.AndJ? then AndAnd(l, r) else OrOr(l, r);
            Chunk(LogicV(op, a, b)).Ok? <==> Prints(src)
  {
    ConditionRenders(l, a);
    ChunkLogic(op, a, b);
  }

  ghost predicate Grouped(src: Src, n: CondNode) {
    && (OrFree(n) <==> NoOr(src, false)) && (OrFree(Negate(n)) <==> NoOr(src, true))
    && (Expressible(n) <==> Groups(src, false)) && (Expressible(Negate(n)) <==> Groups(src, true))
  }

  lemma AndGroups(l: Src, r: Src, m: CondNode, n: CondNode)
    requires StaticTruth(l).None? && Grouped(l, m) && Grouped(r, n)
    ensures Grouped(AndAnd(l, r), And([m, n]))
  {
    PairForms(m, n);
    PairForms(Negate(m), Negate(n));
    NegatedPair(m, n);
    assert Negate(And([m, n])) == Or([Negate(m), Negate(n)]);
  }

  lemma OrGroups(l: Src, r: Src, m: CondNode, n: CondNode)
    requires StaticTruth(l).None? && Grouped(l, m) && Grouped(r, n)
    ensures Grouped(OrOr(l, r), Or([m, n]))
  {
    PairForms(m, n);
    PairForms(Negate(m), Negate(n));
    NegatedPair(m, n);
    assert Negate(Or([m, n])) == And([Negate(m), Negate(n)]);
  }

  lemma LogicGroups(op: Junction, l: Src, r: Src, a: Built, b: Built)
    requires StaticTruth(l).None? && CondNodeOf(a).Ok? && CondNodeOf(b).Ok?
    requires Grouped(l, CondNodeOf(a).value) && Grouped(r, CondNodeOf(b).value)
    ensures CondNodeOf(LogicV(op, a, b)).Ok?
    ensures Grouped(if op.AndJ? then AndAnd(l, r) else OrOr(l, r), CondNodeOf(LogicV(op, a, b)).value)
  {
    if op.AndJ? {
      AndGroups(l, r, CondNodeOf(a).value, CondNodeOf(b).value);
    } else {
      OrGroups(l, r, CondNodeOf(a).value, CondNodeOf(b).value);
    }
  }

  lemma NotClassified(e: Src, v: Built)
    requires StaticTruth(e).None? && Classified(e, v) && Shaped(v) && IsMarker(v) && Decides(e)
    ensures NotOf(v).Ok? && Classified(Bang(e), NotOf(v).value)
  {
    CondNodeShaped(v);
    NegateKeepsLeaves(CondNodeOf(v).value);
  }

  lemma TernaryClassified(t: Src, yes: Src, no: Src, v: Built, a: Built, b: Built)
    requires StaticTruth(t).None? && Classified(t, v) && Shaped(v) && Decides(t)
    requires Classified(yes, a) && Classified(no, b)
    ensures Classified(Ternary(t, yes, no), TernaryV(CondNodeOf(v).value, a, b))
  {
    ConditionRenders(t, v);
    ChunkTernary(CondNodeOf(v).value, a, b);
  }

  /** An expression compiles exactly when the rules say so, and to something that decides and prints as they say. */
  lemma {:induction false} CompilesExactly(src: Src, scope: Scope, piped: map<string, bool>, depth: nat)
    requires SameNames(scope, piped)
    ensures Compile(src, scope, depth).Ok? <==> Compiles(src, piped)
    ensures Compile(src, scope, depth).Ok? ==> Classified(src, Compile(src, scope, depth).value)
    decreases src, 1
  {
    match src
    case Lit(_) =>
    case Raw(_) =>
    case Template(parts) => PartsExactly(parts, scope, piped, depth);
    case Read(p) => PathExactly(p, scope, piped);
    case ComparePaths(_, l, r) =>
      PathExactly(l, scope, piped);
      PathExactly(r, scope, piped);
    case CompareLit(_, p, c, _) =>
      PathExactly(p, scope, piped);
      LiteralExactly(c);
    case Bang(e) =>
      CompilesExactly(e, scope, piped, depth);
      if Compile(e, scope, depth).Ok? {
        CompileShaped(e, scope, depth);
        if StaticTruth(e).None? && Decides(e) { NotClassified(e, Compile(e, scope, depth).value); }
      }
    case AndAnd(_, _) => LogicExactly(AndJ, src, scope, piped, depth);
    case OrOr(_, _) => LogicExactly(OrJ, src, scope, piped, depth);
    case Ternary(_, _, _) => ChoiceCompiles(src, scope, piped, depth);
    case MapOver(list, _, _, _, body) => LoopExactly(src, scope, piped, depth);
  }

  lemma {:induction false} LogicExactly(op: Junction, src: Src, scope: Scope, piped: map<string, bool>, depth: nat)
    requires SameNames(scope, piped) && if op.AndJ? then src.AndAnd? else src.OrOr?
    ensures CompileLogic(op, src, scope, depth).Ok? <==> Compiles(src, piped)
    ensures CompileLogic(op, src, scope, depth).Ok? ==> Classified(src, CompileLogic(op, src, scope, depth).value)
    decreases src, 0
  {
    var l, r := src.l, src.r;
    CompilesExactly(l, scope, piped, depth);
    CompilesExactly(r, scope, piped, depth);
    if Compile(l, scope, depth).Ok? {
      CompileShaped(l, scope, depth);
      if StaticTruth(l).None? && Compile(r, scope, depth).Ok? {
        LogicClassified(op, l, r, Compile(l, scope, depth).value, Compile(r, scope, depth).value);
      }
    }
  }

  lemma {:induction false} ChoiceCompiles(src: Src, scope: Scope, piped: map<string, bool>, depth: nat)
    requires SameNames(scope, piped) && src.Ternary?
    ensures Compile(src, scope, depth).Ok? <==> Compiles(src, piped)
    ensures Compile(src, scope, depth).Ok? ==> Classified(src, Compile(src, scope, depth).value)
    decreases src, 0
  {
    var t, yes, no := src.t, src.yes, src.no;
    CompilesExactly(t, scope, piped, depth);
    CompilesExactly(yes, scope, piped, depth);
    CompilesExactly(no, scope, piped, depth);
    if Compile(t, scope, depth).Ok? {
      CompileShaped(t, scope, depth);
      var v := Compile(t, scope, depth).value;
      if StaticTruth(t).None? && Decides(t) && Compile(yes, scope, depth).Ok? && Compile(no, scope, depth).Ok? {
        TernaryClassified(t, yes, no, v, Compile(yes, scope, depth).value, Compile(no, scope, depth).value);
      }
    }
  }

  lemma {:induction false} LoopExactly(src: Src, scope: Scope, piped: map<string, bool>, depth: nat)
    requires SameNames(scope, piped) && src.MapOver?
    ensures Compile(src, scope, depth).Ok? <==> Compiles(src, piped)
    ensures Compile(src, scope, depth).Ok? ==> Classified(src, Compile(src, scope, depth).value)
    decreases src, 0
  {
    PathExactly(src.list, scope, piped);
    if PathExpr(src.list, scope).Ok? {
      var e := PathExpr(src.list, scope).value;
      CompilesExactly(src.body, LoopScope(scope, src, depth, e), PipedInside(src, piped), depth + 1);
    }
  }

  lemma {:induction false} PartsExactly(parts: seq<Src>, scope: Scope, piped: map<string, bool>, depth: nat)
    requires SameNames(scope, piped)
    ensures CompileParts(parts, scope, depth).Ok? <==>
            forall i | 0 <= i < |parts| :: Compiles(parts[i], piped) && Prints(parts[i])
    decreases parts, 0
  {
    if parts != [] {
      CompilesExactly(parts[0], scope, piped, depth);
      PartsExactly(parts[1..], scope, piped, depth);
      assert forall i | 0 < i < |parts| :: parts[1..][i - 1] == parts[i];
    }
  }

  /** A page builds exactly when its expressions compile and it can be printed. */
  lemma PageCompilesExactly(src: Src)
    ensures CompilePage(src).Ok? <==> Compiles(src, map[]) && Prints(src)
  {
    CompilesExactly(src, map[], map[], 0);
  }
}
