/** What a rendered condition means: Tera reads it back with the tree's truth value in every context. */
module SsrConditionProofs {
  import opened Prelude
  import opened Tera
  import opened SsrConditions

  /** The invariant of every tree the helpers build: `not` wraps only a truthiness test, and no
      junction is empty. */
  ghost predicate NegationAtLeaves(n: CondNode) {
    match n
    case Not(part) => part.Truthy?
    case And(parts) => parts != [] && forall i | 0 <= i < |parts| :: NegationAtLeaves(parts[i])
    case Or(parts) => parts != [] && forall i | 0 <= i < |parts| :: NegationAtLeaves(parts[i])
    case _ => true
  }

  ghost predicate OrFree(n: CondNode) {
    match n
    case Or(_) => false
    case And(parts) => forall i | 0 <= i < |parts| :: OrFree(parts[i])
    case _ => true
  }

  /** No `or` anywhere below an `and`: what Tera can say without grouping parentheses. */
  ghost predicate Expressible(n: CondNode) {
    match n
    case And(parts) => forall i | 0 <= i < |parts| :: OrFree(parts[i])
    case Or(parts) => forall i | 0 <= i < |parts| :: Expressible(parts[i])
    case _ => true
  }

  // ----- negation

  lemma {:induction false} NegateKeepsLeaves(n: CondNode)
    requires NegationAtLeaves(n)
    ensures NegationAtLeaves(Negate(n))
    ensures Negate(Negate(n)) == n
  {
    if n.And? || n.Or? {
      NegateAllKeepsLeaves(n.parts);
    }
  }

  lemma {:induction false} NegateAllKeepsLeaves(parts: seq<CondNode>)
    requires forall i | 0 <= i < |parts| :: NegationAtLeaves(parts[i])
    ensures |NegateAll(parts)| == |parts|
    ensures forall i | 0 <= i < |parts| :: NegationAtLeaves(NegateAll(parts)[i])
    ensures NegateAll(NegateAll(parts)) == parts
  {
    if parts != [] {
      NegateKeepsLeaves(parts[0]);
      NegateAllKeepsLeaves(parts[1..]);
      var rest := NegateAll(parts[1..]);
      assert ([Negate(parts[0])] + rest)[1..] == rest;
    }
  }

  /** De Morgan with operator inversion flips the truth value, and breaks only when the tree does. */
  lemma {:induction false} NegateMeaning(n: CondNode, env: Context)
    ensures EvalNode(Negate(n), env) == Flip(EvalNode(n, env))
  {
    match n
    case And(parts) => NegateAllMeaning(parts, env);
    case Or(parts) => NegateAllMeaning(parts, env);
    case _ =>
  }

  lemma {:induction false} NegateAllMeaning(parts: seq<CondNode>, env: Context)
    ensures EvalSome(NegateAll(parts), env) == Flip(EvalEvery(parts, env))
    ensures EvalEvery(NegateAll(parts), env) == Flip(EvalSome(parts, env))
  {
    if parts != [] {
      NegateMeaning(parts[0], env);
      NegateAllMeaning(parts[1..], env);
      var rest := NegateAll(parts[1..]);
      assert ([Negate(parts[0])] + rest)[1..] == rest;
    }
  }

  // ----- flattening

  lemma FlattenKeepsLeaves(k: Junction, parts: seq<CondNode>)
    requires forall i | 0 <= i < |parts| :: NegationAtLeaves(parts[i])
    ensures forall i | 0 <= i < |Flatten(k, parts)| :: NegationAtLeaves(Flatten(k, parts)[i])
    ensures parts != [] ==> Flatten(k, parts) != []
    decreases parts
  {
    if parts != [] {
      if Joins(parts[0], k) {
        FlattenKeepsLeaves(k, parts[0].parts);
      }
      FlattenKeepsLeaves(k, parts[1..]);
    }
  }

  ghost predicate Every(parts: seq<CondNode>, p: CondNode -> bool) {
    forall i | 0 <= i < |parts| :: p(parts[i])
  }

  lemma EveryConcat(a: seq<CondNode>, b: seq<CondNode>, p: CondNode -> bool)
    ensures Every(a + b, p) <==> Every(a, p) && Every(b, p)
  {
    assert forall i | 0 <= i < |a| :: (a + b)[i] == a[i];
    assert forall i | 0 <= i < |b| :: (a + b)[|a| + i] == b[i];
  }

  /** A property that an `and` (an `or`) has exactly when its parts have it is decided alike by a
      list and by its flattening. */
  lemma {:induction false} FlattenKeepsEvery(k: Junction, parts: seq<CondNode>, p: CondNode -> bool)
    requires forall n :: Joins(n, k) ==> (p(n) <==> Every(n.parts, p))
    ensures Every(Flatten(k, parts), p) <==> Every(parts, p)
    decreases parts
  {
    if parts != [] {
      var head := if Joins(parts[0], k) then Flatten(k, parts[0].parts) else [parts[0]];
      assert Every(head, p) <==> p(parts[0]) by {
        if Joins(parts[0], k) {
          FlattenKeepsEvery(k, parts[0].parts, p);
        } else {
          assert head[0] == parts[0];
        }
      }
      FlattenKeepsEvery(k, parts[1..], p);
      EveryConcat(head, Flatten(k, parts[1..]), p);
      EveryConcat([parts[0]], parts[1..], p);
      assert parts == [parts[0]] + parts[1..];
    }
  }

  /** An `or` survives flattening under `and` exactly when one was there at any depth. */
  lemma FlattenFindsOr(parts: seq<CondNode>)
    ensures (forall i | 0 <= i < |Flatten(AndJ, parts)| :: !Flatten(AndJ, parts)[i].Or?)
            <==> (forall i | 0 <= i < |parts| :: OrFree(parts[i]))
  {
    FlattenKeepsEvery(AndJ, parts, OrFree);
    var flat := Flatten(AndJ, parts);
    forall i | 0 <= i < |flat| ensures !flat[i].Or? <==> OrFree(flat[i]) {
      assert !Joins(flat[i], AndJ);
    }
  }

  lemma FlattenFindsInexpressible(parts: seq<CondNode>)
    ensures (forall i | 0 <= i < |Flatten(OrJ, parts)| :: Expressible(Flatten(OrJ, parts)[i]))
            <==> (forall i | 0 <= i < |parts| :: Expressible(parts[i]))
  {
    FlattenKeepsEvery(OrJ, parts, Expressible);
  }

  lemma {:induction false} EvalEveryConcat(a: seq<CondNode>, b: seq<CondNode>, env: Context)
    ensures EvalEvery(a + b, env) == if EvalEvery(a, env) == Yes then EvalEvery(b, env) else EvalEvery(a, env)
    ensures EvalSome(a + b, env) == if EvalSome(a, env) == No then EvalSome(b, env) else EvalSome(a, env)
  {
    if a == [] {
      assert a + b == b;
    } else {
      assert (a + b)[1..] == a[1..] + b;
      EvalEveryConcat(a[1..], b, env);
    }
  }

  lemma {:induction false} FlattenMeaning(k: Junction, parts: seq<CondNode>, env: Context)
    ensures k.AndJ? ==> EvalEvery(Flatten(k, parts), env) == EvalEvery(parts, env)
    ensures k.OrJ? ==> EvalSome(Flatten(k, parts), env) == EvalSome(parts, env)
    decreases parts
  {
    if parts != [] {
      var head := if Joins(parts[0], k) then Flatten(k, parts[0].parts) else [parts[0]];
      if Joins(parts[0], k) {
        FlattenMeaning(k, parts[0].parts, env);
      }
      FlattenMeaning(k, parts[1..], env);
      EvalEveryConcat(head, Flatten(k, parts[1..]), env);
      assert [parts[0]][1..] == [];
    }
  }

  // ----- printing conditions and reading them back

  function PrintAtom(a: Atom): (ts: seq<Token>)
    ensures ts != []
  {
    match a
    case Bare(x) => [Opd(x)]
    case Negated(x) => [NotT, Opd(x)]
    case Comparison(op, l, r) => [Opd(l), Rel(op), Opd(r)]
  }

  function PrintConjunction(atoms: seq<Atom>): seq<Token>
    requires atoms != []
  {
    if |atoms| == 1 then PrintAtom(atoms[0])
    else PrintAtom(atoms[0]) + [AndT] + PrintConjunction(atoms[1..])
  }

  ghost predicate WellFormed(d: Disjunction) {
    d != [] && forall i | 0 <= i < |d| :: d[i] != []
  }

  function PrintDisjunction(d: Disjunction): seq<Token>
    requires WellFormed(d)
  {
    if |d| == 1 then PrintConjunction(d[0])
    else PrintConjunction(d[0]) + [OrT] + PrintDisjunction(d[1..])
  }

  lemma ReadAtom(a: Atom, rest: seq<Token>)
    requires rest == [] || rest[0].AndT? || rest[0].OrT?
    ensures ParseAtom(PrintAtom(a) + rest) == Some((a, rest))
  {
    var ts := PrintAtom(a) + rest;
    assert ts[|PrintAtom(a)|..] == rest;
  }

  lemma ConjunctionLast(ts: seq<Token>, a: Atom, rest: seq<Token>)
    requires ParseAtom(ts) == Some((a, rest)) && (rest == [] || rest[0].OrT?)
    ensures ParseConjunction(ts) == Some(([a], rest))
  {
  }

  lemma ConjunctionMore(ts: seq<Token>, a: Atom, tail: seq<Token>, atoms: seq<Atom>, rest: seq<Token>)
    requires ParseAtom(ts) == Some((a, tail)) && tail != [] && tail[0].AndT?
    requires ParseConjunction(tail[1..]) == Some((atoms, rest))
    ensures ParseConjunction(ts) == Some(([a] + atoms, rest))
  {
  }

  lemma {:induction false} ReadConjunction(atoms: seq<Atom>, rest: seq<Token>)
    requires atoms != []
    requires rest == [] || rest[0].OrT?
    ensures ParseConjunction(PrintConjunction(atoms) + rest) == Some((atoms, rest))
    decreases |atoms|
  {
    if |atoms| == 1 {
      ReadAtom(atoms[0], rest);
      ConjunctionLast(PrintConjunction(atoms) + rest, atoms[0], rest);
      assert atoms == [atoms[0]];
    } else {
      ReadConjunction(atoms[1..], rest);
      ReadFirstAtom(atoms[0], PrintConjunction(atoms[1..]), atoms[1..], rest);
      PrintMoreAtoms(atoms);
    }
  }

  lemma PrintMoreAtoms(atoms: seq<Atom>)
    requires |atoms| > 1
    ensures PrintConjunction(atoms) == PrintAtom(atoms[0]) + [AndT] + PrintConjunction(atoms[1..])
    ensures atoms == [atoms[0]] + atoms[1..]
  {
  }

  lemma ReadFirstAtom(a: Atom, more: seq<Token>, atoms: seq<Atom>, rest: seq<Token>)
    requires ParseConjunction(more + rest) == Some((atoms, rest))
    ensures ParseConjunction((PrintAtom(a) + [AndT] + more) + rest) == Some(([a] + atoms, rest))
  {
    var tail := [AndT] + (more + rest);
    assert tail[1..] == more + rest;
    ReadAtom(a, tail);
    ConjunctionMore(PrintAtom(a) + tail, a, tail, atoms, rest);
    Regroup(PrintAtom(a), [AndT], more, rest);
  }

  lemma Regroup(a: seq<Token>, b: seq<Token>, c: seq<Token>, d: seq<Token>)
    ensures (a + b + c) + d == a + (b + (c + d))
  {
  }

  lemma ConditionLast(ts: seq<Token>, atoms: seq<Atom>)
    requires ParseConjunction(ts) == Some((atoms, []))
    ensures ParseCondition(ts) == Some([atoms])
  {
  }

  lemma ConditionMore(ts: seq<Token>, atoms: seq<Atom>, tail: seq<Token>, more: Disjunction)
    requires ParseConjunction(ts) == Some((atoms, tail)) && tail != [] && tail[0].OrT?
    requires ParseCondition(tail[1..]) == Some(more)
    ensures ParseCondition(ts) == Some([atoms] + more)
  {
  }

  /** Reading a printed condition gives it back: the flat text is unambiguous. */
  lemma {:induction false} ReadBack(d: Disjunction)
    requires WellFormed(d)
    ensures ParseCondition(PrintDisjunction(d)) == Some(d)
    decreases |d|
  {
    var ts := PrintDisjunction(d);
    if |d| == 1 {
      ReadConjunction(d[0], []);
      assert ts + [] == ts;
      ConditionLast(ts, d[0]);
      assert d == [d[0]];
    } else {
      ReadBack(d[1..]);
      ReadFirst(d[0], PrintDisjunction(d[1..]), d[1..]);
      assert ts == PrintConjunction(d[0]) + [OrT] + PrintDisjunction(d[1..]);
      assert d == [d[0]] + d[1..];
    }
  }

  lemma ReadFirst(atoms: seq<Atom>, printed: seq<Token>, more: Disjunction)
    requires atoms != [] && ParseCondition(printed) == Some(more)
    ensures ParseCondition(PrintConjunction(atoms) + [OrT] + printed) == Some([atoms] + more)
  {
    var tail := [OrT] + printed;
    var ts := PrintConjunction(atoms) + [OrT] + printed;
    assert ts == PrintConjunction(atoms) + tail;
    assert tail[1..] == printed;
    ReadConjunction(atoms, tail);
    ConditionMore(ts, atoms, tail, more);
  }

  lemma {:induction false} PrintDisjunctionConcat(a: Disjunction, b: Disjunction)
    requires WellFormed(a) && WellFormed(b)
    ensures WellFormed(a + b)
    ensures PrintDisjunction(a + b) == PrintDisjunction(a) + [OrT] + PrintDisjunction(b)
  {
    var sum := a + b;
    assert sum[0] == a[0];
    if |a| == 1 {
      assert sum[1..] == b;
      PrintMore(sum);
    } else {
      assert sum[1..] == a[1..] + b;
      PrintDisjunctionConcat(a[1..], b);
      PrintMore(sum);
      PrintMore(a);
      JoinedTwice(PrintConjunction(a[0]), [OrT], PrintDisjunction(a[1..]), PrintDisjunction(b));
    }
  }

  lemma PrintMore(d: Disjunction)
    requires WellFormed(d) && |d| > 1
    ensures WellFormed(d[1..])
    ensures PrintDisjunction(d) == PrintConjunction(d[0]) + [OrT] + PrintDisjunction(d[1..])
  {
  }

  lemma JoinedTwice(a: seq<Token>, sep: seq<Token>, b: seq<Token>, c: seq<Token>)
    ensures a + sep + (b + sep + c) == (a + sep + b) + sep + c
  {
  }

  lemma {:induction false} EvalDisjunctionConcat(a: Disjunction, b: Disjunction, env: Context)
    ensures EvalDisjunction(a + b, env)
            == if EvalDisjunction(a, env) == No then EvalDisjunction(b, env) else EvalDisjunction(a, env)
  {
    if a == [] {
      assert a + b == b;
    } else {
      assert (a + b)[1..] == a[1..] + b;
      EvalDisjunctionConcat(a[1..], b, env);
    }
  }

  // ----- rendering

  ghost predicate Faithful(n: CondNode, d: Disjunction) {
    && WellFormed(d)
    && RenderCond(n) == Ok(PrintDisjunction(d))
    && forall env :: EvalDisjunction(d, env) == EvalNode(n, env)
  }

  /** A tree that is neither `and` nor `or` renders as one atom. */
  ghost function LeafAtom(n: CondNode): Atom
    requires Leaf(n)
  {
    match n
    case Truthy(x) => Bare(x)
    case Cmp(op, l, r) => Comparison(op, l, r)
    case Not(part) => Negated(part.x)
  }

  ghost predicate Leaf(n: CondNode) {
    NegationAtLeaves(n) && !n.And? && !n.Or?
  }

  ghost function LeafAtoms(parts: seq<CondNode>): (atoms: seq<Atom>)
    requires forall i | 0 <= i < |parts| :: Leaf(parts[i])
    ensures |atoms| == |parts|
  {
    if parts == [] then [] else [LeafAtom(parts[0])] + LeafAtoms(parts[1..])
  }

  lemma {:induction false} LeavesRender(parts: seq<CondNode>)
    requires parts != [] && forall i | 0 <= i < |parts| :: Leaf(parts[i])
    ensures Joined(RenderAll(parts), AndT) == Ok(PrintConjunction(LeafAtoms(parts)))
    decreases |parts|
  {
    var a := LeafAtom(parts[0]);
    assert RenderCond(parts[0]) == Ok(PrintAtom(a));
    assert RenderAll(parts[1..]).Ok? by {
      if |parts| > 1 { LeavesRender(parts[1..]); }
    }
    var pieces := RenderAll(parts[1..]).value;
    assert ([PrintAtom(a)] + pieces)[1..] == pieces;
    if |parts| > 1 {
      LeavesRender(parts[1..]);
      assert LeafAtoms(parts)[1..] == LeafAtoms(parts[1..]);
    }
  }

  lemma {:induction false} LeavesMeaning(parts: seq<CondNode>, env: Context)
    requires forall i | 0 <= i < |parts| :: Leaf(parts[i])
    ensures EvalConjunction(LeafAtoms(parts), env) == EvalEvery(parts, env)
    decreases |parts|
  {
    if parts != [] {
      LeavesMeaning(parts[1..], env);
      assert LeafAtoms(parts)[1..] == LeafAtoms(parts[1..]);
      assert EvalAtom(LeafAtom(parts[0]), env) == EvalNode(parts[0], env);
    }
  }

  lemma {:induction false} AndRenders(parts: seq<CondNode>) returns (d: Disjunction)
    requires NegationAtLeaves(And(parts)) && forall i | 0 <= i < |parts| :: OrFree(parts[i])
    ensures Faithful(And(parts), d)
  {
    var flat := Flatten(AndJ, parts);
    FlattenKeepsLeaves(AndJ, parts);
    FlattenFindsOr(parts);
    LeavesRender(flat);
    d := [LeafAtoms(flat)];
    forall env ensures EvalDisjunction(d, env) == EvalNode(And(parts), env) {
      LeavesMeaning(flat, env);
      FlattenMeaning(AndJ, parts, env);
    }
  }

  lemma {:induction false} RenderFaithful(n: CondNode) returns (d: Disjunction)
    requires NegationAtLeaves(n) && Expressible(n)
    ensures Faithful(n, d)
    decreases Weight(n), 0
  {
    match n
    case And(parts) => d := AndRenders(parts);
    case Or(parts) =>
      var flat := Flatten(OrJ, parts);
      FlattenKeepsLeaves(OrJ, parts);
      FlattenFindsInexpressible(parts);
      d := AlternativesRender(flat);
      forall env ensures EvalDisjunction(d, env) == EvalNode(n, env) {
        FlattenMeaning(OrJ, parts, env);
      }
    case _ =>
      d := [[LeafAtom(n)]];
      forall env ensures EvalDisjunction(d, env) == EvalNode(n, env) {
        assert d[0][1..] == [] && d[1..] == [];
        assert EvalConjunction(d[0], env) == EvalAtom(LeafAtom(n), env);
      }
  }

  lemma {:induction false} AlternativesRender(parts: seq<CondNode>) returns (d: Disjunction)
    requires parts != [] && forall i | 0 <= i < |parts| :: NegationAtLeaves(parts[i]) && Expressible(parts[i])
    ensures WellFormed(d)
    ensures Joined(RenderAll(parts), OrT) == Ok(PrintDisjunction(d))
    ensures forall env :: EvalDisjunction(d, env) == EvalSome(parts, env)
    decreases Weights(parts), 1, |parts|
  {
    var first := RenderFaithful(parts[0]);
    if |parts| == 1 {
      d := first;
      assert parts[1..] == [];
    } else {
      var rest := AlternativesRender(parts[1..]);
      d := first + rest;
      PrintDisjunctionConcat(first, rest);
      var pieces := RenderAll(parts[1..]).value;
      assert ([PrintDisjunction(first)] + pieces)[1..] == pieces;
      forall env ensures EvalDisjunction(d, env) == EvalSome(parts, env) {
        EvalDisjunctionConcat(first, rest, env);
      }
    }
  }

  /** A rendered condition, read with Tera's precedence, has the tree's truth value everywhere. */
  lemma RenderCondMeaning(n: CondNode, env: Context)
    requires NegationAtLeaves(n) && RenderCond(n).Ok?
    ensures EvalCondition(RenderCond(n).value, env) == EvalNode(n, env)
  {
    RenderCondSucceeds(n);
    var d := RenderFaithful(n);
    ReadBack(d);
  }

  /** The build fails exactly on an `or` below an `and`. */
  lemma {:induction false} RenderCondSucceeds(n: CondNode)
    requires NegationAtLeaves(n)
    ensures RenderCond(n).Ok? <==> Expressible(n)
    ensures RenderCond(n).Err? ==> RenderCond(n).error == NeedsGrouping
    decreases Weight(n), 0
  {
    match n
    case And(parts) =>
      FlattenFindsOr(parts);
      if Expressible(n) { var _ := AndRenders(parts); }
    case Or(parts) =>
      var flat := Flatten(OrJ, parts);
      FlattenKeepsLeaves(OrJ, parts);
      FlattenFindsInexpressible(parts);
      RenderAllSucceeds(flat);
    case _ =>
  }

  lemma {:induction false} RenderAllSucceeds(parts: seq<CondNode>)
    requires forall i | 0 <= i < |parts| :: NegationAtLeaves(parts[i])
    ensures RenderAll(parts).Ok? <==> forall i | 0 <= i < |parts| :: Expressible(parts[i])
    ensures RenderAll(parts).Err? ==> RenderAll(parts).error == NeedsGrouping
    decreases Weights(parts), 1, |parts|
  {
    if parts != [] {
      RenderCondSucceeds(parts[0]);
      RenderAllSucceeds(parts[1..]);
    }
  }

  lemma FlattenPair(k: Junction, m: CondNode, n: CondNode)
    requires !Joins(m, k) && !Joins(n, k)
    ensures Flatten(k, [m, n]) == [m, n]
  {
    assert [m, n][1..] == [n] && [n][1..] == [];
    assert Flatten(k, []) == [];
    assert Flatten(k, [n]) == [n] + [];
    assert [m] + ([n] + []) == [m, n];
  }

  lemma RenderPair(m: CondNode, n: CondNode)
    requires RenderCond(m).Ok? && RenderCond(n).Ok?
    ensures RenderAll([m, n]) == Ok([RenderCond(m).value, RenderCond(n).value])
  {
    var x, y := RenderCond(m).value, RenderCond(n).value;
    assert [m, n][1..] == [n] && [n][1..] == [];
    assert RenderAll([]) == Ok([]);
    assert RenderAll([n]) == Ok([y] + []);
    assert [x] + ([y] + []) == [x, y];
  }

  /** Why the invariant matters: `!(a && b) && c` with the `not` left above the junction would
      render as `not a or not b and c`, which holds where the condition does not. */
  lemma NegationAboveJunctionIsWrong(a: Operand, b: Operand, c: Operand, env: Context)
    requires Test(EvalOperand(a, env)) == No && Test(EvalOperand(c, env)) == No
    ensures var n := And([Not(And([Truthy(a), Truthy(b)])), Truthy(c)]);
            && !NegationAtLeaves(n)
            && RenderCond(n).Ok?
            && EvalCondition(RenderCond(n).value, env) == Yes
            && EvalNode(n, env) == No
  {
    var inner := And([Truthy(a), Truthy(b)]);
    var parts := [Not(inner), Truthy(c)];
    WrongTokens(a, b, c);
    WrongReading(a, b, c, env);
    assert parts[1..] == [Truthy(c)];
    assert EvalEvery(parts[1..], env) == No;
    assert EvalNode(inner.parts[0], env) == No;
    assert EvalNode(parts[0], env) == Flip(EvalEvery(inner.parts, env)) == Yes;
    assert !NegationAtLeaves(parts[0]);
  }

  function WrongDisjunction(a: Operand, b: Operand, c: Operand): Disjunction {
    [[Negated(a)], [Negated(b), Bare(c)]]
  }

  lemma WrongTokens(a: Operand, b: Operand, c: Operand)
    ensures RenderCond(And([Not(And([Truthy(a), Truthy(b)])), Truthy(c)])) ==
            Ok(PrintDisjunction(WrongDisjunction(a, b, c)))
  {
    var inner := And([Truthy(a), Truthy(b)]);
    var parts := [Not(inner), Truthy(c)];
    NegatedPairRenders(a, b);
    RenderPair(Not(inner), Truthy(c));
    FlattenPair(AndJ, Not(inner), Truthy(c));
    var d := WrongDisjunction(a, b, c);
    assert RenderCond(Truthy(c)) == Ok([Opd(c)]);
    var pieces := [PrintDisjunction([[Negated(a)], [Negated(b)]]), [Opd(c)]];
    assert RenderAll(parts) == Ok(pieces);
    assert pieces[1..] == [[Opd(c)]];
    assert Join(pieces, AndT) == pieces[0] + [AndT] + [Opd(c)];
    assert d[1..] == [[Negated(b), Bare(c)]] && d[1][1..] == [Bare(c)];
    assert [[Negated(a)], [Negated(b)]][1..] == [[Negated(b)]];
    assert PrintDisjunction([[Negated(b)]]) == [NotT, Opd(b)];
    assert PrintConjunction([Bare(c)]) == [Opd(c)];
    assert PrintConjunction(d[1]) == [NotT, Opd(b)] + [AndT] + [Opd(c)];
    assert PrintDisjunction(d) == Join(pieces, AndT);
  }

  lemma WrongReading(a: Operand, b: Operand, c: Operand, env: Context)
    requires Test(EvalOperand(a, env)) == No
    ensures EvalCondition(PrintDisjunction(WrongDisjunction(a, b, c)), env) == Yes
  {
    var d := WrongDisjunction(a, b, c);
    ReadBack(d);
    assert d[0] == [Negated(a)] && d[0][1..] == [];
    assert EvalConjunction([], env) == Yes;
    assert EvalAtom(Negated(a), env) == Yes;
    assert EvalConjunction(d[0], env) == Yes;
    assert EvalDisjunction(d, env) == Yes;
  }

  lemma NegatedPairRenders(a: Operand, b: Operand)
    ensures RenderCond(Not(And([Truthy(a), Truthy(b)])))
            == Ok(PrintDisjunction([[Negated(a)], [Negated(b)]]))
  {
    var both := [Truthy(a), Truthy(b)];
    var either := [Not(Truthy(a)), Not(Truthy(b))];
    assert both[1..] == [Truthy(b)] && [Truthy(b)][1..] == [];
    assert NegateAll([]) == [];
    assert NegateAll([Truthy(b)]) == [Not(Truthy(b))] + [];
    assert NegateAll(both) == [Not(Truthy(a))] + ([Not(Truthy(b))] + []) == either;
    FlattenPair(OrJ, either[0], either[1]);
    RenderPair(either[0], either[1]);
    assert RenderCond(Or(either)) == Ok(Join([[NotT, Opd(a)], [NotT, Opd(b)]], OrT));
    var pieces := [[NotT, Opd(a)], [NotT, Opd(b)]];
    var d := [[Negated(a)], [Negated(b)]];
    assert pieces[1..] == [[NotT, Opd(b)]] && d[1..] == [[Negated(b)]];
    assert Join(pieces, OrT) == [NotT, Opd(a)] + [OrT] + [NotT, Opd(b)];
    assert PrintConjunction([Negated(a)]) == [NotT, Opd(a)] && PrintConjunction([Negated(b)]) == [NotT, Opd(b)];
    assert PrintDisjunction([[Negated(b)]]) == [NotT, Opd(b)];
    assert PrintDisjunction(d) == [NotT, Opd(a)] + [OrT] + [NotT, Opd(b)];
    assert RenderCond(Not(And(both))) == RenderCond(Or(either));
  }
}
