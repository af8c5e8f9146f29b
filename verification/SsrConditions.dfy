/** fse-ssr's condition trees: how negation is pushed to the leaves, how nested `and`/`or` are
    flattened, and how a tree becomes the flat token list Tera reads. */
module SsrConditions {
  import opened Prelude
  import opened Tera

  datatype BuildError =
    | UnquotableLiteral
    | UnusableOperand
    | NotACondition
    | NeedsGrouping
    | FilteredAccess
    | BadPropertyName
    | NeedsValueOnLeft
    | BareComparison
    | UnboundName

  datatype CondNode =
    | Truthy(x: Operand)
    | Cmp(op: CmpOp, l: Operand, r: Operand)
    | And(parts: seq<CondNode>)
    | Or(parts: seq<CondNode>)
    | Not(part: CondNode)

  // ----- meaning of a tree

  function EvalNode(n: CondNode, env: Context): Truth {
    match n
    case Truthy(x) => Test(EvalOperand(x, env))
    case Cmp(op, l, r) => Compare(op, EvalOperand(l, env), EvalOperand(r, env))
    case And(parts) => EvalEvery(parts, env)
    case Or(parts) => EvalSome(parts, env)
    case Not(part) => Flip(EvalNode(part, env))
  }

  function EvalEvery(parts: seq<CondNode>, env: Context): Truth {
    if parts == [] then Yes
    else
      match EvalNode(parts[0], env)
      case Yes => EvalEvery(parts[1..], env)
      case t => t
  }

  function EvalSome(parts: seq<CondNode>, env: Context): Truth {
    if parts == [] then No
    else
      match EvalNode(parts[0], env)
      case No => EvalSome(parts[1..], env)
      case t => t
  }

  // ----- negate, flatten, renderCond

  function Inverted(op: CmpOp): CmpOp {
    match op
    case Eq => Ne
    case Ne => Eq
    case Lt => Ge
    case Ge => Lt
    case Gt => Le
    case Le => Gt
  }

  function Negate(n: CondNode): CondNode {
    match n
    case Truthy(_) => Not(n)
    case Not(part) => part
    case Cmp(op, l, r) => Cmp(Inverted(op), l, r)
    case And(parts) => Or(NegateAll(parts))
    case Or(parts) => And(NegateAll(parts))
  }

  function NegateAll(parts: seq<CondNode>): seq<CondNode> {
    if parts == [] then [] else [Negate(parts[0])] + NegateAll(parts[1..])
  }

  datatype Junction = AndJ | OrJ

  predicate Joins(n: CondNode, k: Junction) {
    match k case AndJ => n.And? case OrJ => n.Or?
  }

  function Flatten(k: Junction, parts: seq<CondNode>): (flat: seq<CondNode>)
    ensures Weights(flat) <= Weights(parts)
    ensures forall i | 0 <= i < |flat| :: !Joins(flat[i], k)
  {
    if parts == [] then []
    else
      var head := if Joins(parts[0], k) then Flatten(k, parts[0].parts) else [parts[0]];
      WeightsConcat(head, Flatten(k, parts[1..]));
      head + Flatten(k, parts[1..])
  }

  /** Number of nodes, not counting negations: what negation keeps and descending decreases. */
  ghost function Weight(n: CondNode): (w: nat)
    ensures w >= 1
  {
    match n
    case And(parts) => 1 + Weights(parts)
    case Or(parts) => 1 + Weights(parts)
    case Not(part) => Weight(part)
    case _ => 1
  }

  ghost function Weights(parts: seq<CondNode>): nat {
    if parts == [] then 0 else Weight(parts[0]) + Weights(parts[1..])
  }

  ghost function NotDepth(n: CondNode): nat {
    if n.Not? then 1 + NotDepth(n.part) else 0
  }

  lemma WeightsConcat(a: seq<CondNode>, b: seq<CondNode>)
    ensures Weights(a + b) == Weights(a) + Weights(b)
  {
    if a == [] {
      assert a + b == b;
    } else {
      assert (a + b)[1..] == a[1..] + b;
      WeightsConcat(a[1..], b);
    }
  }

  lemma NegateKeepsWeight(n: CondNode)
    ensures Weight(Negate(n)) == Weight(n)
    ensures n.Not? ==> NotDepth(Negate(n)) < NotDepth(n)
    ensures n.And? || n.Or? ==> NotDepth(Negate(n)) == 0
  {
    match n
    case And(parts) => NegateAllKeepsWeight(parts);
    case Or(parts) => NegateAllKeepsWeight(parts);
    case _ =>
  }

  lemma NegateAllKeepsWeight(parts: seq<CondNode>)
    ensures Weights(NegateAll(parts)) == Weights(parts)
  {
    if parts != [] {
      NegateKeepsWeight(parts[0]);
      NegateAllKeepsWeight(parts[1..]);
    }
  }

  function Join(pieces: seq<seq<Token>>, separator: Token): seq<Token> {
    if pieces == [] then []
    else if |pieces| == 1 then pieces[0]
    else pieces[0] + [separator] + Join(pieces[1..], separator)
  }

  function RenderCond(n: CondNode): Result<seq<Token>, BuildError>
    decreases Weight(n), 0, NotDepth(n)
  {
    match n
    case Truthy(x) => Ok([Opd(x)])
    case Cmp(op, l, r) => Ok([Opd(l), Rel(op), Opd(r)])
    case Not(part) =>
      if part.Truthy? then Ok([NotT, Opd(part.x)])
      else
        NegateKeepsWeight(part);
        RenderCond(Negate(part))
    case Or(parts) => Joined(RenderAll(Flatten(OrJ, parts)), OrT)
    case And(parts) =>
      var flat := Flatten(AndJ, parts);
      if exists i | 0 <= i < |flat| :: flat[i].Or? then Err(NeedsGrouping)
      else Joined(RenderAll(flat), AndT)
  }

  function Joined(r: Result<seq<seq<Token>>, BuildError>, separator: Token): Result<seq<Token>, BuildError> {
    match r
    case Ok(pieces) => Ok(Join(pieces, separator))
    case Err(e) => Err(e)
  }

  function RenderAll(parts: seq<CondNode>): (r: Result<seq<seq<Token>>, BuildError>)
    ensures r.Ok? ==> |r.value| == |parts|
    decreases Weights(parts), 1, |parts|
  {
    if parts == [] then Ok([])
    else
      match RenderCond(parts[0])
      case Err(e) => Err(e)
      case Ok(piece) =>
        match RenderAll(parts[1..])
        case Err(e) => Err(e)
        case Ok(pieces) => Ok([piece] + pieces)
  }
}
