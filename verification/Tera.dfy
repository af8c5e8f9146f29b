/** The part of the Tera template language that fse-ssr emits: context values, variable paths,
    and conditions. A condition is a flat token list: `not` binds tighter than `and`, `and`
    tighter than `or`, and there are no grouping parentheses. */
module Tera {
  import opened Prelude
  import opened Decimals

  // ----- context values

  datatype Value =
    | Null
    | Bool(b: bool)
    | Num(n: real)
    | Str(s: string)
    | List(items: seq<Value>)
    | Obj(fields: map<string, Value>)

  type Context = map<string, Value>

  predicate IsTruthy(v: Value) {
    match v
    case Null => false
    case Bool(b) => b
    case Num(n) => n != 0.0
    case Str(s) => s != ""
    case List(items) => items != []
    case Obj(fields) => |fields| != 0
  }

  /** `v.key` of an object, `v.3` of a list; nothing when there is no such member. */
  function Member(v: Value, key: string): Option<Value> {
    match v
    case Obj(fields) => if key in fields then Some(fields[key]) else None
    case List(items) =>
      if key != [] && (forall c | c in key :: IsDigit(c)) && NumeralValue(key) < |items|
      then Some(items[NumeralValue(key)]) else None
    case _ => None
  }

  /** The member name a value stands for when it is used as a computed key. */
  function KeyText(v: Value): Option<string> {
    match v
    case Str(s) => Some(s)
    case Num(n) => if n >= 0.0 && n.Floor as real == n then Some(Numeral(n.Floor)) else None
    case _ => None
  }

  function LengthOf(v: Value): Option<Value> {
    match v
    case Str(s) => Some(Num(|s| as real))
    case List(items) => Some(Num(|items| as real))
    case Obj(fields) => Some(Num(|fields| as real))
    case _ => None
  }

  // ----- expressions

  /** `name`, `base.key`, `base[key]` and `base | length`. */
  datatype Expr =
    | Ident(name: string)
    | Field(base: Expr, key: string)
    | Index(base: Expr, at: Expr)
    | Length(base: Expr)

  /** The value of an expression; `None` when a name, member or filter argument is missing. */
  function EvalExpr(e: Expr, env: Context): Option<Value> {
    match e
    case Ident(name) => if name in env then Some(env[name]) else None
    case Field(base, key) => OnValue(EvalExpr(base, env), v => Member(v, key))
    case Index(base, at) => MemberBy(EvalExpr(base, env), EvalExpr(at, env))
    case Length(base) => OnValue(EvalExpr(base, env), LengthOf)
  }

  function OnValue(v: Option<Value>, f: Value -> Option<Value>): Option<Value> {
    match v
    case Some(x) => f(x)
    case None => None
  }

  function MemberBy(base: Option<Value>, key: Option<Value>): Option<Value> {
    if base.None? || key.None? then None
    else
      match KeyText(key.value)
      case Some(text) => Member(base.value, text)
      case None => None
  }

  datatype Scalar = SStr(s: string) | SNum(n: real) | SBool(b: bool) | SNull

  function ScalarValue(c: Scalar): Value {
    match c
    case SStr(s) => Str(s)
    case SNum(n) => Num(n)
    case SBool(b) => Bool(b)
    case SNull => Null
  }

  /** What may stand in a condition: an expression, an expression guarded with
      `default(value=false)`, or a literal. */
  datatype Operand = Plain(e: Expr) | OrFalse(e: Expr) | Literal(c: Scalar)

  function EvalOperand(x: Operand, env: Context): Option<Value> {
    match x
    case Plain(e) => EvalExpr(e, env)
    case OrFalse(e) => (match EvalExpr(e, env) case Some(v) => Some(v) case None => Some(Bool(false)))
    case Literal(c) => Some(ScalarValue(c))
  }

  // ----- truth

  /** A condition holds, fails, or breaks the render (a missing name, or an order on non-numbers). */
  datatype Truth = Yes | No | Fault

  function TruthOf(b: bool): Truth {
    if b then Yes else No
  }

  function Flip(t: Truth): Truth {
    match t
    case Yes => No
    case No => Yes
    case Fault => Fault
  }

  datatype CmpOp = Eq | Ne | Lt | Le | Gt | Ge

  function Compare(op: CmpOp, l: Option<Value>, r: Option<Value>): Truth {
    if l.None? || r.None? then Fault
    else
      match op
      case Eq => TruthOf(l.value == r.value)
      case Ne => TruthOf(l.value != r.value)
      case _ =>
        if !l.value.Num? || !r.value.Num? then Fault
        else
          var a, b := l.value.n, r.value.n;
          TruthOf(match op case Lt => a < b case Le => a <= b case Gt => a > b case _ => a >= b)
  }

  function Test(v: Option<Value>): Truth {
    match v
    case Some(x) => TruthOf(IsTruthy(x))
    case None => Fault
  }

  // ----- the condition grammar

  datatype Token = Opd(x: Operand) | Rel(op: CmpOp) | NotT | AndT | OrT

  datatype Atom =
    | Bare(x: Operand)
    | Negated(x: Operand)
    | Comparison(op: CmpOp, l: Operand, r: Operand)

  /** A parsed condition: a disjunction of conjunctions of atoms. */
  type Disjunction = seq<seq<Atom>>

  function ParseAtom(ts: seq<Token>): (r: Option<(Atom, seq<Token>)>)
    ensures r.Some? ==> |r.value.1| < |ts|
  {
    if |ts| >= 2 && ts[0].NotT? && ts[1].Opd? then Some((Negated(ts[1].x), ts[2..]))
    else if |ts| >= 3 && ts[0].Opd? && ts[1].Rel? && ts[2].Opd? then
      Some((Comparison(ts[1].op, ts[0].x, ts[2].x), ts[3..]))
    else if |ts| >= 1 && ts[0].Opd? then Some((Bare(ts[0].x), ts[1..]))
    else None
  }

  function ParseConjunction(ts: seq<Token>): (r: Option<(seq<Atom>, seq<Token>)>)
    ensures r.Some? ==> |r.value.1| < |ts|
    decreases |ts|
  {
    match ParseAtom(ts)
    case None => None
    case Some((atom, rest)) =>
      if rest != [] && rest[0].AndT? then
        match ParseConjunction(rest[1..])
        case None => None
        case Some((atoms, rest')) => Some(([atom] + atoms, rest'))
      else Some(([atom], rest))
  }

  /** Reads a whole condition; `None` is a syntax error. */
  function ParseCondition(ts: seq<Token>): Option<Disjunction>
    decreases |ts|
  {
    match ParseConjunction(ts)
    case None => None
    case Some((atoms, rest)) =>
      if rest == [] then Some([atoms])
      else if rest[0].OrT? then
        match ParseCondition(rest[1..])
        case None => None
        case Some(more) => Some([atoms] + more)
      else None
  }

  function EvalAtom(a: Atom, env: Context): Truth {
    match a
    case Bare(x) => Test(EvalOperand(x, env))
    case Negated(x) => Flip(Test(EvalOperand(x, env)))
    case Comparison(op, l, r) => Compare(op, EvalOperand(l, env), EvalOperand(r, env))
  }

  /** Left to right, stopping at the first atom that does not hold. */
  function EvalConjunction(atoms: seq<Atom>, env: Context): Truth {
    if atoms == [] then Yes
    else
      match EvalAtom(atoms[0], env)
      case Yes => EvalConjunction(atoms[1..], env)
      case t => t
  }

  /** Left to right, stopping at the first conjunction that does not fail. */
  function EvalDisjunction(d: Disjunction, env: Context): Truth {
    if d == [] then No
    else
      match EvalConjunction(d[0], env)
      case No => EvalDisjunction(d[1..], env)
      case t => t
  }

  /** What Tera computes for the text between `{% if` and `%}`. */
  function EvalCondition(ts: seq<Token>, env: Context): Truth {
    match ParseCondition(ts)
    case Some(d) => EvalDisjunction(d, env)
    case None => Fault
  }
}
