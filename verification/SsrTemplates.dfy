/** fse-ssr's template compiler. Source expressions over server data become build-time markers,
    and markers become Tera text. `loopDepth` numbers the loop variables `it0`, `it1`, …. */
module SsrTemplates {
  import opened Prelude
  import opened Decimals
  import opened Tera
  import opened TeraBlocks
  import opened SsrConditions

  // ----- source

  /** A read of server data: `ssr().key`, a callback parameter, `base.key`, `base[path]`, `base.length`. */
  datatype Path =
    | Page(key: string)
    | Local(name: string)
    | Prop(base: Path, key: string)
    | Computed(base: Path, at: Path)
    | Count(base: Path)

  /** JavaScript's comparison operators. */
  datatype JsOp = StrictEq | StrictNe | LooseEq | LooseNe | Below | AtMost | Above | AtLeast

  datatype Src =
    | Lit(c: Scalar)
    | Raw(html: string)
    | Template(parts: seq<Src>)
    | Read(p: Path)
    | ComparePaths(op: JsOp, left: Path, right: Path)
    | CompareLit(op: JsOp, p: Path, c: Scalar, flipped: bool)
    | Bang(e: Src)
    | AndAnd(l: Src, r: Src)
    | OrOr(l: Src, r: Src)
    | Ternary(t: Src, yes: Src, no: Src)
    | MapOver(list: Path, item: string, index: string, all: string, body: Src)

  // ----- value proxies: path building

  predicate IsIdentStart(c: char) {
    'a' <= c <= 'z' || 'A' <= c <= 'Z' || c == '_'
  }

  predicate IsIdent(key: string) {
    key != [] && IsIdentStart(key[0]) && forall c | c in key :: IsIdentStart(c) || IsDigit(c)
  }

  predicate IsNumeral(key: string) {
    key != [] && forall c | c in key :: IsDigit(c)
  }

  /** Names a proxy answers itself instead of extending its path. */
  const INTERCEPTED: set<string> := {"map", "length", "then", "getReader", "toJSON", "toString", "valueOf"}

  predicate IsPropertyName(key: string) {
    (IsIdent(key) || IsNumeral(key)) && key !in INTERCEPTED
  }

  /** Does the emitted text contain a `|`? */
  predicate HasPipe(e: Expr) {
    match e
    case Ident(_) => false
    case Field(base, _) => HasPipe(base)
    case Index(base, at) => HasPipe(base) || HasPipe(at)
    case Length(_) => true
  }

  /** Callback parameters in scope, each with the Tera expression its proxy stands for. */
  type Scope = map<string, Expr>

  function PathExpr(p: Path, scope: Scope): Result<Expr, BuildError> {
    match p
    case Page(key) => if IsPropertyName(key) then Ok(Ident(key)) else Err(BadPropertyName)
    case Local(name) => if name in scope then Ok(scope[name]) else Err(UnboundName)
    case Prop(base, key) =>
      (match PathExpr(base, scope)
       case Err(e) => Err(e)
       case Ok(b) =>
         if HasPipe(b) then Err(FilteredAccess)
         else if IsPropertyName(key) then Ok(Field(b, key)) else Err(BadPropertyName))
    case Computed(base, at) =>
      (match PathExpr(base, scope)
       case Err(e) => Err(e)
       case Ok(b) =>
         match PathExpr(at, scope)
         case Err(e) => Err(e)
         case Ok(k) => if HasPipe(b) then Err(FilteredAccess) else Ok(Index(b, k)))
    case Count(base) =>
      (match PathExpr(base, scope)
       case Err(e) => Err(e)
       case Ok(b) => Ok(Length(b)))
  }

  // ----- markers

  /** What a rewritten expression evaluates to at build time: an ordinary value, finished markup,
      or one of the markers. `BlockV` is what a loop leaves behind. */
  datatype Built =
    | PlainV(c: Scalar)
    | MarkupV(toks: seq<Tok>)
    | ValueV(e: Expr)
    | CondV(node: CondNode)
    | LogicV(op: Junction, left: Built, right: Built)
    | TernaryV(cond: CondNode, yes: Built, no: Built)
    | BlockV(open: Tok, body: Built, close: Tok)

  predicate IsMarker(v: Built) {
    !v.PlainV? && !v.MarkupV?
  }

  predicate JsTruthy(v: Built)
    requires !IsMarker(v)
  {
    v.MarkupV? || IsTruthy(ScalarValue(v.c))
  }

  function BareCond(e: Expr): Operand {
    if HasPipe(e) then Plain(e) else OrFalse(e)
  }

  function CondNodeOf(v: Built): Result<CondNode, BuildError> {
    match v
    case ValueV(e) => Ok(Truthy(BareCond(e)))
    case CondV(node) => Ok(node)
    case LogicV(op, left, right) =>
      (match CondNodeOf(left)
       case Err(e) => Err(e)
       case Ok(l) =>
         match CondNodeOf(right)
         case Err(e) => Err(e)
         case Ok(r) => Ok(if op.AndJ? then And([l, r]) else Or([l, r])))
    case _ => Err(NotACondition)
  }

  function CondExprOf(v: Built): Result<seq<Token>, BuildError> {
    match CondNodeOf(v)
    case Ok(node) => RenderCond(node)
    case Err(e) => Err(e)
  }

  function TeraLiteral(c: Scalar): Result<Operand, BuildError> {
    match c
    case SStr(s) =>
      if exists i | 0 <= i < |s| :: s[i] in ['\'', '\\', '\n', '\r'] then Err(UnquotableLiteral) else Ok(Literal(c))
    case SNull => Err(UnusableOperand)
    case _ => Ok(Literal(c))
  }

  // ----- the helpers the build-time transform injects

  /** Tera has one equality and one inequality. */
  function TeraOp(op: JsOp): CmpOp {
    match op
    case StrictEq => Eq
    case StrictNe => Ne
    case LooseEq => Eq
    case LooseNe => Ne
    case Below => Lt
    case AtMost => Le
    case Above => Gt
    case AtLeast => Ge
  }

  function BinPaths(op: CmpOp, l: Expr, r: Expr): Built {
    CondV(Cmp(op, Plain(l), Plain(r)))
  }

  /** A comparison with `null` never reaches the server: a proxy is an object, so JavaScript
      decides it at build time. */
  function BinLit(op: CmpOp, e: Expr, c: Scalar, flipped: bool): Result<Built, BuildError> {
    if c.SNull? then Ok(PlainV(SBool(op.Ne?)))
    else
      match TeraLiteral(c)
      case Err(err) => Err(err)
      case Ok(lit) => Ok(CondV(if flipped then Cmp(op, lit, Plain(e)) else Cmp(op, Plain(e), lit)))
  }

  function NotOf(v: Built): Result<Built, BuildError> {
    if !IsMarker(v) then Ok(PlainV(SBool(!JsTruthy(v))))
    else
      match CondNodeOf(v)
      case Ok(node) => Ok(CondV(Negate(node)))
      case Err(e) => Err(e)
  }

  /** Renders one interpolated chunk. */
  function Chunk(v: Built): Result<seq<Tok>, BuildError> {
    match v
    case PlainV(c) => Ok([Const(c)])
    case MarkupV(toks) => Ok(toks)
    case ValueV(e) => Ok([Print(e)])
    case BlockV(open, body, close) => Around([open], Chunk(body), [close])
    case LogicV(op, left, right) =>
      if op.AndJ? then
        match CondExprOf(left)
        case Err(e) => Err(e)
        case Ok(cond) => Around([IfTok(cond)], Chunk(right), [EndIf])
      else if !left.ValueV? then Err(NeedsValueOnLeft)
      else
        (match CondExprOf(left)
         case Err(e) => Err(e)
         case Ok(cond) => Around([IfTok(cond)] + [Print(left.e)] + [ElseTok], Chunk(right), [EndIf]))
    case TernaryV(cond, yes, no) =>
      (match RenderCond(cond)
       case Err(e) => Err(e)
       case Ok(ts) =>
         match Chunk(yes)
         case Err(e) => Err(e)
         case Ok(a) => Around([IfTok(ts)] + a + [ElseTok], Chunk(no), [EndIf]))
    case CondV(_) => Err(BareComparison)
  }

  function Around(before: seq<Tok>, middle: Result<seq<Tok>, BuildError>,
      after: seq<Tok>): Result<seq<Tok>, BuildError> {
    match middle
    case Ok(ts) => Ok(before + ts + after)
    case Err(e) => Err(e)
  }

  // ----- compiling

  function LoopName(depth: nat): string {
    "it" + Numeral(depth)
  }

  const LOOP_INDEX: Expr := Field(Ident("loop"), "index0")

  function LoopScope(scope: Scope, src: Src, depth: nat, list: Expr): Scope
    requires src.MapOver?
  {
    scope[src.item := Ident(LoopName(depth))][src.index := LOOP_INDEX][src.all := list]
  }

  /** What an expression evaluates to at build time, `depth` loops deep. */
  function Compile(src: Src, scope: Scope, depth: nat): Result<Built, BuildError>
    decreases src, 1
  {
    match src
    case Lit(c) => Ok(PlainV(c))
    case Raw(html) => Ok(MarkupV([Text(html)]))
    case Template(parts) =>
      (match CompileParts(parts, scope, depth)
       case Ok(ts) => Ok(MarkupV(ts))
       case Err(e) => Err(e))
    case Read(p) =>
      (match PathExpr(p, scope)
       case Ok(e) => Ok(ValueV(e))
       case Err(err) => Err(err))
    case ComparePaths(op, l, r) =>
      (match PathExpr(l, scope)
       case Err(err) => Err(err)
       case Ok(a) =>
         match PathExpr(r, scope)
         case Err(err) => Err(err)
         case Ok(b) => Ok(BinPaths(TeraOp(op), a, b)))
    case CompareLit(op, p, c, flipped) =>
      (match PathExpr(p, scope)
       case Err(err) => Err(err)
       case Ok(e) => BinLit(TeraOp(op), e, c, flipped))
    case Bang(e) =>
      (match Compile(e, scope, depth)
       case Err(err) => Err(err)
       case Ok(v) => NotOf(v))
    case AndAnd(_, _) => CompileLogic(AndJ, src, scope, depth)
    case OrOr(_, _) => CompileLogic(OrJ, src, scope, depth)
    case Ternary(t, yes, no) =>
      (match Compile(t, scope, depth)
       case Err(err) => Err(err)
       case Ok(v) =>
         if !IsMarker(v) then (if JsTruthy(v) then Compile(yes, scope, depth) else Compile(no, scope, depth))
         else
           match CondNodeOf(v)
           case Err(err) => Err(err)
           case Ok(node) =>
             match Compile(yes, scope, depth)
             case Err(err) => Err(err)
             case Ok(a) =>
               match Compile(no, scope, depth)
               case Err(err) => Err(err)
               case Ok(b) => Ok(TernaryV(node, a, b)))
    case MapOver(list, item, index, all, body) =>
      (match PathExpr(list, scope)
       case Err(err) => Err(err)
       case Ok(e) =>
         match Compile(body, LoopScope(scope, src, depth, e), depth + 1)
         case Err(err) => Err(err)
         case Ok(b) => Ok(BlockV(ForTok(LoopName(depth), e), b, EndFor)))
  }

  /** `&&` and `||`: the right side is evaluated only when the left is a marker or does not decide. */
  function CompileLogic(op: Junction, src: Src, scope: Scope, depth: nat): Result<Built, BuildError>
    requires src.AndAnd? || src.OrOr?
    decreases src, 0
  {
    match Compile(src.l, scope, depth)
    case Err(err) => Err(err)
    case Ok(a) =>
      if !IsMarker(a) then
        if JsTruthy(a) == op.AndJ? then Compile(src.r, scope, depth) else Ok(a)
      else
        match Compile(src.r, scope, depth)
        case Err(err) => Err(err)
        case Ok(b) => Ok(LogicV(op, a, b))
  }

  function CompileParts(parts: seq<Src>, scope: Scope, depth: nat): Result<seq<Tok>, BuildError>
    decreases parts, 0
  {
    if parts == [] then Ok([])
    else
      match Compile(parts[0], scope, depth)
      case Err(err) => Err(err)
      case Ok(v) =>
        match Chunk(v)
        case Err(err) => Err(err)
        case Ok(ts) => Around(ts, CompileParts(parts[1..], scope, depth), [])
  }

  /** The Tera text of a whole page. */
  function CompilePage(src: Src): Result<seq<Tok>, BuildError> {
    match Compile(src, map[], 0)
    case Ok(v) => Chunk(v)
    case Err(e) => Err(e)
  }

  // ----- the build itself

  /** The module state of a build: how many loops enclose the expression being rendered. */
  class Builder {
    var loopDepth: nat

    constructor ()
      ensures loopDepth == 0
    {
      loopDepth := 0;
    }

    /** Evaluates an expression; the depth counter is back where it was, also when the build fails. */
    method Build(src: Src, scope: Scope) returns (r: Result<Built, BuildError>)
      modifies this
      ensures r == Compile(src, scope, old(loopDepth))
      ensures loopDepth == old(loopDepth)
      decreases src, 1
    {
      match src
      case Template(parts) =>
        var ts: seq<Tok> := [];
        var i := 0;
        AroundNests([], [], CompileParts(parts, scope, loopDepth));
        assert parts[0..] == parts;
        while i < |parts|
          invariant i <= |parts| && loopDepth == old(loopDepth)
          invariant CompileParts(parts, scope, loopDepth) == Around(ts, CompileParts(parts[i..], scope, loopDepth), [])
        {
          var v := Build(parts[i], scope);
          assert parts[i..][1..] == parts[i + 1..];
          if v.Err? { return Err(v.error); }
          var chunk := Chunk(v.value);
          if chunk.Err? { return Err(chunk.error); }
          AroundNests(ts, chunk.value, CompileParts(parts[i + 1..], scope, loopDepth));
          ts := ts + chunk.value;
          i := i + 1;
        }
        assert ts + [] + [] == ts;
        r := Ok(MarkupV(ts));
      case Bang(e) =>
        r := Build(e, scope);
        if r.Ok? { r := NotOf(r.value); }
      case AndAnd(_, _) => r := BuildLogic(AndJ, src, scope);
      case OrOr(_, _) => r := BuildLogic(OrJ, src, scope);
      case Ternary(t, yes, no) =>
        var test := Build(t, scope);
        if test.Err? { return test; }
        if !IsMarker(test.value) {
          if JsTruthy(test.value) { r := Build(yes, scope); } else { r := Build(no, scope); }
          return;
        }
        var node := CondNodeOf(test.value);
        if node.Err? { return Err(node.error); }
        var a := Build(yes, scope);
        if a.Err? { return a; }
        var b := Build(no, scope);
        if b.Err? { return b; }
        r := Ok(TernaryV(node.value, a.value, b.value));
      case MapOver(list, _, _, _, _) =>
        var e := PathExpr(list, scope);
        if e.Err? { return Err(e.error); }
        r := LoopBlock(src, scope, e.value);
      case _ => r := Compile(src, scope, loopDepth);
    }

    method BuildLogic(op: Junction, src: Src, scope: Scope) returns (r: Result<Built, BuildError>)
      requires src.AndAnd? || src.OrOr?
      modifies this
      ensures r == CompileLogic(op, src, scope, old(loopDepth))
      ensures loopDepth == old(loopDepth)
      decreases src, 0
    {
      var a := Build(src.l, scope);
      if a.Err? { return a; }
      if !IsMarker(a.value) {
        if JsTruthy(a.value) == op.AndJ? { r := Build(src.r, scope); } else { r := a; }
        return;
      }
      var b := Build(src.r, scope);
      if b.Err? { return b; }
      r := Ok(LogicV(op, a.value, b.value));
    }

    /** `.map()`: names the loop variable after the current depth, runs the callback one level
        deeper, and restores the depth whether or not the callback succeeds. */
    method LoopBlock(src: Src, scope: Scope, list: Expr) returns (r: Result<Built, BuildError>)
      requires src.MapOver? && PathExpr(src.list, scope) == Ok(list)
      modifies this
      ensures r == Compile(src, scope, old(loopDepth))
      ensures loopDepth == old(loopDepth)
      decreases src, 0
    {
      var name := LoopName(loopDepth);
      var inner := LoopScope(scope, src, loopDepth, list);
      loopDepth := loopDepth + 1;
      var body := Build(src.body, inner);
      loopDepth := loopDepth - 1;
      if body.Err? { return body; }
      r := Ok(BlockV(ForTok(name, list), body.value, EndFor));
    }
  }

  lemma AroundNests(a: seq<Tok>, b: seq<Tok>, r: Result<seq<Tok>, BuildError>)
    ensures Around(a, Around(b, r, []), []) == Around(a + b, r, [])
    ensures Around([], r, []) == r
  {
    if r.Ok? {
      assert [] + r.value + [] == r.value;
      assert a + (b + r.value + []) + [] == a + b + r.value + [];
    }
  }
}
