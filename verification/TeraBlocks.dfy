/** Tera's block structure: text, `{{ }}`, `{% if %}…{% else %}…{% endif %}` and
    `{% for %}…{% endfor %}`, read from a flat token list and rendered against a context. */
module TeraBlocks {
  import opened Prelude
  import opened Tera

  datatype Tok =
    | Text(html: string)
    | Const(c: Scalar)
    | Print(e: Expr)
    | IfTok(cond: seq<Token>)
    | ElseTok
    | EndIf
    | ForTok(name: string, list: Expr)
    | EndFor

  datatype Node =
    | TextN(html: string)
    | ConstN(c: Scalar)
    | PrintN(e: Expr)
    | IfN(cond: seq<Token>, yes: seq<Node>, no: seq<Node>)
    | ForN(name: string, list: Expr, body: seq<Node>)

  /** A piece of rendered output: markup, or the text of a value. */
  datatype Out = Markup(html: string) | Shown(v: Value)

  // ----- parsing

  predicate Closes(t: Tok) {
    t.ElseTok? || t.EndIf? || t.EndFor?
  }

  type Parsed = Option<(seq<Node>, seq<Tok>)>

  function Prepend(nodes: seq<Node>, r: Parsed): Parsed {
    match r
    case Some((more, rest)) => Some((nodes + more, rest))
    case None => None
  }

  /** Reads nodes up to the end or the first closing tag that belongs to an outer block. */
  function ParseNodes(ts: seq<Tok>): (r: Parsed)
    ensures r.Some? ==> |r.value.1| <= |ts|
    decreases |ts|, 1
  {
    if ts == [] || Closes(ts[0]) then Some(([], ts))
    else
      match ParseNode(ts)
      case Some((n, rest)) => Prepend([n], ParseNodes(rest))
      case None => None
  }

  function ParseNode(ts: seq<Tok>): (r: Option<(Node, seq<Tok>)>)
    requires ts != [] && !Closes(ts[0])
    ensures r.Some? ==> |r.value.1| < |ts|
    decreases |ts|, 0
  {
    match ts[0]
    case Text(html) => Some((TextN(html), ts[1..]))
    case Const(c) => Some((ConstN(c), ts[1..]))
    case Print(e) => Some((PrintN(e), ts[1..]))
    case IfTok(cond) =>
      (match ParseNodes(ts[1..])
       case None => None
       case Some((yes, rest)) =>
         if rest != [] && rest[0].EndIf? then Some((IfN(cond, yes, []), rest[1..]))
         else if rest != [] && rest[0].ElseTok? then ParseElse(cond, yes, rest[1..])
         else None)
    case ForTok(name, list) =>
      (match ParseNodes(ts[1..])
       case None => None
       case Some((body, rest)) =>
         if rest != [] && rest[0].EndFor? then Some((ForN(name, list, body), rest[1..])) else None)
  }

  function ParseElse(cond: seq<Token>, yes: seq<Node>, ts: seq<Tok>): (r: Option<(Node, seq<Tok>)>)
    ensures r.Some? ==> |r.value.1| <= |ts|
    decreases |ts|, 2
  {
    match ParseNodes(ts)
    case None => None
    case Some((no, rest)) =>
      if rest != [] && rest[0].EndIf? then Some((IfN(cond, yes, no), rest[1..])) else None
  }

  function ParseTemplate(ts: seq<Tok>): Option<seq<Node>> {
    match ParseNodes(ts)
    case Some((nodes, rest)) => if rest == [] then Some(nodes) else None
    case None => None
  }

  // ----- rendering

  /** One iteration's context: the loop variable and Tera's own `loop` object. */
  function LoopContext(env: Context, name: string, item: Value, i: nat): Context {
    env[name := item]["loop" := Obj(map["index0" := Num(i as real)])]
  }

  function Then(a: Option<seq<Out>>, b: Option<seq<Out>>): Option<seq<Out>> {
    if a.Some? && b.Some? then Some(a.value + b.value) else None
  }

  /** What Tera prints: `null` and empty text leave nothing, a missing value fails the render. */
  function Show(v: Option<Value>): Option<seq<Out>> {
    match v
    case Some(x) => Some(if x.Null? || x == Str("") then [] else [Shown(x)])
    case None => None
  }

  /** What Astro prints: nothing for `null`, `false` and empty text, while 0 is printed. */
  function Displayed(v: Value): seq<Out> {
    if v.Null? || v == Str("") || v == Bool(false) then [] else [Shown(v)]
  }

  /** What a loop iterates over: only a list can be looped. */
  function ItemsOf(v: Option<Value>): Option<seq<Value>> {
    if v.Some? && v.value.List? then Some(v.value.items) else None
  }

  function Choose(t: Truth, yes: Option<seq<Out>>, no: Option<seq<Out>>): Option<seq<Out>> {
    match t
    case Yes => yes
    case No => no
    case Fault => None
  }

  /** The rendered output, or `None` when the render fails. */
  function Render(nodes: seq<Node>, env: Context): Option<seq<Out>>
    decreases nodes, 0
  {
    if nodes == [] then Some([])
    else Then(RenderNode(nodes[0], env), Render(nodes[1..], env))
  }

  function RenderNode(n: Node, env: Context): Option<seq<Out>>
    decreases n, 1
  {
    match n
    case TextN(html) => Some([Markup(html)])
    case ConstN(c) => Some(Displayed(ScalarValue(c)))
    case PrintN(e) => Show(EvalExpr(e, env))
    case IfN(cond, yes, no) => Choose(EvalCondition(cond, env), Render(yes, env), Render(no, env))
    case ForN(name, list, body) =>
      var items := ItemsOf(EvalExpr(list, env));
      if items.Some? then RenderItems(name, items.value, 0, body, env) else None
  }

  function RenderItems(name: string, items: seq<Value>, i: nat, body: seq<Node>, env: Context): Option<seq<Out>>
    requires i <= |items|
    decreases body, 1, |items| - i
  {
    if i == |items| then Some([])
    else Then(Render(body, LoopContext(env, name, items[i], i)), RenderItems(name, items, i + 1, body, env))
  }

  /** Parses and renders a template. */
  function Run(ts: seq<Tok>, env: Context): Option<seq<Out>> {
    match ParseTemplate(ts)
    case Some(nodes) => Render(nodes, env)
    case None => None
  }

  /** The rendering of a loop over a piece of template text. */
  function RunItems(name: string, items: seq<Value>, i: nat, body: seq<Tok>, env: Context): Option<seq<Out>>
    requires i <= |items|
    decreases |items| - i
  {
    if i == |items| then Some([])
    else Then(Run(body, LoopContext(env, name, items[i], i)), RunItems(name, items, i + 1, body, env))
  }

  // ----- template text that stands on its own

  /** Blocks are closed inside `ts`, so it parses the same wherever it is placed. */
  ghost predicate Balanced(ts: seq<Tok>) {
    && ParseTemplate(ts).Some?
    && forall rest :: ParseNodes(ts + rest) == Prepend(ParseTemplate(ts).value, ParseNodes(rest))
  }

  lemma BalancedBy(ts: seq<Tok>, nodes: seq<Node>)
    requires forall rest :: ParseNodes(ts + rest) == Prepend(nodes, ParseNodes(rest))
    ensures Balanced(ts) && ParseTemplate(ts) == Some(nodes)
  {
    assert ts + [] == ts;
    assert ParseNodes(ts + []) == Some((nodes + [], []));
    assert nodes + [] == nodes;
  }

  lemma ThenLaws(a: Option<seq<Out>>, b: Option<seq<Out>>, c: Option<seq<Out>>)
    ensures Then(Then(a, b), c) == Then(a, Then(b, c))
    ensures Then(Some([]), c) == c && Then(c, Some([])) == c
  {
    if a.Some? && b.Some? && c.Some? {
      assert (a.value + b.value) + c.value == a.value + (b.value + c.value);
    }
    if c.Some? {
      assert [] + c.value == c.value && c.value + [] == c.value;
    }
  }

  lemma {:induction false} RenderConcat(a: seq<Node>, b: seq<Node>, env: Context)
    ensures Render(a + b, env) == Then(Render(a, env), Render(b, env))
  {
    if a == [] {
      assert a + b == b;
      ThenLaws(Some([]), Some([]), Render(b, env));
    } else {
      assert (a + b)[1..] == a[1..] + b;
      RenderConcat(a[1..], b, env);
      ThenLaws(RenderNode(a[0], env), Render(a[1..], env), Render(b, env));
    }
  }

  lemma RenderOne(n: Node, env: Context)
    ensures Render([n], env) == RenderNode(n, env)
  {
    assert [n][1..] == [];
    ThenLaws(None, None, RenderNode(n, env));
  }

  lemma EmptyBalanced(env: Context)
    ensures Balanced([]) && Run([], env) == Some([])
  {
    forall rest ensures ParseNodes([] + rest) == Prepend([], ParseNodes(rest)) {
      assert [] + rest == rest;
      assert forall ns: seq<Node> :: [] + ns == ns;
    }
    BalancedBy([], []);
  }

  lemma PrependTwice(x: seq<Node>, y: seq<Node>, r: Parsed)
    ensures Prepend(x, Prepend(y, r)) == Prepend(x + y, r)
  {
    if r.Some? {
      assert x + (y + r.value.0) == (x + y) + r.value.0;
    }
  }

  lemma BalancedAt(ts: seq<Tok>, rest: seq<Tok>)
    requires Balanced(ts)
    ensures ParseNodes(ts + rest) == Prepend(ParseTemplate(ts).value, ParseNodes(rest))
  {
  }

  /** Sequencing balanced text sequences its output. */
  lemma RunConcat(a: seq<Tok>, b: seq<Tok>, env: Context)
    requires Balanced(a) && Balanced(b)
    ensures Balanced(a + b) && Run(a + b, env) == Then(Run(a, env), Run(b, env))
  {
    var x, y := ParseTemplate(a).value, ParseTemplate(b).value;
    forall rest ensures ParseNodes(a + b + rest) == Prepend(x + y, ParseNodes(rest)) {
      BalancedAt(a, b + rest);
      BalancedAt(b, rest);
      Regroup(a, b, rest);
      PrependTwice(x, y, ParseNodes(rest));
    }
    BalancedBy(a + b, x + y);
    RenderConcat(x, y, env);
  }

  lemma Regroup(a: seq<Tok>, b: seq<Tok>, c: seq<Tok>)
    ensures a + b + c == a + (b + c)
  {
  }

  lemma RunLeaf(t: Tok, env: Context)
    requires t.Text? || t.Const? || t.Print?
    ensures Balanced([t])
    ensures t.Text? ==> Run([t], env) == Some([Markup(t.html)])
    ensures t.Const? ==> Run([t], env) == Some(Displayed(ScalarValue(t.c)))
    ensures t.Print? ==> Run([t], env) == Show(EvalExpr(t.e, env))
  {
    var n := match t case Text(html) => TextN(html) case Const(c) => ConstN(c) case Print(e) => PrintN(e);
    forall rest ensures ParseNodes([t] + rest) == Prepend([n], ParseNodes(rest)) {
      assert ([t] + rest)[1..] == rest;
    }
    BalancedBy([t], [n]);
    RenderOne(n, env);
  }

  /** Balanced text is read up to the closing tag after it. */
  lemma StopsAt(ts: seq<Tok>, rest: seq<Tok>)
    requires Balanced(ts) && rest != [] && Closes(rest[0])
    ensures ParseNodes(ts + rest) == Some((ParseTemplate(ts).value, rest))
  {
    var nodes := ParseTemplate(ts).value;
    assert ParseNodes(rest) == Some(([], rest));
    assert nodes + [] == nodes;
  }

  lemma IfParses(cond: seq<Token>, yes: seq<Tok>, no: seq<Tok>, x: seq<Node>, y: seq<Node>, rest: seq<Tok>)
    requires ParseNodes(yes + ([ElseTok] + (no + ([EndIf] + rest)))) == Some((x, [ElseTok] + (no + ([EndIf] + rest))))
    requires ParseNodes(no + ([EndIf] + rest)) == Some((y, [EndIf] + rest))
    ensures ParseNodes([IfTok(cond)] + yes + [ElseTok] + no + [EndIf] + rest)
            == Prepend([IfN(cond, x, y)], ParseNodes(rest))
  {
    var ts := [IfTok(cond)] + yes + [ElseTok] + no + [EndIf] + rest;
    var afterElse := no + ([EndIf] + rest);
    assert ts[1..] == yes + ([ElseTok] + afterElse);
    assert ([ElseTok] + afterElse)[1..] == afterElse;
    assert ([EndIf] + rest)[1..] == rest;
    assert ParseElse(cond, x, afterElse) == Some((IfN(cond, x, y), rest));
    assert ParseNode(ts) == Some((IfN(cond, x, y), rest));
  }

  /** `{% if %}` chooses by its condition; a condition that faults fails the render. */
  lemma RunIf(cond: seq<Token>, yes: seq<Tok>, no: seq<Tok>, env: Context)
    requires Balanced(yes) && Balanced(no)
    ensures var ts := [IfTok(cond)] + yes + [ElseTok] + no + [EndIf];
            && Balanced(ts)
            && Run(ts, env) == Choose(EvalCondition(cond, env), Run(yes, env), Run(no, env))
  {
    var x, y := ParseTemplate(yes).value, ParseTemplate(no).value;
    var ts := [IfTok(cond)] + yes + [ElseTok] + no + [EndIf];
    var n := IfN(cond, x, y);
    forall rest ensures ParseNodes(ts + rest) == Prepend([n], ParseNodes(rest)) {
      StopsAt(yes, [ElseTok] + (no + ([EndIf] + rest)));
      StopsAt(no, [EndIf] + rest);
      IfParses(cond, yes, no, x, y, rest);
    }
    BalancedBy(ts, [n]);
    RenderOne(n, env);
  }

  lemma RunIfOnly(cond: seq<Token>, yes: seq<Tok>, env: Context)
    requires Balanced(yes)
    ensures var ts := [IfTok(cond)] + yes + [EndIf];
            && Balanced(ts)
            && Run(ts, env) == Choose(EvalCondition(cond, env), Run(yes, env), Some([]))
  {
    var x := ParseTemplate(yes).value;
    var ts := [IfTok(cond)] + yes + [EndIf];
    var n := IfN(cond, x, []);
    forall rest ensures ParseNodes(ts + rest) == Prepend([n], ParseNodes(rest)) {
      StopsAt(yes, [EndIf] + rest);
      assert (ts + rest)[1..] == yes + ([EndIf] + rest);
      assert ([EndIf] + rest)[1..] == rest;
    }
    BalancedBy(ts, [n]);
    RenderOne(n, env);
  }

  lemma {:induction false} ItemsAgree(name: string, items: seq<Value>, i: nat, body: seq<Tok>, env: Context)
    requires Balanced(body) && i <= |items|
    ensures RenderItems(name, items, i, ParseTemplate(body).value, env) == RunItems(name, items, i, body, env)
    decreases |items| - i
  {
    if i < |items| {
      ItemsAgree(name, items, i + 1, body, env);
    }
  }

  lemma ForBalanced(name: string, list: Expr, body: seq<Tok>)
    requires Balanced(body)
    ensures var ts := [ForTok(name, list)] + body + [EndFor];
            Balanced(ts) && ParseTemplate(ts) == Some([ForN(name, list, ParseTemplate(body).value)])
  {
    var ts := [ForTok(name, list)] + body + [EndFor];
    var n := ForN(name, list, ParseTemplate(body).value);
    forall rest ensures ParseNodes(ts + rest) == Prepend([n], ParseNodes(rest)) {
      StopsAt(body, [EndFor] + rest);
      assert (ts + rest)[1..] == body + ([EndFor] + rest);
      assert ([EndFor] + rest)[1..] == rest;
    }
    BalancedBy(ts, [n]);
  }

  /** `{% for %}` renders its body once per item, in order; anything but a list fails the render. */
  lemma RunFor(name: string, list: Expr, body: seq<Tok>, env: Context)
    requires Balanced(body)
    ensures var ts := [ForTok(name, list)] + body + [EndFor];
            && Balanced(ts)
            && var items := ItemsOf(EvalExpr(list, env));
               Run(ts, env) == if items.Some? then RunItems(name, items.value, 0, body, env) else None
  {
    ForBalanced(name, list, body);
    RenderOne(ForN(name, list, ParseTemplate(body).value), env);
    var items := ItemsOf(EvalExpr(list, env));
    if items.Some? {
      ItemsAgree(name, items.value, 0, body, env);
    }
  }
}
