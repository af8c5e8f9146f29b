/** What a template comes to when the server decides it, without compiling it: conditions are decided
    as Tera decides them and values are printed as Tera prints them. `SsrJavaScript` is what the
    same source means in JavaScript. */
module SsrSemantics {
  import opened Prelude
  import opened Tera
  import opened TeraBlocks
  import opened SsrTemplates

  /** The page's data and the callback parameters in scope. */
  datatype Data = Data(page: Context, locals: map<string, Value>)

  function ReadPath(p: Path, d: Data): Option<Value> {
    match p
    case Page(key) => if key in d.page then Some(d.page[key]) else None
    case Local(name) => if name in d.locals then Some(d.locals[name]) else None
    case Prop(base, key) => OnValue(ReadPath(base, d), v => Member(v, key))
    case Computed(base, at) => MemberBy(ReadPath(base, d), ReadPath(at, d))
    case Count(base) => OnValue(ReadPath(base, d), LengthOf)
  }

  /** Is this a count, whose absence is an error instead of a false condition? */
  predicate Counts(p: Path) {
    match p
    case Count(_) => true
    case Prop(base, _) => Counts(base)
    case Computed(base, at) => Counts(base) || Counts(at)
    case _ => false
  }

  /** The truth value of an expression that needs no server data, known at build time. */
  function StaticTruth(src: Src): Option<bool> {
    match src
    case Lit(c) => Some(IsTruthy(ScalarValue(c)))
    case Raw(_) => Some(true)
    case Template(_) => Some(true)
    case CompareLit(op, _, c, _) => if c.SNull? then Some(TeraOp(op).Ne?) else None
    case Bang(e) => (match StaticTruth(e) case Some(b) => Some(!b) case None => None)
    case AndAnd(l, r) =>
      (match StaticTruth(l) case Some(b) => if b then StaticTruth(r) else Some(false) case None => None)
    case OrOr(l, r) =>
      (match StaticTruth(l) case Some(b) => if b then Some(true) else StaticTruth(r) case None => None)
    case Ternary(t, yes, no) =>
      (match StaticTruth(t) case Some(b) => if b then StaticTruth(yes) else StaticTruth(no) case None => None)
    case _ => None
  }

  /** Truth of an expression used as a condition. An absent key reads as false. A comparison
      with `null` never reaches the server: the build has answered it. */
  function TruthOfSrc(src: Src, d: Data): Truth {
    match src
    case Lit(c) => TruthOf(IsTruthy(ScalarValue(c)))
    case Raw(_) => Yes
    case Template(_) => Yes
    case Read(p) =>
      (match ReadPath(p, d)
       case Some(v) => TruthOf(IsTruthy(v))
       case None => if Counts(p) then Fault else No)
    case ComparePaths(op, left, right) => Compare(TeraOp(op), ReadPath(left, d), ReadPath(right, d))
    case CompareLit(op, p, c, flipped) =>
      if c.SNull? then TruthOf(TeraOp(op).Ne?)
      else if flipped then Compare(TeraOp(op), Some(ScalarValue(c)), ReadPath(p, d))
      else Compare(TeraOp(op), ReadPath(p, d), Some(ScalarValue(c)))
    case Bang(e) => Flip(TruthOfSrc(e, d))
    case AndAnd(l, r) => (match TruthOfSrc(l, d) case Yes => TruthOfSrc(r, d) case t => t)
    case OrOr(l, r) => (match TruthOfSrc(l, d) case No => TruthOfSrc(r, d) case t => t)
    case Ternary(t, yes, no) =>
      (match TruthOfSrc(t, d) case Yes => TruthOfSrc(yes, d) case No => TruthOfSrc(no, d) case Fault => Fault)
    case MapOver(_, _, _, _, _) => Fault
  }

  function LocalsIn(d: Data, src: Src, item: Value, i: nat, list: Value): Data
    requires src.MapOver?
  {
    d.(locals := d.locals[src.item := item][src.index := Num(i as real)][src.all := list])
  }

  /** The content an expression renders to; `None` when rendering it fails. `a && b` shows `b`
      when `a` holds and nothing when server data makes it fail. */
  function Content(src: Src, d: Data): Option<seq<Out>>
    decreases src, 1
  {
    match src
    case Lit(c) => Some(Displayed(ScalarValue(c)))
    case Raw(html) => Some([Markup(html)])
    case Template(parts) => ContentOfAll(parts, d)
    case Read(p) => Show(ReadPath(p, d))
    case AndAnd(l, r) =>
      (match StaticTruth(l)
       case Some(b) => if b then Content(r, d) else Content(l, d)
       case None => Choose(TruthOfSrc(l, d), Content(r, d), Some([])))
    case OrOr(l, r) =>
      (match StaticTruth(l)
       case Some(b) => if b then Content(l, d) else Content(r, d)
       case None => Choose(TruthOfSrc(l, d), Content(l, d), Content(r, d)))
    case Ternary(t, yes, no) => Choose(TruthOfSrc(t, d), Content(yes, d), Content(no, d))
    case MapOver(list, _, _, _, _) =>
      var v := ReadPath(list, d);
      if ItemsOf(v).Some? then ContentOfItems(src, v.value, ItemsOf(v).value, 0, d) else None
    case _ => Choose(TruthOfSrc(src, d), Some([Shown(Bool(true))]), Some([]))
  }

  function ContentOfAll(parts: seq<Src>, d: Data): Option<seq<Out>>
    decreases parts, 0
  {
    if parts == [] then Some([]) else Then(Content(parts[0], d), ContentOfAll(parts[1..], d))
  }

  /** `.map()`: the body once per item, with the item, its index and the whole list in scope. */
  function ContentOfItems(src: Src, list: Value, items: seq<Value>, i: nat, d: Data): Option<seq<Out>>
    requires src.MapOver? && i <= |items|
    decreases src, 0, |items| - i
  {
    if i == |items| then Some([])
    else Then(Content(src.body, LocalsIn(d, src, items[i], i, list)), ContentOfItems(src, list, items, i + 1, d))
  }
}
