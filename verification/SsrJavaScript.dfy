/** What a template means in JavaScript, were its expressions evaluated on the server data directly:
    JavaScript's truthiness, `===`, property reads and `.map()`, shown as Astro shows values. */
module SsrJavaScript {
  import opened Prelude
  import opened Decimals
  import opened Tera
  import opened TeraBlocks
  import opened SsrTemplates
  import opened SsrSemantics

  datatype JsValue = Undefined | Of(v: Value)

  datatype Outcome<+T> = Throws | Val(value: T)

  /** What JavaScript leaves to more than the values: how an unusual computed key, a list or an object reads
      as text, which number a text reads as, ordering texts, lists and objects, and whether two paths
      lead to the same object. */
  datatype Host = Host(
    keyText: JsValue -> string,
    text: Value -> string,
    number: string -> Option<real>,
    order: (JsOp, Value, Value) -> bool,
    same: (Path, Path, Data) -> bool)

  // ----- reading

  /** `key` is how JavaScript writes an index below `length`. */
  predicate IsIndex(key: string, length: nat) {
    IsNumeral(key) && key == Numeral(NumeralValue(key)) && NumeralValue(key) < length
  }

  function JsMember(v: JsValue, key: string): Outcome<JsValue> {
    match v
    case Undefined => Throws
    case Of(Null) => Throws
    case Of(Obj(fields)) => Val(if key in fields then Of(fields[key]) else Undefined)
    case Of(List(items)) => Val(if IsIndex(key, |items|) then Of(items[NumeralValue(key)]) else Undefined)
    case Of(Str(s)) => Val(if IsIndex(key, |s|) then Of(Str([s[NumeralValue(key)]])) else Undefined)
    case Of(_) => Val(Undefined)
  }

  /** `.length`: of an object it is a property like any other. */
  function JsLength(v: JsValue): Outcome<JsValue> {
    match v
    case Of(List(items)) => Val(Of(Num(|items| as real)))
    case Of(Str(s)) => Val(Of(Num(|s| as real)))
    case _ => JsMember(v, "length")
  }

  function JsKey(v: JsValue, h: Host): string {
    if v.Of? && KeyText(v.v).Some? then KeyText(v.v).value else h.keyText(v)
  }

  function JsRead(p: Path, d: Data, h: Host): Outcome<JsValue> {
    match p
    case Page(key) => Val(if key in d.page then Of(d.page[key]) else Undefined)
    case Local(name) => if name in d.locals then Val(Of(d.locals[name])) else Throws
    case Prop(base, key) =>
      (match JsRead(base, d, h)
       case Throws => Throws
       case Val(v) => JsMember(v, key))
    case Computed(base, at) =>
      (match JsRead(base, d, h)
       case Throws => Throws
       case Val(v) =>
         match JsRead(at, d, h)
         case Throws => Throws
         case Val(k) => JsMember(v, JsKey(k, h)))
    case Count(base) =>
      (match JsRead(base, d, h)
       case Throws => Throws
       case Val(v) => JsLength(v))
  }

  // ----- truth

  /** Every list and every object is truthy, the empty ones too. */
  predicate CountsAsTrue(v: JsValue) {
    match v
    case Undefined => false
    case Of(Null) => false
    case Of(Bool(b)) => b
    case Of(Num(n)) => n != 0.0
    case Of(Str(s)) => s != ""
    case Of(_) => true
  }

  predicate IsContainer(v: JsValue) {
    v.Of? && (v.v.List? || v.v.Obj?)
  }

  /** `===`: by value, but lists and objects only if they are the same one. */
  predicate StrictlyEqual(l: JsValue, r: JsValue, same: bool) {
    l == r && (IsContainer(l) ==> same)
  }

  predicate Nullish(v: JsValue) {
    v.Undefined? || v.v.Null?
  }

  /** The number `==` and the orders turn a value into, if any. */
  function AsNumber(v: Value, h: Host): Option<real> {
    match v
    case Num(n) => Some(n)
    case Bool(b) => Some(if b then 1.0 else 0.0)
    case Null => Some(0.0)
    case Str(s) => h.number(s)
    case _ => None
  }

  /** Lists and objects compare with anything else as their text. */
  function Primitive(v: Value, h: Host): Value {
    if v.List? || v.Obj? then Str(h.text(v)) else v
  }

  /** `==`: `null` and `undefined` equal each other and nothing else; two lists or objects compare as with
      `===`; two texts by value; and all else as numbers. */
  predicate LooselyEqual(l: JsValue, r: JsValue, same: bool, h: Host) {
    if Nullish(l) || Nullish(r) then Nullish(l) && Nullish(r)
    else if IsContainer(l) && IsContainer(r) then StrictlyEqual(l, r, same)
    else
      var a, b := Primitive(l.v, h), Primitive(r.v, h);
      if a.Str? && b.Str? then a == b
      else AsNumber(a, h).Some? && AsNumber(a, h) == AsNumber(b, h)
  }

  predicate NumbersOrdered(op: JsOp, a: real, b: real) {
    match op
    case Below => a < b
    case AtMost => a <= b
    case Above => a > b
    case AtLeast => a >= b
    case _ => false
  }

  /** An order of numbers, `true`, `false` and `null` is that of their numbers; `undefined` is in none. */
  predicate Ordered(op: JsOp, l: JsValue, r: JsValue, h: Host) {
    if l.Undefined? || r.Undefined? then false
    else if OnSight(l.v) && OnSight(r.v) then NumbersOrdered(op, AsNumber(l.v, h).value, AsNumber(r.v, h).value)
    else h.order(op, l.v, r.v)
  }

  predicate OnSight(v: Value) {
    v.Num? || v.Bool? || v.Null?
  }

  predicate IsEquality(op: JsOp) {
    op.StrictEq? || op.StrictNe? || op.LooseEq? || op.LooseNe?
  }

  predicate JsCompare(op: JsOp, l: JsValue, r: JsValue, same: bool, h: Host) {
    match op
    case StrictEq => StrictlyEqual(l, r, same)
    case StrictNe => !StrictlyEqual(l, r, same)
    case LooseEq => LooselyEqual(l, r, same, h)
    case LooseNe => !LooselyEqual(l, r, same, h)
    case _ => Ordered(op, l, r, h)
  }

  function Compared(op: JsOp, l: Outcome<JsValue>, r: Outcome<JsValue>, same: bool, h: Host): Outcome<bool> {
    if l.Throws? || r.Throws? then Throws else Val(JsCompare(op, l.value, r.value, same, h))
  }

  function JsTruth(src: Src, d: Data, h: Host): Outcome<bool> {
    match src
    case Lit(c) => Val(CountsAsTrue(Of(ScalarValue(c))))
    case Raw(_) => Val(true)
    case Template(_) => Val(true)
    case Read(p) => (match JsRead(p, d, h) case Throws => Throws case Val(v) => Val(CountsAsTrue(v)))
    case ComparePaths(op, l, r) => Compared(op, JsRead(l, d, h), JsRead(r, d, h), h.same(l, r, d), h)
    case CompareLit(op, p, c, flipped) =>
      if flipped then Compared(op, Val(Of(ScalarValue(c))), JsRead(p, d, h), false, h)
      else Compared(op, JsRead(p, d, h), Val(Of(ScalarValue(c))), false, h)
    case Bang(e) => (match JsTruth(e, d, h) case Throws => Throws case Val(b) => Val(!b))
    case AndAnd(l, r) =>
      (match JsTruth(l, d, h)
       case Throws => Throws
       case Val(b) => if b then JsTruth(r, d, h) else Val(false))
    case OrOr(l, r) =>
      (match JsTruth(l, d, h)
       case Throws => Throws
       case Val(b) => if b then Val(true) else JsTruth(r, d, h))
    case Ternary(t, yes, no) =>
      (match JsTruth(t, d, h)
       case Throws => Throws
       case Val(b) => if b then JsTruth(yes, d, h) else JsTruth(no, d, h))
    case MapOver(list, _, _, _, _) => if JsItems(JsRead(list, d, h)).Some? then Val(true) else Throws
  }

  // ----- content

  /** Only a list has a `.map()` to call. */
  function JsItems(v: Outcome<JsValue>): Option<seq<Value>> {
    if v.Val? && v.value.Of? && v.value.v.List? then Some(v.value.v.items) else None
  }

  function JsShow(v: Outcome<JsValue>): Option<seq<Out>> {
    match v
    case Throws => None
    case Val(Undefined) => Some([])
    case Val(Of(x)) => Some(Displayed(x))
  }

  function ShowBool(b: Outcome<bool>): Option<seq<Out>> {
    JsShow(match b case Throws => Throws case Val(x) => Val(Of(Bool(x))))
  }

  /** The content an expression shows; `None` when it throws. A failed `a && b` shows `a`. */
  function JsContent(src: Src, d: Data, h: Host): Option<seq<Out>>
    decreases src, 1
  {
    match src
    case Lit(c) => Some(Displayed(ScalarValue(c)))
    case Raw(html) => Some([Markup(html)])
    case Template(parts) => JsContentOfAll(parts, d, h)
    case Read(p) => JsShow(JsRead(p, d, h))
    case AndAnd(l, r) =>
      (match JsTruth(l, d, h) case Throws => None case Val(b) => if b then JsContent(r, d, h) else JsContent(l, d, h))
    case OrOr(l, r) =>
      (match JsTruth(l, d, h) case Throws => None case Val(b) => if b then JsContent(l, d, h) else JsContent(r, d, h))
    case Ternary(t, yes, no) =>
      (match JsTruth(t, d, h)
       case Throws => None
       case Val(b) => if b then JsContent(yes, d, h) else JsContent(no, d, h))
    case MapOver(list, _, _, _, _) =>
      var v := JsRead(list, d, h);
      if JsItems(v).Some? then JsContentOfItems(src, v.value.v, JsItems(v).value, 0, d, h) else None
    case _ => ShowBool(JsTruth(src, d, h))
  }

  function JsContentOfAll(parts: seq<Src>, d: Data, h: Host): Option<seq<Out>>
    decreases parts, 0
  {
    if parts == [] then Some([]) else Then(JsContent(parts[0], d, h), JsContentOfAll(parts[1..], d, h))
  }

  function JsContentOfItems(src: Src, list: Value, items: seq<Value>, i: nat, d: Data, h: Host): Option<seq<Out>>
    requires src.MapOver? && i <= |items|
    decreases src, 0, |items| - i
  {
    if i == |items| then Some([])
    else
      Then(JsContent(src.body, LocalsIn(d, src, items[i], i, list), h), JsContentOfItems(src, list, items, i + 1, d, h))
  }
}
