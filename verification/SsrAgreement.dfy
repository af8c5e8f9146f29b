/** Where Tera and JavaScript agree on a value: on reading, deciding on and showing it. Each difference
    has an exact condition on the values read. */
module SsrAgreement {
  import opened Prelude
  import opened Decimals
  import opened Tera
  import opened TeraBlocks
  import opened SsrTemplates
  import opened SsrSemantics
  import opened SsrJavaScript

  // ----- reads

  /** What the server reads, or lacks, is what JavaScript reads, or lacks. */
  predicate Seen(v: Option<Value>, j: Outcome<JsValue>) {
    match v
    case Some(x) => j == Val(Of(x))
    case None => j == Throws || j == Val(Undefined)
  }

  /** No index with leading zeros, no character of a text. */
  predicate KeyOrdinary(v: Value, key: string) {
    match v
    case List(items) =>
      IsNumeral(key) && NumeralValue(key) < |items| ==> key == Numeral(NumeralValue(key))
    case Str(s) => !IsIndex(key, |s|)
    case _ => true
  }

  lemma MemberExactly(v: Value, key: string)
    ensures Seen(Member(v, key), JsMember(Of(v), key)) <==> KeyOrdinary(v, key)
  {
  }

  /** No object, unless with a property `length` that counts its properties. */
  predicate CountOrdinary(v: Value) {
    v.Obj? ==> "length" in v.fields && v.fields["length"] == Num(|v.fields| as real)
  }

  lemma CountExactly(v: Value)
    ensures Seen(LengthOf(v), JsLength(Of(v))) <==> CountOrdinary(v)
  {
  }

  /** A computed key that is a text or a natural number is a key like any other; anything else must be the
      name of nothing in JavaScript. */
  predicate ComputedOrdinary(v: Value, key: JsValue, h: Host) {
    if key.Of? && KeyText(key.v).Some? then KeyOrdinary(v, KeyText(key.v).value)
    else Seen(None, JsMember(Of(v), h.keyText(key)))
  }

  function OnServer(key: JsValue): Option<Value> {
    if key.Of? then Some(key.v) else None
  }

  lemma ComputedExactly(v: Value, key: JsValue, h: Host)
    ensures Seen(MemberBy(Some(v), OnServer(key)), JsMember(Of(v), JsKey(key, h))) <==> ComputedOrdinary(v, key, h)
  {
    if key.Of? && KeyText(key.v).Some? { MemberExactly(v, KeyText(key.v).value); }
  }

  /** Every step of the read is ordinary. */
  ghost predicate Ordinary(p: Path, d: Data, h: Host) {
    match p
    case Page(_) => true
    case Local(_) => true
    case Prop(base, key) =>
      Ordinary(base, d, h) && (ReadPath(base, d).Some? ==> KeyOrdinary(ReadPath(base, d).value, key))
    case Computed(base, at) =>
      && Ordinary(base, d, h)
      && (ReadPath(base, d).Some? ==>
            && Ordinary(at, d, h)
            && (JsRead(at, d, h).Val? ==> ComputedOrdinary(ReadPath(base, d).value, JsRead(at, d, h).value, h)))
    case Count(base) => Ordinary(base, d, h) && (ReadPath(base, d).Some? ==> CountOrdinary(ReadPath(base, d).value))
  }

  /** An ordinary read gives the same value in both languages; what the server lacks is `undefined` or
      throws in JavaScript. */
  lemma {:induction false} OrdinaryRead(p: Path, d: Data, h: Host)
    requires Ordinary(p, d, h)
    ensures Seen(ReadPath(p, d), JsRead(p, d, h))
  {
    match p
    case Page(_) =>
    case Local(_) =>
    case Prop(base, key) =>
      OrdinaryRead(base, d, h);
      if ReadPath(base, d).Some? { MemberExactly(ReadPath(base, d).value, key); }
    case Computed(base, at) =>
      OrdinaryRead(base, d, h);
      if ReadPath(base, d).Some? {
        OrdinaryRead(at, d, h);
        if JsRead(at, d, h).Val? { ComputedExactly(ReadPath(base, d).value, JsRead(at, d, h).value, h); }
      }
    case Count(base) =>
      OrdinaryRead(base, d, h);
      if ReadPath(base, d).Some? { CountExactly(ReadPath(base, d).value); }
  }

  // ----- decisions

  /** Both decide alike, or both fail. */
  predicate Matches(t: Truth, j: Outcome<bool>) {
    match t
    case Yes => j == Val(true)
    case No => j == Val(false)
    case Fault => j == Throws
  }

  /** A value decides alike in both languages exactly when it is not an empty list or object. */
  lemma TruthinessExactly(v: Value)
    ensures IsTruthy(v) == CountsAsTrue(Of(v)) <==> v != List([]) && v != Obj(map[])
  {
  }

  /** The value a test reads makes no difference between the languages. */
  ghost predicate TestsAlike(p: Path, d: Data, h: Host) {
    match JsRead(p, d, h)
    case Throws => Counts(p)
    case Val(Undefined) => !Counts(p)
    case Val(Of(v)) => v != List([]) && v != Obj(map[])
  }

  /** A read used as a condition decides alike exactly when its value is not an empty list or object,
      and an absent one only as a plain read of what is there to read. */
  lemma TestExactly(p: Path, d: Data, h: Host)
    requires Ordinary(p, d, h)
    ensures Matches(TruthOfSrc(Read(p), d), JsTruth(Read(p), d, h)) <==> TestsAlike(p, d, h)
  {
    OrdinaryRead(p, d, h);
  }

  /** Values of different kinds that `==` makes equal. */
  predicate Coerces(x: Value, y: Value, h: Host) {
    x != y && !(IsContainer(Of(x)) && IsContainer(Of(y))) && LooselyEqual(Of(x), Of(y), false, h)
  }

  predicate IsLoose(op: JsOp) {
    op.LooseEq? || op.LooseNe?
  }

  /** The operands make no difference between the languages. Equality needs both there, and no two equal
      lists or objects that are not the same one; a loose one also no values that coercion makes equal.
      Order needs two numbers. */
  ghost predicate ComparesAlike(op: JsOp, l: Outcome<JsValue>, r: Outcome<JsValue>, same: bool, h: Host) {
    l.Val? && r.Val? ==>
      && l.value.Of? && r.value.Of?
      && (if IsEquality(op) then
            && (IsContainer(l.value) && l.value == r.value ==> same)
            && !(IsLoose(op) && Coerces(l.value.v, r.value.v, h))
          else l.value.v.Num? && r.value.v.Num?)
  }

  lemma CompareValues(op: JsOp, x: Option<Value>, y: Option<Value>, l: Outcome<JsValue>,
      r: Outcome<JsValue>, same: bool, h: Host)
    requires Seen(x, l) && Seen(y, r)
    ensures Matches(Compare(TeraOp(op), x, y), Compared(op, l, r, same, h)) <==> ComparesAlike(op, l, r, same, h)
  {
  }

  lemma ComparePathsExactly(op: JsOp, l: Path, r: Path, d: Data, h: Host)
    requires Ordinary(l, d, h) && Ordinary(r, d, h)
    ensures Matches(TruthOfSrc(ComparePaths(op, l, r), d), JsTruth(ComparePaths(op, l, r), d, h))
            <==> ComparesAlike(op, JsRead(l, d, h), JsRead(r, d, h), h.same(l, r, d), h)
  {
    OrdinaryRead(l, d, h);
    OrdinaryRead(r, d, h);
    CompareValues(op, ReadPath(l, d), ReadPath(r, d), JsRead(l, d, h), JsRead(r, d, h), h.same(l, r, d), h);
  }

  function LeftOf(p: Outcome<JsValue>, c: Scalar, flipped: bool): Outcome<JsValue> {
    if flipped then Val(Of(ScalarValue(c))) else p
  }

  lemma CompareLitExactly(op: JsOp, p: Path, c: Scalar, flipped: bool, d: Data, h: Host)
    requires Ordinary(p, d, h) && !c.SNull?
    ensures var src := CompareLit(op, p, c, flipped);
            Matches(TruthOfSrc(src, d), JsTruth(src, d, h))
            <==> ComparesAlike(op, LeftOf(JsRead(p, d, h), c, flipped), LeftOf(JsRead(p, d, h), c, !flipped), false, h)
  {
    OrdinaryRead(p, d, h);
    var x, j := ReadPath(p, d), JsRead(p, d, h);
    var y, k := Some(ScalarValue(c)), Val(Of(ScalarValue(c)));
    if flipped { CompareValues(op, y, x, k, j, false, h); } else { CompareValues(op, x, y, j, k, false, h); }
  }

  /** The build answers a comparison with `null` by `false`, `!=` and `!==` by `true`. It is right for a
      strict one exactly on values that are not null, for a loose one on values that are there and not
      null, and for an order where that order does not hold. */
  predicate NullAlike(op: JsOp, v: Outcome<JsValue>, flipped: bool, h: Host) {
    && v.Val?
    && (match op
        case StrictEq => v.value != Of(Null)
        case StrictNe => v.value != Of(Null)
        case LooseEq => !Nullish(v.value)
        case LooseNe => !Nullish(v.value)
        case _ => !(if flipped then Ordered(op, Of(Null), v.value, h) else Ordered(op, v.value, Of(Null), h)))
  }

  lemma NullExactly(op: JsOp, p: Path, flipped: bool, d: Data, h: Host)
    ensures var src := CompareLit(op, p, SNull, flipped);
            Matches(TruthOfSrc(src, d), JsTruth(src, d, h)) <==> NullAlike(op, JsRead(p, d, h), flipped, h)
  {
  }

  /** A comparison with `null` is answered at build time, whatever the server will know. */
  lemma NullComparisonExactly(op: JsOp, p: Path, flipped: bool, scope: Scope, depth: nat, d: Data, h: Host)
    requires PathExpr(p, scope).Ok?
    ensures var src, answer := CompareLit(op, p, SNull, flipped), op.StrictNe? || op.LooseNe?;
            && Compile(src, scope, depth) == Ok(PlainV(SBool(answer)))
            && (JsTruth(src, d, h) == Val(answer) <==> NullAlike(op, JsRead(p, d, h), flipped, h))
  {
    NullExactly(op, p, flipped, d, h);
  }

  /** Every value the condition comes to read meets its condition. */
  ghost predicate DecidesAlike(src: Src, d: Data, h: Host) {
    match src
    case Read(p) => Ordinary(p, d, h) && TestsAlike(p, d, h)
    case ComparePaths(op, l, r) =>
      Ordinary(l, d, h) && Ordinary(r, d, h) && ComparesAlike(op, JsRead(l, d, h), JsRead(r, d, h), h.same(l, r, d), h)
    case CompareLit(op, p, c, flipped) =>
      if c.SNull? then NullAlike(op, JsRead(p, d, h), flipped, h)
      else
        && Ordinary(p, d, h)
        && ComparesAlike(op, LeftOf(JsRead(p, d, h), c, flipped), LeftOf(JsRead(p, d, h), c, !flipped), false, h)
    case Bang(e) => DecidesAlike(e, d, h)
    case AndAnd(l, r) => DecidesAlike(l, d, h) && (JsTruth(l, d, h) == Val(true) ==> DecidesAlike(r, d, h))
    case OrOr(l, r) => DecidesAlike(l, d, h) && (JsTruth(l, d, h) == Val(false) ==> DecidesAlike(r, d, h))
    case Ternary(t, yes, no) =>
      && DecidesAlike(t, d, h)
      && (JsTruth(t, d, h) == Val(true) ==> DecidesAlike(yes, d, h))
      && (JsTruth(t, d, h) == Val(false) ==> DecidesAlike(no, d, h))
    case MapOver(_, _, _, _, _) => false
    case _ => true
  }

  /** Such a condition decides as JavaScript does. */
  lemma {:induction false} DecisionAgrees(src: Src, d: Data, h: Host)
    requires DecidesAlike(src, d, h)
    ensures Matches(TruthOfSrc(src, d), JsTruth(src, d, h))
  {
    match src
    case Read(p) => TestExactly(p, d, h);
    case ComparePaths(op, l, r) => ComparePathsExactly(op, l, r, d, h);
    case CompareLit(op, p, c, flipped) =>
      if c.SNull? { NullExactly(op, p, flipped, d, h); } else { CompareLitExactly(op, p, c, flipped, d, h); }
    case Bang(e) => DecisionAgrees(e, d, h);
    case AndAnd(l, r) =>
      DecisionAgrees(l, d, h);
      if JsTruth(l, d, h) == Val(true) { DecisionAgrees(r, d, h); }
    case OrOr(l, r) =>
      DecisionAgrees(l, d, h);
      if JsTruth(l, d, h) == Val(false) { DecisionAgrees(r, d, h); }
    case Ternary(t, yes, no) =>
      DecisionAgrees(t, d, h);
      if JsTruth(t, d, h) == Val(true) { DecisionAgrees(yes, d, h); }
      if JsTruth(t, d, h) == Val(false) { DecisionAgrees(no, d, h); }
    case _ =>
  }

  // ----- content

  /** A read shown as content prints alike exactly when it is there and not `false`, or throws. */
  lemma ShowExactly(p: Path, d: Data, h: Host)
    requires Ordinary(p, d, h)
    ensures Show(ReadPath(p, d)) == JsShow(JsRead(p, d, h)) <==>
            JsRead(p, d, h) != Val(Undefined) && JsRead(p, d, h) != Val(Of(Bool(false)))
  {
    OrdinaryRead(p, d, h);
  }

  /** A failed condition leaves nothing on the page in JavaScript either, as every falsy value but 0 does. */
  ghost predicate FailsSilently(src: Src, d: Data, h: Host)
    decreases src
  {
    match src
    case Lit(c) => ScalarValue(c) != Num(0.0)
    case Read(p) => JsRead(p, d, h) != Val(Of(Num(0.0)))
    case AndAnd(l, r) => if JsTruth(l, d, h) == Val(false) then FailsSilently(l, d, h) else FailsSilently(r, d, h)
    case OrOr(_, r) => FailsSilently(r, d, h)
    case Ternary(t, yes, no) =>
      if JsTruth(t, d, h) == Val(true) then FailsSilently(yes, d, h) else FailsSilently(no, d, h)
    case _ => true
  }

  /** What a failed condition shows in JavaScript: 0 if it failed with 0, else nothing. */
  lemma {:induction false} FailedExactly(src: Src, d: Data, h: Host)
    requires JsTruth(src, d, h) == Val(false)
    ensures JsContent(src, d, h) == Some(if FailsSilently(src, d, h) then [] else [Shown(Num(0.0))])
  {
    match src
    case AndAnd(l, r) => if JsTruth(l, d, h) == Val(false) { FailedExactly(l, d, h); } else { FailedExactly(r, d, h); }
    case OrOr(_, r) => FailedExactly(r, d, h);
    case Ternary(t, yes, no) =>
      if JsTruth(t, d, h) == Val(true) { FailedExactly(yes, d, h); } else { FailedExactly(no, d, h); }
    case _ =>
  }

  /** Every value the page comes to read, decide on or show meets its condition. */
  ghost predicate Alike(src: Src, d: Data, h: Host)
    decreases src, 1
  {
    match src
    case Lit(_) => true
    case Raw(_) => true
    case Template(parts) => forall i | 0 <= i < |parts| :: Alike(parts[i], d, h)
    case Read(p) => Ordinary(p, d, h) && JsRead(p, d, h) != Val(Undefined) && JsRead(p, d, h) != Val(Of(Bool(false)))
    case AndAnd(l, r) =>
      && DecidesAlike(l, d, h)
      && (JsTruth(l, d, h) == Val(true) ==> Alike(r, d, h))
      && (JsTruth(l, d, h) == Val(false) ==> if StaticTruth(l).Some? then Alike(l, d, h) else FailsSilently(l, d, h))
    case OrOr(l, r) =>
      && DecidesAlike(l, d, h)
      && (JsTruth(l, d, h) == Val(true) ==> Alike(l, d, h))
      && (JsTruth(l, d, h) == Val(false) ==> Alike(r, d, h))
    case Ternary(t, yes, no) =>
      && DecidesAlike(t, d, h)
      && (JsTruth(t, d, h) == Val(true) ==> Alike(yes, d, h))
      && (JsTruth(t, d, h) == Val(false) ==> Alike(no, d, h))
    case MapOver(list, _, _, _, _) =>
      && Ordinary(list, d, h)
      && var items := JsItems(JsRead(list, d, h));
         items.Some? ==>
           forall i | 0 <= i < |items.value| :: BodyAlike(src, List(items.value), items.value, i, d, h)
    case _ => DecidesAlike(src, d, h)
  }

  ghost predicate BodyAlike(src: Src, list: Value, items: seq<Value>, i: nat, d: Data, h: Host)
    requires src.MapOver? && i < |items|
    decreases src, 0
  {
    Alike(src.body, LocalsIn(d, src, items[i], i, list), h)
  }

  lemma {:induction false} StaticDecision(src: Src, d: Data, h: Host)
    requires DecidesAlike(src, d, h) && StaticTruth(src).Some?
    ensures TruthOfSrc(src, d) == TruthOf(StaticTruth(src).value) && JsTruth(src, d, h) == Val(StaticTruth(src).value)
  {
    DecisionAgrees(src, d, h);
    match src
    case Bang(e) => StaticDecision(e, d, h);
    case AndAnd(l, r) =>
      StaticDecision(l, d, h);
      if StaticTruth(l).value { StaticDecision(r, d, h); }
    case OrOr(l, r) =>
      StaticDecision(l, d, h);
      if !StaticTruth(l).value { StaticDecision(r, d, h); }
    case Ternary(t, yes, no) =>
      StaticDecision(t, d, h);
      if StaticTruth(t).value { StaticDecision(yes, d, h); } else { StaticDecision(no, d, h); }
    case _ =>
  }

  /** What the server comes to is what JavaScript shows. */
  lemma {:induction false} ContentAlike(src: Src, d: Data, h: Host)
    requires Alike(src, d, h)
    ensures Content(src, d) == JsContent(src, d, h)
    decreases src, 2
  {
    if src.AndAnd? || src.OrOr? || src.Ternary? || src.MapOver? || src.Template? {
      NestedAlike(src, d, h);
    } else {
      LeafAlike(src, d, h);
    }
  }

  lemma {:induction false} NestedAlike(src: Src, d: Data, h: Host)
    requires (src.AndAnd? || src.OrOr? || src.Ternary? || src.MapOver? || src.Template?) && Alike(src, d, h)
    ensures Content(src, d) == JsContent(src, d, h)
    decreases src, 1
  {
    if src.AndAnd? || src.OrOr? {
      LogicAlike(src, d, h);
    } else if src.Ternary? {
      TernaryAlike(src, d, h);
    } else if src.MapOver? {
      LoopAlike(src, d, h);
    } else {
      PartsAlike(src.parts, d, h);
    }
  }

  lemma LeafAlike(src: Src, d: Data, h: Host)
    requires src.Lit? || src.Raw? || src.Read? || src.ComparePaths? || src.CompareLit? || src.Bang?
    requires Alike(src, d, h)
    ensures Content(src, d) == JsContent(src, d, h)
  {
    match src
    case Lit(_) =>
    case Raw(_) =>
    case Read(p) => ShowExactly(p, d, h);
    case _ => DecisionAgrees(src, d, h);
  }

  lemma {:induction false} TernaryAlike(src: Src, d: Data, h: Host)
    requires src.Ternary? && Alike(src, d, h)
    ensures Content(src, d) == JsContent(src, d, h)
    decreases src, 0
  {
    DecisionAgrees(src.t, d, h);
    if JsTruth(src.t, d, h) == Val(true) { ContentAlike(src.yes, d, h); }
    if JsTruth(src.t, d, h) == Val(false) { ContentAlike(src.no, d, h); }
  }

  lemma {:induction false} LoopAlike(src: Src, d: Data, h: Host)
    requires src.MapOver? && Alike(src, d, h)
    ensures Content(src, d) == JsContent(src, d, h)
    decreases src, 0
  {
    OrdinaryRead(src.list, d, h);
    var items := JsItems(JsRead(src.list, d, h));
    if items.Some? { ItemsAlike(src, items.value, 0, d, h); }
  }

  lemma {:induction false} LogicAlike(src: Src, d: Data, h: Host)
    requires (src.AndAnd? || src.OrOr?) && Alike(src, d, h)
    ensures Content(src, d) == JsContent(src, d, h)
    decreases src, 0
  {
    var l, r := src.l, src.r;
    DecisionAgrees(l, d, h);
    if StaticTruth(l).Some? { StaticDecision(l, d, h); }
    if JsTruth(l, d, h) == Val(src.AndAnd?) {
      ContentAlike(r, d, h);
    } else if JsTruth(l, d, h).Val? {
      if src.OrOr? || StaticTruth(l).Some? { ContentAlike(l, d, h); } else { FailedExactly(l, d, h); }
    }
  }

  lemma {:induction false} PartsAlike(parts: seq<Src>, d: Data, h: Host)
    requires forall i | 0 <= i < |parts| :: Alike(parts[i], d, h)
    ensures ContentOfAll(parts, d) == JsContentOfAll(parts, d, h)
    decreases parts, 0
  {
    if parts != [] {
      ContentAlike(parts[0], d, h);
      PartsAlike(parts[1..], d, h);
    }
  }

  lemma {:induction false} ItemsAlike(src: Src, items: seq<Value>, i: nat, d: Data, h: Host)
    requires src.MapOver? && i <= |items|
    requires forall k | 0 <= k < |items| :: BodyAlike(src, List(items), items, k, d, h)
    ensures ContentOfItems(src, List(items), items, i, d) == JsContentOfItems(src, List(items), items, i, d, h)
    decreases src, 0, |items| - i
  {
    if i < |items| {
      assert BodyAlike(src, List(items), items, i, d, h);
      ContentAlike(src.body, LocalsIn(d, src, items[i], i, List(items)), h);
      ItemsAlike(src, items, i + 1, d, h);
    }
  }

  // ----- computed keys

  /** A filter inside a subscript, which the emitted grammar does not have. */
  predicate FilterInKey(e: Expr) {
    match e
    case Ident(_) => false
    case Field(base, _) => FilterInKey(base)
    case Index(base, at) => FilterInKey(base) || FilterInKey(at) || HasPipe(at)
    case Length(base) => FilterInKey(base)
  }

  /** A computed key is itself a count. */
  predicate CountedKey(p: Path) {
    match p
    case Page(_) => false
    case Local(_) => false
    case Prop(base, _) => CountedKey(base)
    case Computed(base, at) => CountedKey(base) || CountedKey(at) || Counts(at)
    case Count(base) => CountedKey(base)
  }

  /** A path is emitted with a filter inside a subscript, as `t[rows | length]`, exactly when one of its
      computed keys is a count. */
  lemma {:induction false} CountedKeyExactly(p: Path, scope: Scope)
    requires PathExpr(p, scope).Ok? && forall x | x in scope :: !HasPipe(scope[x]) && !FilterInKey(scope[x])
    ensures FilterInKey(PathExpr(p, scope).value) <==> CountedKey(p)
    ensures HasPipe(PathExpr(p, scope).value) <==> Counts(p)
  {
    match p
    case Page(_) =>
    case Local(_) =>
    case Prop(base, _) => CountedKeyExactly(base, scope);
    case Computed(base, at) =>
      CountedKeyExactly(base, scope);
      CountedKeyExactly(at, scope);
    case Count(base) => CountedKeyExactly(base, scope);
  }

  /** `t[rows.length]` is one. */
  lemma CountedKeyEmitted()
    ensures PathExpr(Computed(Page("t"), Count(Page("rows"))), map[]) == Ok(Index(Ident("t"), Length(Ident("rows"))))
    ensures FilterInKey(Index(Ident("t"), Length(Ident("rows"))))
  {
    assert IsIdent("t") && IsIdent("rows");
  }
}
