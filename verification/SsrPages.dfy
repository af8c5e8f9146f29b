/** Pages against JavaScript. A page whose values meet the conditions of `SsrAgreement` renders what
    JavaScript shows; for pages that guard or choose markup, compare a read or show one, the condition is
    exact. Five inputs show pages that follow the rule on the source and still differ. */
module SsrPages {
  import opened Prelude
  import opened Decimals
  import opened Tera
  import opened TeraBlocks
  import opened SsrConditions
  import opened SsrTemplates
  import opened SsrSemantics
  import opened SsrTemplateProofs
  import opened SsrCapture
  import opened SsrJavaScript
  import opened SsrAgreement

  /** A compiled page that captures no name and reads no value on which the languages differ renders
      what JavaScript shows. */
  lemma PagePreserved(src: Src, page: Context, h: Host)
    requires Transparent(src, map[], {}, 0) && CompilePage(src).Ok? && Alike(src, Data(page, map[]), h)
    ensures Run(CompilePage(src).value, page) == JsContent(src, Data(page, map[]), h)
  {
    PageRendered(src, page);
    ContentAlike(src, Data(page, map[]), h);
  }

  /** The same for a page that follows the rule on the source alone. */
  lemma PlainPagePreserved(src: Src, page: Context, h: Host)
    requires SsrCapture.Plain(src, {}, {}) && CompilePage(src).Ok? && Alike(src, Data(page, map[]), h)
    ensures Run(CompilePage(src).value, page) == JsContent(src, Data(page, map[]), h)
  {
    PlainPageRendered(src, page);
    ContentAlike(src, Data(page, map[]), h);
  }

  /** A page that chooses between two pieces of markup shows the one JavaScript shows exactly when the
      condition decides as in JavaScript. */
  lemma ChoiceExactly(t: Src, yes: string, no: string, page: Context, h: Host)
    requires yes != no && Transparent(t, map[], {}, 0)
    requires CompilePage(Ternary(t, Raw(yes), Raw(no))).Ok?
    ensures var src, d := Ternary(t, Raw(yes), Raw(no)), Data(page, map[]);
            Run(CompilePage(src).value, page) == JsContent(src, d, h) <==> Matches(TruthOfSrc(t, d), JsTruth(t, d, h))
  {
    var src := Ternary(t, Raw(yes), Raw(no));
    PageRendered(src, page);
    assert [Markup(yes)][0] != [Markup(no)][0];
  }

  /** A page that shows markup on a condition shows what JavaScript shows exactly when the condition
      decides as in JavaScript and, where it fails, not with 0. */
  lemma GuardExactly(t: Src, html: string, page: Context, h: Host)
    requires Transparent(t, map[], {}, 0) && StaticTruth(t).None? && CompilePage(AndAnd(t, Raw(html))).Ok?
    ensures var src, d := AndAnd(t, Raw(html)), Data(page, map[]);
            Run(CompilePage(src).value, page) == JsContent(src, d, h) <==>
            Matches(TruthOfSrc(t, d), JsTruth(t, d, h)) && (JsTruth(t, d, h) == Val(false) ==> FailsSilently(t, d, h))
  {
    PageRendered(AndAnd(t, Raw(html)), page);
    if JsTruth(t, Data(page, map[]), h) == Val(false) { FailedExactly(t, Data(page, map[]), h); }
  }

  // ----- single reads, for every page

  lemma GuardCompiles(t: Src, v: Built, html: string)
    requires Compile(t, map[], 0) == Ok(v) && IsMarker(v) && CondExprOf(v).Ok?
    ensures CompilePage(AndAnd(t, Raw(html))).Ok?
  {
    assert Compile(Raw(html), map[], 0) == Ok(MarkupV([Text(html)]));
    assert CompileLogic(AndJ, AndAnd(t, Raw(html)), map[], 0) == Ok(LogicV(AndJ, v, MarkupV([Text(html)])));
    assert Compile(AndAnd(t, Raw(html)), map[], 0) == Ok(LogicV(AndJ, v, MarkupV([Text(html)])));
    assert Chunk(MarkupV([Text(html)])) == Ok([Text(html)]);
  }

  lemma ChoiceCompiles(t: Src, v: Built, yes: string, no: string)
    requires Compile(t, map[], 0) == Ok(v) && IsMarker(v) && CondExprOf(v).Ok?
    ensures CompilePage(Ternary(t, Raw(yes), Raw(no))).Ok?
  {
    var a, b := MarkupV([Text(yes)]), MarkupV([Text(no)]);
    assert Compile(Raw(yes), map[], 0) == Ok(a) && Compile(Raw(no), map[], 0) == Ok(b);
    assert Compile(Ternary(t, Raw(yes), Raw(no)), map[], 0) == Ok(TernaryV(CondNodeOf(v).value, a, b));
    assert Chunk(a) == Ok([Text(yes)]) && Chunk(b) == Ok([Text(no)]);
  }

  lemma ReadPageCompiles(key: string, html: string, other: string)
    requires IsPropertyName(key)
    ensures Transparent(Read(Page(key)), map[], {}, 0) && StaticTruth(Read(Page(key))).None?
    ensures CompilePage(AndAnd(Read(Page(key)), Raw(html))).Ok?
    ensures CompilePage(Ternary(Read(Page(key)), Raw(html), Raw(other))).Ok?
  {
    var v := ValueV(Ident(key));
    assert Compile(Read(Page(key)), map[], 0) == Ok(v);
    assert CondNodeOf(v) == Ok(SsrConditions.Truthy(OrFalse(Ident(key))));
    assert CondExprOf(v).Ok?;
    GuardCompiles(Read(Page(key)), v, html);
    ChoiceCompiles(Read(Page(key)), v, html, other);
  }

  lemma ComparisonCompiles(t: Src, op: CmpOp, l: Operand, r: Operand, yes: string, no: string)
    requires Compile(t, map[], 0) == Ok(CondV(Cmp(op, l, r)))
    ensures CompilePage(Ternary(t, Raw(yes), Raw(no))).Ok?
  {
    assert RenderCond(Cmp(op, l, r)) == Ok([Opd(l), Rel(op), Opd(r)]);
    ChoiceCompiles(t, CondV(Cmp(op, l, r)), yes, no);
  }

  /** `{key && <html>}` is preserved exactly on pages without the key, or where it holds neither an empty
      list or object nor 0. */
  lemma GuardedReadExactly(key: string, html: string, page: Context, h: Host)
    requires IsPropertyName(key)
    ensures var src := AndAnd(Read(Page(key)), Raw(html));
            && CompilePage(src).Ok?
            && (Run(CompilePage(src).value, page) == JsContent(src, Data(page, map[]), h) <==>
                (key in page ==> page[key] != List([]) && page[key] != Obj(map[]) && page[key] != Num(0.0)))
  {
    ReadPageCompiles(key, html, "");
    GuardExactly(Read(Page(key)), html, page, h);
    TestExactly(Page(key), Data(page, map[]), h);
  }

  /** `{key ? <a> : <b>}` is preserved exactly unless the key holds an empty list or object. */
  lemma ChosenReadExactly(key: string, yes: string, no: string, page: Context, h: Host)
    requires IsPropertyName(key) && yes != no
    ensures var src := Ternary(Read(Page(key)), Raw(yes), Raw(no));
            && CompilePage(src).Ok?
            && (Run(CompilePage(src).value, page) == JsContent(src, Data(page, map[]), h) <==>
                (key in page ==> page[key] != List([]) && page[key] != Obj(map[])))
  {
    ReadPageCompiles(key, yes, no);
    ChoiceExactly(Read(Page(key)), yes, no, page, h);
    TestExactly(Page(key), Data(page, map[]), h);
  }

  /** `{key === n ? <a> : <b>}` and `!==` are preserved exactly on pages that have the key, `==` and `!=`
      exactly on those where it holds nothing that coercion makes `n`, an order exactly on pages where it
      is a number. */
  lemma ComparedReadExactly(op: JsOp, key: string, n: real, yes: string, no: string, page: Context, h: Host)
    requires IsPropertyName(key) && yes != no
    ensures var src := Ternary(CompareLit(op, Page(key), SNum(n), false), Raw(yes), Raw(no));
            && CompilePage(src).Ok?
            && (Run(CompilePage(src).value, page) == JsContent(src, Data(page, map[]), h) <==>
                && key in page
                && (IsEquality(op) || page[key].Num?)
                && !(IsLoose(op) && Coerces(page[key], Num(n), h)))
  {
    var t := CompareLit(op, Page(key), SNum(n), false);
    ComparisonCompiles(t, TeraOp(op), Tera.Plain(Ident(key)), Literal(SNum(n)), yes, no);
    ChoiceExactly(t, yes, no, page, h);
    CompareLitExactly(op, Page(key), SNum(n), false, Data(page, map[]), h);
  }

  /** `{key === null ? <a> : <b>}` and `!==` are preserved exactly unless the key holds null, `==` and `!=`
      exactly where it is there and does not. */
  lemma NullReadExactly(op: JsOp, key: string, yes: string, no: string, page: Context, h: Host)
    requires IsPropertyName(key) && yes != no && IsEquality(op)
    ensures var src := Ternary(CompareLit(op, Page(key), SNull, false), Raw(yes), Raw(no));
            && CompilePage(src).Ok?
            && (Run(CompilePage(src).value, page) == JsContent(src, Data(page, map[]), h) <==>
                if IsLoose(op) then key in page && page[key] != Null else key in page ==> page[key] != Null)
  {
    var t := CompareLit(op, Page(key), SNull, false);
    NullComparisonExactly(op, Page(key), false, map[], 0, Data(page, map[]), h);
    assert Compile(Raw(yes), map[], 0) == Ok(MarkupV([Text(yes)]));
    assert Compile(Raw(no), map[], 0) == Ok(MarkupV([Text(no)]));
    ChoiceExactly(t, yes, no, page, h);
    NullExactly(op, Page(key), false, Data(page, map[]), h);
  }

  /** `{key}` is preserved exactly where the key is there and not `false`. */
  lemma ShownReadExactly(key: string, page: Context, h: Host)
    requires IsPropertyName(key)
    ensures var src := Read(Page(key));
            && CompilePage(src).Ok?
            && (Run(CompilePage(src).value, page) == JsContent(src, Data(page, map[]), h) <==>
                key in page && page[key] != Bool(false))
  {
    PageRendered(Read(Page(key)), page);
    ShowExactly(Page(key), Data(page, map[]), h);
  }

  // ----- inputs on which the languages differ

  /** A property name that is no loop's own. */
  ghost predicate PageName(key: string) {
    IsPropertyName(key) && !LooksLikeLoop(key)
  }

  /** Such as any whose third letter is no digit. */
  lemma NamedUnlikeLoops(key: string)
    requires IsPropertyName(key) && |key| >= 3 && !IsDigit(key[2]) && key != "loop"
    ensures PageName(key)
  {
    forall k: nat ensures key != LoopName(k) {
      assert LoopName(k)[2] == Numeral(k)[0] && Numeral(k)[0] in Numeral(k);
      assert IsDigit(LoopName(k)[2]);
    }
  }

  /** `{items && <ul>}` with `items = []` shows the list in JavaScript and nothing on the page, though
      the page follows the rule on the source. */
  lemma EmptyListHides(items: string, html: string, h: Host)
    requires PageName(items)
    ensures var src, page := AndAnd(Read(Page(items)), Raw(html)), map[items := List([])];
            && SsrCapture.Plain(src, {}, {}) && CompilePage(src).Ok?
            && Run(CompilePage(src).value, page) == Some([])
            && JsContent(src, Data(page, map[]), h) == Some([Markup(html)])
  {
    ReadPageCompiles(items, html, "");
    PageRendered(AndAnd(Read(Page(items)), Raw(html)), map[items := List([])]);
  }

  /** `{count && <p>}` with `count = 0` shows 0 in JavaScript and nothing on the page. */
  lemma ZeroVanishes(count: string, html: string, h: Host)
    requires PageName(count)
    ensures var src, page := AndAnd(Read(Page(count)), Raw(html)), map[count := Num(0.0)];
            && SsrCapture.Plain(src, {}, {}) && CompilePage(src).Ok?
            && Run(CompilePage(src).value, page) == Some([])
            && JsContent(src, Data(page, map[]), h) == Some([Shown(Num(0.0))])
  {
    ReadPageCompiles(count, html, "");
    PageRendered(AndAnd(Read(Page(count)), Raw(html)), map[count := Num(0.0)]);
  }

  lemma LiteralTestCompiles(key: string, c: Scalar)
    requires PageName(key) && TeraLiteral(c).Ok?
    ensures var t := CompareLit(StrictEq, Page(key), c, false);
            && Compile(t, map[], 0) == Ok(CondV(Cmp(Eq, Tera.Plain(Ident(key)), TeraLiteral(c).value)))
            && SsrCapture.Plain(t, {}, {}) && Transparent(t, map[], {}, 0)
  {
  }

  /** `{role === 'admin' ? <a> : <b>}` without a `role` shows the second in JavaScript and fails the render. */
  lemma AbsentOperandFails(key: string, c: Scalar, yes: string, no: string, h: Host)
    requires PageName(key) && TeraLiteral(c).Ok?
    ensures var src := Ternary(CompareLit(StrictEq, Page(key), c, false), Raw(yes), Raw(no));
            && SsrCapture.Plain(src, {}, {}) && CompilePage(src).Ok?
            && Run(CompilePage(src).value, map[]) == None
            && JsContent(src, Data(map[], map[]), h) == Some([Markup(no)])
  {
    var t := CompareLit(StrictEq, Page(key), c, false);
    LiteralTestCompiles(key, c);
    ComparisonCompiles(t, Eq, Tera.Plain(Ident(key)), TeraLiteral(c).value, yes, no);
    PageRendered(Ternary(t, Raw(yes), Raw(no)), map[]);
  }

  /** `{n == 5 ? <a> : <b>}` with the text `"5"` shows the first in JavaScript and the second on the page. */
  lemma LooseTextDiffers(key: string, text: string, n: real, yes: string, no: string, h: Host)
    requires PageName(key) && h.number(text) == Some(n)
    ensures var src := Ternary(CompareLit(LooseEq, Page(key), SNum(n), false), Raw(yes), Raw(no));
            var page := map[key := Str(text)];
            && SsrCapture.Plain(src, {}, {}) && CompilePage(src).Ok?
            && Run(CompilePage(src).value, page) == Some([Markup(no)])
            && JsContent(src, Data(page, map[]), h) == Some([Markup(yes)])
  {
    var t := CompareLit(LooseEq, Page(key), SNum(n), false);
    ComparisonCompiles(t, Eq, Tera.Plain(Ident(key)), Literal(SNum(n)), yes, no);
    PageRendered(Ternary(t, Raw(yes), Raw(no)), map[key := Str(text)]);
  }

  lemma OrderTestCompiles(low: string, high: string)
    requires PageName(low) && PageName(high)
    ensures var t := ComparePaths(Below, Page(low), Page(high));
            && Compile(t, map[], 0) == Ok(CondV(Cmp(Lt, Tera.Plain(Ident(low)), Tera.Plain(Ident(high)))))
            && SsrCapture.Plain(t, {}, {}) && Transparent(t, map[], {}, 0)
  {
  }

  /** `{low < high ? <x> : <y>}` on two texts is decided in JavaScript, whatever it decides, and fails the
      render. */
  lemma TextOrderFails(low: string, high: string, a: string, b: string, yes: string, no: string, h: Host)
    requires PageName(low) && PageName(high) && low != high
    ensures var src := Ternary(ComparePaths(Below, Page(low), Page(high)), Raw(yes), Raw(no));
            var page := map[low := Str(a), high := Str(b)];
            && SsrCapture.Plain(src, {}, {}) && CompilePage(src).Ok?
            && Run(CompilePage(src).value, page) == None
            && JsContent(src, Data(page, map[]), h).Some?
  {
    var t := ComparePaths(Below, Page(low), Page(high));
    OrderTestCompiles(low, high);
    ComparisonCompiles(t, Lt, Tera.Plain(Ident(low)), Tera.Plain(Ident(high)), yes, no);
    PageRendered(Ternary(t, Raw(yes), Raw(no)), map[low := Str(a), high := Str(b)]);
  }
}
