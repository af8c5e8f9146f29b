/** The filter compiler: a checked filter expression becomes a WHERE fragment, hoisted locals and
    the placeholder order; and what the compiled fragment means. */
module Filters {
  import opened Prelude
  import opened SqlConditions

  // ----- filter expressions

  /** The method names of the grammar, `contains`, `starts_with`, `contains_opt`, `eq_opt` and so on; any
      other name is unknown. */
  datatype Verb =
    | Contains | StartsWith | ContainsOpt
    | EqOpt | NeOpt | LtOpt | LteOpt | GtOpt | GteOpt
    | IsNull | IsNotNull
    | Unknown(name: string)

  datatype BinOp = AndOp | OrOp | EqOp | NeOp | LtOp | LeOp | GtOp | GeOp | OtherOp

  datatype Expr =
    | Ident(name: string)
    | Paren(e: Expr)
    | Binary(op: BinOp, l: Expr, r: Expr)
    | Call(receiver: Expr, verb: Verb, args: seq<Expr>)
    | Host(code: string)

  datatype Column = ColumnDef(json: bool)
  type Table = map<string, Column>

  datatype FilterError =
    | UnsupportedOperator | NotAFilter | NotAColumn | UnknownColumn | JsonColumn | WrongArguments | UnknownMethod

  /** `let __fbN = e;`, escaped for LIKE when `escaped`. */
  datatype Local = Local(e: Expr, escaped: bool)

  /** A compiled fragment: its SQL, the locals it hoists, and which local each `?` binds. */
  datatype Fragment = Fragment(sql: seq<SqlTok>, locals: seq<Local>, args: seq<nat>)

  function SqlOpOf(op: BinOp): Option<SqlOp> {
    match op
    case EqOp => Some(EqS)
    case NeOp => Some(NeS)
    case LtOp => Some(LtS)
    case LeOp => Some(LeS)
    case GtOp => Some(GtS)
    case GeOp => Some(GeS)
    case _ => None
  }

  /** The operator of `eq_opt` and its siblings. */
  function OptOp(verb: Verb): Option<SqlOp> {
    match verb
    case EqOpt => Some(EqS)
    case NeOpt => Some(NeS)
    case LtOpt => Some(LtS)
    case LteOpt => Some(LeS)
    case GtOpt => Some(GtS)
    case GteOpt => Some(GeS)
    case _ => None
  }

  function ColumnOf(e: Expr, table: Table): Result<string, FilterError> {
    if !e.Ident? then Err(NotAColumn)
    else if e.name !in table then Err(UnknownColumn)
    else if table[e.name].json then Err(JsonColumn)
    else Ok(e.name)
  }

  // ----- the compiler

  function LikeTail(arg: SqlTok): seq<SqlTok> {
    [LikeK, Percent, SqlTok.Concat, arg, SqlTok.Concat, Percent, EscapeK]
  }

  function CompileMethod(name: string, verb: Verb, args: seq<Expr>, qualifier: Option<string>, n: nat)
    : Result<Fragment, FilterError>
  {
    var col := SqlTok.Column(qualifier, name);
    match verb
    case IsNull => if args != [] then Err(WrongArguments) else Ok(Fragment([col, IsNullK], [], []))
    case IsNotNull => if args != [] then Err(WrongArguments) else Ok(Fragment([col, IsNotNullK], [], []))
    case Contains =>
      if |args| != 1 then Err(WrongArguments)
      else Ok(Fragment([col] + LikeTail(Placeholder), [Local(args[0], true)], [n]))
    case StartsWith =>
      if |args| != 1 then Err(WrongArguments)
      else Ok(Fragment([col, LikeK, Placeholder, SqlTok.Concat, Percent, EscapeK], [Local(args[0], true)], [n]))
    case ContainsOpt =>
      if |args| != 1 then Err(WrongArguments)
      else Ok(Fragment([LP, Placeholder, EqualsEmpty, OrK, col] + LikeTail(Placeholder) + [RP],
                       [Local(args[0], true)], [n, n]))
    case Unknown(_) => Err(UnknownMethod)
    case _ =>
      if |args| != 1 then Err(WrongArguments)
      else Ok(Fragment([LP, Placeholder, IsNullK, OrK, col, OpK(OptOp(verb).value), Placeholder, RP],
                       [Local(args[0], false)], [n, n]))
  }

  /** The fragment of an expression when `n` locals are already hoisted. */
  function Walk(e: Expr, table: Table, qualifier: Option<string>, n: nat): Result<Fragment, FilterError> {
    match e
    case Paren(inner) => Walk(inner, table, qualifier, n)
    case Binary(op, l, r) =>
      if op.AndOp? || op.OrOp? then
        match Walk(l, table, qualifier, n)
        case Err(err) => Err(err)
        case Ok(a) =>
          match Walk(r, table, qualifier, n + |a.locals|)
          case Err(err) => Err(err)
          case Ok(b) => Ok(JoinFragments(op, a, b))
      else if SqlOpOf(op).None? then Err(UnsupportedOperator)
      else
        (match ColumnOf(l, table)
         case Err(err) => Err(err)
         case Ok(name) =>
           Ok(Fragment([SqlTok.Column(qualifier, name), OpK(SqlOpOf(op).value), Placeholder], [Local(r, false)], [n])))
    case Call(receiver, verb, args) =>
      (match ColumnOf(receiver, table)
       case Err(err) => Err(err)
       case Ok(name) => CompileMethod(name, verb, args, qualifier, n))
    case _ => Err(NotAFilter)
  }

  function JoinFragments(op: BinOp, a: Fragment, b: Fragment): Fragment {
    Fragment([LP] + a.sql + [if op.AndOp? then AndK else OrK] + b.sql + [RP], a.locals + b.locals, a.args + b.args)
  }

  function Compile(e: Expr, table: Table, qualifier: Option<string>): Result<Fragment, FilterError> {
    if e == Ident("all") then Ok(Fragment([], [], [])) else Walk(e, table, qualifier, 0)
  }

  // ----- escaping

  predicate IsWild(c: char) {
    c == '\\' || c == '%' || c == '_'
  }

  function Escape(s: string): string {
    if s == [] then [] else (if IsWild(s[0]) then ['\\', s[0]] else [s[0]]) + Escape(s[1..])
  }

  method EscapeLike(value: string) returns (out: string)
    ensures out == Escape(value)
  {
    out := "";
    var i := 0;
    while i < |value|
      invariant i <= |value|
      invariant out + Escape(value[i..]) == Escape(value)
    {
      assert value[i..][1..] == value[i + 1..];
      ghost var before := out;
      if IsWild(value[i]) {
        out := out + ['\\'];
      }
      out := out + [value[i]];
      assert out + Escape(value[i + 1..]) == before + Escape(value[i..]);
      i := i + 1;
    }
    assert out + [] == out;
  }

  predicate PrefixFolded(s: string, t: string) {
    |s| <= |t| && forall i | 0 <= i < |s| :: Same(s[i], t[i])
  }

  /** Does `t` contain `s`, in any ASCII case? */
  predicate ContainsFolded(t: string, s: string) {
    exists k | 0 <= k <= |t| :: PrefixFolded(s, t[k..])
  }

  /** An escaped term matches itself literally: no character of it widens the pattern. */
  lemma {:induction false} LikeLiteral(s: string, p: string, t: string)
    ensures Like(Escape(s) + p, t) <==> PrefixFolded(s, t) && Like(p, t[|s|..])
    decreases |s|
  {
    if s == [] {
      assert Escape(s) + p == p;
      assert t[0..] == t;
    } else {
      var q := Escape(s) + p;
      var tail := Escape(s[1..]) + p;
      if IsWild(s[0]) {
        assert q == ['\\', s[0]] + tail;
        assert q[2..] == tail;
      } else {
        assert q == [s[0]] + tail;
        assert q[1..] == tail;
      }
      if t != [] {
        LikeLiteral(s[1..], p, t[1..]);
        if |s| <= |t| { assert t[1..][|s| - 1..] == t[|s|..]; }
        assert PrefixFolded(s, t) <==> Same(s[0], t[0]) && PrefixFolded(s[1..], t[1..]) by {
          if Same(s[0], t[0]) && PrefixFolded(s[1..], t[1..]) {
            forall i | 0 <= i < |s| ensures Same(s[i], t[i]) {
              if i > 0 { assert Same(s[1..][i - 1], t[1..][i - 1]); }
            }
          }
        }
      }
    }
  }

  lemma {:induction false} LikeAnything(t: string)
    ensures Like("%", t)
    decreases |t|
  {
    if t != [] { LikeAnything(t[1..]); } else { assert "%"[1..] == []; }
  }

  /** `LIKE term || '%'` is a prefix test and `LIKE '%' || term || '%'` a substring test, whatever
      the term. */
  lemma StartsWithIsPrefix(s: string, t: string)
    ensures Like(Escape(s) + "%", t) <==> PrefixFolded(s, t)
  {
    LikeLiteral(s, "%", t);
    if |s| <= |t| { LikeAnything(t[|s|..]); }
  }

  lemma {:induction false} ContainsIsSubstring(s: string, t: string)
    ensures Like("%" + Escape(s) + "%", t) <==> ContainsFolded(t, s)
    decreases |t|
  {
    var p := "%" + Escape(s) + "%";
    assert p[1..] == Escape(s) + "%";
    StartsWithIsPrefix(s, t);
    if t == [] {
      assert t[0..] == t;
    } else {
      ContainsIsSubstring(s, t[1..]);
      assert t[0..] == t;
      assert forall k | 0 <= k <= |t| - 1 :: t[1..][k..] == t[k + 1..];
      assert ContainsFolded(t, s) <==> PrefixFolded(s, t) || ContainsFolded(t[1..], s) by {
        if ContainsFolded(t, s) && !PrefixFolded(s, t) {
          var k :| 0 <= k <= |t| && PrefixFolded(s, t[k..]);
          assert t[1..][k - 1..] == t[k..];
        }
        if ContainsFolded(t[1..], s) {
          var k :| 0 <= k <= |t| - 1 && PrefixFolded(s, t[1..][k..]);
          assert t[k + 1..] == t[1..][k..];
        }
      }
    }
  }

  // ----- what a filter means

  /** The values the application's expressions have at run time. */
  datatype Host = Values(value: Expr -> SqlValue, text: Expr -> string)

  function ContainsV(v: SqlValue, s: string): Logic {
    if v.NullV? then U else Known(ContainsFolded(TextOf(v), s))
  }

  /** What a source operator says of two values: unknown on null, else by value and in SQLite's order,
      numbers before texts. */
  function Decided(op: BinOp, a: SqlValue, b: SqlValue): Logic {
    if a.NullV? || b.NullV? then U
    else
      Known(match op
            case EqOp => a == b
            case NeOp => a != b
            case LtOp => Sooner(a, b)
            case LeOp => a == b || Sooner(a, b)
            case GtOp => Sooner(b, a)
            case GeOp => a == b || Sooner(b, a)
            case _ => false)
  }

  predicate Sooner(a: SqlValue, b: SqlValue) {
    if a.IntV? && b.IntV? then a.n < b.n
    else if a.TextV? && b.TextV? then TextOrder.Less(a.s, b.s)
    else a.IntV? && b.TextV?
  }

  lemma OptMeans(verb: Verb, a: SqlValue, b: SqlValue)
    requires OptOp(verb).Some?
    ensures CompareV(OptOp(verb).value, a, b) == Decided(TestedBy(verb), a, b)
  {
  }

  /** Each operator is compiled to the one that means it. */
  lemma OperatorMeaning(op: BinOp, a: SqlValue, b: SqlValue)
    requires SqlOpOf(op).Some?
    ensures CompareV(SqlOpOf(op).value, a, b) == Decided(op, a, b)
  {
  }

  /** The comparison an `_opt` method is named after. */
  function TestedBy(verb: Verb): BinOp {
    match verb
    case EqOpt => EqOp
    case NeOpt => NeOp
    case LtOpt => LtOp
    case LteOpt => LeOp
    case GtOpt => GtOp
    case GteOpt => GeOp
    case _ => OtherOp
  }

  /** The filter's own meaning, without SQL text or placeholders. */
  function Meaning(e: Expr, host: Host, row: Cells): Logic {
    match e
    case Paren(inner) => Meaning(inner, host, row)
    case Binary(op, l, r) =>
      if op.AndOp? then AndL(Meaning(l, host, row), Meaning(r, host, row))
      else if op.OrOp? then OrL(Meaning(l, host, row), Meaning(r, host, row))
      else if l.Ident? && !op.OtherOp? then Decided(op, ColumnValue(row, l.name), host.value(r))
      else U
    case Call(receiver, verb, args) =>
      if !receiver.Ident? then U
      else
        var v := ColumnValue(row, receiver.name);
        if verb.IsNull? then Known(v.NullV?)
        else if verb.IsNotNull? then Known(!v.NullV?)
        else if |args| != 1 then U
        else
          (match verb
           case Contains => ContainsV(v, host.text(args[0]))
           case StartsWith => if v.NullV? then U else Known(PrefixFolded(host.text(args[0]), TextOf(v)))
           case ContainsOpt => if host.text(args[0]) == "" then T else ContainsV(v, host.text(args[0]))
           case Unknown(_) => U
           case _ => if host.value(args[0]).NullV? then T else Decided(TestedBy(verb), v, host.value(args[0])))
    case _ => U
  }

  /** The expressions the compiler accepts. */
  predicate InGrammar(e: Expr, table: Table) {
    match e
    case Paren(inner) => InGrammar(inner, table)
    case Binary(op, l, r) =>
      if op.AndOp? || op.OrOp? then InGrammar(l, table) && InGrammar(r, table)
      else !op.OtherOp? && IsColumn(l, table)
    case Call(receiver, verb, args) =>
      && IsColumn(receiver, table)
      && !verb.Unknown?
      && (if verb.IsNull? || verb.IsNotNull? then args == [] else |args| == 1)
    case _ => false
  }

  predicate IsColumn(e: Expr, table: Table) {
    e.Ident? && e.name in table && !table[e.name].json
  }

  /** A filter compiles exactly when it is `all` or in the grammar over filterable columns. */
  lemma {:induction false} CompilesExactly(e: Expr, table: Table, qualifier: Option<string>, n: nat)
    ensures Walk(e, table, qualifier, n).Ok? <==> InGrammar(e, table)
  {
    match e
    case Paren(inner) => CompilesExactly(inner, table, qualifier, n);
    case Binary(op, l, r) =>
      if op.AndOp? || op.OrOp? {
        CompilesExactly(l, table, qualifier, n);
        if Walk(l, table, qualifier, n).Ok? {
          CompilesExactly(r, table, qualifier, n + |Walk(l, table, qualifier, n).value.locals|);
        } else {
          CompilesExactly(r, table, qualifier, n);
        }
      }
    case _ =>
  }

  /** What is wrong with a column's place. */
  predicate ColumnFault(e: Expr, table: Table, err: FilterError) {
    match err
    case NotAColumn => !e.Ident?
    case UnknownColumn => e.Ident? && e.name !in table
    case JsonColumn => e.Ident? && e.name in table && table[e.name].json
    case _ => false
  }

  /** Something in the filter is wrong in the way the error says. */
  predicate Faulty(e: Expr, table: Table, err: FilterError) {
    match e
    case Paren(inner) => Faulty(inner, table, err)
    case Binary(op, l, r) =>
      if op.AndOp? || op.OrOp? then Faulty(l, table, err) || Faulty(r, table, err)
      else if op.OtherOp? then err.UnsupportedOperator? else ColumnFault(l, table, err)
    case Call(receiver, verb, args) =>
      || ColumnFault(receiver, table, err)
      || (err.UnknownMethod? && verb.Unknown?)
      || (err.WrongArguments? && !verb.Unknown? && |args| != if verb.IsNull? || verb.IsNotNull? then 0 else 1)
    case _ => err.NotAFilter?
  }

  /** A filter is refused for a fault it has. */
  lemma {:induction false} ErrorsJustified(e: Expr, table: Table, qualifier: Option<string>, n: nat)
    ensures var f := Walk(e, table, qualifier, n); f.Err? ==> Faulty(e, table, f.error)
  {
    match e
    case Paren(inner) => ErrorsJustified(inner, table, qualifier, n);
    case Binary(op, l, r) =>
      if op.AndOp? || op.OrOp? {
        ErrorsJustified(l, table, qualifier, n);
        if Walk(l, table, qualifier, n).Ok? {
          ErrorsJustified(r, table, qualifier, n + |Walk(l, table, qualifier, n).value.locals|);
        }
      }
    case _ =>
  }

  // ----- binding

  function LocalValue(l: Local, host: Host): SqlValue {
    if l.escaped then TextV(Escape(host.text(l.e))) else host.value(l.e)
  }

  /** The bound values, in placeholder order, of `args` over all hoisted locals. */
  function Binds(locals: seq<Local>, args: seq<nat>, host: Host): (vs: seq<SqlValue>)
    requires forall i | 0 <= i < |args| :: args[i] < |locals|
    ensures |vs| == |args|
  {
    if args == [] then [] else [LocalValue(locals[args[0]], host)] + Binds(locals, args[1..], host)
  }

  ghost predicate ArgsWithin(f: Fragment, n: nat) {
    forall i | 0 <= i < |f.args| :: n <= f.args[i] < n + |f.locals|
  }

  /** Every placeholder binds one of the fragment's own locals. */
  lemma {:induction false} WalkArgs(e: Expr, table: Table, qualifier: Option<string>, n: nat)
    requires Walk(e, table, qualifier, n).Ok?
    ensures ArgsWithin(Walk(e, table, qualifier, n).value, n)
  {
    match e
    case Paren(inner) => WalkArgs(inner, table, qualifier, n);
    case Binary(op, l, r) =>
      if op.AndOp? || op.OrOp? {
        var a := Walk(l, table, qualifier, n).value;
        WalkArgs(l, table, qualifier, n);
        WalkArgs(r, table, qualifier, n + |a.locals|);
        ArgsJoin(op, a, Walk(r, table, qualifier, n + |a.locals|).value, n);
      }
    case _ =>
  }

  lemma ArgsJoin(op: BinOp, a: Fragment, b: Fragment, n: nat)
    requires ArgsWithin(a, n) && ArgsWithin(b, n + |a.locals|)
    ensures ArgsWithin(JoinFragments(op, a, b), n)
  {
  }

  // ----- the fragment means what the filter means

  lemma {:induction false} BindsConcat(locals: seq<Local>, a: seq<nat>, b: seq<nat>, host: Host)
    requires forall i | 0 <= i < |a| :: a[i] < |locals|
    requires forall i | 0 <= i < |b| :: b[i] < |locals|
    ensures forall i | 0 <= i < |a + b| :: (a + b)[i] < |locals|
    ensures Binds(locals, a + b, host) == Binds(locals, a, host) + Binds(locals, b, host)
  {
    if a == [] {
      assert a + b == b;
    } else {
      assert (a + b)[1..] == a[1..] + b;
      BindsConcat(locals, a[1..], b, host);
    }
  }

  /** `locals` holds this fragment's own locals from position `n` on. */
  ghost predicate Holds(locals: seq<Local>, f: Fragment, n: nat) {
    && n + |f.locals| <= |locals|
    && locals[n..n + |f.locals|] == f.locals
    && ArgsWithin(f, n)
  }

  /** Evaluating the fragment's SQL with its placeholders bound left to right, whatever follows,
      consumes exactly its text and its binds and gives the filter's three-valued meaning. */
  lemma {:induction false} WalkMeaning(e: Expr, table: Table, qualifier: Option<string>, n: nat, locals: seq<Local>,
                                       host: Host, row: Cells, more: seq<SqlTok>, others: seq<SqlValue>)
    requires Walk(e, table, qualifier, n).Ok?
    requires Holds(locals, Walk(e, table, qualifier, n).value, n)
    ensures var f := Walk(e, table, qualifier, n).value;
            EvalSql(f.sql + more, Binds(locals, f.args, host) + others, row)
            == Some((Meaning(e, host, row), (more, others)))
    decreases e, 1
  {
    match e
    case Paren(inner) => WalkMeaning(inner, table, qualifier, n, locals, host, row, more, others);
    case Binary(op, l, r) =>
      if op.AndOp? || op.OrOp? {
        JunctionMeaning(e, table, qualifier, n, locals, host, row, more, others);
      } else {
        var local := Local(r, false);
        assert locals[n..n + 1] == [local];
        assert locals[n] == locals[n..n + 1][0];
        OneBind(locals, n, local, host);
        ComparisonMeaning(SqlTok.Column(qualifier, l.name), SqlOpOf(op).value, host.value(r), row, more, others);
        OperatorMeaning(op, ColumnValue(row, l.name), host.value(r));
      }
    case Call(_, _, _) => CallMeaning(e, table, qualifier, n, locals, host, row, more, others);
  }

  lemma OneBind(locals: seq<Local>, n: nat, l: Local, host: Host)
    requires n < |locals| && locals[n] == l
    ensures Binds(locals, [n], host) == [LocalValue(l, host)]
    ensures Binds(locals, [n, n], host) == [LocalValue(l, host), LocalValue(l, host)]
  {
    assert [n][1..] == [] && [n, n][1..] == [n];
    assert Binds(locals, [], host) == [];
    assert Binds(locals, [n], host) == [LocalValue(l, host)] + [];
  }

  lemma ComparisonMeaning(col: SqlTok, op: SqlOp, v: SqlValue, row: Cells, more: seq<SqlTok>, others: seq<SqlValue>)
    requires col.Column?
    ensures EvalSql([col, OpK(op), Placeholder] + more, [v] + others, row)
            == Some((CompareV(op, ColumnValue(row, col.name), v), (more, others)))
  {
    var ts := [col, OpK(op), Placeholder] + more;
    assert ts[3..] == more && ([v] + others)[1..] == others;
  }

  lemma NullMeaning(col: SqlTok, k: SqlTok, row: Cells, more: seq<SqlTok>, others: seq<SqlValue>)
    requires col.Column? && (k.IsNullK? || k.IsNotNullK?)
    ensures EvalSql([col, k] + more, others, row)
            == Some((Known(ColumnValue(row, col.name).NullV? == k.IsNullK?), (more, others)))
  {
    assert ([col, k] + more)[2..] == more;
  }

  lemma PrefixPattern(s: string, more: seq<SqlTok>, others: seq<SqlValue>)
    ensures EvalPattern([Placeholder, SqlTok.Concat, Percent, EscapeK] + more, [TextV(s)] + others)
            == Some((s + "%", (more, others)))
  {
    var ts := [Placeholder, SqlTok.Concat, Percent, EscapeK] + more;
    var last := [Percent, EscapeK] + more;
    assert ts[2..] == last && last[2..] == more;
    assert ([TextV(s)] + others)[1..] == others;
    assert EvalPattern(last, others) == Some(("%", (more, others)));
  }

  lemma PrefixMeaning(col: SqlTok, s: string, row: Cells, more: seq<SqlTok>, others: seq<SqlValue>)
    requires col.Column?
    ensures var v := ColumnValue(row, col.name);
            EvalSql([col, LikeK, Placeholder, SqlTok.Concat, Percent, EscapeK] + more, [TextV(Escape(s))] + others, row)
            == Some((if v.NullV? then U else Known(PrefixFolded(s, TextOf(v))), (more, others)))
  {
    var ts := [col, LikeK, Placeholder, SqlTok.Concat, Percent, EscapeK] + more;
    assert ts[2..] == [Placeholder, SqlTok.Concat, Percent, EscapeK] + more;
    PrefixPattern(Escape(s), more, others);
    var v := ColumnValue(row, col.name);
    if !v.NullV? { StartsWithIsPrefix(s, TextOf(v)); }
  }

  lemma ContainsMeaning(col: SqlTok, s: string, row: Cells, more: seq<SqlTok>, others: seq<SqlValue>)
    requires col.Column?
    ensures EvalSql([col] + LikeTail(Placeholder) + more, [TextV(Escape(s))] + others, row)
            == Some((ContainsV(ColumnValue(row, col.name), s), (more, others)))
  {
    var ts := [col] + LikeTail(Placeholder) + more;
    var tail := [Placeholder, SqlTok.Concat, Percent, EscapeK] + more;
    assert ts[2..] == [Percent, SqlTok.Concat] + tail;
    assert ([Percent, SqlTok.Concat] + tail)[2..] == tail;
    PrefixPattern(Escape(s), more, others);
    assert EvalPattern(ts[2..], [TextV(Escape(s))] + others) == Some(("%" + (Escape(s) + "%"), (more, others)));
    assert "%" + (Escape(s) + "%") == "%" + Escape(s) + "%";
    var v := ColumnValue(row, col.name);
    if !v.NullV? { ContainsIsSubstring(s, TextOf(v)); }
  }

  lemma ParenthesisStep(ts: seq<SqlTok>, binds: seq<SqlValue>, row: Cells,
                        left: Logic, ts1: seq<SqlTok>, binds1: seq<SqlValue>,
                        right: Logic, ts2: seq<SqlTok>, binds2: seq<SqlValue>)
    requires ts != [] && ts[0].LP? && EvalSql(ts[1..], binds, row) == Some((left, (ts1, binds1)))
    requires ts1 != [] && (ts1[0].AndK? || ts1[0].OrK?)
             && EvalSql(ts1[1..], binds1, row) == Some((right, (ts2, binds2)))
    requires ts2 != [] && ts2[0].RP?
    ensures EvalSql(ts, binds, row) ==
            Some((if ts1[0].AndK? then AndL(left, right) else OrL(left, right), (ts2[1..], binds2)))
  {
  }

  /** `(test OR rest)`, where `test` is a two-token atom that consumes one bind. */
  lemma OptMeaning(k: SqlTok, body: seq<SqlTok>, v: SqlValue, first: Logic, second: Logic, row: Cells,
                   more: seq<SqlTok>, others: seq<SqlValue>)
    requires k.IsNullK? || k.EqualsEmpty?
    requires first == if k.IsNullK? then Known(v.NullV?) else CompareV(EqS, v, TextV(""))
    requires EvalSql(body + ([RP] + more), [v] + others, row) == Some((second, ([RP] + more, others)))
    ensures EvalSql([LP, Placeholder, k, OrK] + body + [RP] + more, [v, v] + others, row)
            == Some((OrL(first, second), (more, others)))
  {
    var afterBody := [RP] + more;
    var rest := [OrK] + (body + afterBody);
    RegroupOpt(k, body, more);
    assert ([v, v] + others)[1..] == [v] + others;
    TestMeaning(k, v, first, rest, row, [v] + others);
    assert [v] + ([v] + others) == [v, v] + others;
    ParenthesisStep([LP, Placeholder, k, OrK] + body + [RP] + more, [v, v] + others, row, first, rest, [v] + others,
                    second, afterBody, others);
  }

  /** The test alone: `? IS NULL` or `? = ''`. */
  lemma TestMeaning(k: SqlTok, v: SqlValue, first: Logic, rest: seq<SqlTok>, row: Cells, others: seq<SqlValue>)
    requires k.IsNullK? || k.EqualsEmpty?
    requires first == if k.IsNullK? then Known(v.NullV?) else CompareV(EqS, v, TextV(""))
    ensures EvalSql([Placeholder, k] + rest, [v] + others, row) == Some((first, (rest, others)))
  {
    assert ([Placeholder, k] + rest)[2..] == rest && ([v] + others)[1..] == others;
  }

  lemma RegroupOpt(k: SqlTok, body: seq<SqlTok>, more: seq<SqlTok>)
    ensures var ts := [LP, Placeholder, k, OrK] + body + [RP] + more;
            ts[0] == LP && ts[1..] == [Placeholder, k] + ([OrK] + (body + ([RP] + more)))
    ensures ([OrK] + (body + ([RP] + more)))[1..] == body + ([RP] + more) && ([RP] + more)[1..] == more
  {
  }

  lemma NullCallMeaning(e: Expr, table: Table, qualifier: Option<string>, n: nat,
                        host: Host, row: Cells, more: seq<SqlTok>, others: seq<SqlValue>)
    requires e.Call? && Walk(e, table, qualifier, n).Ok? && e.args == []
    ensures var f := Walk(e, table, qualifier, n).value;
            f.args == [] && EvalSql(f.sql + more, others, row) == Some((Meaning(e, host, row), (more, others)))
  {
    var f := Walk(e, table, qualifier, n).value;
    NullMeaning(SqlTok.Column(qualifier, e.receiver.name), f.sql[1], row, more, others);
  }

  lemma LikeCallMeaning(e: Expr, table: Table, qualifier: Option<string>, n: nat,
                        host: Host, row: Cells, more: seq<SqlTok>, others: seq<SqlValue>)
    requires e.Call? && Walk(e, table, qualifier, n).Ok? && |e.args| == 1
    requires e.verb.Contains? || e.verb.StartsWith?
    ensures var f := Walk(e, table, qualifier, n).value;
            && f.locals == [Local(e.args[0], true)] && f.args == [n]
            && EvalSql(f.sql + more, [LocalValue(f.locals[0], host)] + others, row) ==
                Some((Meaning(e, host, row), (more, others)))
  {
    var col := SqlTok.Column(qualifier, e.receiver.name);
    var s := host.text(e.args[0]);
    if e.verb.Contains? {
      ContainsMeaning(col, s, row, more, others);
    } else {
      PrefixMeaning(col, s, row, more, others);
    }
  }

  lemma ContainsOptMeaning(col: SqlTok, s: string, row: Cells, more: seq<SqlTok>, others: seq<SqlValue>)
    requires col.Column?
    ensures var v := TextV(Escape(s));
            EvalSql([LP, Placeholder, EqualsEmpty, OrK, col] + LikeTail(Placeholder) + [RP] + more,
                    [v, v] + others, row)
            == Some((if s == "" then T else ContainsV(ColumnValue(row, col.name), s), (more, others)))
  {
    var v := TextV(Escape(s));
    var body := [col] + LikeTail(Placeholder);
    ContainsMeaning(col, s, row, [RP] + more, others);
    OptMeaning(EqualsEmpty, body, v, CompareV(EqS, v, TextV("")), ContainsV(ColumnValue(row, col.name), s), row,
        more, others);
    assert Escape(s) == "" <==> s == "";
    LeadingColumn(col, LikeTail(Placeholder));
  }

  lemma LeadingColumn(col: SqlTok, tail: seq<SqlTok>)
    ensures [LP, Placeholder, EqualsEmpty, OrK, col] + tail == [LP, Placeholder, EqualsEmpty, OrK] + ([col] + tail)
  {
  }

  lemma CompareOptMeaning(col: SqlTok, op: SqlOp, v: SqlValue, row: Cells, more: seq<SqlTok>, others: seq<SqlValue>)
    requires col.Column?
    ensures EvalSql([LP, Placeholder, IsNullK, OrK, col, OpK(op), Placeholder, RP] + more, [v, v] + others, row)
            == Some((if v.NullV? then T else CompareV(op, ColumnValue(row, col.name), v), (more, others)))
  {
    ComparisonMeaning(col, op, v, row, [RP] + more, others);
    OptMeaning(IsNullK, [col, OpK(op), Placeholder], v, Known(v.NullV?), CompareV(op, ColumnValue(row, col.name), v),
        row, more, others);
    assert [LP, Placeholder, IsNullK, OrK] + [col, OpK(op), Placeholder] + [RP] + more
        == [LP, Placeholder, IsNullK, OrK, col, OpK(op), Placeholder, RP] + more;
  }

  lemma OptCallMeaning(e: Expr, table: Table, qualifier: Option<string>, n: nat,
                       host: Host, row: Cells, more: seq<SqlTok>, others: seq<SqlValue>)
    requires e.Call? && Walk(e, table, qualifier, n).Ok? && |e.args| == 1
    requires e.verb.ContainsOpt? || OptOp(e.verb).Some?
    ensures var f := Walk(e, table, qualifier, n).value;
            && |f.locals| == 1 && f.args == [n, n]
            && var v := LocalValue(f.locals[0], host);
               EvalSql(f.sql + more, [v, v] + others, row) == Some((Meaning(e, host, row), (more, others)))
  {
    var col := SqlTok.Column(qualifier, e.receiver.name);
    if e.verb.ContainsOpt? {
      ContainsOptMeaning(col, host.text(e.args[0]), row, more, others);
    } else {
      var f := Walk(e, table, qualifier, n).value;
      var v := LocalValue(f.locals[0], host);
      CompareOptMeaning(col, OptOp(e.verb).value, v, row, more, others);
      OptMeans(e.verb, ColumnValue(row, col.name), v);
    }
  }

  lemma CallMeaning(e: Expr, table: Table, qualifier: Option<string>, n: nat, locals: seq<Local>,
                    host: Host, row: Cells, more: seq<SqlTok>, others: seq<SqlValue>)
    requires e.Call? && Walk(e, table, qualifier, n).Ok?
    requires Holds(locals, Walk(e, table, qualifier, n).value, n)
    ensures var f := Walk(e, table, qualifier, n).value;
            EvalSql(f.sql + more, Binds(locals, f.args, host) + others, row)
            == Some((Meaning(e, host, row), (more, others)))
    decreases e, 0
  {
    var f := Walk(e, table, qualifier, n).value;
    if e.args == [] {
      NullCallMeaning(e, table, qualifier, n, host, row, more, others);
      assert [] + others == others;
    } else {
      assert |f.locals| == 1;
      assert locals[n] == locals[n..n + 1][0];
      OneBind(locals, n, f.locals[0], host);
      if e.verb.Contains? || e.verb.StartsWith? {
        LikeCallMeaning(e, table, qualifier, n, host, row, more, others);
      } else {
        OptCallMeaning(e, table, qualifier, n, host, row, more, others);
      }
    }
  }

  lemma Regroup(a: seq<SqlTok>, k: SqlTok, b: seq<SqlTok>, more: seq<SqlTok>)
    ensures var ts := [LP] + a + [k] + b + [RP] + more;
            ts != [] && ts[0] == LP && ts[1..] == a + ([k] + (b + ([RP] + more)))
    ensures ([k] + (b + ([RP] + more)))[1..] == b + ([RP] + more) && ([RP] + more)[1..] == more
  {
  }

  lemma ParenthesesMeaning(a: seq<SqlTok>, k: SqlTok, b: seq<SqlTok>, va: seq<SqlValue>, vb: seq<SqlValue>,
                           left: Logic, right: Logic, row: Cells, more: seq<SqlTok>, others: seq<SqlValue>)
    requires k.AndK? || k.OrK?
    requires EvalSql(a + ([k] + (b + ([RP] + more))), va + (vb + others), row) ==
             Some((left, ([k] + (b + ([RP] + more)), vb + others)))
    requires EvalSql(b + ([RP] + more), vb + others, row) == Some((right, ([RP] + more, others)))
    ensures EvalSql([LP] + a + [k] + b + [RP] + more, va + vb + others, row)
            == Some((if k.AndK? then AndL(left, right) else OrL(left, right), (more, others)))
  {
    Regroup(a, k, b, more);
    assert va + vb + others == va + (vb + others);
    ParenthesisStep([LP] + a + [k] + b + [RP] + more, va + vb + others, row,
                    left, [k] + (b + ([RP] + more)), vb + others, right, [RP] + more, others);
  }

  lemma SliceParts<X>(locals: seq<X>, n: nat, a: seq<X>, b: seq<X>)
    requires n + |a| + |b| <= |locals| && locals[n..n + |a| + |b|] == a + b
    ensures locals[n..n + |a|] == a && locals[n + |a|..n + |a| + |b|] == b
  {
    var part := locals[n..n + |a| + |b|];
    assert locals[n..n + |a|] == part[..|a|] && locals[n + |a|..n + |a| + |b|] == part[|a|..];
    assert (a + b)[..|a|] == a && (a + b)[|a|..] == b;
  }

  lemma HoldsParts(locals: seq<Local>, op: BinOp, a: Fragment, b: Fragment, n: nat)
    requires ArgsWithin(a, n) && ArgsWithin(b, n + |a.locals|)
    requires Holds(locals, JoinFragments(op, a, b), n)
    ensures Holds(locals, a, n) && Holds(locals, b, n + |a.locals|)
  {
    SliceParts(locals, n, a.locals, b.locals);
  }

  lemma {:induction false} JunctionMeaning(e: Expr, table: Table, qualifier: Option<string>, n: nat, locals: seq<Local>,
                                           host: Host, row: Cells, more: seq<SqlTok>, others: seq<SqlValue>)
    requires e.Binary? && (e.op.AndOp? || e.op.OrOp?)
    requires Walk(e, table, qualifier, n).Ok?
    requires Holds(locals, Walk(e, table, qualifier, n).value, n)
    ensures var f := Walk(e, table, qualifier, n).value;
            EvalSql(f.sql + more, Binds(locals, f.args, host) + others, row)
            == Some((Meaning(e, host, row), (more, others)))
    decreases e, 0
  {
    var a := Walk(e.l, table, qualifier, n).value;
    var m := n + |a.locals|;
    var b := Walk(e.r, table, qualifier, m).value;
    WalkArgs(e.l, table, qualifier, n);
    WalkArgs(e.r, table, qualifier, m);
    HoldsParts(locals, e.op, a, b, n);
    var k := if e.op.AndOp? then AndK else OrK;
    var va, vb := Binds(locals, a.args, host), Binds(locals, b.args, host);
    BindsConcat(locals, a.args, b.args, host);
    WalkMeaning(e.l, table, qualifier, n, locals, host, row, [k] + (b.sql + ([RP] + more)), vb + others);
    WalkMeaning(e.r, table, qualifier, m, locals, host, row, [RP] + more, others);
    ParenthesesMeaning(a.sql, k, b.sql, va, vb, Meaning(e.l, host, row), Meaning(e.r, host, row), row, more, others);
  }

  /** Every column is named under the qualifier, as a query that joins other tables needs. */
  ghost predicate AllQualified(ts: seq<SqlTok>, qualifier: Option<string>) {
    forall i | 0 <= i < |ts| && ts[i].Column? :: ts[i].qualifier == qualifier
  }

  lemma QualifiedConcat(a: seq<SqlTok>, b: seq<SqlTok>, qualifier: Option<string>)
    requires AllQualified(a, qualifier) && AllQualified(b, qualifier)
    ensures AllQualified(a + b, qualifier)
  {
  }

  lemma JoinQualifies(op: BinOp, a: Fragment, b: Fragment, qualifier: Option<string>)
    requires AllQualified(a.sql, qualifier) && AllQualified(b.sql, qualifier)
    ensures AllQualified(JoinFragments(op, a, b).sql, qualifier)
  {
    var k := if op.AndOp? then AndK else OrK;
    QualifiedConcat([LP], a.sql, qualifier);
    QualifiedConcat([LP] + a.sql, [k], qualifier);
    QualifiedConcat([LP] + a.sql + [k], b.sql, qualifier);
  }

  lemma {:induction false} WalkQualifies(e: Expr, table: Table, qualifier: Option<string>, n: nat)
    requires Walk(e, table, qualifier, n).Ok?
    ensures AllQualified(Walk(e, table, qualifier, n).value.sql, qualifier)
  {
    match e
    case Paren(inner) => WalkQualifies(inner, table, qualifier, n);
    case Binary(op, l, r) =>
      if op.AndOp? || op.OrOp? {
        var a := Walk(l, table, qualifier, n).value;
        WalkQualifies(l, table, qualifier, n);
        WalkQualifies(r, table, qualifier, n + |a.locals|);
        JoinQualifies(op, a, Walk(r, table, qualifier, n + |a.locals|).value, qualifier);
      }
    case Call(receiver, verb, args) =>
      var col := SqlTok.Column(qualifier, ColumnOf(receiver, table).value);
      QualifiedConcat([col], LikeTail(Placeholder), qualifier);
      QualifiedConcat([LP, Placeholder, EqualsEmpty, OrK, col], LikeTail(Placeholder), qualifier);
  }

  /** There is one bind per `?`, at every subexpression. */
  lemma OneBindPerPlaceholder(e: Expr, table: Table, qualifier: Option<string>, n: nat)
    requires Walk(e, table, qualifier, n).Ok?
    ensures var f := Walk(e, table, qualifier, n).value; Placeholders(f.sql) == |f.args|
  {
    var f := Walk(e, table, qualifier, n).value;
    var locals := seq(n, _ => Local(e, false)) + f.locals;
    var host := Values(_ => NullV, _ => "");
    WalkArgs(e, table, qualifier, n);
    assert locals[n..n + |f.locals|] == f.locals;
    WalkMeaning(e, table, qualifier, n, locals, host, map[], [], []);
    EvalConsumes(f.sql + [], Binds(locals, f.args, host) + [], map[]);
    assert f.sql + [] == f.sql;
  }

  /** A compiled filter selects exactly the rows its source expression means, for all bound values. */
  lemma FilterPreserved(e: Expr, table: Table, qualifier: Option<string>, host: Host, row: Cells)
    requires Compile(e, table, qualifier).Ok?
    ensures var f := Compile(e, table, qualifier).value;
            && ArgsWithin(f, 0) && Placeholders(f.sql) == |f.args|
            && Selects(f.sql, Binds(f.locals, f.args, host), row)
               == Some(if e == Ident("all") then T else Meaning(e, host, row))
  {
    if e != Ident("all") {
      var f := Compile(e, table, qualifier).value;
      WalkArgs(e, table, qualifier, 0);
      OneBindPerPlaceholder(e, table, qualifier, 0);
      assert f.locals[0..0 + |f.locals|] == f.locals;
      WalkMeaning(e, table, qualifier, 0, f.locals, host, row, [], []);
      assert f.sql + [] == f.sql;
      assert Binds(f.locals, f.args, host) + [] == Binds(f.locals, f.args, host);
    }
  }
}
