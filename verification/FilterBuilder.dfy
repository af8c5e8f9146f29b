/** The filter compiler as it runs: the walk returns SQL text and pushes hoisted locals and bind
    names onto the filter it is building. */
module FilterBuilder {
  import opened Prelude
  import opened SqlConditions
  import opened Filters

  class Filter {
    var locals: seq<Local>
    var args: seq<nat>

    constructor ()
      ensures locals == [] && args == []
    {
      locals, args := [], [];
    }

    /** Hoists `e` into a new local and binds it to one `?`, or to two. */
    method Bind(e: Expr, escaped: bool, twice: bool) returns (placeholder: SqlTok)
      modifies this
      ensures placeholder == Placeholder
      ensures locals == old(locals) + [Local(e, escaped)]
      ensures args == old(args) + if twice then [|old(locals)|, |old(locals)|] else [|old(locals)|]
    {
      var name := |locals|;
      locals := locals + [Local(e, escaped)];
      if twice {
        args := args + [name];
      }
      args := args + [name];
      placeholder := Placeholder;
    }

    /** What a successful compilation of `f` leaves behind. */
    ghost predicate Pushed(f: Fragment, before: seq<Local>, bound: seq<nat>)
      reads this
    {
      locals == before + f.locals && args == bound + f.args
    }

    method Comparison(l: Expr, op: SqlOp, r: Expr, table: Table, qualifier: Option<string>)
        returns (sql: Result<seq<SqlTok>, FilterError>)
      modifies this
      ensures match ColumnOf(l, table)
              case Err(e) => sql == Err(e)
              case Ok(name) =>
                var f := Fragment([SqlTok.Column(qualifier, name), OpK(op), Placeholder], [Local(r, false)],
                    [|old(locals)|]);
                sql == Ok(f.sql) && Pushed(f, old(locals), old(args))
    {
      var column := ColumnOf(l, table);
      if column.Err? { return Err(column.error); }
      var arg := Bind(r, false, false);
      sql := Ok([SqlTok.Column(qualifier, column.value), OpK(op), arg]);
    }

    method Method(name: string, verb: Verb, operands: seq<Expr>, qualifier: Option<string>)
        returns (sql: Result<seq<SqlTok>, FilterError>)
      modifies this
      ensures match CompileMethod(name, verb, operands, qualifier, |old(locals)|)
              case Err(e) => sql == Err(e)
              case Ok(f) => sql == Ok(f.sql) && Pushed(f, old(locals), old(args))
    {
      var col := SqlTok.Column(qualifier, name);
      if verb.IsNull? || verb.IsNotNull? {
        if operands != [] { return Err(WrongArguments); }
        return Ok([col, if verb.IsNull? then IsNullK else IsNotNullK]);
      }
      if verb.Unknown? { return Err(UnknownMethod); }
      if |operands| != 1 { return Err(WrongArguments); }
      var arg := Bind(operands[0], OptOp(verb).None?, verb.ContainsOpt? || OptOp(verb).Some?);
      if verb.Contains? {
        sql := Ok([col] + LikeTail(arg));
      } else if verb.StartsWith? {
        sql := Ok([col, LikeK, arg, SqlTok.Concat, Percent, EscapeK]);
      } else if verb.ContainsOpt? {
        sql := Ok([LP, arg, EqualsEmpty, OrK, col] + LikeTail(arg) + [RP]);
      } else {
        sql := Ok([LP, arg, IsNullK, OrK, col, OpK(OptOp(verb).value), arg, RP]);
      }
    }

    method WalkInto(e: Expr, table: Table, qualifier: Option<string>) returns (sql: Result<seq<SqlTok>, FilterError>)
      modifies this
      ensures match Walk(e, table, qualifier, |old(locals)|)
              case Err(err) => sql == Err(err)
              case Ok(f) => sql == Ok(f.sql) && Pushed(f, old(locals), old(args))
      decreases e
    {
      match e
      case Paren(inner) => sql := WalkInto(inner, table, qualifier);
      case Binary(op, l, r) =>
        if op.AndOp? || op.OrOp? {
          var left := WalkInto(l, table, qualifier);
          if left.Err? { return left; }
          var right := WalkInto(r, table, qualifier);
          if right.Err? { return right; }
          sql := Ok([LP] + left.value + [if op.AndOp? then AndK else OrK] + right.value + [RP]);
        } else if op.OtherOp? {
          sql := Err(UnsupportedOperator);
        } else {
          sql := Comparison(l, SqlOpOf(op).value, r, table, qualifier);
        }
      case Call(receiver, verb, operands) =>
        var column := ColumnOf(receiver, table);
        if column.Err? { return Err(column.error); }
        sql := Method(column.value, verb, operands, qualifier);
      case _ => sql := Err(NotAFilter);
    }
  }

  method CompileFilter(e: Expr, table: Table, qualifier: Option<string>) returns (f: Result<Fragment, FilterError>)
    ensures f == Compile(e, table, qualifier)
    ensures f.Ok? <==> e == Ident("all") || InGrammar(e, table)
    ensures f.Ok? ==> Placeholders(f.value.sql) == |f.value.args|
  {
    CompilesExactly(e, table, qualifier, 0);
    if e == Ident("all") {
      return Ok(Fragment([], [], []));
    }
    var filter := new Filter();
    var sql := filter.WalkInto(e, table, qualifier);
    if sql.Err? { return Err(sql.error); }
    OneBindPerPlaceholder(e, table, qualifier, 0);
    assert [] + filter.locals == filter.locals && [] + filter.args == filter.args;
    ghost var w := Walk(e, table, qualifier, 0).value;
    assert [] + w.locals == w.locals && [] + w.args == w.args;
    f := Ok(Fragment(sql.value, filter.locals, filter.args));
  }
}
