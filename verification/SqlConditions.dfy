/** The SQL that filters compile to: a WHERE fragment with positional `?` placeholders, read and
    evaluated with three-valued logic against one row. */
module SqlConditions {
  import opened Prelude
  import opened Decimals
  import TextOrder

  datatype SqlValue = NullV | IntV(n: int) | TextV(s: string)

  datatype Logic = T | F | U

  function Known(b: bool): Logic {
    if b then T else F
  }

  function AndL(a: Logic, b: Logic): Logic {
    if a.F? || b.F? then F else if a.U? || b.U? then U else T
  }

  function OrL(a: Logic, b: Logic): Logic {
    if a.T? || b.T? then T else if a.U? || b.U? then U else F
  }

  // ----- values

  datatype SqlOp = EqS | NeS | LtS | LeS | GtS | GeS

  /** SQLite's order: integers before text. */
  predicate Less(a: SqlValue, b: SqlValue) {
    match (a, b)
    case (IntV(m), IntV(n)) => m < n
    case (IntV(_), TextV(_)) => true
    case (TextV(s), TextV(t)) => TextOrder.Less(s, t)
    case _ => false
  }

  function CompareV(op: SqlOp, a: SqlValue, b: SqlValue): Logic {
    if a.NullV? || b.NullV? then U
    else
      Known(match op
            case EqS => a == b
            case NeS => a != b
            case LtS => Less(a, b)
            case LeS => Less(a, b) || a == b
            case GtS => Less(b, a)
            case GeS => Less(b, a) || a == b)
  }

  /** The text LIKE compares. */
  function TextOf(v: SqlValue): string
    requires !v.NullV?
  {
    match v
    case TextV(s) => s
    case IntV(n) => if n < 0 then "-" + Numeral(-n) else Numeral(n)
  }

  /** LIKE folds ASCII case. */
  predicate Same(a: char, b: char) {
    LowerChar(a) == LowerChar(b)
  }

  /** `text LIKE pattern ESCAPE '\'`. */
  predicate Like(p: string, t: string)
    decreases |p| + |t|
  {
    if p == [] then t == []
    else if p[0] == '%' then Like(p[1..], t) || (t != [] && Like(p, t[1..]))
    else if p[0] == '_' then t != [] && Like(p[1..], t[1..])
    else if p[0] == '\\' then |p| >= 2 && t != [] && Same(p[1], t[0]) && Like(p[2..], t[1..])
    else t != [] && Same(p[0], t[0]) && Like(p[1..], t[1..])
  }

  function LikeV(v: SqlValue, pattern: string): Logic {
    if v.NullV? then U else Known(Like(pattern, TextOf(v)))
  }

  // ----- tokens

  datatype SqlTok =
    | LP | RP | AndK | OrK
    | Column(qualifier: Option<string>, name: string)
    | Placeholder
    | OpK(op: SqlOp)
    | IsNullK | IsNotNullK
    | EqualsEmpty
    | LikeK | Percent | Concat | EscapeK

  type Cells = map<string, SqlValue>
  type Rest = (seq<SqlTok>, seq<SqlValue>)

  function ColumnValue(row: Cells, name: string): SqlValue {
    if name in row then row[name] else NullV
  }

  // ----- evaluation, binding placeholders left to right

  /** A LIKE pattern: pieces joined by `||`, up to `ESCAPE`. */
  function EvalPattern(ts: seq<SqlTok>, binds: seq<SqlValue>): (r: Option<(string, Rest)>)
    ensures r.Some? ==> |r.value.1.0| < |ts|
    decreases |ts|
  {
    if ts == [] then None
    else
      var piece :=
        if ts[0].Percent? then Some(("%", binds))
        else if ts[0].Placeholder? && binds != [] && binds[0].TextV? then Some((binds[0].s, binds[1..]))
        else None;
      if piece.None? || |ts| < 2 then None
      else if ts[1].EscapeK? then Some((piece.value.0, (ts[2..], piece.value.1)))
      else if ts[1].Concat? then
        match EvalPattern(ts[2..], piece.value.1)
        case Some((more, rest)) => Some((piece.value.0 + more, rest))
        case None => None
      else None
  }

  function EvalAtom(ts: seq<SqlTok>, binds: seq<SqlValue>, row: Cells): (r: Option<(Logic, Rest)>)
    ensures r.Some? ==> |r.value.1.0| < |ts|
  {
    if |ts| < 2 then None
    else if ts[0].Column? then
      var v := ColumnValue(row, ts[0].name);
      if ts[1].IsNullK? then Some((Known(v.NullV?), (ts[2..], binds)))
      else if ts[1].IsNotNullK? then Some((Known(!v.NullV?), (ts[2..], binds)))
      else if ts[1].OpK? && |ts| >= 3 && ts[2].Placeholder? && binds != [] then
        Some((CompareV(ts[1].op, v, binds[0]), (ts[3..], binds[1..])))
      else if ts[1].LikeK? then
        match EvalPattern(ts[2..], binds)
        case Some((pattern, rest)) => Some((LikeV(v, pattern), rest))
        case None => None
      else None
    else if ts[0].Placeholder? && binds != [] then
      if ts[1].IsNullK? then Some((Known(binds[0].NullV?), (ts[2..], binds[1..])))
      else if ts[1].EqualsEmpty? then Some((CompareV(EqS, binds[0], TextV("")), (ts[2..], binds[1..])))
      else None
    else None
  }

  /** Reads one condition, `(a AND b)`, `(a OR b)` or an atom, and evaluates it. */
  function EvalSql(ts: seq<SqlTok>, binds: seq<SqlValue>, row: Cells): (r: Option<(Logic, Rest)>)
    ensures r.Some? ==> |r.value.1.0| < |ts|
    decreases |ts|
  {
    if ts == [] then None
    else if !ts[0].LP? then EvalAtom(ts, binds, row)
    else
      match EvalSql(ts[1..], binds, row)
      case None => None
      case Some((left, (ts1, binds1))) =>
        if ts1 == [] || !(ts1[0].AndK? || ts1[0].OrK?) then None
        else
          match EvalSql(ts1[1..], binds1, row)
          case None => None
          case Some((right, (ts2, binds2))) =>
            if ts2 == [] || !ts2[0].RP? then None
            else Some((if ts1[0].AndK? then AndL(left, right) else OrL(left, right), (ts2[1..], binds2)))
  }

  /** Does the row satisfy `WHERE sql`? No fragment means every row. */
  function Selects(ts: seq<SqlTok>, binds: seq<SqlValue>, row: Cells): Option<Logic> {
    if ts == [] && binds == [] then Some(T)
    else
      match EvalSql(ts, binds, row)
      case Some((v, (ts', binds'))) => if ts' == [] && binds' == [] then Some(v) else None
      case None => None
  }

  /** How many `?` the text has. */
  function Placeholders(ts: seq<SqlTok>): nat {
    if ts == [] then 0 else (if ts[0].Placeholder? then 1 else 0) + Placeholders(ts[1..])
  }

  lemma Peel(ts: seq<SqlTok>)
    requires |ts| >= 2
    ensures Placeholders(ts) == (if ts[0].Placeholder? then 1 else 0) + (if ts[1].Placeholder? then 1 else 0)
            + Placeholders(ts[2..])
  {
    assert ts[1..][1..] == ts[2..];
  }

  lemma {:induction false} PatternConsumes(ts: seq<SqlTok>, binds: seq<SqlValue>)
    requires EvalPattern(ts, binds).Some?
    ensures var rest := EvalPattern(ts, binds).value.1;
            Placeholders(ts) - Placeholders(rest.0) == |binds| - |rest.1|
    decreases |ts|
  {
    Peel(ts);
    if ts[1].Concat? {
      PatternConsumes(ts[2..], if ts[0].Percent? then binds else binds[1..]);
    }
  }

  lemma AtomConsumes(ts: seq<SqlTok>, binds: seq<SqlValue>, row: Cells)
    requires EvalAtom(ts, binds, row).Some?
    ensures var rest := EvalAtom(ts, binds, row).value.1;
            Placeholders(ts) - Placeholders(rest.0) == |binds| - |rest.1|
  {
    Peel(ts);
    if ts[0].Column? && ts[1].OpK? {
      assert ts[2..][1..] == ts[3..];
    } else if ts[0].Column? && ts[1].LikeK? {
      PatternConsumes(ts[2..], binds);
    }
  }

  /** Evaluating a condition takes one bind for each `?` it reads. */
  lemma {:induction false} EvalConsumes(ts: seq<SqlTok>, binds: seq<SqlValue>, row: Cells)
    requires EvalSql(ts, binds, row).Some?
    ensures var rest := EvalSql(ts, binds, row).value.1;
            Placeholders(ts) - Placeholders(rest.0) == |binds| - |rest.1|
    decreases |ts|
  {
    if ts[0].LP? {
      var (_, (ts1, binds1)) := EvalSql(ts[1..], binds, row).value;
      EvalConsumes(ts[1..], binds, row);
      EvalConsumes(ts1[1..], binds1, row);
    } else {
      AtomConsumes(ts, binds, row);
    }
  }
}
