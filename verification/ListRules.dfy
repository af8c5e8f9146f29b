/** Which rows a list shows, column by column: search, filters, sort column, page and the columns a row
    is shown with. */
module ListRules {
  import opened Prelude
  import opened SqlConditions
  import opened Filters
  import opened Resources
  import opened ResourceProofs

  // ----- search

  /** Some searchable column that the reader may see contains the term. */
  ghost predicate FoundIn(cols: seq<ColInfo>, term: string, public: bool, r: Row) {
    exists i | 0 <= i < |cols| ::
      Searchable(cols[i], public) && HasText(Cell(r, cols[i].name), term)
  }

  /** The value, as text, contains the term in any ASCII case. */
  predicate HasText(v: SqlValue, term: string) {
    !v.NullV? && ContainsFolded(TextOf(v), term)
  }

  predicate Searchable(c: ColInfo, public: bool) {
    c.search && (c.isPrivate ==> !public)
  }

  /** A search keeps exactly the rows it is found in; without a searchable column it keeps every row. */
  lemma {:induction false} SearchExactly(cols: seq<ColInfo>, term: string, public: bool, r: Row)
    ensures SearchCond(cols, term, public).Some? <==> exists i | 0 <= i < |cols| :: Searchable(cols[i], public)
    ensures SearchCond(cols, term, public).Some? ==>
              (SearchCond(cols, term, public).value(r) <==> FoundIn(cols, term, public, r))
    decreases |cols|
  {
    if cols != [] {
      var n := |cols| - 1;
      SearchExactly(cols[..n], term, public, r);
      assert forall i | 0 <= i < n :: cols[..n][i] == cols[i];
    }
  }

  // ----- filters

  /** Does this column answer to the parameter `name`? */
  predicate Answers(c: ColInfo, name: string, public: bool) {
    && c.filter.Some? && (c.isPrivate ==> !public)
    && (if c.filter.value.Range? then name == c.name + "_from" || name == c.name + "_to" else name == c.name)
  }

  predicate AtMostV(a: SqlValue, b: SqlValue) {
    !a.NullV? && !b.NullV? && (a == b || Sooner(a, b))
  }

  /** What the column asks of a row: an exact value, a flag, a contained text, or one end of a range. A value that
      does not parse asks nothing. */
  predicate Asked(c: ColInfo, name: string, value: string, r: Row)
    requires c.filter.Some?
  {
    var cell := Cell(r, c.name);
    match c.filter.value
    case Exact => c.parse(value, false).None? || (!cell.NullV? && c.parse(value, false) == Some(cell))
    case ExactBool =>
      && (value in {"true", "1"} ==> cell == IntV(1))
      && (value in {"false", "0"} ==> cell == IntV(0))
    case Containing => HasText(cell, value)
    case Range =>
      if name == c.name + "_from" then c.parse(value, false).None? || AtMostV(c.parse(value, false).value, cell)
      else c.parse(value, true).None? || AtMostV(cell, c.parse(value, true).value)
  }

  /** The first column that answers to the parameter decides; if none does, it asks nothing. */
  ghost predicate Passes(cols: seq<ColInfo>, name: string, value: string, public: bool, r: Row) {
    forall i | 0 <= i < |cols| && Answers(cols[i], name, public) ::
      (exists k :: 0 <= k < i && Answers(cols[k], name, public)) || Asked(cols[i], name, value, r)
  }

  lemma ArmExactly(c: ColInfo, name: string, value: string, r: Row)
    ensures FilterArm(c, name, value).Some? <==> Answers(c, name, false)
    ensures FilterArm(c, name, value).Some? ==>
              (Resources.Holds(FilterArm(c, name, value).value, r) <==> Asked(c, name, value, r))
  {
    assert "_from"[1] == 'f' && "_to"[1] == 't';
    if c.filter.Some? && c.filter.value.Range? {
      assert (c.name + "_from")[|c.name| + 1] == 'f' && (c.name + "_to")[|c.name| + 1] == 't';
    }
  }

  lemma {:induction false} FilterExactly(cols: seq<ColInfo>, name: string, value: string, public: bool, r: Row)
    ensures Resources.Holds(FilterCond(cols, name, value, public), r) <==> Passes(cols, name, value, public, r)
    decreases |cols|
  {
    if cols != [] {
      ArmExactly(cols[0], name, value, r);
      FilterExactly(cols[1..], name, value, public, r);
      FirstDecides(cols, name, value, public, r);
    }
  }

  lemma FirstDecides(cols: seq<ColInfo>, name: string, value: string, public: bool, r: Row)
    requires cols != []
    ensures Passes(cols, name, value, public, r) <==>
            if Answers(cols[0], name, public) then Asked(cols[0], name, value, r)
            else Passes(cols[1..], name, value, public, r)
  {
    var rest := cols[1..];
    assert forall i | 0 <= i < |rest| :: rest[i] == cols[i + 1];
    if !Answers(cols[0], name, public) {
      if Passes(cols, name, value, public, r) {
        forall i | 0 <= i < |rest| && Answers(rest[i], name, public)
          ensures (exists k :: 0 <= k < i && Answers(rest[k], name, public)) || Asked(rest[i], name, value, r)
        {
          assert rest[i] == cols[i + 1];
          if k :| 0 <= k < i + 1 && Answers(cols[k], name, public) { assert rest[k - 1] == cols[k]; }
        }
      }
      if Passes(rest, name, value, public, r) {
        forall i | 0 <= i < |cols| && Answers(cols[i], name, public)
          ensures (exists k :: 0 <= k < i && Answers(cols[k], name, public)) || Asked(cols[i], name, value, r)
        {
          assert rest[i - 1] == cols[i];
          if k :| 0 <= k < i - 1 && Answers(rest[k], name, public) { assert cols[k + 1] == rest[k]; }
        }
      }
    }
  }

  ghost predicate PassesAll(cols: seq<ColInfo>, filters: seq<(string, string)>, public: bool, r: Row) {
    forall i | 0 <= i < |filters| && filters[i].1 != "" :: Passes(cols, filters[i].0, filters[i].1, public, r)
  }

  lemma LastFilter(cols: seq<ColInfo>, filters: seq<(string, string)>, public: bool, r: Row)
    requires filters != []
    ensures var n := |filters| - 1;
            PassesAll(cols, filters, public, r) <==>
            PassesAll(cols, filters[..n], public, r) &&
            (filters[n].1 != "" ==> Passes(cols, filters[n].0, filters[n].1, public, r))
  {
    var n := |filters| - 1;
    assert forall i | 0 <= i < n :: filters[..n][i] == filters[i];
  }

  /** Filters keep exactly the rows that pass every one that is not empty. */
  lemma {:induction false} FiltersExactly(cols: seq<ColInfo>, filters: seq<(string, string)>, public: bool,
      acc: Option<Cond>, r: Row)
    ensures Resources.Holds(WithFilters(cols, filters, public, acc), r) <==>
            Resources.Holds(acc, r) && PassesAll(cols, filters, public, r)
    decreases |filters|
  {
    if filters != [] {
      var n := |filters| - 1;
      FiltersExactly(cols, filters[..n], public, acc, r);
      LastFilter(cols, filters, public, r);
      FilterExactly(cols, filters[n].0, filters[n].1, public, r);
    }
  }

  // ----- the list

  /** The row is to be shown: visible, found by the search and passing the filters. */
  ghost predicate Listed(reg: Registry, db: Db, m: Model, access: Access, q: ListQuery, r: Row)
    requires Registered(reg, m)
  {
    var public := access.user.None?;
    && Visible(reg, db, m, access, r)
    && (q.search.Some? && q.search.value != "" && (exists i | 0 <= i < |m.cols| :: Searchable(m.cols[i], public)) ==>
          FoundIn(m.cols, q.search.value, public, r))
    && PassesAll(m.cols, q.filters, public, r)
  }

  lemma ListCondExactly(reg: Registry, db: Db, m: Model, access: Access, q: ListQuery, r: Row)
    requires Registered(reg, m)
    ensures Listed(reg, db, m, access, q, r) <==>
            r in RowsOf(db, m) && Resources.Holds(ListCond(reg, db, m, access, q), r)
  {
    var public := access.user.None?;
    var scope := Scope(reg, db, m, access);
    ScopeExactly(reg, db, m, access, r);
    var term := if q.search.Some? && q.search.value != "" then SearchCond(m.cols, q.search.value, public) else None;
    if q.search.Some? { SearchExactly(m.cols, q.search.value, public, r); }
    FiltersExactly(m.cols, q.filters, public, if term.Some? then AndOpt(scope, term.value) else scope, r);
  }

  /** Paging through a list shows each row that is to be shown exactly once, and no other; `total` is their
      number. */
  lemma ListShowsListed(reg: Registry, db: Db, m: Model, access: Access, q: ListQuery, count: nat, r: Row)
    requires Registered(reg, m) && KeysOrdered(RowsOf(db, m))
    ensures var rows := ListRows(reg, db, m, access, q);
            && ListSpec(reg, db, m, access, q).total == |rows|
            && (count * AtLeastOne(q.perPage) >= |rows| ==> Pages(rows, q.perPage, count) == rows)
            && multiset(rows)[r] == (if Listed(reg, db, m, access, q, r) then 1 else 0)
  {
    var rows := ListRows(reg, db, m, access, q);
    PagesCover(rows, q.perPage, count);
    assert rows[..|rows|] == rows;
    ListCondExactly(reg, db, m, access, q, r);
    SelectCount(RowsOf(db, m), ListCond(reg, db, m, access, q), r);
    if r in RowsOf(db, m) { KeyedOnce(RowsOf(db, m), r); }
  }

  /** A page holds what lies between its ends, both arguments counting as one when smaller. */
  lemma PageExactly<T>(rows: seq<T>, page: int, perPage: int, i: nat)
    ensures var size := if perPage < 1 then 1 else perPage;
            var start := (if page < 1 then 0 else page - 1) * size;
            && (i < |PageOf(rows, page, perPage)| <==> i < size && start + i < |rows|)
            && (i < |PageOf(rows, page, perPage)| ==> PageOf(rows, page, perPage)[i] == rows[start + i])
  {
    var size := if perPage < 1 then 1 else perPage;
    assert AtLeastOne(perPage) == size;
    assert AtLeastOne(page) - 1 == if page < 1 then 0 else page - 1;
  }

  // ----- order and columns

  predicate Sortable(c: ColInfo, public: bool) {
    !c.json && !c.hidden && (c.isPrivate ==> !public)
  }

  /** A list is sorted by the column asked for if it may be sorted by, else by the default of its kind. */
  lemma {:induction false} SortKeyExactly(cols: seq<ColInfo>, m: Model, q: ListQuery, public: bool)
    ensures SortKey(cols, m, q, public) ==
            if q.sort.Some? && exists i | 0 <= i < |cols| :: cols[i].name == q.sort.value && Sortable(cols[i], public)
            then (q.sort.value, q.desc)
            else if public && m.publicOrderBy.Some? then m.publicOrderBy.value else m.orderBy
    decreases |cols|
  {
    if cols != [] {
      SortKeyExactly(cols[1..], m, q, public);
      assert forall i | 0 < i < |cols| :: cols[1..][i - 1] == cols[i];
    }
  }

  /** Null first, then numbers, then texts. */
  predicate Earlier(a: SqlValue, b: SqlValue) {
    match (a, b)
    case (NullV, NullV) => false
    case (NullV, _) => true
    case (IntV(m), IntV(n)) => m < n
    case (IntV(_), TextV(_)) => true
    case (TextV(s), TextV(t)) => TextOrder.Less(s, t)
    case _ => false
  }

  /** Of two rows of a list the first has the earlier value in the sort column, the later one when sorting down,
      or the same value and the smaller key. */
  lemma ListOrder(reg: Registry, db: Db, m: Model, access: Access, q: ListQuery, i: nat, j: nat)
    requires Registered(reg, m) && KeysOrdered(RowsOf(db, m))
    requires i < j < |ListRows(reg, db, m, access, q)|
    ensures var (column, down) := SortKey(m.cols, m, q, access.user.None?);
            var r, s := ListRows(reg, db, m, access, q)[i], ListRows(reg, db, m, access, q)[j];
            var a, b := Cell(r, column), Cell(s, column);
            (if down then Earlier(b, a) else Earlier(a, b)) || (a == b && r.id < s.id)
  {
    ListInOrder(reg, db, m, access, q);
    var key := SortKey(m.cols, m, q, access.user.None?);
    assert InOrder(key, ListRows(reg, db, m, access, q)[i], ListRows(reg, db, m, access, q)[j]);
  }

  predicate ShownColumn(c: ColInfo, public: bool) {
    (!c.hidden || c.name == "id") && (c.isPrivate ==> !public)
  }

  /** A row is shown with exactly its columns that are not hidden, nor private before a visitor, and the key. */
  lemma {:induction false} JsonExactly(cols: seq<ColInfo>, r: Row, public: bool, name: string)
    ensures name in JsonOf(cols, r, public) <==>
            exists i | 0 <= i < |cols| :: cols[i].name == name && ShownColumn(cols[i], public)
    ensures name in JsonOf(cols, r, public) ==> JsonOf(cols, r, public)[name] == Cell(r, name)
    decreases |cols|
  {
    if cols != [] {
      var n := |cols| - 1;
      JsonExactly(cols[..n], r, public, name);
      assert forall i | 0 <= i < n :: cols[..n][i] == cols[i];
    }
  }
}
