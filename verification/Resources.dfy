/** The data access that `#[model]` generates, as an interpreter over a model definition: the access
    scope every read and write goes through, lists with search, filters, sort and pages, and the
    guarded writes. */
module Resources {
  import opened Prelude
  import opened SqlConditions
  import opened Filters

  // ----- data

  datatype Row = Row(id: int, cols: map<string, SqlValue>)

  function Cell(r: Row, column: string): SqlValue {
    if column == "id" then IntV(r.id) else if column in r.cols then r.cols[column] else NullV
  }

  /** Rows in primary-key order. */
  type Rows = seq<Row>
  type Db = map<string, Rows>

  ghost predicate KeysOrdered(rows: Rows) {
    forall i, j | 0 <= i < j < |rows| :: rows[i].id < rows[j].id
  }

  /** A WHERE condition: does it hold (not fail, not be unknown) of the row? */
  type Cond = Row -> bool

  datatype CurrentUser = CurrentUser(id: int, admin: bool, permissions: set<string>)

  datatype Access = Access(user: Option<CurrentUser>, parentId: Option<int>)

  const PUBLIC: Access := Access(None, None)

  // ----- model definitions

  datatype FilterKind = Exact | ExactBool | Containing | Range

  /** `parse` reads a query parameter into the column's type; `read` reads and validates the
      column's form field, `None` being a recorded error. */
  datatype ColInfo = ColInfo(
    name: string,
    hidden: bool,
    isPrivate: bool,
    json: bool,
    inForm: bool,
    search: bool,
    filter: Option<FilterKind>,
    references: Option<string>,
    parse: (string, bool) -> Option<SqlValue>,
    read: FormData -> Option<SqlValue>)

  type FormData = map<string, string>

  type JsonRow = map<string, SqlValue>

  /** The application's hooks. */
  datatype Hooks = Hooks(
    scope: (Db, CurrentUser) -> Option<Cond>,
    publicScope: Option<Cond>,
    decorate: (Row, JsonRow) -> JsonRow,
    canCreate: (Db, CurrentUser, Option<int>) -> bool,
    canEdit: (Db, CurrentUser, Row) -> bool,
    canDelete: (Db, CurrentUser, Row) -> bool,
    canAct: (Db, CurrentUser, Row, string) -> bool)

  datatype Model = Model(
    table: string,
    cols: seq<ColInfo>,
    owner: Option<string>,
    parent: Option<(string, string)>,
    permission: Option<string>,
    actions: set<string>,
    orderBy: (string, bool),
    publicOrderBy: Option<(string, bool)>,
    hooks: Hooks)

  /** Registered models by struct name. */
  type Registry = map<string, Model>

  /** The boot check's nesting rules: a parent is a registered model that is not itself nested. */
  ghost predicate Checked(reg: Registry) {
    forall name | name in reg && reg[name].parent.Some? ::
      var target := reg[name].parent.value.1;
      target in reg && reg[target].parent.None?
  }

  function RowsOf(db: Db, m: Model): Rows {
    if m.table in db then db[m.table] else []
  }

  // ----- permissions and scope

  function Depth(m: Model): nat {
    if m.parent.Some? then 1 else 0
  }

  ghost predicate Registered(reg: Registry, m: Model) {
    Checked(reg) && exists name :: name in reg && reg[name] == m
  }

  /** `permission = "..."`, else the parent's, else the table name. */
  function PermissionBase(reg: Registry, m: Model): string
    requires Registered(reg, m)
    decreases Depth(m)
  {
    if m.permission.Some? then m.permission.value
    else if m.parent.Some? then PermissionBase(reg, reg[m.parent.value.1])
    else m.table
  }

  predicate MayRead(reg: Registry, m: Model, u: CurrentUser)
    requires Registered(reg, m)
  {
    u.admin || (PermissionBase(reg, m) + ".read") in u.permissions
  }

  function AndOpt(acc: Option<Cond>, c: Cond): Option<Cond> {
    match acc
    case Some(prev) => Some((r: Row) => prev(r) && c(r))
    case None => Some(c)
  }

  predicate Holds(c: Option<Cond>, r: Row) {
    c.Some? ==> c.value(r)
  }

  function IdsOf(rows: Rows): (ids: seq<int>)
    ensures |ids| == |rows| && forall i | 0 <= i < |rows| :: ids[i] == rows[i].id
  {
    seq(|rows|, i requires 0 <= i < |rows| => rows[i].id)
  }

  function Select(rows: Rows, c: Option<Cond>): (found: Rows)
    ensures forall r :: r in found <==> r in rows && Holds(c, r)
    ensures |found| <= |rows|
  {
    if rows == [] then []
    else (if Holds(c, rows[0]) then [rows[0]] else []) + Select(rows[1..], c)
  }

  /** The parent rows a user may see: `None` is no restriction. Terminates because nesting is one
      level deep. */
  function VisibleParentIds(reg: Registry, db: Db, u: CurrentUser, target: string): Option<seq<int>>
    requires Checked(reg) && (target in reg ==> reg[target].parent.None?)
    decreases 0, 2
  {
    if target !in reg then Some([])
    else if !MayRead(reg, reg[target], u) then Some([])
    else VisibleIds(reg, db, reg[target], Access(Some(u), None))
  }

  /** The scope hook and the owner column. */
  function BaseScope(db: Db, m: Model, u: CurrentUser): Option<Cond> {
    var scoped := m.hooks.scope(db, u);
    if m.owner.Some? && !u.admin then AndOpt(scoped, (r: Row) => Cell(r, m.owner.value) == IntV(u.id)) else scoped
  }

  /** The access rules every read and write goes through. */
  function Scope(reg: Registry, db: Db, m: Model, access: Access): Option<Cond>
    requires Registered(reg, m)
    decreases Depth(m), 0
  {
    var base := if access.user.None? then m.hooks.publicScope else BaseScope(db, m, access.user.value);
    if m.parent.None? then base
    else
      var column := m.parent.value.0;
      var nested :=
        if access.user.None? then base
        else
          var ids := VisibleParentIds(reg, db, access.user.value, m.parent.value.1);
          if ids.Some? then AndOpt(base, (r: Row) => exists i | 0 <= i < |ids.value| ::
              Cell(r, column) == IntV(ids.value[i]))
          else base;
      if access.parentId.Some? then AndOpt(nested, (r: Row) => Cell(r, column) == IntV(access.parentId.value))
      else nested
  }

  function VisibleIds(reg: Registry, db: Db, m: Model, access: Access): Option<seq<int>>
    requires Registered(reg, m)
    decreases Depth(m), 1
  {
    var c := Scope(reg, db, m, access);
    if c.None? then None else Some(IdsOf(Select(RowsOf(db, m), c)))
  }

  function ById(id: int, c: Option<Cond>): Cond {
    (r: Row) => r.id == id && Holds(c, r)
  }

  /** One row by id inside the scope. */
  function Fetch(reg: Registry, db: Db, m: Model, access: Access, id: int): Option<Row>
    requires Registered(reg, m)
  {
    var c := Scope(reg, db, m, access);
    var found := Select(RowsOf(db, m), Some(ById(id, c)));
    if found == [] then None else Some(found[0])
  }

  /** May `u` point a foreign key at row `id` of `target`? Unregistered targets are left to the
      database's own constraint. */
  predicate RefVisible(reg: Registry, db: Db, u: CurrentUser, target: string, id: int)
    requires Checked(reg)
  {
    target in reg ==> MayRead(reg, reg[target], u) && Fetch(reg, db, reg[target], Access(Some(u), None), id).Some?
  }

  // ----- lists

  datatype ListQuery = ListQuery(
    search: Option<string>,
    filters: seq<(string, string)>,
    sort: Option<string>,
    desc: bool,
    page: int,
    perPage: int)

  datatype ListResult = ListResult(rows: seq<JsonRow>, total: nat, page: int, perPage: int)

  predicate Usable(c: ColInfo, public: bool) {
    !(c.isPrivate && public)
  }

  predicate CellContains(r: Row, column: string, s: string) {
    ContainsV(Cell(r, column), s).T?
  }

  /** Any searchable column contains the term; `None` when no column can be searched. */
  function SearchCond(cols: seq<ColInfo>, s: string, public: bool): Option<Cond> {
    if cols == [] then None
    else
      var c := cols[|cols| - 1];
      var rest := SearchCond(cols[..|cols| - 1], s, public);
      if !c.search || !Usable(c, public) then rest
      else Some(OrContains(rest, c.name, s))
  }

  function OrContains(rest: Option<Cond>, column: string, s: string): Cond {
    if rest.Some? then (r: Row) => rest.value(r) || CellContains(r, column, s)
    else (r: Row) => CellContains(r, column, s)
  }

  function CompareCell(op: SqlOp, column: string, v: SqlValue): Cond {
    (r: Row) => CompareV(op, Cell(r, column), v).T?
  }

  /** The condition one filter column adds for a query parameter, if it is that column's. */
  function FilterArm(c: ColInfo, name: string, value: string): Option<Option<Cond>> {
    if c.filter.None? then None
    else
      match c.filter.value
      case Exact =>
        if name != c.name then None
        else
          var v := c.parse(value, false);
          Some(if v.Some? then Some(CompareCell(EqS, c.name, v.value)) else None)
      case ExactBool =>
        if name != c.name then None
        else if value == "true" || value == "1" then Some(Some(CompareCell(EqS, c.name, IntV(1))))
        else if value == "false" || value == "0" then Some(Some(CompareCell(EqS, c.name, IntV(0))))
        else Some(None)
      case Containing => if name != c.name then None else Some(Some((r: Row) => CellContains(r, c.name, value)))
      case Range =>
        if name == c.name + "_from" then
          var v := c.parse(value, false);
          Some(if v.Some? then Some(CompareCell(GeS, c.name, v.value)) else None)
        else if name == c.name + "_to" then
          var v := c.parse(value, true);
          Some(if v.Some? then Some(CompareCell(LeS, c.name, v.value)) else None)
        else None
  }

  /** The first arm that matches; an arm of a private column never matches an anonymous request. */
  function FilterCond(cols: seq<ColInfo>, name: string, value: string, public: bool): Option<Cond> {
    if cols == [] then None
    else
      var arm := if Usable(cols[0], public) then FilterArm(cols[0], name, value) else None;
      if arm.Some? then arm.value else FilterCond(cols[1..], name, value, public)
  }

  /** AND every given filter onto the condition, in order. */
  function WithFilters(cols: seq<ColInfo>, filters: seq<(string, string)>, public: bool,
      acc: Option<Cond>): Option<Cond> {
    if filters == [] then acc
    else
      var before := WithFilters(cols, filters[..|filters| - 1], public, acc);
      var (name, value) := filters[|filters| - 1];
      var c := if value == "" then None else FilterCond(cols, name, value, public);
      if c.Some? then AndOpt(before, c.value) else before
  }

  function ListCond(reg: Registry, db: Db, m: Model, access: Access, q: ListQuery): Option<Cond>
    requires Registered(reg, m)
  {
    var public := access.user.None?;
    var scope := Scope(reg, db, m, access);
    var term := if q.search.Some? && q.search.value != "" then SearchCond(m.cols, q.search.value, public) else None;
    var searched := if term.Some? then AndOpt(scope, term.value) else scope;
    WithFilters(m.cols, q.filters, public, searched)
  }

  /** The column and direction to sort by: `?sort=` when it names a sortable column. */
  function SortKey(cols: seq<ColInfo>, m: Model, q: ListQuery, public: bool): (string, bool) {
    if cols == [] || q.sort.None? then
      (if public && m.publicOrderBy.Some? then m.publicOrderBy.value else m.orderBy)
    else if cols[0].name == q.sort.value && !cols[0].json && !cols[0].hidden && Usable(cols[0], public) then
      (cols[0].name, q.desc)
    else SortKey(cols[1..], m, q, public)
  }

  /** Null first, as SQLite orders. */
  predicate Before(a: SqlValue, b: SqlValue) {
    if a.NullV? then !b.NullV? else Less(a, b)
  }

  predicate Precedes(key: (string, bool), r: Row, s: Row) {
    if key.1 then Before(Cell(s, key.0), Cell(r, key.0)) else Before(Cell(r, key.0), Cell(s, key.0))
  }

  function InsertRow(key: (string, bool), r: Row, rows: Rows): (out: Rows)
    ensures multiset(out) == multiset(rows) + multiset{r}
  {
    if rows == [] then [r]
    else if !Precedes(key, r, rows[|rows| - 1]) then rows + [r]
    else
      var out := InsertRow(key, r, rows[..|rows| - 1]) + [rows[|rows| - 1]];
      assert rows == rows[..|rows| - 1] + [rows[|rows| - 1]];
      out
  }

  /** `ORDER BY` one column; ties stay in primary-key order. */
  function Sorted(key: (string, bool), rows: Rows): (out: Rows)
    ensures multiset(out) == multiset(rows)
  {
    if rows == [] then []
    else
      var out := InsertRow(key, rows[|rows| - 1], Sorted(key, rows[..|rows| - 1]));
      assert rows == rows[..|rows| - 1] + [rows[|rows| - 1]];
      out
  }

  function AtLeastOne(n: int): nat {
    if n < 1 then 1 else n
  }

  function Min(a: int, b: int): int {
    if a < b then a else b
  }

  /** `LIMIT per_page OFFSET (page - 1) * per_page`, both clamped to at least one. */
  function PageOf<T>(rows: seq<T>, page: int, perPage: int): seq<T> {
    var size := AtLeastOne(perPage);
    var start := (AtLeastOne(page) - 1) * size;
    rows[Min(start, |rows|)..Min(start + size, |rows|)]
  }

  /** A row as a page or an API response shows it. */
  function RowJson(m: Model, r: Row, public: bool): JsonRow {
    m.hooks.decorate(r, JsonOf(m.cols, r, public))
  }

  function JsonOf(cols: seq<ColInfo>, r: Row, public: bool): JsonRow {
    if cols == [] then map[]
    else
      var rest := JsonOf(cols[..|cols| - 1], r, public);
      var c := cols[|cols| - 1];
      if (c.hidden && c.name != "id") || !Usable(c, public) then rest else rest[c.name := Cell(r, c.name)]
  }

  function RowsJson(m: Model, rows: Rows, public: bool): (out: seq<JsonRow>)
    ensures |out| == |rows| && forall i | 0 <= i < |rows| :: out[i] == RowJson(m, rows[i], public)
  {
    seq(|rows|, i requires 0 <= i < |rows| => RowJson(m, rows[i], public))
  }

  function ListRows(reg: Registry, db: Db, m: Model, access: Access, q: ListQuery): Rows
    requires Registered(reg, m)
  {
    Sorted(SortKey(m.cols, m, q, access.user.None?), Select(RowsOf(db, m), ListCond(reg, db, m, access, q)))
  }

  function ListSpec(reg: Registry, db: Db, m: Model, access: Access, q: ListQuery): ListResult
    requires Registered(reg, m)
  {
    var rows := ListRows(reg, db, m, access, q);
    ListResult(RowsJson(m, PageOf(rows, q.page, q.perPage), access.user.None?), |rows|,
               AtLeastOne(q.page), AtLeastOne(q.perPage))
  }
}
