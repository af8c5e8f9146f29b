/** The generated service as it runs over the tables: the list loop, reading a submitted form, and the guarded
    writes, each proved to change exactly the row it may. A form is accepted only when every column reads and
    every foreign key names a row the user can see; hooks and field parsers are arbitrary functions. */
module ResourceStore {
  import opened Prelude
  import opened SqlConditions
  import opened Resources
  import opened ResourceProofs

  datatype AppError = NoAuth | NotFound | BadRequest

  /** What a write answers: done, or the columns whose form fields were rejected. */
  datatype Written = Done(id: int) | Rejected(fields: seq<string>)

  /** The columns the macro lets a form write: never the key, the owner or the parent. */
  ghost predicate FormColumnsSafe(m: Model) {
    forall i | 0 <= i < |m.cols| && m.cols[i].inForm ::
      && m.cols[i].name != "id"
      && (m.owner.Some? ==> m.cols[i].name != m.owner.value)
      && (m.parent.Some? ==> m.cols[i].name != m.parent.value.0)
  }

  ghost predicate FromForm(m: Model, values: map<string, SqlValue>) {
    forall name | name in values :: exists i :: 0 <= i < |m.cols| && m.cols[i].inForm && m.cols[i].name == name
  }

  /** Every form column holds what its field reads as. */
  ghost predicate ReadsForm(m: Model, form: FormData, values: map<string, SqlValue>) {
    forall i | 0 <= i < |m.cols| && m.cols[i].inForm ::
      m.cols[i].name in values && m.cols[i].read(form) == Some(values[m.cols[i].name])
  }

  /** Every foreign key among the values is one the row already had, or names a row the user may read. */
  ghost predicate ReferencesVisible(reg: Registry, db: Db, m: Model, u: CurrentUser, stored: Option<Row>,
      values: map<string, SqlValue>)
    requires Checked(reg)
  {
    forall i | 0 <= i < |m.cols| && m.cols[i].inForm && m.cols[i].references.Some? ::
      var c := m.cols[i];
      c.name in values && values[c.name].IntV? ==>
        || (stored.Some? && Cell(stored.value, c.name) == values[c.name])
        || RefVisible(reg, db, u, c.references.value, values[c.name].n)
  }

  // ----- forms

  /** May the row point there? A key it already had is not checked again. */
  predicate MayPoint(reg: Registry, db: Db, u: CurrentUser, stored: Option<Row>, c: ColInfo, v: SqlValue)
    requires Checked(reg)
  {
    || c.references.None? || !v.IntV?
    || (stored.Some? && Cell(stored.value, c.name) == v)
    || RefVisible(reg, db, u, c.references.value, v.n)
  }

  /** The form columns whose field does not read, or points where the user may not. */
  function RejectedCols(reg: Registry, db: Db, cols: seq<ColInfo>, u: CurrentUser, form: FormData,
      stored: Option<Row>): seq<string>
    requires Checked(reg)
  {
    if cols == [] then []
    else
      var c := cols[|cols| - 1];
      RejectedCols(reg, db, cols[..|cols| - 1], u, form, stored)
      + if c.inForm && (c.read(form).None? || !MayPoint(reg, db, u, stored, c, c.read(form).value))
          then [c.name] else []
  }

  /** What the form columns' fields read as. */
  function FormValues(cols: seq<ColInfo>, form: FormData): map<string, SqlValue> {
    if cols == [] then map[]
    else
      var c := cols[|cols| - 1];
      var before := FormValues(cols[..|cols| - 1], form);
      if c.inForm && c.read(form).Some? then before[c.name := c.read(form).value] else before
  }

  lemma {:induction false} ColumnAccepted(reg: Registry, db: Db, cols: seq<ColInfo>, u: CurrentUser, form: FormData,
      stored: Option<Row>, i: nat)
    requires Checked(reg) && RejectedCols(reg, db, cols, u, form, stored) == [] && i < |cols| && cols[i].inForm
    requires forall j, k | 0 <= j < k < |cols| :: cols[j].name != cols[k].name
    ensures cols[i].read(form).Some? && MayPoint(reg, db, u, stored, cols[i], cols[i].read(form).value)
    ensures cols[i].name in FormValues(cols, form) && FormValues(cols, form)[cols[i].name] == cols[i].read(form).value
    decreases |cols|
  {
    var n := |cols| - 1;
    assert RejectedCols(reg, db, cols[..n], u, form, stored) == [];
    if i < n {
      ColumnAccepted(reg, db, cols[..n], u, form, stored, i);
      assert cols[i].name != cols[n].name;
    }
  }

  lemma {:induction false} ValueHasColumn(cols: seq<ColInfo>, form: FormData, name: string) returns (i: nat)
    requires name in FormValues(cols, form)
    ensures i < |cols| && cols[i].inForm && cols[i].name == name
    decreases |cols|
  {
    var n := |cols| - 1;
    if cols[n].inForm && cols[n].name == name { i := n; } else { i := ValueHasColumn(cols[..n], form, name); }
  }

  /** A form without rejected columns writes exactly the form columns, each as read, and points the
      row at nothing the user cannot see. */
  lemma AcceptedForm(reg: Registry, db: Db, m: Model, u: CurrentUser, form: FormData, stored: Option<Row>)
    requires Checked(reg) && UniqueNames(m) && RejectedCols(reg, db, m.cols, u, form, stored) == []
    ensures var values := FormValues(m.cols, form);
            FromForm(m, values) && ReadsForm(m, form, values) && ReferencesVisible(reg, db, m, u, stored, values)
  {
    var values := FormValues(m.cols, form);
    forall name | name in values ensures exists i :: 0 <= i < |m.cols| && m.cols[i].inForm && m.cols[i].name == name {
      var i := ValueHasColumn(m.cols, form, name);
    }
    forall i | 0 <= i < |m.cols| && m.cols[i].inForm
      ensures m.cols[i].name in values && m.cols[i].read(form) == Some(values[m.cols[i].name])
      ensures MayPoint(reg, db, u, stored, m.cols[i], values[m.cols[i].name])
    {
      ColumnAccepted(reg, db, m.cols, u, form, stored, i);
    }
  }

  /** A foreign key may name a row of a registered model exactly when the user may read that model and sees the
      row. */
  lemma RefExactly(reg: Registry, db: Db, u: CurrentUser, target: string, id: int)
    requires Checked(reg) && (target in reg ==> KeysOrdered(RowsOf(db, reg[target])))
    ensures RefVisible(reg, db, u, target, id) <==>
            (target in reg ==>
              && MayRead(reg, reg[target], u)
              && exists p: Row :: p.id == id && Visible(reg, db, reg[target], Access(Some(u), None), p))
  {
    if target in reg {
      var m, access := reg[target], Access(Some(u), None);
      var found := Fetch(reg, db, m, access, id);
      if found.Some? { FetchFindsVisible(reg, db, m, access, id, found.value); }
      if p: Row :| p.id == id && Visible(reg, db, m, access, p) { FetchFindsVisible(reg, db, m, access, id, p); }
    }
  }

  /** Why a column is rejected: its field does not read, or it names a row the user may not, which the row did not
      name before. */
  ghost predicate Refused(reg: Registry, db: Db, u: CurrentUser, form: FormData, stored: Option<Row>, c: ColInfo)
    requires Checked(reg)
  {
    var v := c.read(form);
    && c.inForm
    && (v.None?
        || (c.references.Some? && v.value.IntV? && !RefVisible(reg, db, u, c.references.value, v.value.n)
            && (stored.Some? ==> Cell(stored.value, c.name) != v.value)))
  }

  /** Exactly the columns with a reason are rejected. */
  lemma {:induction false} RejectedExactly(reg: Registry, db: Db, cols: seq<ColInfo>, u: CurrentUser, form: FormData,
      stored: Option<Row>, name: string)
    requires Checked(reg)
    ensures name in RejectedCols(reg, db, cols, u, form, stored) <==>
            exists i | 0 <= i < |cols| :: cols[i].name == name && Refused(reg, db, u, form, stored, cols[i])
    decreases |cols|
  {
    if cols != [] {
      var n := |cols| - 1;
      RejectedExactly(reg, db, cols[..n], u, form, stored, name);
      assert forall i | 0 <= i < n :: cols[..n][i] == cols[i];
    }
  }

  function Without(rows: Rows, id: int): (out: Rows)
    ensures forall r :: r in out <==> r in rows && r.id != id
  {
    if rows == [] then [] else (if rows[0].id == id then [] else [rows[0]]) + Without(rows[1..], id)
  }

  function Replaced(rows: Rows, row: Row): (out: Rows)
    ensures |out| == |rows|
    ensures forall i | 0 <= i < |rows| :: out[i] == if rows[i].id == row.id then row else rows[i]
  {
    seq(|rows|, i requires 0 <= i < |rows| => if rows[i].id == row.id then row else rows[i])
  }

  /** `id` is above every key of the table, as an AUTOINCREMENT key is. */
  ghost predicate Above(rows: Rows, id: int) {
    forall i | 0 <= i < |rows| :: rows[i].id < id
  }

  class Store {
    const reg: Registry
    var db: Db

    constructor (reg: Registry, db: Db)
      ensures this.reg == reg && this.db == db
    {
      this.reg, this.db := reg, db;
    }

    /** The search term over every searchable column the reader may see, joined by OR. */
    method Search(cols: seq<ColInfo>, term: string, public: bool) returns (any: Option<Cond>)
      ensures any == SearchCond(cols, term, public)
    {
      any := None;
      for i := 0 to |cols|
        invariant any == SearchCond(cols[..i], term, public)
      {
        assert cols[..i + 1][..i] == cols[..i];
        if cols[i].search && Usable(cols[i], public) {
          any := Some(OrContains(any, cols[i].name, term));
        }
      }
      assert cols[..|cols|] == cols;
    }

    /** The query's filters, ANDed onto the condition one by one. */
    method ApplyFilters(cols: seq<ColInfo>, filters: seq<(string, string)>, public: bool, searched: Option<Cond>)
      returns (cond: Option<Cond>)
      ensures cond == WithFilters(cols, filters, public, searched)
    {
      cond := searched;
      for j := 0 to |filters|
        invariant cond == WithFilters(cols, filters[..j], public, searched)
      {
        var (name, value) := filters[j];
        assert filters[..j + 1][..j] == filters[..j];
        if value != "" {
          var c := FilterCond(cols, name, value, public);
          if c.Some? { cond := AndOpt(cond, c.value); }
        }
      }
      assert filters[..|filters|] == filters;
    }

    method Render(m: Model, page: Rows, public: bool) returns (rows: seq<JsonRow>)
      ensures rows == RowsJson(m, page, public)
    {
      rows := [];
      for k := 0 to |page|
        invariant |rows| == k && forall n | 0 <= n < k :: rows[n] == RowJson(m, page[n], public)
      {
        rows := rows + [RowJson(m, page[k], public)];
      }
    }

    /** `list`: scope, then search, then filters, then one sorted page as JSON rows. */
    method List(m: Model, access: Access, q: ListQuery) returns (r: ListResult)
      requires Registered(reg, m)
      ensures r == ListSpec(reg, db, m, access, q)
    {
      var public := access.user.None?;
      var cond := Scope(reg, db, m, access);
      if q.search.Some? && q.search.value != "" {
        var any := Search(m.cols, q.search.value, public);
        if any.Some? { cond := AndOpt(cond, any.value); }
      }
      cond := ApplyFilters(m.cols, q.filters, public, cond);
      assert cond == ListCond(reg, db, m, access, q);
      var sorted := Sorted(SortKey(m.cols, m, q, public), Select(RowsOf(db, m), cond));
      var page := PageOf(sorted, q.page, q.perPage);
      var rows := Render(m, page, public);
      r := ListResult(rows, |sorted|, AtLeastOne(q.page), AtLeastOne(q.perPage));
    }

    /** Deletes exactly the row, for exactly the users who can `get` it and may delete it. */
    method Delete(m: Model, access: Access, id: int) returns (r: Result<(), AppError>)
      requires Registered(reg, m)
      modifies this
      ensures r.Err? ==> r.error != BadRequest
      ensures r == Err(NotFound) <==> access.user.Some? && Fetch(reg, old(db), m, access, id).None?
      ensures r.Ok? <==> access.user.Some? && Fetch(reg, old(db), m, access, id).Some?
                         && m.hooks.canDelete(old(db), access.user.value, Fetch(reg, old(db), m, access, id).value)
      ensures db == if r.Ok? then old(db)[m.table := Without(RowsOf(old(db), m), id)] else old(db)
    {
      if access.user.None? { return Err(NoAuth); }
      var stored := Fetch(reg, db, m, access, id);
      if stored.None? { return Err(NotFound); }
      if !m.hooks.canDelete(db, access.user.value, stored.value) { return Err(NoAuth); }
      db := db[m.table := Without(RowsOf(db, m), id)];
      r := Ok(());
    }

    /** Reads every form column, collecting errors, and checks where its foreign keys point. */
    method ReadForm(m: Model, u: CurrentUser, form: FormData, stored: Option<Row>)
      returns (values: map<string, SqlValue>, errors: seq<string>)
      requires Registered(reg, m)
      ensures values == FormValues(m.cols, form)
      ensures errors == RejectedCols(reg, db, m.cols, u, form, stored)
    {
      values, errors := map[], [];
      for i := 0 to |m.cols|
        invariant values == FormValues(m.cols[..i], form)
        invariant errors == RejectedCols(reg, db, m.cols[..i], u, form, stored)
      {
        var c := m.cols[i];
        assert m.cols[..i + 1][..i] == m.cols[..i];
        if c.inForm {
          var v := c.read(form);
          if v.None? {
            errors := errors + [c.name];
          } else {
            values := values[c.name := v.value];
            if !MayPoint(reg, db, u, stored, c, v.value) { errors := errors + [c.name]; }
          }
        }
      }
      assert m.cols[..|m.cols|] == m.cols;
    }

    /** Updates only a row the user can `get` and may edit, to what the form reads as; any rejected
        column stops the write. */
    method Update(m: Model, access: Access, id: int, form: FormData) returns (r: Result<Written, AppError>)
      requires Registered(reg, m)
      modifies this
      ensures r == Err(NotFound) <==> access.user.Some? && Fetch(reg, old(db), m, access, id).None?
      ensures r.Ok? <==> access.user.Some? && Fetch(reg, old(db), m, access, id).Some?
                         && m.hooks.canEdit(old(db), access.user.value, Fetch(reg, old(db), m, access, id).value)
      ensures r.Err? ==> r.error != BadRequest && db == old(db)
      ensures r.Ok? ==>
                var stored := Fetch(reg, old(db), m, access, id);
                var rejected := RejectedCols(reg, old(db), m.cols, access.user.value, form, stored);
                && r.value == (if rejected == [] then Done(id) else Rejected(rejected))
                && db == if rejected != [] then old(db)
                         else old(db)[m.table := Replaced(RowsOf(old(db), m),
                             Row(id, stored.value.cols + FormValues(m.cols, form)))]
    {
      if access.user.None? { return Err(NoAuth); }
      var stored := Fetch(reg, db, m, access, id);
      if stored.None? { return Err(NotFound); }
      if !m.hooks.canEdit(db, access.user.value, stored.value) { return Err(NoAuth); }
      var values, errors := ReadForm(m, access.user.value, form, stored);
      if errors != [] { return Ok(Rejected(errors)); }
      db := db[m.table := Replaced(RowsOf(db, m), Row(id, stored.value.cols + values))];
      r := Ok(Done(id));
    }

    /** Creates a row of what the form reads as, owned by the caller and filed under the request's parent;
        `id` is the key the database assigns. */
    method Create(m: Model, access: Access, form: FormData, id: int) returns (r: Result<Written, AppError>)
      requires Registered(reg, m) && Above(RowsOf(db, m), id)
      modifies this
      ensures KeysOrdered(RowsOf(old(db), m)) ==> KeysOrdered(RowsOf(db, m))
      ensures r == Err(BadRequest) <==> access.user.Some? && m.parent.Some? && access.parentId.None?
      ensures r.Ok? <==> access.user.Some? && (m.parent.Some? ==> access.parentId.Some?)
                         && m.hooks.canCreate(old(db), access.user.value, access.parentId)
      ensures r.Err? ==> r.error != NotFound && db == old(db)
      ensures r.Ok? ==>
                var rows := RowsOf(old(db), m);
                var rejected := RejectedCols(reg, old(db), m.cols, access.user.value, form, None);
                && r.value == (if rejected == [] then Done(id) else Rejected(rejected))
                && db == if rejected != [] then old(db)
                         else old(db)[m.table := rows + [Row(id, Filed(m, access, FormValues(m.cols, form)))]]
    {
      if access.user.None? { return Err(NoAuth); }
      if m.parent.Some? && access.parentId.None? { return Err(BadRequest); }
      if !m.hooks.canCreate(db, access.user.value, access.parentId) { return Err(NoAuth); }
      var values, errors := ReadForm(m, access.user.value, form, None);
      if errors != [] { return Ok(Rejected(errors)); }
      db := db[m.table := RowsOf(db, m) + [Row(id, Filed(m, access, values))]];
      r := Ok(Done(id));
    }

    /** Dispatches a declared action on a row the user can `get` and may act on. */
    method Act(m: Model, access: Access, id: int, action: string) returns (r: Result<Row, AppError>)
      requires Registered(reg, m)
      ensures r.Ok? <==> access.user.Some? && Fetch(reg, db, m, access, id).Some? && action in m.actions
                         && m.hooks.canAct(db, access.user.value, Fetch(reg, db, m, access, id).value, action)
      ensures r.Ok? ==> Some(r.value) == Fetch(reg, db, m, access, id)
      ensures r.Err? ==> r.error != BadRequest
      ensures r == Err(NotFound) <==> access.user.Some? && (Fetch(reg, db, m, access, id).None? || action !in m.actions)
    {
      if access.user.None? { return Err(NoAuth); }
      var row := Fetch(reg, db, m, access, id);
      if row.None? { return Err(NotFound); }
      if action !in m.actions { return Err(NotFound); }
      if !m.hooks.canAct(db, access.user.value, row.value, action) { return Err(NoAuth); }
      r := Ok(row.value);
    }
  }

  ghost predicate UniqueNames(m: Model) {
    forall i, j | 0 <= i < j < |m.cols| :: m.cols[i].name != m.cols[j].name
  }

  /** The columns of a created row: the form's, with owner and parent filled in. */
  function Filed(m: Model, access: Access, values: map<string, SqlValue>): map<string, SqlValue>
    requires access.user.Some? && (m.parent.Some? ==> access.parentId.Some?)
  {
    var owned := if m.owner.Some? then values[m.owner.value := IntV(access.user.value.id)] else values;
    if m.parent.Some? then owned[m.parent.value.0 := IntV(access.parentId.value)] else owned
  }

  /** A created row belongs to its creator and lies under the parent asked for; the rest is the form's. */
  lemma FiledExactly(m: Model, access: Access, values: map<string, SqlValue>)
    requires access.user.Some? && (m.parent.Some? ==> access.parentId.Some?)
    requires m.owner.Some? && m.parent.Some? ==> m.owner.value != m.parent.value.0
    ensures var row := Filed(m, access, values);
            && (m.owner.Some? ==> m.owner.value in row && row[m.owner.value] == IntV(access.user.value.id))
            && (m.parent.Some? ==> m.parent.value.0 in row && row[m.parent.value.0] == IntV(access.parentId.value))
            && forall name | Some(name) != m.owner && (m.parent.Some? ==> name != m.parent.value.0) ::
                 (name in row <==> name in values) && (name in values ==> row[name] == values[name])
  {
  }

  /** Its creator sees a created row, where the scope hook does and under a parent they see. */
  lemma CreatedIsVisible(reg: Registry, db: Db, m: Model, access: Access, values: map<string, SqlValue>, id: int)
    requires Registered(reg, m) && access.user.Some? && (m.parent.Some? ==> access.parentId.Some?)
    requires m.owner.Some? ==> m.owner.value != "id"
    requires m.parent.Some? ==> m.parent.value.0 != "id"
    requires m.owner.Some? && m.parent.Some? ==> m.owner.value != m.parent.value.0
    ensures var r := Row(id, Filed(m, access, values));
            var c := m.hooks.scope(db, access.user.value);
            r in RowsOf(db, m) ==>
              (Visible(reg, db, m, access, r) <==>
                 (c.Some? ==> c.value(r)) && (m.parent.Some? ==> UnderParent(reg, db, m, access.user.value, r)))
  {
    FiledExactly(m, access, values);
  }

  /** An update leaves every other row alone and moves no row to another owner or parent, so a row
      cannot be edited out of the rules that guard it. */
  lemma UpdateKeepsPlace(m: Model, rows: Rows, stored: Row, values: map<string, SqlValue>, i: nat)
    requires FormColumnsSafe(m) && FromForm(m, values)
    requires KeysOrdered(rows) && stored in rows && i < |rows|
    ensures var out := Replaced(rows, Row(stored.id, stored.cols + values));
            && KeysOrdered(out) && out[i].id == rows[i].id
            && (rows[i].id != stored.id ==> out[i] == rows[i])
            && (m.owner.Some? ==> Cell(out[i], m.owner.value) == Cell(rows[i], m.owner.value))
            && (m.parent.Some? ==> Cell(out[i], m.parent.value.0) == Cell(rows[i], m.parent.value.0))
  {
    if rows[i].id == stored.id {
      UniqueById(rows, rows[i], stored);
    }
  }
}
