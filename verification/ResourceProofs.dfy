/** Which rows each caller can read and in what order, and that anonymous lists keep private columns private. */
module ResourceProofs {
  import opened Prelude
  import opened SqlConditions
  import opened Resources

  // ----- the read paths agree

  /** May `u` read a model that is not nested? */
  predicate Reads(m: Model, u: CurrentUser) {
    u.admin || ((if m.permission.Some? then m.permission.value else m.table) + ".read") in u.permissions
  }

  /** The user's own part of the rules: the scope hook, and the owner column unless the user is an admin. */
  ghost predicate Reached(db: Db, m: Model, u: CurrentUser, r: Row) {
    && (var c := m.hooks.scope(db, u); c.Some? ==> c.value(r))
    && (m.owner.Some? && !u.admin ==> Cell(r, m.owner.value) == IntV(u.id))
  }

  /** The user sees every row of the model, so that its ids are not even listed. */
  predicate Unrestricted(db: Db, m: Model, u: CurrentUser) {
    m.hooks.scope(db, u).None? && (m.owner.None? || u.admin)
  }

  /** The row lies under a parent the user may read and reach. */
  ghost predicate UnderParent(reg: Registry, db: Db, m: Model, u: CurrentUser, r: Row)
    requires Registered(reg, m) && m.parent.Some?
  {
    var parent := reg[m.parent.value.1];
    && Reads(parent, u)
    && (Unrestricted(db, parent, u) || exists p ::
          p in RowsOf(db, parent) && Reached(db, parent, u, p) && Cell(r, m.parent.value.0) == IntV(p.id))
  }

  /** Who sees which row: a visitor what the public scope shows, a user what they reach, under a parent they
      see; and both only what lies under the parent asked for. */
  ghost predicate Visible(reg: Registry, db: Db, m: Model, access: Access, r: Row)
    requires Registered(reg, m)
  {
    && r in RowsOf(db, m)
    && (match access.user
        case None => m.hooks.publicScope.Some? ==> m.hooks.publicScope.value(r)
        case Some(u) => Reached(db, m, u, r) && (m.parent.Some? ==> UnderParent(reg, db, m, u, r)))
    && UnderRequested(m, access, r)
  }

  /** The scope of a model that is not nested holds exactly of what its user reaches. */
  lemma PlainScope(reg: Registry, db: Db, m: Model, u: CurrentUser, r: Row)
    requires Registered(reg, m) && m.parent.None?
    ensures Holds(Scope(reg, db, m, Access(Some(u), None)), r) <==> Reached(db, m, u, r)
    ensures Scope(reg, db, m, Access(Some(u), None)).None? <==> Unrestricted(db, m, u)
  {
  }

  lemma ParentIds(reg: Registry, db: Db, m: Model, u: CurrentUser, r: Row)
    requires Registered(reg, m) && m.parent.Some?
    ensures var ids := VisibleParentIds(reg, db, u, m.parent.value.1);
            UnderParent(reg, db, m, u, r) <==> Among(ids, Cell(r, m.parent.value.0))
  {
    var parent := reg[m.parent.value.1];
    assert PermissionBase(reg, parent) == if parent.permission.Some? then parent.permission.value else parent.table;
    var c := Scope(reg, db, parent, Access(Some(u), None));
    forall p ensures Holds(c, p) <==> Reached(db, parent, u, p) { PlainScope(reg, db, parent, u, p); }
    PlainScope(reg, db, parent, u, r);
    var found := Select(RowsOf(db, parent), c);
    if Reads(parent, u) && c.Some? {
      ParentListed(found, IdsOf(found), Cell(r, m.parent.value.0));
    }
  }

  lemma ParentListed(found: Rows, ids: seq<int>, v: SqlValue)
    requires |ids| == |found| && forall i | 0 <= i < |found| :: ids[i] == found[i].id
    ensures (exists p :: p in found && v == IntV(p.id)) <==> exists i | 0 <= i < |ids| :: v == IntV(ids[i])
  {
    if i :| 0 <= i < |ids| && v == IntV(ids[i]) { assert found[i] in found; }
  }

  ghost predicate UnderRequested(m: Model, access: Access, r: Row) {
    m.parent.Some? && access.parentId.Some? ==> Cell(r, m.parent.value.0) == IntV(access.parentId.value)
  }

  ghost predicate Among(ids: Option<seq<int>>, v: SqlValue) {
    ids.Some? ==> exists i | 0 <= i < |ids.value| :: v == IntV(ids.value[i])
  }

  lemma UserScope(reg: Registry, db: Db, m: Model, u: CurrentUser, parentId: Option<int>, r: Row)
    requires Registered(reg, m)
    ensures Holds(Scope(reg, db, m, Access(Some(u), parentId)), r) <==>
            && Holds(BaseScope(db, m, u), r) && UnderRequested(m, Access(Some(u), parentId), r)
            && (m.parent.Some? ==> Among(VisibleParentIds(reg, db, u, m.parent.value.1), Cell(r, m.parent.value.0)))
  {
  }

  lemma VisitorScope(reg: Registry, db: Db, m: Model, parentId: Option<int>, r: Row)
    requires Registered(reg, m)
    ensures Holds(Scope(reg, db, m, Access(None, parentId)), r) <==>
            Holds(m.hooks.publicScope, r) && UnderRequested(m, Access(None, parentId), r)
  {
  }

  /** The scope every read and write goes through holds exactly of the visible rows. */
  lemma ScopeExactly(reg: Registry, db: Db, m: Model, access: Access, r: Row)
    requires Registered(reg, m)
    ensures Visible(reg, db, m, access, r) <==> r in RowsOf(db, m) && Holds(Scope(reg, db, m, access), r)
  {
    if access.user.None? {
      assert access == Access(None, access.parentId);
      VisitorScope(reg, db, m, access.parentId, r);
    } else {
      var u := access.user.value;
      assert access == Access(Some(u), access.parentId);
      UserScope(reg, db, m, u, access.parentId, r);
      assert Holds(BaseScope(db, m, u), r) <==> Reached(db, m, u, r);
      if m.parent.Some? { ParentIds(reg, db, m, u, r); }
    }
  }

  /** The permission to read a model: its own name for it, else its parent's, else its table's. */
  lemma MayReadExactly(reg: Registry, m: Model, u: CurrentUser)
    requires Registered(reg, m)
    ensures MayRead(reg, m, u) <==>
            if m.permission.None? && m.parent.Some? then Reads(reg[m.parent.value.1], u) else Reads(m, u)
  {
    if m.parent.Some? {
      var parent := reg[m.parent.value.1];
      assert PermissionBase(reg, parent) == if parent.permission.Some? then parent.permission.value else parent.table;
    }
  }

  lemma UniqueById(rows: Rows, r: Row, s: Row)
    requires KeysOrdered(rows) && r in rows && s in rows && r.id == s.id
    ensures r == s
  {
    var i :| 0 <= i < |rows| && rows[i] == r;
    var j :| 0 <= j < |rows| && rows[j] == s;
  }

  /** `get` finds exactly the visible rows, each under its own id. */
  lemma FetchFindsVisible(reg: Registry, db: Db, m: Model, access: Access, id: int, r: Row)
    requires Registered(reg, m) && KeysOrdered(RowsOf(db, m))
    ensures Fetch(reg, db, m, access, id) == Some(r) <==> Visible(reg, db, m, access, r) && r.id == id
  {
    var c := Scope(reg, db, m, access);
    var found := Select(RowsOf(db, m), Some(ById(id, c)));
    assert forall x :: x in found <==> x in RowsOf(db, m) && x.id == id && Holds(c, x);
    ScopeExactly(reg, db, m, access, r);
    if found != [] { ScopeExactly(reg, db, m, access, found[0]); }
    if found != [] { assert found[0] in found; }
    if Visible(reg, db, m, access, r) && r.id == id {
      assert r in found;
      UniqueById(RowsOf(db, m), found[0], r);
    }
  }

  /** `visible_ids` names exactly the visible rows; `None` means every row is visible. */
  lemma VisibleIdsExact(reg: Registry, db: Db, m: Model, access: Access, r: Row)
    requires Registered(reg, m) && KeysOrdered(RowsOf(db, m)) && r in RowsOf(db, m)
    ensures var ids := VisibleIds(reg, db, m, access);
            Visible(reg, db, m, access, r) <==> (ids.Some? ==> r.id in ids.value)
  {
    var c := Scope(reg, db, m, access);
    ScopeExactly(reg, db, m, access, r);
    if c.Some? {
      var found := Select(RowsOf(db, m), c);
      var ids := IdsOf(found);
      if Holds(c, r) {
        var i :| 0 <= i < |found| && found[i] == r;
        assert ids[i] == r.id;
      }
      if r.id in ids {
        var i :| 0 <= i < |ids| && ids[i] == r.id;
        assert found[i] in found;
        UniqueById(RowsOf(db, m), found[i], r);
      }
    }
  }

  function Pages<T>(rows: seq<T>, perPage: int, count: nat): seq<T> {
    if count == 0 then [] else Pages(rows, perPage, count - 1) + PageOf(rows, count, perPage)
  }

  lemma NextPage<T>(rows: seq<T>, perPage: int, count: nat)
    requires count >= 1
    ensures var size := AtLeastOne(perPage);
            rows[..Min((count - 1) * size, |rows|)] + PageOf(rows, count, perPage) == rows[..Min(count * size, |rows|)]
  {
    var size := AtLeastOne(perPage);
    var start := (count - 1) * size;
    assert count * size == start + size;
    var i, j := Min(start, |rows|), Min(start + size, |rows|);
    assert rows[..i] + rows[i..j] == rows[..j];
  }

  /** Reading page after page reads the whole list once, in order. */
  lemma {:induction false} PagesCover<T>(rows: seq<T>, perPage: int, count: nat)
    ensures Pages(rows, perPage, count) == rows[..Min(count * AtLeastOne(perPage), |rows|)]
  {
    if count > 0 {
      PagesCover(rows, perPage, count - 1);
      NextPage(rows, perPage, count);
    }
  }

  lemma {:induction false} SelectCount(rows: Rows, c: Option<Cond>, r: Row)
    ensures multiset(Select(rows, c))[r] == if Holds(c, r) then multiset(rows)[r] else 0
  {
    if rows != [] {
      SelectCount(rows[1..], c, r);
      assert rows == [rows[0]] + rows[1..];
    }
  }

  ghost predicate Unfiltered(q: ListQuery) {
    q.search.None? && q.filters == []
  }

  /** Paging through the unfiltered list shows every visible row exactly once, and nothing else;
      `total` is their number. */
  lemma ListShowsVisible(reg: Registry, db: Db, m: Model, access: Access, q: ListQuery, count: nat, r: Row)
    requires Registered(reg, m) && KeysOrdered(RowsOf(db, m)) && Unfiltered(q)
    ensures var rows := ListRows(reg, db, m, access, q);
            && ListSpec(reg, db, m, access, q).total == |rows|
            && (count * AtLeastOne(q.perPage) >= |rows| ==> Pages(rows, q.perPage, count) == rows)
            && multiset(rows)[r] == (if Visible(reg, db, m, access, r) then 1 else 0)
  {
    var rows := ListRows(reg, db, m, access, q);
    PagesCover(rows, q.perPage, count);
    assert rows[..|rows|] == rows;
    var c := Scope(reg, db, m, access);
    assert ListCond(reg, db, m, access, q) == c;
    ScopeExactly(reg, db, m, access, r);
    SelectCount(RowsOf(db, m), c, r);
    if r in RowsOf(db, m) { KeyedOnce(RowsOf(db, m), r); }
  }

  lemma KeyedOnce(rows: Rows, r: Row)
    requires KeysOrdered(rows) && r in rows
    ensures multiset(rows)[r] == 1
  {
    var i :| 0 <= i < |rows| && rows[i] == r;
    assert rows == rows[..i] + [r] + rows[i + 1..];
    assert r !in rows[..i] && r !in rows[i + 1..];
  }

  // ----- order

  lemma BeforeOrder(a: SqlValue, b: SqlValue, c: SqlValue)
    ensures !Before(a, a)
    ensures a == b || Before(a, b) || Before(b, a)
    ensures Before(a, b) && Before(b, c) ==> Before(a, c)
  {
    if a.TextV? { TextOrder.LessOrder(a.s, if b.TextV? then b.s else [], if c.TextV? then c.s else []); }
  }

  /** By the key, and rows with equal keys by primary key. */
  ghost predicate InOrder(key: (string, bool), r: Row, s: Row) {
    Precedes(key, r, s) || (Cell(r, key.0) == Cell(s, key.0) && r.id < s.id)
  }

  ghost predicate AllInOrder(key: (string, bool), rows: Rows) {
    forall i, j | 0 <= i < j < |rows| :: InOrder(key, rows[i], rows[j])
  }

  lemma InOrderChain(key: (string, bool), r: Row, s: Row, t: Row)
    ensures InOrder(key, r, s) && InOrder(key, s, t) ==> InOrder(key, r, t)
    ensures r.id < s.id ==> InOrder(key, r, s) || Precedes(key, s, r)
  {
    var a, b, c := Cell(r, key.0), Cell(s, key.0), Cell(t, key.0);
    BeforeOrder(a, b, c);
    BeforeOrder(c, b, a);
    if InOrder(key, r, s) && InOrder(key, s, t) {
      if a == b {
        assert Precedes(key, s, t) ==> Precedes(key, r, t);
      } else if b == c {
        assert Precedes(key, r, t);
      } else {
        assert Precedes(key, r, s) && Precedes(key, s, t);
      }
    }
  }

  lemma {:induction false} InsertInOrder(key: (string, bool), r: Row, rows: Rows)
    requires AllInOrder(key, rows) && forall i | 0 <= i < |rows| :: rows[i].id < r.id
    ensures AllInOrder(key, InsertRow(key, r, rows))
    decreases |rows|
  {
    if rows != [] {
      var n := |rows| - 1;
      var last := rows[n];
      InOrderChain(key, last, r, r);
      if !Precedes(key, r, last) {
        forall i | 0 <= i < n ensures InOrder(key, rows[i], r) { InOrderChain(key, rows[i], last, r); }
      } else {
        InsertInOrder(key, r, rows[..n]);
        var out := InsertRow(key, r, rows[..n]);
        forall i | 0 <= i < |out| ensures InOrder(key, out[i], last) {
          InsertedBefore(key, r, rows[..n], last, out[i]);
        }
      }
    }
  }

  lemma InsertedBefore(key: (string, bool), r: Row, rows: Rows, last: Row, x: Row)
    requires x in InsertRow(key, r, rows) && Precedes(key, r, last)
    requires forall i | 0 <= i < |rows| :: InOrder(key, rows[i], last)
    ensures InOrder(key, x, last)
  {
    assert x in multiset(InsertRow(key, r, rows));
  }

  /** A sorted list is ordered by the key in its direction, ties by primary key. */
  lemma {:induction false} SortedInOrder(key: (string, bool), rows: Rows)
    requires KeysOrdered(rows)
    ensures AllInOrder(key, Sorted(key, rows))
    decreases |rows|
  {
    if rows != [] {
      var n := |rows| - 1;
      SortedInOrder(key, rows[..n]);
      var out := Sorted(key, rows[..n]);
      SortedBelow(key, rows[..n], out, rows[n].id);
      InsertInOrder(key, rows[n], out);
    }
  }

  lemma SortedBelow(key: (string, bool), rows: Rows, out: Rows, id: int)
    requires out == Sorted(key, rows) && forall i | 0 <= i < |rows| :: rows[i].id < id
    ensures forall i | 0 <= i < |out| :: out[i].id < id
  {
    forall i | 0 <= i < |out| ensures out[i].id < id {
      assert out[i] in multiset(out) && out[i] in multiset(rows);
    }
  }

  lemma {:induction false} SelectKeepsOrder(rows: Rows, c: Option<Cond>)
    requires KeysOrdered(rows)
    ensures KeysOrdered(Select(rows, c))
  {
    if rows != [] {
      SelectKeepsOrder(rows[1..], c);
      var rest := Select(rows[1..], c);
      forall i | 0 <= i < |rest| ensures rows[0].id < rest[i].id {
        assert rest[i] in rest;
        var k :| 0 <= k < |rows[1..]| && rows[1..][k] == rest[i];
        assert rows[k + 1] == rest[i];
      }
    }
  }

  /** A list comes in the order asked for. */
  lemma ListInOrder(reg: Registry, db: Db, m: Model, access: Access, q: ListQuery)
    requires Registered(reg, m) && KeysOrdered(RowsOf(db, m))
    ensures AllInOrder(SortKey(m.cols, m, q, access.user.None?), ListRows(reg, db, m, access, q))
  {
    var cond := ListCond(reg, db, m, access, q);
    SelectKeepsOrder(RowsOf(db, m), cond);
    SortedInOrder(SortKey(m.cols, m, q, access.user.None?), Select(RowsOf(db, m), cond));
  }

  // ----- nested rows

  /** The database's foreign keys: a nested row's parent column names an existing parent row. */
  ghost predicate ParentExists(reg: Registry, db: Db, m: Model, r: Row) {
    m.parent.Some? && m.parent.value.1 in reg ==>
      exists p :: p in RowsOf(db, reg[m.parent.value.1]) && Cell(r, m.parent.value.0) == IntV(p.id)
  }

  /** A nested row a user can reach lies under a parent row the user can read and reach. */
  lemma VisibleChildHasVisibleParent(reg: Registry, db: Db, m: Model, u: CurrentUser, parentId: Option<int>, r: Row)
    returns (p: Row)
    requires Registered(reg, m) && m.parent.Some?
    requires Visible(reg, db, m, Access(Some(u), parentId), r) && ParentExists(reg, db, m, r)
    requires KeysOrdered(RowsOf(db, reg[m.parent.value.1]))
    ensures var parent := reg[m.parent.value.1];
            && Registered(reg, parent)
            && Cell(r, m.parent.value.0) == IntV(p.id)
            && MayRead(reg, parent, u)
            && Visible(reg, db, parent, Access(Some(u), None), p)
            && Fetch(reg, db, parent, Access(Some(u), None), p.id) == Some(p)
            && (parentId.Some? ==> p.id == parentId.value)
  {
    var column, target := m.parent.value.0, m.parent.value.1;
    var parent := reg[target];
    p :| p in RowsOf(db, parent) && Cell(r, column) == IntV(p.id);
    MayReadExactly(reg, parent, u);
    if !Unrestricted(db, parent, u) {
      p :| p in RowsOf(db, parent) && Reached(db, parent, u, p) && Cell(r, column) == IntV(p.id);
    }
    FetchFindsVisible(reg, db, parent, Access(Some(u), None), p.id, p);
  }

  // ----- anonymous lists and private columns

  /** The rows differ at most in private columns. */
  ghost predicate PublicEqual(cols: seq<ColInfo>, r: Row, s: Row) {
    r.id == s.id && forall i | 0 <= i < |cols| && !cols[i].isPrivate :: Cell(r, cols[i].name) == Cell(s, cols[i].name)
  }

  ghost predicate PublicEqualRows(cols: seq<ColInfo>, a: Rows, b: Rows) {
    |a| == |b| && forall i | 0 <= i < |a| :: PublicEqual(cols, a[i], b[i])
  }

  /** A condition that does not read private columns. */
  ghost predicate IgnoresPrivate(cols: seq<ColInfo>, c: Option<Cond>) {
    forall r, s | PublicEqual(cols, r, s) :: Holds(c, r) == Holds(c, s)
  }

  /** The application's part: the public scope, `decorate` and the default order read no private
      column. */
  ghost predicate HooksIgnorePrivate(m: Model) {
    && IgnoresPrivate(m.cols, m.hooks.publicScope)
    && (forall r, s, j | PublicEqual(m.cols, r, s) :: m.hooks.decorate(r, j) == m.hooks.decorate(s, j))
    && PublicColumn(m.cols, if m.publicOrderBy.Some? then m.publicOrderBy.value.0 else m.orderBy.0)
  }

  ghost predicate PublicColumn(cols: seq<ColInfo>, name: string) {
    name == "id" || exists i :: 0 <= i < |cols| && cols[i].name == name && !cols[i].isPrivate
  }

  lemma SameCell(cols: seq<ColInfo>, name: string, r: Row, s: Row)
    requires PublicColumn(cols, name) && PublicEqual(cols, r, s)
    ensures Cell(r, name) == Cell(s, name)
  {
  }

  lemma {:induction false} SearchIgnoresPrivate(all: seq<ColInfo>, cols: seq<ColInfo>, term: string, r: Row, s: Row)
    requires cols <= all && PublicEqual(all, r, s)
    ensures Holds(SearchCond(cols, term, true), r) == Holds(SearchCond(cols, term, true), s)
    decreases |cols|
  {
    if cols != [] {
      var c := cols[|cols| - 1];
      SearchIgnoresPrivate(all, cols[..|cols| - 1], term, r, s);
      if !c.isPrivate { assert all[|cols| - 1] == c; }
    }
  }

  lemma {:induction false} FilterIgnoresPrivate(all: seq<ColInfo>, cols: seq<ColInfo>, name: string, value: string,
      r: Row, s: Row)
    requires |cols| <= |all| && cols == all[|all| - |cols|..] && PublicEqual(all, r, s)
    ensures Holds(FilterCond(cols, name, value, true), r) == Holds(FilterCond(cols, name, value, true), s)
    decreases |cols|
  {
    if cols != [] {
      var c := cols[0];
      assert all[|all| - |cols|] == c;
      FilterIgnoresPrivate(all, cols[1..], name, value, r, s);
    }
  }

  lemma {:induction false} FiltersIgnorePrivate(cols: seq<ColInfo>, filters: seq<(string, string)>,
      acc: Option<Cond>, r: Row, s: Row)
    requires PublicEqual(cols, r, s) && Holds(acc, r) == Holds(acc, s)
    ensures Holds(WithFilters(cols, filters, true, acc), r) == Holds(WithFilters(cols, filters, true, acc), s)
    decreases |filters|
  {
    if filters != [] {
      FiltersIgnorePrivate(cols, filters[..|filters| - 1], acc, r, s);
      var (name, value) := filters[|filters| - 1];
      assert cols == cols[|cols| - |cols|..];
      FilterIgnoresPrivate(cols, cols, name, value, r, s);
    }
  }

  lemma ListCondIgnoresPrivate(reg: Registry, db: Db, m: Model, q: ListQuery, r: Row, s: Row)
    requires Registered(reg, m) && HooksIgnorePrivate(m) && PublicEqual(m.cols, r, s)
    ensures var c := ListCond(reg, db, m, PUBLIC, q); Holds(c, r) == Holds(c, s)
  {
    if q.search.Some? { SearchIgnoresPrivate(m.cols, m.cols, q.search.value, r, s); }
    var scope := Scope(reg, db, m, PUBLIC);
    assert scope == m.hooks.publicScope;
    var term := if q.search.Some? && q.search.value != "" then SearchCond(m.cols, q.search.value, true) else None;
    FiltersIgnorePrivate(m.cols, q.filters, if term.Some? then AndOpt(scope, term.value) else scope, r, s);
  }

  lemma RowsJoin(cols: seq<ColInfo>, a: Rows, b: Rows, a': Rows, b': Rows)
    requires PublicEqualRows(cols, a, b) && PublicEqualRows(cols, a', b')
    ensures PublicEqualRows(cols, a + a', b + b')
  {
  }

  lemma {:induction false} SelectIgnoresPrivate(cols: seq<ColInfo>, a: Rows, b: Rows, c: Option<Cond>, c': Option<Cond>)
    requires PublicEqualRows(cols, a, b)
    requires forall r, s | PublicEqual(cols, r, s) :: Holds(c, r) == Holds(c', s)
    ensures PublicEqualRows(cols, Select(a, c), Select(b, c'))
    decreases |a|
  {
    if a != [] {
      SelectIgnoresPrivate(cols, a[1..], b[1..], c, c');
      assert PublicEqual(cols, a[0], b[0]);
      var keep := Holds(c, a[0]);
      RowsJoin(cols, if keep then [a[0]] else [], if keep then [b[0]] else [], Select(a[1..], c), Select(b[1..], c'));
    }
  }

  lemma PrecedesIgnoresPrivate(cols: seq<ColInfo>, key: (string, bool), r: Row, s: Row, x: Row, y: Row)
    requires PublicColumn(cols, key.0) && PublicEqual(cols, r, s) && PublicEqual(cols, x, y)
    ensures Precedes(key, r, x) == Precedes(key, s, y)
  {
    SameCell(cols, key.0, r, s);
    SameCell(cols, key.0, x, y);
  }

  lemma {:induction false} InsertIgnoresPrivate(cols: seq<ColInfo>, key: (string, bool), r: Row, s: Row, a: Rows,
      b: Rows)
    requires PublicColumn(cols, key.0) && PublicEqual(cols, r, s) && PublicEqualRows(cols, a, b)
    ensures PublicEqualRows(cols, InsertRow(key, r, a), InsertRow(key, s, b))
    decreases |a|
  {
    if a != [] {
      var i := |a| - 1;
      PrecedesIgnoresPrivate(cols, key, r, s, a[i], b[i]);
      if !Precedes(key, r, a[i]) {
        RowsJoin(cols, a, b, [r], [s]);
      } else {
        InsertIgnoresPrivate(cols, key, r, s, a[..i], b[..i]);
        RowsJoin(cols, InsertRow(key, r, a[..i]), InsertRow(key, s, b[..i]), [a[i]], [b[i]]);
      }
    }
  }

  lemma {:induction false} SortIgnoresPrivate(cols: seq<ColInfo>, key: (string, bool), a: Rows, b: Rows)
    requires PublicColumn(cols, key.0) && PublicEqualRows(cols, a, b)
    ensures PublicEqualRows(cols, Sorted(key, a), Sorted(key, b))
    decreases |a|
  {
    if a != [] {
      var i := |a| - 1;
      SortIgnoresPrivate(cols, key, a[..i], b[..i]);
      InsertIgnoresPrivate(cols, key, a[i], b[i], Sorted(key, a[..i]), Sorted(key, b[..i]));
    }
  }

  lemma {:induction false} SortKeyIsPublic(m: Model, cols: seq<ColInfo>, q: ListQuery)
    requires HooksIgnorePrivate(m) && |cols| <= |m.cols| && cols == m.cols[|m.cols| - |cols|..]
    ensures PublicColumn(m.cols, SortKey(cols, m, q, true).0)
    decreases |cols|
  {
    if cols != [] {
      assert m.cols[|m.cols| - |cols|] == cols[0];
      SortKeyIsPublic(m, cols[1..], q);
    }
  }

  lemma {:induction false} JsonIgnoresPrivate(all: seq<ColInfo>, cols: seq<ColInfo>, r: Row, s: Row)
    requires cols <= all && PublicEqual(all, r, s)
    ensures JsonOf(cols, r, true) == JsonOf(cols, s, true)
    decreases |cols|
  {
    if cols != [] {
      JsonIgnoresPrivate(all, cols[..|cols| - 1], r, s);
      assert all[|cols| - 1] == cols[|cols| - 1];
    }
  }

  lemma ListRowsIgnorePrivate(reg: Registry, db: Db, db': Db, m: Model, q: ListQuery)
    requires Registered(reg, m) && HooksIgnorePrivate(m)
    requires PublicEqualRows(m.cols, RowsOf(db, m), RowsOf(db', m))
    ensures PublicEqualRows(m.cols, ListRows(reg, db, m, PUBLIC, q), ListRows(reg, db', m, PUBLIC, q))
  {
    var c, c' := ListCond(reg, db, m, PUBLIC, q), ListCond(reg, db', m, PUBLIC, q);
    assert c == c';
    forall r, s | PublicEqual(m.cols, r, s) ensures Holds(c, r) == Holds(c', s) {
      ListCondIgnoresPrivate(reg, db, m, q, r, s);
    }
    SelectIgnoresPrivate(m.cols, RowsOf(db, m), RowsOf(db', m), c, c');
    assert m.cols == m.cols[|m.cols| - |m.cols|..];
    SortKeyIsPublic(m, m.cols, q);
    SortIgnoresPrivate(m.cols, SortKey(m.cols, m, q, true), Select(RowsOf(db, m), c), Select(RowsOf(db', m), c'));
  }

  lemma PageJsonIgnoresPrivate(m: Model, a: Rows, b: Rows)
    requires HooksIgnorePrivate(m) && PublicEqualRows(m.cols, a, b)
    ensures RowsJson(m, a, true) == RowsJson(m, b, true)
  {
    forall i | 0 <= i < |a| ensures RowJson(m, a[i], true) == RowJson(m, b[i], true) {
      assert PublicEqual(m.cols, a[i], b[i]);
      JsonIgnoresPrivate(m.cols, m.cols, a[i], b[i]);
    }
  }

  lemma PageIgnoresPrivate(cols: seq<ColInfo>, a: Rows, b: Rows, page: int, perPage: int)
    requires PublicEqualRows(cols, a, b)
    ensures PublicEqualRows(cols, PageOf(a, page, perPage), PageOf(b, page, perPage))
  {
    var size := AtLeastOne(perPage);
    var from := Min((AtLeastOne(page) - 1) * size, |a|);
    var pa, pb := PageOf(a, page, perPage), PageOf(b, page, perPage);
    forall i | 0 <= i < |pa| ensures PublicEqual(cols, pa[i], pb[i]) {
      assert pa[i] == a[from + i] && pb[i] == b[from + i];
    }
  }

  /** Two tables that differ only in private columns give an anonymous visitor the same rows, order
      and total, for every search, filter, sort and page. */
  lemma PrivateColumnsStayPrivate(reg: Registry, db: Db, db': Db, m: Model, q: ListQuery)
    requires Registered(reg, m) && HooksIgnorePrivate(m)
    requires PublicEqualRows(m.cols, RowsOf(db, m), RowsOf(db', m))
    ensures ListSpec(reg, db, m, PUBLIC, q) == ListSpec(reg, db', m, PUBLIC, q)
  {
    ListRowsIgnorePrivate(reg, db, db', m, q);
    var a, b := ListRows(reg, db, m, PUBLIC, q), ListRows(reg, db', m, PUBLIC, q);
    PageIgnoresPrivate(m.cols, a, b, q.page, q.perPage);
    PageJsonIgnoresPrivate(m, PageOf(a, q.page, q.perPage), PageOf(b, q.page, q.perPage));
  }
}
