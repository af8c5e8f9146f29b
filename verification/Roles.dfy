/** An app's role table and the strings roles are stored as. */
module Roles {
  import opened Prelude

  datatype Role = Role(name: string, admin: bool, none: bool, permissions: set<string>)

  function Lower(s: string): (r: string)
    ensures |r| == |s|
  {
    seq(|s|, i requires 0 <= i < |s| => LowerChar(s[i]))
  }

  function TrimStart(s: string): string {
    if s != [] && IsWhitespace(s[0]) then TrimStart(s[1..]) else s
  }

  function TrimEnd(s: string): string {
    if s != [] && IsWhitespace(s[|s| - 1]) then TrimEnd(s[..|s| - 1]) else s
  }

  function Trim(s: string): string {
    TrimEnd(TrimStart(s))
  }

  ghost predicate AllBlank(s: string) {
    forall c | c in s :: IsWhitespace(c)
  }

  /** Trimming takes all white space off both ends and nothing else. */
  lemma TrimExactly(s: string) returns (before: string, after: string)
    ensures s == before + Trim(s) + after && AllBlank(before) && AllBlank(after)
    ensures var t := Trim(s); t != [] ==> !IsWhitespace(t[0]) && !IsWhitespace(t[|t| - 1])
  {
    before := TrimmedStart(s);
    var rest;
    rest, after := TrimmedEnd(TrimStart(s));
    assert s == before + (Trim(s) + after);
  }

  lemma {:induction false} TrimmedStart(s: string) returns (before: string)
    ensures s == before + TrimStart(s) && AllBlank(before)
    ensures TrimStart(s) != [] ==> !IsWhitespace(TrimStart(s)[0])
  {
    before := [];
    if s != [] && IsWhitespace(s[0]) {
      before := TrimmedStart(s[1..]);
      before := [s[0]] + before;
    }
  }

  lemma {:induction false} TrimmedEnd(s: string) returns (rest: string, after: string)
    ensures rest == TrimEnd(s) && s == rest + after && AllBlank(after)
    ensures rest != [] ==> !IsWhitespace(rest[|rest| - 1]) && rest[0] == s[0]
    decreases |s|
  {
    rest, after := s, [];
    if s != [] && IsWhitespace(s[|s| - 1]) {
      rest, after := TrimmedEnd(s[..|s| - 1]);
      after := after + [s[|s| - 1]];
    }
  }

  /** What the role macro requires of its table: lower-case distinct names and a no-access role.
      That an admin role is no default and no fallback is the app's own choice, assumed here. */
  ghost predicate WellFormed(roles: seq<Role>) {
    && (forall i | 0 <= i < |roles| :: Lower(roles[i].name) == roles[i].name)
    && (forall i, j | 0 <= i < j < |roles| :: roles[i].name != roles[j].name)
    && (exists i | 0 <= i < |roles| :: roles[i].none)
    && (forall i | 0 <= i < |roles| :: roles[i].none ==> !roles[i].admin)
  }

  /** The first role of that name, if any. */
  function Named(roles: seq<Role>, name: string): (r: seq<Role>)
    ensures |r| <= 1
    ensures forall x | x in r :: x in roles && x.name == name
    ensures r == [] ==> forall x | x in roles :: x.name != name
  {
    if roles == [] then []
    else if roles[0].name == name then [roles[0]]
    else Named(roles[1..], name)
  }

  function FirstNone(roles: seq<Role>): (r: Role)
    requires exists i | 0 <= i < |roles| :: roles[i].none
    ensures r in roles && r.none
  {
    if roles[0].none then roles[0]
    else
      assert exists i | 0 <= i < |roles[1..]| :: roles[1..][i].none by {
        var i :| 0 <= i < |roles| && roles[i].none;
        assert roles[1..][i - 1] == roles[i];
      }
      FirstNone(roles[1..])
  }

  /** Reads a stored role: unknown strings mean the no-access role. */
  function FromRoleStr(roles: seq<Role>, s: string): (r: Role)
    requires WellFormed(roles)
    ensures r in roles
  {
    var named := Named(roles, Lower(s));
    if named != [] then named[0] else FirstNone(roles)
  }

  /** `r` is the role of that name in lower case, or, when there is none, the first role without access. */
  ghost predicate ReadsAs(roles: seq<Role>, s: string, r: Role) {
    exists i | 0 <= i < |roles| ::
      && roles[i] == r
      && (r.name == Lower(s)
          || (r.none && (forall k | 0 <= k < |roles| :: roles[k].name != Lower(s))
              && forall k | 0 <= k < i :: !roles[k].none))
  }

  lemma {:induction false} FirstNoneIsFirst(roles: seq<Role>) returns (i: nat)
    requires exists i | 0 <= i < |roles| :: roles[i].none
    ensures i < |roles| && roles[i] == FirstNone(roles) && forall k | 0 <= k < i :: !roles[k].none
  {
    if roles[0].none {
      i := 0;
    } else {
      var n :| 0 <= n < |roles| && roles[n].none;
      assert roles[1..][n - 1] == roles[n];
      i := FirstNoneIsFirst(roles[1..]);
      i := i + 1;
    }
  }

  /** A stored string is read as exactly one role. */
  lemma ReadExactly(roles: seq<Role>, s: string, r: Role)
    requires WellFormed(roles)
    ensures FromRoleStr(roles, s) == r <==> ReadsAs(roles, s, r)
  {
    var named := Named(roles, Lower(s));
    if named == [] {
      var i := FirstNoneIsFirst(roles);
      forall k | 0 <= k < |roles| ensures roles[k].name != Lower(s) { assert roles[k] in roles; }
      assert ReadsAs(roles, s, FirstNone(roles));
    } else {
      var i :| 0 <= i < |roles| && roles[i] == named[0];
      assert ReadsAs(roles, s, named[0]);
    }
  }

  /** Storing a role by name and reading it back gives the role. */
  lemma RoleRoundTrip(roles: seq<Role>, r: Role)
    requires WellFormed(roles) && r in roles
    ensures FromRoleStr(roles, r.name) == r
  {
    var i :| 0 <= i < |roles| && roles[i] == r;
    var named := Named(roles, r.name);
    assert named != [];
    var j :| 0 <= j < |roles| && roles[j] == named[0];
    assert i == j;
  }

  /** A stored string reads as an admin role exactly when it names one, in any letter case. */
  lemma AdminIsNamed(roles: seq<Role>, s: string)
    requires WellFormed(roles)
    ensures FromRoleStr(roles, s).admin <==> exists r :: r in roles && r.admin && r.name == Lower(s)
  {
    var named := Named(roles, Lower(s));
    if exists r :: r in roles && r.admin && r.name == Lower(s) {
      var r :| r in roles && r.admin && r.name == Lower(s);
      assert Lower(r.name) == r.name by {
        var i :| 0 <= i < |roles| && roles[i] == r;
      }
      RoleRoundTrip(roles, r);
      assert Lower(Lower(s)) == Lower(s);
      assert FromRoleStr(roles, s) == FromRoleStr(roles, r.name);
    }
    if named == [] {
      var r := FirstNone(roles);
      var i :| 0 <= i < |roles| && roles[i] == r;
    }
  }

  predicate HasPermission(r: Role, permission: string) {
    r.admin || permission in r.permissions
  }
}
