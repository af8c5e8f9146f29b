/** Accounts and sessions: the users table, the single-use email tokens, the issued session tokens
    and the cached session cutoffs. Every handler is one atomic step. */
module Accounts {
  import opened Prelude
  import opened Roles

  type Id = nat
  type Token = string

  /** Wall-clock time in milliseconds; session claims and cutoffs are whole seconds. */
  type Time = nat

  const TOKEN_TTL: nat := 24 * 3600 * 1000
  const SESSION_SECONDS: nat := 3600
  const CUTOFF_TTL: nat := 5000
  const DEFAULT_ROLE: string := "user"

  function Seconds(t: Time): nat {
    t / 1000
  }

  // ----- rows

  datatype Kind = Verification | Reset | EmailChange

  /** A single-use token column and its expiry column. */
  datatype Slot = Slot(token: Option<Token>, expiry: Option<Time>)

  datatype User = User(
    email: string,
    password: string,
    role: string,
    verified: bool,
    verification: Slot,
    reset: Slot,
    emailChange: Slot,
    pendingEmail: Option<string>,
    validAfter: int)

  const EMPTY: Slot := Slot(None, None)

  function SlotOf(u: User, kind: Kind): Slot {
    match kind
    case Verification => u.verification
    case Reset => u.reset
    case EmailChange => u.emailChange
  }

  /** `token = ? AND expires_at > ?`: an absent token or expiry matches nothing. */
  predicate Matches(u: User, kind: Kind, token: Token, now: Time) {
    var slot := SlotOf(u, kind);
    slot.token == Some(token) && slot.expiry.Some? && slot.expiry.value > now
  }

  // ----- sessions

  /** The claims of a session token (`exp` and `iat` of sections 4.1.4 and 4.1.6 of RFC 7519). */
  datatype Claims = Claims(sub: Id, role: Role, exp: nat, iat: nat)

  datatype Cached = Cached(cutoff: Option<int>, at: Time)

  /** `roles` is the app's role table, `verifyEmails` its registration mode, `leeway` the seconds
      the token library allows after `exp`. */
  datatype Config = Config(roles: seq<Role>, verifyEmails: bool, leeway: nat)

  /** What a token was minted for. */
  datatype Mint = Mint(kind: Kind, id: Id, expiry: Time)

  /** A single-use token taking effect. */
  datatype Effect = Effect(token: Token, kind: Kind, id: Id, at: Time)

  datatype State = State(
    users: map<Id, User>,
    nextId: Id,
    issued: set<Claims>,
    cache: map<Id, Cached>,
    clock: Time,
    minted: map<Token, Mint>,
    effects: seq<Effect>)

  function Initial(): State {
    State(map[], 1, {}, map[], 0, map[], [])
  }

  // ----- steps

  /** What an authenticated caller asks for. */
  datatype Action =
    | ReadPage
    | ChangeEmail(newEmail: string, token: Token)
    | ResetOwn(token: Token)
    | DeleteOwn
    | SetRole(id: Id, input: string)
    | DeleteUser(id: Id)

  /** `row` is the row a statement's WHERE clause finds. */
  datatype Step =
    | Tick(elapsed: nat)
    | Bootstrap(email: string, hash: string)
    | Login(row: Option<Id>, passwordOk: bool)
    | Register(email: string, hash: string, token: Token)
    | VerifyEmail(token: Token, row: Option<Id>)
    | Forgot(row: Option<Id>, token: Token)
    | ResetPassword(token: Token, hash: string, row: Option<Id>)
    | ConfirmEmail(token: Token, row: Option<Id>)
    | Revoke(id: Id)
    | Evict(id: Id)
    | Call(caller: Claims, action: Action)

  predicate EmailTaken(users: map<Id, User>, email: string) {
    exists id | id in users :: users[id].email == email
  }

  predicate FindsRow(s: State, kind: Kind, token: Token, row: Option<Id>) {
    match row
    case Some(id) => id in s.users && Matches(s.users[id], kind, token, s.clock)
    case None => forall id | id in s.users :: !Matches(s.users[id], kind, token, s.clock)
  }

  predicate RowExists(s: State, row: Option<Id>) {
    row.Some? ==> row.value in s.users
  }

  predicate Fresh(s: State, token: Token) {
    token !in s.minted
  }

  /** What the database and the random source guarantee of a step. */
  predicate Allowed(s: State, step: Step) {
    match step
    case Login(row, _) => RowExists(s, row)
    case Register(_, _, token) => Fresh(s, token)
    case VerifyEmail(token, row) => FindsRow(s, Verification, token, row)
    case Forgot(row, token) => RowExists(s, row) && Fresh(s, token)
    case ResetPassword(token, _, row) => FindsRow(s, Reset, token, row)
    case ConfirmEmail(token, row) => FindsRow(s, EmailChange, token, row)
    case Call(_, ChangeEmail(_, token)) => Fresh(s, token)
    case Call(_, ResetOwn(token)) => Fresh(s, token)
    case _ => true
  }

  // ----- handlers

  function PutUser(s: State, id: Id, u: User): State {
    s.(users := s.users[id := u])
  }

  function DropCached(s: State, id: Id): State {
    s.(cache := s.cache - {id})
  }

  function Record(s: State, token: Token, kind: Kind, id: Id): State {
    s.(effects := s.effects + [Effect(token, kind, id, s.clock)])
  }

  function MintFor(s: State, token: Token, kind: Kind, id: Id): State {
    s.(minted := s.minted[token := Mint(kind, id, s.clock + TOKEN_TTL)])
  }

  predicate NamesAdmin(cfg: Config, role: string) {
    exists r | r in cfg.roles :: r.admin && r.name == role
  }

  function FirstAdmin(roles: seq<Role>): (r: Option<Role>)
    ensures r.Some? ==> r.value in roles && r.value.admin
  {
    if roles == [] then None
    else if roles[0].admin then Some(roles[0])
    else FirstAdmin(roles[1..])
  }

  function NewUser(email: string, hash: string, role: string): User {
    User(email, hash, role, true, EMPTY, EMPTY, EMPTY, None, 0)
  }

  /** Creates the first admin, unless some account already holds an admin role. */
  function ApplyBootstrap(cfg: Config, s: State, email: string, hash: string): State {
    var role := FirstAdmin(cfg.roles);
    if email == "" || role.None? || (exists id | id in s.users :: NamesAdmin(cfg, s.users[id].role))
       || EmailTaken(s.users, email)
    then s
    else PutUser(s, s.nextId, NewUser(email, hash, role.value.name)).(nextId := s.nextId + 1)
  }

  function ApplyLogin(cfg: Config, s: State, row: Option<Id>, passwordOk: bool): State
    requires WellFormed(cfg.roles) && RowExists(s, row)
  {
    if row.None? || !passwordOk then s
    else
      var u := s.users[row.value];
      var role := FromRoleStr(cfg.roles, u.role);
      if role.none || !u.verified then s
      else
        var now := Seconds(s.clock);
        s.(issued := s.issued + {Claims(row.value, role, now + SESSION_SECONDS, now)})
  }

  function ApplyRegister(cfg: Config, s: State, email: string, hash: string, token: Token): State {
    if EmailTaken(s.users, email) then s
    else
      var u := NewUser(email, hash, DEFAULT_ROLE);
      var s' := s.(nextId := s.nextId + 1);
      if cfg.verifyEmails then
        var slot := Slot(Some(token), Some(s.clock + TOKEN_TTL));
        MintFor(PutUser(s', s.nextId, u.(verified := false, verification := slot)), token, Verification, s.nextId)
      else PutUser(s', s.nextId, u)
  }

  function ApplyVerify(s: State, token: Token, row: Option<Id>): State
    requires RowExists(s, row)
  {
    if row.None? then s
    else
      var u := s.users[row.value].(verified := true, verification := EMPTY);
      Record(PutUser(s, row.value, u), token, Verification, row.value)
  }

  function MintReset(s: State, id: Id, token: Token): State
    requires id in s.users
  {
    var slot := Slot(Some(token), Some(s.clock + TOKEN_TTL));
    MintFor(PutUser(s, id, s.users[id].(reset := slot)), token, Reset, id)
  }

  function ApplyReset(s: State, token: Token, hash: string, row: Option<Id>): State
    requires RowExists(s, row)
  {
    if row.None? then s
    else
      var u := s.users[row.value].(password := hash, reset := EMPTY, validAfter := Seconds(s.clock));
      Record(DropCached(PutUser(s, row.value, u), row.value), token, Reset, row.value)
  }

  /** Confirming a staged address: nothing happens when none is staged, or when another account
      has taken the address since (the UNIQUE constraint refuses the update). */
  function ApplyConfirm(s: State, token: Token, row: Option<Id>): State
    requires RowExists(s, row)
  {
    if row.None? || s.users[row.value].pendingEmail.None? then s
    else
      var id := row.value;
      var email := s.users[id].pendingEmail.value;
      if EmailTaken(s.users - {id}, email) then s
      else
        var u := s.users[id].(email := email, pendingEmail := None, emailChange := EMPTY,
            validAfter := Seconds(s.clock));
        Record(DropCached(PutUser(s, id, u), id), token, EmailChange, id)
  }

  /** Stamps the cutoff and drops the cached one. */
  function ApplyRevoke(s: State, id: Id): State {
    DropCached(if id in s.users then PutUser(s, id, s.users[id].(validAfter := Seconds(s.clock))) else s, id)
  }

  // ----- authentication

  function TableCutoff(s: State, id: Id): Option<int> {
    if id in s.users then Some(s.users[id].validAfter) else None
  }

  predicate Live(c: Cached, now: Time) {
    now < c.at + CUTOFF_TTL
  }

  /** The cutoff a request sees, and the cache after looking it up. */
  function Cutoff(s: State, id: Id): (Option<int>, map<Id, Cached>) {
    if id in s.cache && Live(s.cache[id], s.clock) then (s.cache[id].cutoff, s.cache)
    else (TableCutoff(s, id), s.cache[id := Cached(TableCutoff(s, id), s.clock)])
  }

  /** Signature and expiry: only issued tokens carry a valid signature. */
  predicate ValidToken(cfg: Config, s: State, c: Claims) {
    c in s.issued && Seconds(s.clock) <= c.exp + cfg.leeway
  }

  predicate NewerThan(c: Claims, cutoff: Option<int>) {
    cutoff.Some? && c.iat > if cutoff.value < 0 then 0 else cutoff.value
  }

  predicate Accepts(cfg: Config, s: State, c: Claims) {
    ValidToken(cfg, s, c) && NewerThan(c, Cutoff(s, c.sub).0)
  }

  /** The state after authenticating, accepted or not. */
  function AfterLookup(cfg: Config, s: State, c: Claims): State {
    if ValidToken(cfg, s, c) then s.(cache := Cutoff(s, c.sub).1) else s
  }

  // ----- authenticated handlers

  function ApplyChangeEmail(cfg: Config, s: State, id: Id, newEmail: string, token: Token): State {
    if id !in s.users || EmailTaken(s.users, newEmail) then s
    else if !cfg.verifyEmails then
      PutUser(s, id, s.users[id].(email := newEmail, pendingEmail := None,
          emailChange := s.users[id].emailChange.(token := None)))
    else
      var slot := Slot(Some(token), Some(s.clock + TOKEN_TTL));
      MintFor(PutUser(s, id, s.users[id].(pendingEmail := Some(newEmail), emailChange := slot)), token, EmailChange, id)
  }

  function RemoveUser(s: State, id: Id): State {
    DropCached(s.(users := s.users - {id}), id)
  }

  function ApplySetRole(cfg: Config, s: State, caller: Role, id: Id, input: string): State
    requires WellFormed(cfg.roles)
  {
    var role := FromRoleStr(cfg.roles, input);
    if !HasPermission(caller, "users.write") || role.name != Lower(Trim(input)) then s
    else if !role.admin && id !in s.users then s
    else if (role.admin || FromRoleStr(cfg.roles, s.users[id].role).admin) && !caller.admin then s
    else DropCached(
           if id in s.users then PutUser(s, id, s.users[id].(role := role.name, validAfter := Seconds(s.clock)))
               else s, id)
  }

  function ApplyDeleteUser(cfg: Config, s: State, caller: Role, id: Id): State
    requires WellFormed(cfg.roles)
  {
    if !HasPermission(caller, "users.write") || id !in s.users then s
    else if FromRoleStr(cfg.roles, s.users[id].role).admin && !caller.admin then s
    else RemoveUser(s, id)
  }

  function Act(cfg: Config, s: State, c: Claims, action: Action): State
    requires WellFormed(cfg.roles)
  {
    match action
    case ReadPage => s
    case ChangeEmail(newEmail, token) => ApplyChangeEmail(cfg, s, c.sub, newEmail, token)
    case ResetOwn(token) => if c.sub in s.users then MintReset(s, c.sub, token) else s
    case DeleteOwn => RemoveUser(s, c.sub)
    case SetRole(id, input) => ApplySetRole(cfg, s, c.role, id, input)
    case DeleteUser(id) => ApplyDeleteUser(cfg, s, c.role, id)
  }

  function Apply(cfg: Config, s: State, step: Step): State
    requires WellFormed(cfg.roles) && Allowed(s, step)
  {
    match step
    case Tick(elapsed) => s.(clock := s.clock + elapsed)
    case Bootstrap(email, hash) => ApplyBootstrap(cfg, s, email, hash)
    case Login(row, passwordOk) => ApplyLogin(cfg, s, row, passwordOk)
    case Register(email, hash, token) => ApplyRegister(cfg, s, email, hash, token)
    case VerifyEmail(token, row) => ApplyVerify(s, token, row)
    case Forgot(row, token) => if row.Some? then MintReset(s, row.value, token) else s
    case ResetPassword(token, hash, row) => ApplyReset(s, token, hash, row)
    case ConfirmEmail(token, row) => ApplyConfirm(s, token, row)
    case Revoke(id) => ApplyRevoke(s, id)
    case Evict(id) => DropCached(s, id)
    case Call(caller, action) =>
      var s' := AfterLookup(cfg, s, caller);
      if Accepts(cfg, s, caller) then Act(cfg, s', caller, action) else s'
  }
}
