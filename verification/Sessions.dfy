/** The session store (utils/user_accounts.py). The token hash is an arbitrary function; tokens are named by their
    hashes in histories, because that is all the store ever sees of them. */
module Sessions {
  import opened Wrappers

  const VALID_ROLES := ["admin", "analyst"]

  datatype Session = Session(username: string, role: string, expiresAt: real)

  datatype Identity = Identity(username: string, role: string)

  type Table = map<string, Session>

  datatype Op =
    | Login(hash: string, username: string, role: string, now: real, ttl: real)
    | Logout(hash: string)
    | DeleteUser(username: string)
    | ChangeRole(username: string, role: string)
    | Validate(hash: string, now: real)

  predicate Expired(s: Session, now: real) {
    s.expiresAt < now
  }

  function Answered(table: Table, hash: string, now: real): Option<Identity> {
    if hash in table && !Expired(table[hash], now) then Some(Identity(table[hash].username, table[hash].role)) else None
  }

  function WithoutUser(table: Table, username: string): Table {
    map h | h in table && table[h].username != username :: table[h]
  }

  function WithRole(table: Table, username: string, role: string): Table {
    map h | h in table :: if table[h].username == username then table[h].(role := role) else table[h]
  }

  /** An `INSERT` of a hash that is already there fails; a lookup deletes what it finds expired. */
  function Applied(table: Table, op: Op): Table {
    match op
    case Login(h, u, r, now, ttl) => if h in table then table else table[h := Session(u, r, now + ttl)]
    case Logout(h) => table - {h}
    case DeleteUser(u) => WithoutUser(table, u)
    case ChangeRole(u, r) => WithRole(table, u, r)
    case Validate(h, now) => if h in table && Expired(table[h], now) then table - {h} else table
  }

  class SessionStore {
    var sessions: Table
    var roles: map<string, string>

    constructor ()
      ensures sessions == map[] && roles == map[]
    {
      sessions, roles := map[], map[];
    }

    /** False when the primary key is taken, which makes the insert raise. */
    method CreateSession(hash: string -> string, token: string, username: string, role: string, now: real, ttl: real)
      returns (issued: bool)
      modifies this`sessions
      ensures sessions == Applied(old(sessions), Login(hash(token), username, role, now, ttl))
      ensures issued <==> hash(token) !in old(sessions)
    {
      var h := hash(token);
      issued := h !in sessions;
      if issued {
        sessions := sessions[h := Session(username, role, now + ttl)];
      }
    }

    method ValidateSession(hash: string -> string, token: string, now: real) returns (r: Option<Identity>)
      modifies this`sessions
      ensures token != "" ==> sessions == Applied(old(sessions), Validate(hash(token), now))
      ensures token != "" ==> r == Answered(old(sessions), hash(token), now)
      ensures token == "" ==> sessions == old(sessions) && r == None
    {
      if token == "" || hash(token) !in sessions {
        return None;
      }
      var s := sessions[hash(token)];
      if s.expiresAt < now {
        sessions := sessions - {hash(token)};
        return None;
      }
      return Some(Identity(s.username, s.role));
    }

    method InvalidateSession(hash: string -> string, token: string)
      modifies this`sessions
      ensures sessions == if token == "" then old(sessions) else Applied(old(sessions), Logout(hash(token)))
    {
      if token != "" {
        sessions := sessions - {hash(token)};
      }
    }

    method DeleteUserAndSessions(username: string) returns (existed: bool)
      modifies this
      ensures sessions == Applied(old(sessions), DeleteUser(username))
      ensures roles == old(roles) - {username} && (existed <==> username in old(roles))
    {
      existed := username in roles;
      roles := roles - {username};
      sessions := map h | h in sessions && sessions[h].username != username :: sessions[h];
    }

    /** None stands for the ValueError of a role that does not exist. */
    method ChangeRoleEverywhere(username: string, role: string) returns (existed: Option<bool>)
      modifies this
      ensures role !in {"analyst", "admin"} ==> existed == None && sessions == old(sessions) && roles == old(roles)
      ensures role in {"analyst", "admin"} ==>
        && sessions == Applied(old(sessions), ChangeRole(username, role))
        && roles == (if username in old(roles) then old(roles)[username := role] else old(roles))
        && existed == Some(username in old(roles))
    {
      if role !in VALID_ROLES {
        return None;
      }
      existed := Some(username in roles);
      if username in roles {
        roles := roles[username := role];
      }
      sessions := WithRole(sessions, username, role);
    }
  }

  function After(ops: seq<Op>): Table {
    if ops == [] then map[] else Applied(After(ops[..|ops| - 1]), ops[|ops| - 1])
  }

  // ----- what a history says about one session

  function Changed(before: Option<Session>, op: Op, h: string): Option<Session> {
    match op
    case Login(hash, u, r, now, ttl) => if hash == h then Some(Session(u, r, now + ttl)) else before
    case Logout(hash) => if hash == h then None else before
    case DeleteUser(u) => if before.Some? && before.value.username == u then None else before
    case ChangeRole(u, r) =>
      if before.Some? && before.value.username == u then Some(before.value.(role := r)) else before
    case Validate(_, _) => before
  }

  /** The session as issued and as changed since, if it was issued, not logged out and its user not deleted since;
      looking it up and the passing of time change nothing here. */
  function Standing(ops: seq<Op>, h: string): Option<Session> {
    if ops == [] then None else Changed(Standing(ops[..|ops| - 1], h), ops[|ops| - 1], h)
  }

  function Ideal(standing: Option<Session>, now: real): Option<Identity> {
    if standing.Some? && !Expired(standing.value, now) then Some(Identity(standing.value.username, standing.value.role))
    else None
  }

  predicate Clocked(op: Op) {
    op.Login? || op.Validate?
  }

  ghost predicate Timely(ops: seq<Op>, last: real) {
    && (forall i :: 0 <= i < |ops| && Clocked(ops[i]) ==> ops[i].now <= last)
    && (forall i, j :: 0 <= i <= j < |ops| && Clocked(ops[i]) && Clocked(ops[j]) ==> ops[i].now <= ops[j].now)
  }

  /** No token is issued twice. */
  ghost predicate FreshTokens(ops: seq<Op>) {
    forall i, j :: 0 <= i < j < |ops| && ops[i].Login? && ops[j].Login? ==> ops[i].hash != ops[j].hash
  }

  /** The row, if it is there, is the standing session; if it is not, there is none or it has expired by now. */
  ghost predicate Agrees(table: Table, standing: Option<Session>, h: string, now: real) {
    if h in table then standing == Some(table[h])
    else standing == None || Expired(standing.value, now)
  }

  predicate Issued(ops: seq<Op>, h: string) {
    exists i :: 0 <= i < |ops| && ops[i].Login? && ops[i].hash == h
  }

  lemma {:induction false} NeverIssued(ops: seq<Op>, h: string)
    requires !Issued(ops, h)
    ensures Standing(ops, h) == None && h !in After(ops)
  {
    if ops != [] {
      var n := |ops| - 1;
      assert !Issued(ops[..n], h) by {
        assert forall i :: 0 <= i < n ==> ops[..n][i] == ops[i];
      }
      NeverIssued(ops[..n], h);
    }
  }

  lemma StepAgrees(table: Table, standing: Option<Session>, op: Op, h: string, now: real)
    requires Agrees(table, standing, h, now)
    requires Clocked(op) ==> op.now <= now
    requires op.Login? && op.hash == h ==> h !in table
    ensures Agrees(Applied(table, op), Changed(standing, op, h), h, now)
  {
  }

  lemma {:induction false} StoreAgrees(ops: seq<Op>, h: string, last: real)
    requires Timely(ops, last) && FreshTokens(ops)
    ensures Agrees(After(ops), Standing(ops, h), h, last)
  {
    if ops != [] {
      var n := |ops| - 1;
      StoreAgrees(ops[..n], h, last);
      if ops[n].Login? && ops[n].hash == h {
        assert !Issued(ops[..n], h) by {
          assert forall i :: 0 <= i < n ==> ops[..n][i] == ops[i];
        }
        NeverIssued(ops[..n], h);
      }
      StepAgrees(After(ops[..n]), Standing(ops[..n], h), ops[n], h, last);
    }
  }

  /** Lazy purging is unobservable: after any history, whatever lookups it contains and whatever they deleted, a
      lookup answers exactly what the standing session and the clock call for. */
  lemma PurgingIsUnobservable(ops: seq<Op>, h: string, now: real)
    requires Timely(ops, now) && FreshTokens(ops)
    ensures Answered(After(ops), h, now) == Ideal(Standing(ops, h), now)
  {
    StoreAgrees(ops, h, now);
  }

  // ----- the standing session, read off the history

  /** Since event `i` nobody logged the token out or deleted the user. */
  predicate Undisturbed(ops: seq<Op>, i: nat, h: string, u: string) {
    forall j :: i < j < |ops| ==> ops[j] != Logout(h) && ops[j] != DeleteUser(u)
  }

  /** The role given at event `i`, or by the last change of the user's role after it. */
  function RoleSince(ops: seq<Op>, i: nat, u: string): string
    requires i < |ops| && ops[i].Login?
    decreases |ops|
  {
    var n := |ops| - 1;
    if n == i then ops[i].role
    else if ops[n].ChangeRole? && ops[n].username == u then ops[n].role
    else RoleSince(ops[..n], i, u)
  }

  lemma UndisturbedSplits(ops: seq<Op>, i: nat, h: string, u: string)
    requires i + 1 < |ops|
    ensures Undisturbed(ops, i, h, u) <==>
      Undisturbed(ops[..|ops| - 1], i, h, u) && ops[|ops| - 1] != Logout(h) && ops[|ops| - 1] != DeleteUser(u)
  {
    var n := |ops| - 1;
    if Undisturbed(ops[..n], i, h, u) {
      assert forall j :: i < j < n ==> ops[..n][j] == ops[j];
    }
  }

  lemma FreshPrefix(ops: seq<Op>, n: nat)
    requires FreshTokens(ops) && n <= |ops|
    ensures FreshTokens(ops[..n])
  {
  }

  /** A session stands exactly if, since it was issued, it was not logged out and its user was not deleted; it then
      has the user and the expiry it was issued with, and the role last given to that user. */
  lemma {:induction false} StandingExplained(ops: seq<Op>, i: nat)
    requires i < |ops| && ops[i].Login? && FreshTokens(ops)
    ensures Standing(ops, ops[i].hash) ==
      if Undisturbed(ops, i, ops[i].hash, ops[i].username)
      then Some(Session(ops[i].username, RoleSince(ops, i, ops[i].username), ops[i].now + ops[i].ttl))
      else None
    decreases |ops|
  {
    var n := |ops| - 1;
    if i < n {
      FreshPrefix(ops, n);
      StandingExplained(ops[..n], i);
      UndisturbedSplits(ops, i, ops[i].hash, ops[i].username);
    }
  }

  /** What a lookup answers, read off the history: the user and the role last given, if the session was not logged out, its
      user not deleted since, and its time to live has not passed. */
  lemma LookupExactly(ops: seq<Op>, i: nat, now: real)
    requires i < |ops| && ops[i].Login? && FreshTokens(ops) && Timely(ops, now)
    ensures Answered(After(ops), ops[i].hash, now) ==
      if Undisturbed(ops, i, ops[i].hash, ops[i].username) && now <= ops[i].now + ops[i].ttl
      then Some(Identity(ops[i].username, RoleSince(ops, i, ops[i].username)))
      else None
  {
    PurgingIsUnobservable(ops, ops[i].hash, now);
    StandingExplained(ops, i);
  }

  /** A token that was never issued is answered with nothing. */
  lemma UnknownTokens(ops: seq<Op>, h: string, now: real)
    requires !Issued(ops, h)
    ensures Answered(After(ops), h, now) == None
  {
    NeverIssued(ops, h);
  }

  /** A row is deleted by the first lookup after its time, and by no lookup before. */
  lemma LookupPurges(ops: seq<Op>, h: string, now: real)
    ensures After(ops + [Validate(h, now)]) ==
      if h in After(ops) && After(ops)[h].expiresAt < now then After(ops) - {h} else After(ops)
  {
    assert (ops + [Validate(h, now)])[..|ops|] == ops;
  }

  /** A second login under a hash that is taken changes nothing: the insert fails. */
  lemma TakenHashIsRefused(ops: seq<Op>, h: string, u: string, r: string, now: real, ttl: real)
    requires h in After(ops)
    ensures After(ops + [Login(h, u, r, now, ttl)]) == After(ops)
  {
    assert (ops + [Login(h, u, r, now, ttl)])[..|ops|] == ops;
  }
}
