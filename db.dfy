/** Package db: the users and sessions tables, held in memory instead of Postgres.
    The session table maps a refresh or reset token to its record; QueryToken is a
    pure decision over the looked-up record; the mutations are methods of Store,
    each specified by a function on the table that the lemmas below reason about.
    Times are seconds on one clock, passed in as `now`. */
module Db {
  import opened Wrappers
  import opened GoStrings
  import Crypto
  import AuthUtils

  // ---- Query string constructors ----

  /** queryConstructor: the columns, the table and the selector read back at their
      places in "SELECT c FROM t WHERE s;". */
  function QueryConstructor(table: string, cols: string, selector: string): (q: string)
    ensures |q| == 21 + |cols| + |table| + |selector|
    ensures q[..7] == "SELECT " && q[7..7 + |cols|] == cols
    ensures q[7 + |cols|..13 + |cols|] == " FROM " && q[13 + |cols|..13 + |cols| + |table|] == table
    ensures q[|q| - 1 - |selector|..|q| - 1] == selector && q[|q| - 1] == ';'
  {
    "SELECT " + cols + " FROM " + table + " WHERE " + selector + ";"
  }

  /** updateConstructor: the table, the SET list and the selector read back at their
      places in "UPDATE t SET v WHERE s". */
  function UpdateConstructor(table: string, val: string, selector: string): (q: string)
    ensures |q| == 19 + |table| + |val| + |selector|
    ensures q[..7] == "UPDATE " && q[7..7 + |table|] == table
    ensures q[7 + |table|..12 + |table|] == " SET " && q[12 + |table|..12 + |table| + |val|] == val
    ensures q[|q| - |selector| - 7..|q| - |selector|] == " WHERE " && q[|q| - |selector|..] == selector
  {
    "UPDATE " + table + " SET " + val + " WHERE " + selector
  }

  /** deleteConstructor: the table and the selector read back at their places in
      "DELETE FROM t WHERE s;". */
  function DeleteConstructor(table: string, selector: string): (q: string)
    ensures |q| == 20 + |table| + |selector|
    ensures q[..12] == "DELETE FROM " && q[12..12 + |table|] == table
    ensures q[12 + |table|..19 + |table|] == " WHERE " && q[19 + |table|..|q| - 1] == selector && q[|q| - 1] == ';'
  {
    "DELETE FROM " + table + " WHERE " + selector + ";"
  }

  // ---- UpdateUserProfile ----

  /** An argument of the UPDATE statement: the user id ($1) or one submitted value. */
  datatype Arg<V> = IdArg(id: int) | ValueArg(value: V)

  /** The SET fragment "key = $n". */
  function Fragment(key: string, n: nat): string {
    key + " = $" + Itoa(n)
  }

  /** The placeholder number of a fragment reads back as the number it was built with. */
  lemma FragmentPlaceholder(key: string, n: nat)
    requires n <= MaxInt64
    ensures Atoi(Fragment(key, n)[|key| + 4..]) == Some(n)
  {
    assert Fragment(key, n)[|key| + 4..] == Itoa(n);
    AtoiItoa(n);
  }

  /** `order` lists every key of `m` exactly once: an order in which Go may range over the map. */
  ghost predicate Enumerates<V>(order: seq<string>, m: map<string, V>) {
    && (forall k :: k in order <==> k in m)
    && (forall i, j :: 0 <= i < j < |order| ==> order[i] != order[j])
  }

  /** UpdateUserProfile: one fragment and one argument per key, in the order the map
      is ranged over (`order`, which Go leaves unspecified), numbered from $2 since $1
      is the id that the WHERE clause selects on. */
  method UpdateUserProfile<V>(id: int, updates: map<string, V>, order: seq<string>) returns (query: string, args: seq<Arg<V>>)
    requires Enumerates(order, updates)
    ensures |args| == |order| + 1 && args[0] == IdArg(id)
    ensures forall i :: 0 <= i < |order| ==> args[i + 1] == ValueArg(updates[order[i]])
    ensures query == UpdateConstructor("users", Join(seq(|order|, i requires 0 <= i < |order| => Fragment(order[i], i + 2)), ", "), "id = $1")
  {
    var updateSegment: seq<string> := [];
    var argNumber := 2;
    args := [IdArg(id)];
    var i := 0;
    while i < |order|
      invariant 0 <= i <= |order| && argNumber == i + 2
      invariant |updateSegment| == i && |args| == i + 1 && args[0] == IdArg(id)
      invariant forall j :: 0 <= j < i ==> updateSegment[j] == Fragment(order[j], j + 2)
      invariant forall j :: 0 <= j < i ==> args[j + 1] == ValueArg(updates[order[j]])
    {
      var key := order[i];
      updateSegment := updateSegment + [Fragment(key, argNumber)];
      args := args + [ValueArg(updates[key])];
      argNumber := argNumber + 1;
      i := i + 1;
    }
    assert updateSegment == seq(|order|, i requires 0 <= i < |order| => Fragment(order[i], i + 2));
    query := UpdateConstructor("users", Join(updateSegment, ", "), "id = $1");
  }

  // ---- Users ----

  /** A row of the users table, restricted to the columns this core reads or writes. */
  datatype User = User(id: int, username: string, email: string, passwordHash: string,
                       isSuperuser: bool, isStaff: bool, isActive: bool, lastLogin: int)

  const ErrNoRows := "no rows in result set"
  const ErrTooManyRows := "too many rows in result set"

  /** The rows with a given username, in table order. */
  function WithUsername(users: seq<User>, name: string): (r: seq<User>)
    ensures forall u :: u in r <==> u in users && u.username == name
    decreases |users|
  {
    if |users| == 0 then []
    else (if users[0].username == name then [users[0]] else []) + WithUsername(users[1..], name)
  }

  /** The rows with a given email, in table order. */
  function WithEmail(users: seq<User>, email: string): (r: seq<User>)
    ensures forall u :: u in r <==> u in users && u.email == email
    decreases |users|
  {
    if |users| == 0 then []
    else (if users[0].email == email then [users[0]] else []) + WithEmail(users[1..], email)
  }

  /** pgx.CollectExactlyOneRow: the row if there is exactly one, an error otherwise. */
  function ExactlyOne(rows: seq<User>): (r: Result<User, string>)
    ensures r.Success? <==> |rows| == 1
    ensures r.Success? ==> r.value == rows[0]
    ensures |rows| == 0 ==> r == Failure(ErrNoRows)
  {
    if |rows| == 0 then Failure(ErrNoRows)
    else if |rows| > 1 then Failure(ErrTooManyRows)
    else Success(rows[0])
  }

  /** SelectUserAuth: the one row with that username. */
  function SelectUserAuth(users: seq<User>, username: string): (r: Result<User, string>)
    ensures r.Success? ==> r.value in users && r.value.username == username
    ensures r.Failure? <==> |WithUsername(users, username)| != 1
  {
    ExactlyOne(WithUsername(users, username))
  }

  /** GetUserId: the id of the one row with that username, 0 when there is none or several. */
  function GetUserId(users: seq<User>, username: string): (id: int)
    ensures SelectUserAuth(users, username).Success? ==> id == SelectUserAuth(users, username).value.id
    ensures SelectUserAuth(users, username).Failure? ==> id == 0
  {
    match ExactlyOne(WithUsername(users, username))
    case Success(u) => u.id
    case Failure(_) => 0
  }

  /** GetUserIdWithEmail: as GetUserId, selecting on the email column. */
  function GetUserIdWithEmail(users: seq<User>, email: string): (id: int)
    ensures |WithEmail(users, email)| == 1 ==> id == WithEmail(users, email)[0].id && WithEmail(users, email)[0] in users
    ensures |WithEmail(users, email)| != 1 ==> id == 0
  {
    match ExactlyOne(WithEmail(users, email))
    case Success(u) => u.id
    case Failure(_) => 0
  }

  /** The users table after `UPDATE users SET passwordHash = $2 WHERE id = $1`. */
  function SetHash(users: seq<User>, id: int, hash: string): (r: seq<User>)
    ensures |r| == |users|
    ensures forall i :: 0 <= i < |users| && users[i].id == id ==> r[i] == users[i].(passwordHash := hash)
    ensures forall i :: 0 <= i < |users| && users[i].id != id ==> r[i] == users[i]
    decreases |users|
  {
    if |users| == 0 then []
    else [if users[0].id == id then users[0].(passwordHash := hash) else users[0]] + SetHash(users[1..], id, hash)
  }

  /** Replacing a digest keeps every username lookup: the same rows match, with only
      their digest changed. */
  lemma {:induction false} HashKeepsLookup(users: seq<User>, id: int, hash: string, name: string)
    ensures WithUsername(SetHash(users, id, hash), name) == SetHash(WithUsername(users, name), id, hash)
    decreases |users|
  {
    if |users| > 0 {
      HashKeepsLookup(users[1..], id, hash, name);
      var head := if users[0].username == name then [users[0]] else [];
      SetHashAppend(head, WithUsername(users[1..], name), id, hash);
    }
  }

  lemma {:induction false} SetHashAppend(a: seq<User>, b: seq<User>, id: int, hash: string)
    ensures SetHash(a + b, id, hash) == SetHash(a, id, hash) + SetHash(b, id, hash)
    decreases |a|
  {
    if |a| > 0 {
      assert (a + b)[1..] == a[1..] + b;
      SetHashAppend(a[1..], b, id, hash);
    } else {
      assert a + b == b;
    }
  }

  /** The users table after `UPDATE users SET last_login = $2 WHERE id = $1`. */
  function SetLastLogin(users: seq<User>, id: int, now: int): (r: seq<User>)
    ensures |r| == |users|
    ensures forall i :: 0 <= i < |users| && users[i].id == id ==> r[i] == users[i].(lastLogin := now)
    ensures forall i :: 0 <= i < |users| && users[i].id != id ==> r[i] == users[i]
    decreases |users|
  {
    if |users| == 0 then []
    else [if users[0].id == id then users[0].(lastLogin := now) else users[0]] + SetLastLogin(users[1..], id, now)
  }

  /** Recording a login time keeps every username lookup: the same rows match, with
      only their last-login time changed. */
  lemma {:induction false} LoginTimeKeepsLookup(users: seq<User>, id: int, now: int, name: string)
    ensures WithUsername(SetLastLogin(users, id, now), name) == SetLastLogin(WithUsername(users, name), id, now)
    decreases |users|
  {
    if |users| > 0 {
      LoginTimeKeepsLookup(users[1..], id, now, name);
      var head := if users[0].username == name then [users[0]] else [];
      SetLastLoginAppend(head, WithUsername(users[1..], name), id, now);
    }
  }

  lemma {:induction false} SetLastLoginAppend(a: seq<User>, b: seq<User>, id: int, now: int)
    ensures SetLastLogin(a + b, id, now) == SetLastLogin(a, id, now) + SetLastLogin(b, id, now)
    decreases |a|
  {
    if |a| > 0 {
      assert (a + b)[1..] == a[1..] + b;
      SetLastLoginAppend(a[1..], b, id, now);
    } else {
      assert a + b == b;
    }
  }

  // ---- Sessions ----

  /** A row of the sessions table; `valid` starts out true. */
  datatype Session = Session(userId: int, pwReset: bool, valid: bool, expires: int)

  /** Lifetimes in seconds: five minutes for a reset token, 720 hours for a refresh token. */
  const ResetLifetime := 5 * 60
  const RefreshLifetime := 720 * 3600

  function Lifetime(pwReset: bool): int {
    if pwReset then ResetLifetime else RefreshLifetime
  }

  function Lookup(sessions: map<string, Session>, token: string): (row: Option<Session>)
    ensures row.Some? <==> token in sessions
    ensures row.Some? ==> row.value == sessions[token]
  {
    if token in sessions then Some(sessions[token]) else None
  }

  /** The outcome of QueryToken: (true, nil), (false, nil) or (false, err). */
  datatype TokenCheck = Authorized | Refused | Errored(err: string)

  /** QueryToken's decision over the looked-up record. A missing record is the only
      error; a record of another user, an expired one, one of the wrong purpose for a
      reset, or an invalidated one for a refresh is refused. A reset consults only
      the purpose flag and a refresh only the validity flag. */
  function QueryDecision(row: Option<Session>, id: int, pwReset: bool, now: int): (r: TokenCheck)
    ensures r.Errored? <==> row.None?
    ensures r.Errored? ==> r.err == ErrNoRows
    ensures r == Authorized <==>
      && row.Some? && row.value.userId == id && now <= row.value.expires
      && (if pwReset then row.value.pwReset else row.value.valid)
  {
    match row
    case None => Errored(ErrNoRows)
    case Some(s) =>
      if s.userId != id then Refused
      else if now > s.expires then Refused
      else if pwReset && s.pwReset then Authorized
      else if pwReset && !s.pwReset then Refused
      else if !s.valid then Refused
      else Authorized
  }

  /** The table after NewUserSession inserted a token. */
  function Issue(sessions: map<string, Session>, token: string, id: int, pwReset: bool, now: int): (r: map<string, Session>)
    ensures r.Keys == sessions.Keys + {token}
    ensures forall t :: t in sessions && t != token ==> r[t] == sessions[t]
  {
    sessions[token := Session(id, pwReset, true, now + Lifetime(pwReset))]
  }

  /** The table after InvalidateSession: the token's record, if any, loses its validity. */
  function Invalidate(sessions: map<string, Session>, token: string): (r: map<string, Session>)
    ensures r.Keys == sessions.Keys
    ensures forall t :: t in sessions && t != token ==> r[t] == sessions[t]
    ensures token in sessions ==> r[token] == sessions[token].(valid := false)
  {
    if token in sessions then sessions[token := sessions[token].(valid := false)] else sessions
  }

  /** The table after InvalidateAllSessions: every record of the user is deleted. */
  function DropUser(sessions: map<string, Session>, id: int): (r: map<string, Session>)
    ensures forall t :: t in r <==> t in sessions && sessions[t].userId != id
    ensures forall t :: t in r ==> r[t] == sessions[t]
  {
    map t | t in sessions && sessions[t].userId != id :: sessions[t]
  }

  /** A freshly issued token redeems for its own purpose and user exactly until its lifetime ends. */
  lemma IssuedTokenRedeems(sessions: map<string, Session>, token: string, id: int, pwReset: bool, now: int, later: int)
    ensures QueryDecision(Lookup(Issue(sessions, token, id, pwReset, now), token), id, pwReset, later) == Authorized
        <==> later <= now + Lifetime(pwReset)
  {
  }

  /** A redeemed refresh token never refreshes again, for any user at any time. */
  lemma InvalidatedNeverRefreshes(sessions: map<string, Session>, token: string, id: int, now: int)
    ensures QueryDecision(Lookup(Invalidate(sessions, token), token), id, false, now) != Authorized
  {
  }

  /** After InvalidateAllSessions no token at all is accepted for that user. */
  lemma DroppedUserHasNoSession(sessions: map<string, Session>, id: int, token: string, pwReset: bool, now: int)
    ensures QueryDecision(Lookup(DropUser(sessions, id), token), id, pwReset, now) != Authorized
  {
  }

  /** The session record store and the users table it sits beside. */
  class Store {
    var users: seq<User>
    var sessions: map<string, Session>

    constructor(users0: seq<User>, sessions0: map<string, Session>)
      ensures users == users0 && sessions == sessions0
    {
      users := users0;
      sessions := sessions0;
    }

    /** QueryToken: a SELECT, so it reads the table and changes nothing. */
    function QueryToken(token: string, id: int, pwReset: bool, now: int): TokenCheck
      reads this
    {
      QueryDecision(Lookup(sessions, token), id, pwReset, now)
    }

    /** NewUserSession: inserts a valid record expiring one lifetime from now; a token
        already in the table violates its key and changes nothing. */
    method NewUserSession(id: int, token: string, pwReset: bool, now: int) returns (err: Option<string>)
      modifies this
      ensures users == old(users)
      ensures err.Some? <==> token in old(sessions)
      ensures sessions == if err.Some? then old(sessions) else Issue(old(sessions), token, id, pwReset, now)
    {
      if token in sessions {
        return Some("duplicate key value violates unique constraint");
      }
      sessions := Issue(sessions, token, id, pwReset, now);
      return None;
    }

    method InvalidateSession(token: string)
      modifies this
      ensures users == old(users)
      ensures sessions == Invalidate(old(sessions), token)
    {
      sessions := Invalidate(sessions, token);
    }

    method InvalidateAllSessions(id: int)
      modifies this
      ensures users == old(users)
      ensures sessions == DropUser(old(sessions), id)
    {
      sessions := DropUser(sessions, id);
    }

    method DeleteSession(token: string)
      modifies this
      ensures users == old(users)
      ensures sessions == old(sessions) - {token}
    {
      sessions := sessions - {token};
    }

    /** NewUserHashById: the rows with that id get the digest of the new password. */
    method NewUserHashById(p: Crypto.Primitives, rnd: Result<AuthUtils.Random16, string>, id: int, password: string)
      modifies this
      ensures sessions == old(sessions)
      ensures users == SetHash(old(users), id, AuthUtils.GetPasswordHash(p, rnd, password))
    {
      var hash := AuthUtils.GetPasswordHash(p, rnd, password);
      users := SetHash(users, id, hash);
    }

    /** UpdateUserLoginTime: the rows with that id record `now` as their last login. */
    method UpdateUserLoginTime(id: int, now: int)
      modifies this
      ensures sessions == old(sessions)
      ensures users == SetLastLogin(old(users), id, now)
    {
      users := SetLastLogin(users, id, now);
    }
  }
}
