/**
 Accounts and sessions of server/src/auth.cpp. Every call is one step under the service's
 mutex; expired session rows are deleted only by a validate that meets them.
 Password hashing and token generation are parameters.
 */
module Auth {
  import opened Wrappers

  const TWO_64: nat := 0x1_0000_0000_0000_0000

  datatype User = User(id: int, hash: string, role: string)

  datatype Session = Session(user: int, expiresAt: nat)

  datatype SessionInfo = SessionInfo(userId: int, username: string, role: string, token: string, expiresAt: nat)

  /** The users table by its unique username, the sessions table by its unique token. */
  datatype Db = Db(users: map<string, User>, sessions: map<string, Session>, nextUser: int)

  /** Where a call into SQLite can fail: at prepare, or at step. */
  datatype Site = OpenDb | SelectPrepare | SelectRow | InsertPrepare | InsertRow | DeletePrepare | DeleteRow

  datatype Hashing = Hashing(hash: string -> string, verify: (string, string) -> bool)

  datatype Event =
    | Register(username: string, password: string, role: string)
    | Login(username: string, password: string, ttl: nat, token: string, now: nat)
    | Logout(token: string)
    | Validate(token: string, now: nat)

  datatype Call = Call(event: Event, faults: set<Site>)

  // ---------- one call ----------

  function Expiry(now: nat, ttl: nat): nat {
    (now + ttl) % TWO_64
  }

  predicate RegisterSucceeds(s: Db, c: Call)
    requires c.event.Register?
  {
    && OpenDb !in c.faults && InsertPrepare !in c.faults && InsertRow !in c.faults
    && c.event.username !in s.users
    && c.event.role in {"STUDENT", "ADMIN"}
  }

  predicate LoginSucceeds(h: Hashing, s: Db, c: Call)
    requires c.event.Login?
  {
    && OpenDb !in c.faults && SelectPrepare !in c.faults && SelectRow !in c.faults && InsertPrepare !in c.faults && InsertRow !in c.faults
    && c.event.username in s.users
    && h.verify(c.event.password, s.users[c.event.username].hash)
    && c.event.token !in s.sessions
  }

  function LoginSession(s: Db, e: Event): Session
    requires e.Login? && e.username in s.users
  {
    Session(s.users[e.username].id, Expiry(e.now, e.ttl))
  }

  /** DELETE FROM sessions WHERE token = ? */
  function Without(sessions: map<string, Session>, token: string): map<string, Session> {
    map t | t in sessions && t != token :: sessions[t]
  }

  function Next(h: Hashing, s: Db, c: Call): Db {
    match c.event
    case Register(username, password, role) =>
      if RegisterSucceeds(s, c)
      then s.(users := s.users[username := User(s.nextUser, h.hash(password), role)], nextUser := s.nextUser + 1)
      else s
    case Login(_, _, _, token, _) =>
      if LoginSucceeds(h, s, c) then s.(sessions := s.sessions[token := LoginSession(s, c.event)]) else s
    case Logout(token) =>
      if OpenDb !in c.faults && DeletePrepare !in c.faults && DeleteRow !in c.faults then s.(sessions := Without(s.sessions, token)) else s
    case Validate(token, now) =>
      if && OpenDb !in c.faults && SelectPrepare !in c.faults && SelectRow !in c.faults && DeletePrepare !in c.faults && DeleteRow !in c.faults
         && Found(s, token) && now > s.sessions[token].expiresAt
      then s.(sessions := Without(s.sessions, token)) else s
  }

  /** sessions JOIN users ON user_id = id finds a row for the token. */
  predicate Found(s: Db, token: string) {
    token in s.sessions && exists name :: name in s.users && s.users[name].id == s.sessions[token].user
  }

  ghost predicate IsInfo(s: Db, token: string, info: SessionInfo) {
    && token in s.sessions && info.username in s.users
    && info.userId == s.sessions[token].user == s.users[info.username].id
    && info.role == s.users[info.username].role
    && info.token == token && info.expiresAt == s.sessions[token].expiresAt
  }

  predicate ValidateSucceeds(s: Db, c: Call)
    requires c.event.Validate?
  {
    && OpenDb !in c.faults && SelectPrepare !in c.faults && SelectRow !in c.faults
    && Found(s, c.event.token)
    && c.event.now <= s.sessions[c.event.token].expiresAt
  }

  // ---------- the service ----------

  class AuthService {
    const hashing: Hashing
    var users: map<string, User>
    var sessions: map<string, Session>
    var nextUser: int

    function Abs(): Db
      reads this
    {
      Db(users, sessions, nextUser)
    }

    constructor (hashing: Hashing)
      ensures this.hashing == hashing && Abs() == Empty()
    {
      this.hashing := hashing;
      users, sessions, nextUser := map[], map[], 1;
    }

    method RegisterUser(username: string, password: string, role: string, faults: set<Site>) returns (id: Option<int>)
      modifies this
      ensures var c := Call(Register(username, password, role), faults);
              && Abs() == Next(hashing, old(Abs()), c)
              && id == if RegisterSucceeds(old(Abs()), c) then Some(old(nextUser)) else None
      ensures sessions == old(sessions)
      ensures id.None? ==> users == old(users)
      ensures id.Some? ==>
                && username !in old(users) && role in {"STUDENT", "ADMIN"}
                && users == old(users)[username := User(id.value, hashing.hash(password), role)]
    {
      if OpenDb in faults || InsertPrepare in faults { return None; }
      var hashed := hashing.hash(password);
      if InsertRow in faults || username in users || role !in {"STUDENT", "ADMIN"} { return None; }
      users := users[username := User(nextUser, hashed, role)];
      id := Some(nextUser);
      nextUser := nextUser + 1;
    }

    method LoginUser(username: string, password: string, ttl: nat, token: string, now: nat, faults: set<Site>)
      returns (info: Option<SessionInfo>)
      modifies this
      ensures var c := Call(Login(username, password, ttl, token, now), faults);
              && Abs() == Next(hashing, old(Abs()), c)
              && (info.Some? <==> LoginSucceeds(hashing, old(Abs()), c))
              && (info.Some? ==> IsInfo(Abs(), token, info.value) && info.value.username == username)
      ensures users == old(users)
      ensures username !in users || !hashing.verify(password, users[username].hash) ==> info.None? && sessions == old(sessions)
      ensures info.None? ==> sessions == old(sessions)
      ensures info.Some? ==>
                && token !in old(sessions) && sessions == old(sessions)[token := Session(users[username].id, info.value.expiresAt)]
                && info.value == SessionInfo(users[username].id, username, users[username].role, token, (now + ttl) % 0x1_0000_0000_0000_0000)
    {
      if OpenDb in faults || SelectPrepare in faults { return None; }
      if SelectRow in faults || username !in users { return None; }
      var user := users[username];
      if !hashing.verify(password, user.hash) { return None; }
      var expires := (now + ttl) % TWO_64;
      if InsertPrepare in faults { return None; }
      if InsertRow in faults || token in sessions { return None; }
      sessions := sessions[token := Session(user.id, expires)];
      return Some(SessionInfo(user.id, username, user.role, token, expires));
    }

    /** The outcome of the DELETE itself is not looked at. */
    method LogoutToken(token: string, faults: set<Site>) returns (ok: bool)
      modifies this
      ensures Abs() == Next(hashing, old(Abs()), Call(Logout(token), faults))
      ensures ok <==> OpenDb !in faults && DeletePrepare !in faults
    {
      if OpenDb in faults || DeletePrepare in faults { return false; }
      if DeleteRow !in faults { sessions := Without(sessions, token); }
      return true;
    }

    method ValidateToken(token: string, now: nat, faults: set<Site>) returns (info: Option<SessionInfo>)
      modifies this
      ensures var c := Call(Validate(token, now), faults);
              && Abs() == Next(hashing, old(Abs()), c)
              && (info.Some? <==> ValidateSucceeds(old(Abs()), c))
              && (info.Some? ==> IsInfo(old(Abs()), token, info.value))
      ensures users == old(users)
      ensures info.Some? ==>
                && sessions == old(sessions) && token in sessions && now <= sessions[token].expiresAt
                && info.value.username in users && users[info.value.username].id == sessions[token].user
                && info.value == SessionInfo(sessions[token].user, info.value.username, users[info.value.username].role, token,
                                             sessions[token].expiresAt)
    {
      if OpenDb in faults || SelectPrepare in faults { return None; }
      if SelectRow in faults || !Found(Abs(), token) { return None; }
      var session := sessions[token];
      var name :| name in users && users[name].id == session.user;
      if now > session.expiresAt {
        if DeletePrepare !in faults && DeleteRow !in faults { sessions := Without(sessions, token); }
        return None;
      }
      return Some(SessionInfo(session.user, name, users[name].role, token, session.expiresAt));
    }
  }

  // ---------- the log: sessions without any deletion of expired ones ----------

  function Empty(): Db {
    Db(map[], map[], 1)
  }

  datatype Entry = LoggedIn(token: string, session: Session) | LoggedOut(token: string)

  /** What a call adds to the log: a login that succeeded, or a logout whose DELETE ran. */
  function Logged(h: Hashing, s: Db, c: Call): seq<Entry> {
    match c.event
    case Login(_, _, _, token, _) =>
      if LoginSucceeds(h, s, c) then [LoggedIn(token, LoginSession(s, c.event))] else []
    case Logout(token) =>
      if OpenDb !in c.faults && DeletePrepare !in c.faults && DeleteRow !in c.faults then [LoggedOut(token)] else []
    case _ => []
  }

  /** The session of the token's latest login, unless a logout of the token came later. */
  function Latest(log: seq<Entry>, token: string): Option<Session> {
    if log == [] then None
    else
      match log[|log| - 1]
      case LoggedIn(t, session) => if t == token then Some(session) else Latest(log[..|log| - 1], token)
      case LoggedOut(t) => if t == token then None else Latest(log[..|log| - 1], token)
  }

  function Exec(h: Hashing, calls: seq<Call>): Db {
    if calls == [] then Empty()
    else Next(h, Exec(h, calls[..|calls| - 1]), calls[|calls| - 1])
  }

  function Log(h: Hashing, calls: seq<Call>): seq<Entry> {
    if calls == [] then []
    else Log(h, calls[..|calls| - 1]) + Logged(h, Exec(h, calls[..|calls| - 1]), calls[|calls| - 1])
  }

  /** The latest clock reading of a list of calls, if the clock never went back. */
  function Clock(calls: seq<Call>): nat {
    if calls == [] then 0
    else
      match calls[|calls| - 1].event
      case Login(_, _, _, _, now) => now
      case Validate(_, now) => now
      case _ => Clock(calls[..|calls| - 1])
  }

  predicate ClockNeverGoesBack(calls: seq<Call>) {
    calls == [] ||
    (ClockNeverGoesBack(calls[..|calls| - 1]) && Clock(calls[..|calls| - 1]) <= Clock(calls))
  }

  /** A validate that meets the session after its expiry, with a SELECT and a DELETE that work. */
  predicate Reaps(c: Call, token: string, live: Option<Session>) {
    && c.event.Validate? && c.event.token == token
    && OpenDb !in c.faults && SelectPrepare !in c.faults && SelectRow !in c.faults && DeletePrepare !in c.faults && DeleteRow !in c.faults
    && live.Some? && c.event.now > live.value.expiresAt
  }

  /** Since the token's latest entry in the log, some validate has reaped its session. */
  function Reaped(h: Hashing, calls: seq<Call>, token: string): bool {
    if calls == [] then false
    else
      var before, c := calls[..|calls| - 1], calls[|calls| - 1];
      var logged := Logged(h, Exec(h, before), c);
      if logged != [] && logged[0].token == token then false
      else Reaped(h, before, token) || Reaps(c, token, Latest(Log(h, before), token))
  }

  /** The row of a token is that of its live session, and is missing exactly when that session was reaped. */
  ghost predicate Agree(s: Db, log: seq<Entry>, reaped: string -> bool) {
    forall t ::
      && (t in s.sessions <==> Latest(log, t).Some? && !reaped(t))
      && (t in s.sessions ==> s.sessions[t] == Latest(log, t).value)
  }

  /** Every session belongs to a registered user, and user ids are distinct and below the counter. */
  ghost predicate WellFormed(s: Db) {
    && (forall t :: t in s.sessions ==> Found(s, t))
    && (forall a, b :: a in s.users && b in s.users && s.users[a].id == s.users[b].id ==> a == b)
    && (forall a :: a in s.users ==> s.users[a].id < s.nextUser)
  }

  lemma NextKeepsWellFormed(h: Hashing, s: Db, c: Call)
    requires WellFormed(s)
    ensures WellFormed(Next(h, s, c))
  {
    var s' := Next(h, s, c);
    forall t | t in s'.sessions ensures Found(s', t) {
      if c.event.Login? && c.event.token == t && LoginSucceeds(h, s, c) {
        assert s'.users[c.event.username].id == s'.sessions[t].user;
      } else {
        assert Found(s, t);
        var name :| name in s.users && s.users[name].id == s.sessions[t].user;
        assert name in s'.users && s'.users[name].id == s'.sessions[t].user;
      }
    }
  }

  lemma LatestSnoc(log: seq<Entry>, e: Entry, token: string)
    ensures Latest(log + [e], token) ==
            if e.token != token then Latest(log, token) else if e.LoggedIn? then Some(e.session) else None
  {
    assert (log + [e])[..|log|] == log;
  }

  lemma LatestAfter(log: seq<Entry>, added: seq<Entry>, token: string)
    requires |added| <= 1
    ensures Latest(log + added, token) ==
            if added == [] || added[0].token != token then Latest(log, token)
            else if added[0].LoggedIn? then Some(added[0].session) else None
  {
    if added == [] {
      assert log + added == log;
    } else {
      assert log + added == log + [added[0]];
      LatestSnoc(log, added[0], token);
    }
  }

  /** One token's row after one call. */
  lemma RowAfter(h: Hashing, s: Db, c: Call, log: seq<Entry>, reaped: bool, token: string)
    requires WellFormed(s)
    requires token in s.sessions <==> Latest(log, token).Some? && !reaped
    requires token in s.sessions ==> s.sessions[token] == Latest(log, token).value
    ensures var s', logged := Next(h, s, c), Logged(h, s, c);
            var live := Latest(log + logged, token);
            var reaped' := if logged != [] && logged[0].token == token then false else reaped || Reaps(c, token, Latest(log, token));
            && (token in s'.sessions <==> live.Some? && !reaped')
            && (token in s'.sessions ==> s'.sessions[token] == live.value)
  {
    LatestAfter(log, Logged(h, s, c), token);
    if token in s.sessions { assert Found(s, token); }
  }

  /** After any calls with any faults under any clock, the rows are those of the live sessions that were not reaped. */
  lemma {:induction false} RunsAgree(h: Hashing, calls: seq<Call>)
    ensures WellFormed(Exec(h, calls)) && Agree(Exec(h, calls), Log(h, calls), t => Reaped(h, calls, t))
  {
    if calls != [] {
      var before, c := calls[..|calls| - 1], calls[|calls| - 1];
      RunsAgree(h, before);
      NextKeepsWellFormed(h, Exec(h, before), c);
      forall t ensures
          && (t in Exec(h, calls).sessions <==> Latest(Log(h, calls), t).Some? && !Reaped(h, calls, t))
          && (t in Exec(h, calls).sessions ==> Exec(h, calls).sessions[t] == Latest(Log(h, calls), t).value) {
        RowAfter(h, Exec(h, before), c, Log(h, before), Reaped(h, before, t), t);
      }
    }
  }

  /**
   After any calls under any clock, a token is valid exactly when its latest login was not followed by a
   logout, has not expired, and was not met by a working validate at a time past its expiry.
   */
  lemma ValidateExactly(h: Hashing, calls: seq<Call>, token: string, now: nat, faults: set<Site>)
    requires OpenDb !in faults && SelectPrepare !in faults && SelectRow !in faults
    ensures var live := Latest(Log(h, calls), token);
            ValidateSucceeds(Exec(h, calls), Call(Validate(token, now), faults)) <==>
              live.Some? && now <= live.value.expiresAt && !Reaped(h, calls, token)
  {
    RunsAgree(h, calls);
  }

  lemma {:induction false} ReapedIsExpired(h: Hashing, calls: seq<Call>, token: string)
    requires ClockNeverGoesBack(calls) && Reaped(h, calls, token)
    ensures Latest(Log(h, calls), token).Some? && Latest(Log(h, calls), token).value.expiresAt < Clock(calls)
  {
    var before, c := calls[..|calls| - 1], calls[|calls| - 1];
    LatestAfter(Log(h, before), Logged(h, Exec(h, before), c), token);
    if Reaped(h, before, token) { ReapedIsExpired(h, before, token); }
  }

  /** Under a clock that never goes back the lazy deletion cannot be told from the answer. */
  lemma LazyDeletionIsInvisible(h: Hashing, calls: seq<Call>, token: string, now: nat, faults: set<Site>)
    requires ClockNeverGoesBack(calls) && Clock(calls) <= now
    requires OpenDb !in faults && SelectPrepare !in faults && SelectRow !in faults
    ensures var live := Latest(Log(h, calls), token);
            ValidateSucceeds(Exec(h, calls), Call(Validate(token, now), faults)) <==>
              live.Some? && now <= live.value.expiresAt
  {
    ValidateExactly(h, calls, token, now, faults);
    if Reaped(h, calls, token) { ReapedIsExpired(h, calls, token); }
  }

  /** A successful validate names the user who logged in, with that user's role. */
  lemma ValidateNamesTheUser(h: Hashing, calls: seq<Call>, token: string, info: SessionInfo, other: SessionInfo)
    requires IsInfo(Exec(h, calls), token, info) && IsInfo(Exec(h, calls), token, other)
    ensures info == other
    ensures Latest(Log(h, calls), token) == Some(Session(info.userId, info.expiresAt))
  {
    RunsAgree(h, calls);
  }

  // ---------- who gets in ----------

  /** A user appears exactly by a register_user that works, with the hash of its password and its role. */
  lemma RegisteredExactly(h: Hashing, s: Db, c: Call, name: string)
    requires name !in s.users
    ensures name in Next(h, s, c).users <==>
              && c.event.Register? && c.event.username == name && c.event.role in {"STUDENT", "ADMIN"}
              && OpenDb !in c.faults && InsertPrepare !in c.faults && InsertRow !in c.faults
    ensures name in Next(h, s, c).users ==> Next(h, s, c).users[name] == User(s.nextUser, h.hash(c.event.password), c.event.role)
  {
  }

  /** A session appears exactly by a login that works, with a password that verifies against the stored hash. */
  lemma LoggedInExactly(h: Hashing, s: Db, c: Call, token: string)
    requires token !in s.sessions
    ensures token in Next(h, s, c).sessions <==>
              && c.event.Login? && c.event.token == token
              && OpenDb !in c.faults && SelectPrepare !in c.faults && SelectRow !in c.faults
              && InsertPrepare !in c.faults && InsertRow !in c.faults
              && c.event.username in s.users && h.verify(c.event.password, s.users[c.event.username].hash)
    ensures token in Next(h, s, c).sessions ==>
              Next(h, s, c).sessions[token] == Session(s.users[c.event.username].id, (c.event.now + c.event.ttl) % 0x1_0000_0000_0000_0000)
  {
  }

  /** Users and the sessions that stay are as they were. */
  lemma NothingIsRewritten(h: Hashing, s: Db, c: Call)
    ensures forall name :: name in s.users ==> name in Next(h, s, c).users && Next(h, s, c).users[name] == s.users[name]
    ensures forall t :: t in s.sessions && t in Next(h, s, c).sessions ==> Next(h, s, c).sessions[t] == s.sessions[t]
  {
  }

  /** A session goes exactly by a logout whose DELETE runs, or by a validate that meets it past its expiry and can delete it. */
  lemma SessionsEndExactly(h: Hashing, s: Db, c: Call, token: string)
    requires WellFormed(s) && token in s.sessions
    ensures token !in Next(h, s, c).sessions <==>
              && OpenDb !in c.faults && DeletePrepare !in c.faults && DeleteRow !in c.faults
              && (|| (c.event.Logout? && c.event.token == token)
                  || (c.event.Validate? && c.event.token == token && c.event.now > s.sessions[token].expiresAt
                      && SelectPrepare !in c.faults && SelectRow !in c.faults))
  {
    assert Found(s, token);
  }

  predicate RegisteredBy(h: Hashing, c: Call, name: string, user: User) {
    c.event.Register? && c.event.username == name && user.hash == h.hash(c.event.password) && user.role == c.event.role
  }

  /** Every user registered under that name, with that role, and the hash is that of the password given then. */
  lemma {:induction false} UsersRegistered(h: Hashing, calls: seq<Call>, name: string)
    requires name in Exec(h, calls).users
    ensures exists i :: 0 <= i < |calls| && RegisteredBy(h, calls[i], name, Exec(h, calls).users[name])
  {
    if calls != [] {
      var before, c := calls[..|calls| - 1], calls[|calls| - 1];
      NothingIsRewritten(h, Exec(h, before), c);
      if name in Exec(h, before).users {
        UsersRegistered(h, before, name);
        var i :| 0 <= i < |before| && RegisteredBy(h, before[i], name, Exec(h, before).users[name]);
        assert RegisteredBy(h, calls[i], name, Exec(h, calls).users[name]);
      } else {
        RegisteredExactly(h, Exec(h, before), c, name);
        assert RegisteredBy(h, calls[|calls| - 1], name, Exec(h, calls).users[name]);
      }
    }
  }

  /** A login for this token, as this user, with a password that verifies against the user's hash. */
  predicate EarnedBy(h: Hashing, c: Call, users: map<string, User>, token: string, session: Session) {
    && c.event.Login? && c.event.token == token
    && c.event.username in users && users[c.event.username].id == session.user
    && h.verify(c.event.password, users[c.event.username].hash)
    && session.expiresAt == (c.event.now + c.event.ttl) % 0x1_0000_0000_0000_0000
  }

  /** Every session stems from such a login. */
  lemma {:induction false} SessionsWereEarned(h: Hashing, calls: seq<Call>, token: string)
    requires token in Exec(h, calls).sessions
    ensures exists i :: 0 <= i < |calls| && EarnedBy(h, calls[i], Exec(h, calls).users, token, Exec(h, calls).sessions[token])
  {
    if calls != [] {
      var before, c := calls[..|calls| - 1], calls[|calls| - 1];
      NothingIsRewritten(h, Exec(h, before), c);
      if token in Exec(h, before).sessions {
        SessionsWereEarned(h, before, token);
        var i :| 0 <= i < |before| && EarnedBy(h, before[i], Exec(h, before).users, token, Exec(h, before).sessions[token]);
        assert EarnedBy(h, calls[i], Exec(h, calls).users, token, Exec(h, calls).sessions[token]);
      } else {
        LoggedInExactly(h, Exec(h, before), c, token);
        assert EarnedBy(h, calls[|calls| - 1], Exec(h, calls).users, token, Exec(h, calls).sessions[token]);
      }
    }
  }

  /**
   A token that validates was given out by a login whose password verified against the hash of the password
   its user registered with; the answer names that user and the role of the registration.
   */
  lemma ValidTokensAreEarned(h: Hashing, calls: seq<Call>, token: string, name: string)
    requires token in Exec(h, calls).sessions && name in Exec(h, calls).users
    requires Exec(h, calls).users[name].id == Exec(h, calls).sessions[token].user
    ensures exists i, j ::
              && 0 <= i < |calls| && 0 <= j < |calls|
              && RegisteredBy(h, calls[i], name, Exec(h, calls).users[name])
              && EarnedBy(h, calls[j], Exec(h, calls).users, token, Exec(h, calls).sessions[token])
              && calls[j].event.username == name
              && h.verify(calls[j].event.password, h.hash(calls[i].event.password))
  {
    RunsAgree(h, calls);
    UsersRegistered(h, calls, name);
    SessionsWereEarned(h, calls, token);
    var i :| 0 <= i < |calls| && RegisteredBy(h, calls[i], name, Exec(h, calls).users[name]);
    var j :| 0 <= j < |calls| && EarnedBy(h, calls[j], Exec(h, calls).users, token, Exec(h, calls).sessions[token]);
    assert calls[j].event.username == name;
  }

  // ---------- what does show ----------

  /**
   Exactly when asking in between shows: one validate, whatever it meets, changes the answer to a later one
   if and only if it reaps a session of that token that at the later one's reading has not expired.
   */
  lemma DeletionShowsExactly(h: Hashing, calls: seq<Call>, between: Call, token: string, now: nat)
    requires between.event.Validate?
    ensures var last := Call(Validate(token, now), {});
            var live := Latest(Log(h, calls), token);
            (ValidateSucceeds(Exec(h, calls), last) <==> ValidateSucceeds(Exec(h, calls + [between]), last)) <==>
              !(Reaps(between, token, live) && now <= live.value.expiresAt && !Reaped(h, calls, token))
  {
    var more := calls + [between];
    assert more[..|calls|] == calls;
    assert Logged(h, Exec(h, calls), between) == [];
    assert Log(h, more) == Log(h, calls) + [] == Log(h, calls);
    ValidateExactly(h, calls, token, now, {});
    ValidateExactly(h, more, token, now, {});
  }

  /** If the clock may go back, the deletion shows: the same validate succeeds or fails by whether someone asked in between. */
  lemma ClockGoingBackShows(h: Hashing)
    requires forall p :: h.verify(p, h.hash(p))
    ensures exists calls: seq<Call>, between: Call, last: Call ::
              && last.event.Validate? && last.faults == {} && Logged(h, Exec(h, calls), between) == []
              && ValidateSucceeds(Exec(h, calls), last)
              && !ValidateSucceeds(Exec(h, calls + [between]), last)
  {
    var reg, login := Call(Register("u", "p", "ADMIN"), {}), Call(Login("u", "p", 10, "t", 0), {});
    var calls := [reg, login];
    var between, last := Call(Validate("t", 11), {}), Call(Validate("t", 5), {});
    var first := [reg];
    assert first[..0] == [] && calls[..1] == first;
    var s1 := Next(h, Empty(), reg);
    var s2 := Next(h, s1, login);
    assert Exec(h, []) == Empty();
    assert Exec(h, first) == s1;
    assert Exec(h, calls[..1]) == s1;
    assert Exec(h, calls) == s2;
    assert s2.users["u"].id == s2.sessions["t"].user;
    assert (calls + [between])[..2] == calls;
    assert Exec(h, calls + [between]) == Next(h, s2, between);
    assert Logged(h, Exec(h, calls), between) == [];
  }

  /** logout reports success exactly when it got as far as the DELETE; the row survives a failing DELETE. */
  lemma LogoutMayLeaveTheSession(h: Hashing, s: Db, token: string, faults: set<Site>)
    requires token in s.sessions && OpenDb !in faults && DeletePrepare !in faults
    ensures token in Next(h, s, Call(Logout(token), faults)).sessions <==> DeleteRow in faults
  {
  }

  /** With right credentials and no faults, login fails exactly when the token's latest login was neither logged out nor reaped. */
  lemma LoginNeedsAFreeToken(h: Hashing, calls: seq<Call>, e: Event)
    requires e.Login? && e.username in Exec(h, calls).users
    requires h.verify(e.password, Exec(h, calls).users[e.username].hash)
    ensures LoginSucceeds(h, Exec(h, calls), Call(e, {})) <==>
              Latest(Log(h, calls), e.token).None? || Reaped(h, calls, e.token)
  {
    RunsAgree(h, calls);
  }
}
