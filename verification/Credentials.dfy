/**
 `Login` and `ChangePassword` for one account, interleaved statement by statement.
 A login shares the account row's lock from reading the hash until its session is
 committed; a change owns it from reading the hash until every session is revoked.
 */
module Credentials {
  import opened Common
  import Limiter = LoginLimiter

  /** `password` is the one a password login presented; other login methods leave it empty. */
  datatype Session = Session(password: Option<string>, revoked: bool)

  datatype Progress =
    | LoginBegun
    | LoginLocked(seen: Option<string>)
    | LoginVerified(password: string)
    | LoginInserted(password: string, session: string)
    | ChangeBegun(session: string)
    | ChangeLocked(session: string, seen: Option<string>)
    | ChangeChecked(session: string, seen: Option<string>)
    | ChangeVerified(session: string)
    | ChangeUpdated(session: string, newHash: string)
    | ChangeRevoked(session: string, newHash: string, revoke: set<string>)

  /** Committed rows, lock owners, and the sessions whose password change committed, in order. */
  datatype State = State(
    hash: Option<string>, sessions: map<string, Session>, usedIds: set<string>,
    sharers: set<nat>, owner: Option<nat>, txs: map<nat, Progress>, changes: seq<string>)

  datatype Action =
    | BeginLogin(tx: nat)
    | BeginChange(tx: nat, session: string)
    | LockAccount(tx: nat)
    | CheckSession(tx: nat)
    | Verify(tx: nat, password: string)
    | InsertSession(tx: nat, session: string)
    | UpdateHash(tx: nat, newHash: string)
    | RevokeAll(tx: nat)
    | Commit(tx: nat)
    | Rollback(tx: nat)
    | OtherLogin(session: string)
    | Logout(session: string)
    | DropSession(session: string)

  function Live(s: State): set<string> { set id | id in s.sessions && !s.sessions[id].revoked }

  function AllRevoked(sessions: map<string, Session>, which: set<string>): map<string, Session> {
    map id | id in sessions :: if id in which then sessions[id].(revoked := true) else sessions[id]
  }

  /** Some change transaction has locked this session row. */
  predicate Pinned(s: State, session: string) {
    exists tx :: tx in s.txs
      && (match s.txs[tx]
          case ChangeChecked(id, _) => id == session
          case ChangeVerified(id) => id == session
          case ChangeUpdated(id, _) => id == session
          case ChangeRevoked(id, _, _) => id == session
          case _ => false)
  }

  function Ended(s: State, tx: nat): State {
    s.(txs := s.txs - {tx}, sharers := s.sharers - {tx}, owner := if s.owner == Some(tx) then None else s.owner)
  }

  function Moved(s: State, tx: nat, p: Progress): State { s.(txs := s.txs[tx := p]) }

  function Step(s: State, a: Action, verify: (string, string) -> bool): Option<State> {
    match a
    case BeginLogin(tx) => if tx !in s.txs then Some(Moved(s, tx, LoginBegun)) else None
    case BeginChange(tx, session) => if tx !in s.txs then Some(Moved(s, tx, ChangeBegun(session))) else None
    case LockAccount(tx) =>
      if tx !in s.txs then None
      else (match s.txs[tx]
            case LoginBegun =>
              if s.owner.None? then Some(Moved(s, tx, LoginLocked(s.hash)).(sharers := s.sharers + {tx})) else None
            case ChangeBegun(session) =>
              if s.owner.None? && s.sharers == {}
              then Some(Moved(s, tx, ChangeLocked(session, s.hash)).(owner := Some(tx))) else None
            case _ => None)
    case CheckSession(tx) =>
      if tx in s.txs && s.txs[tx].ChangeLocked? && s.txs[tx].session in Live(s)
      then Some(Moved(s, tx, ChangeChecked(s.txs[tx].session, s.txs[tx].seen))) else None
    case Verify(tx, password) =>
      if tx !in s.txs then None
      else (match s.txs[tx]
            case LoginLocked(seen) =>
              if seen.Some? && verify(password, seen.value) then Some(Moved(s, tx, LoginVerified(password))) else None
            case ChangeChecked(session, seen) =>
              if seen.Some? && verify(password, seen.value) then Some(Moved(s, tx, ChangeVerified(session))) else None
            case _ => None)
    case InsertSession(tx, session) =>
      if tx in s.txs && s.txs[tx].LoginVerified? && session !in s.usedIds
      then Some(Moved(s, tx, LoginInserted(s.txs[tx].password, session)).(usedIds := s.usedIds + {session})) else None
    case UpdateHash(tx, newHash) =>
      if tx in s.txs && s.txs[tx].ChangeVerified?
      then Some(Moved(s, tx, ChangeUpdated(s.txs[tx].session, newHash))) else None
    case RevokeAll(tx) =>
      if tx in s.txs && s.txs[tx].ChangeUpdated?
      then Some(Moved(s, tx, ChangeRevoked(s.txs[tx].session, s.txs[tx].newHash, Live(s)))) else None
    case Commit(tx) =>
      if tx !in s.txs then None
      else (match s.txs[tx]
            case LoginInserted(password, session) =>
              Some(Ended(s.(sessions := s.sessions[session := Session(Some(password), false)]), tx))
            case ChangeRevoked(session, newHash, revoke) =>
              Some(Ended(s.(hash := Some(newHash), sessions := AllRevoked(s.sessions, revoke),
                            changes := s.changes + [session]), tx))
            case _ => None)
    case Rollback(tx) => if tx in s.txs then Some(Ended(s, tx)) else None
    case OtherLogin(session) =>
      if session !in s.usedIds
      then Some(s.(sessions := s.sessions[session := Session(None, false)], usedIds := s.usedIds + {session})) else None
    case Logout(session) =>
      if session in s.sessions && !Pinned(s, session)
      then Some(s.(sessions := AllRevoked(s.sessions, {session}))) else None
    case DropSession(session) =>
      if session in s.sessions && !Pinned(s, session) then Some(s.(sessions := s.sessions - {session})) else None
  }

  /** Giving up releases the locks and leaves every committed row. */
  lemma RollbackMeans(s: State, tx: nat, verify: (string, string) -> bool)
    ensures Step(s, Rollback(tx), verify) ==
            if tx !in s.txs then None
            else Some(s.(txs := s.txs - {tx}, sharers := s.sharers - {tx},
                         owner := if s.owner == Some(tx) then None else s.owner))
  {
  }

  /** Sessions made by other logins, and the end of a session no password change has locked. */
  lemma SessionStepsMean(s: State, session: string, verify: (string, string) -> bool)
    ensures session !in s.usedIds ==>
              Step(s, OtherLogin(session), verify) ==
              Some(s.(sessions := s.sessions[session := Session(None, false)], usedIds := s.usedIds + {session}))
    ensures session in s.sessions
            && (forall tx :: tx in s.txs ==>
                  || s.txs[tx].LoginBegun? || s.txs[tx].LoginLocked? || s.txs[tx].LoginVerified?
                  || s.txs[tx].LoginInserted? || s.txs[tx].ChangeBegun? || s.txs[tx].ChangeLocked?
                  || s.txs[tx].session != session) ==>
              && Step(s, DropSession(session), verify) == Some(s.(sessions := s.sessions - {session}))
              && Step(s, Logout(session), verify) ==
                 Some(s.(sessions := s.sessions[session := Session(s.sessions[session].password, true)]))
    ensures session in s.usedIds ==> Step(s, OtherLogin(session), verify) == None
    ensures session !in s.sessions ==>
              Step(s, DropSession(session), verify) == None && Step(s, Logout(session), verify) == None
  {
    if session in s.sessions {
      assert AllRevoked(s.sessions, {session})
          == s.sessions[session := Session(s.sessions[session].password, true)];
    }
  }

  function Run(s: State, acts: seq<Action>, verify: (string, string) -> bool): Option<State>
    decreases |acts|
  {
    if acts == [] then Some(s)
    else
      var n := Step(s, acts[0], verify);
      if n.None? then None else Run(n.value, acts[1..], verify)
  }

  function Start(hash: Option<string>): State { State(hash, map[], {}, {}, None, map[], []) }

  // ---------------------------------------------------------------- invariant

  ghost predicate LoginOk(s: State, tx: nat, verify: (string, string) -> bool)
    requires tx in s.txs
  {
    match s.txs[tx]
    case LoginLocked(seen) => tx in s.sharers && seen == s.hash
    case LoginVerified(password) => tx in s.sharers && s.hash.Some? && verify(password, s.hash.value)
    case LoginInserted(password, session) =>
      && tx in s.sharers && s.hash.Some? && verify(password, s.hash.value)
      && session in s.usedIds && session !in s.sessions && session !in s.changes
    case _ => tx !in s.sharers
  }

  ghost predicate PasswordSessionsRevoked(s: State, revoke: set<string>) {
    forall id :: id in s.sessions && !s.sessions[id].revoked && s.sessions[id].password.Some? ==> id in revoke
  }

  ghost predicate ChangeOk(s: State, tx: nat)
    requires tx in s.txs
  {
    match s.txs[tx]
    case ChangeLocked(_, seen) => s.owner == Some(tx)
    case ChangeChecked(session, _) => s.owner == Some(tx) && session in Live(s)
    case ChangeVerified(session) => s.owner == Some(tx) && session in Live(s)
    case ChangeUpdated(session, _) => s.owner == Some(tx) && session in Live(s)
    case ChangeRevoked(session, _, revoke) =>
      && s.owner == Some(tx) && session in Live(s) && session in revoke && PasswordSessionsRevoked(s, revoke)
    case _ => s.owner != Some(tx)
  }

  ghost predicate Consistent(s: State, verify: (string, string) -> bool) {
    && (s.owner.Some? ==> s.sharers == {} && s.owner.value in s.txs)
    && (forall tx :: tx in s.sharers ==> tx in s.txs)
    && (forall tx :: tx in s.txs ==> LoginOk(s, tx, verify) && ChangeOk(s, tx))
    && (forall a, b :: a in s.txs && b in s.txs && a != b && s.txs[a].LoginInserted? && s.txs[b].LoginInserted?
          ==> s.txs[a].session != s.txs[b].session)
    && (forall id :: id in s.sessions ==> id in s.usedIds)
    && (forall id :: id in s.changes ==> id in s.usedIds && id !in Live(s))
    && (forall i, j :: 0 <= i < j < |s.changes| ==> s.changes[i] != s.changes[j])
    && SessionsMatchHash(s, verify)
  }

  /** Each live session made by a password login presented a password that verifies against the stored hash. */
  ghost predicate SessionsMatchHash(s: State, verify: (string, string) -> bool) {
    forall id :: id in s.sessions && !s.sessions[id].revoked && s.sessions[id].password.Some? ==>
      s.hash.Some? && verify(s.sessions[id].password.value, s.hash.value)
  }

  lemma BeginKeeps(s: State, a: Action, verify: (string, string) -> bool)
    requires Consistent(s, verify) && Step(s, a, verify).Some? && (a.BeginLogin? || a.BeginChange?)
    ensures Consistent(Step(s, a, verify).value, verify)
  {
  }

  lemma LockKeeps(s: State, a: Action, verify: (string, string) -> bool)
    requires Consistent(s, verify) && Step(s, a, verify).Some? && a.LockAccount?
    ensures Consistent(Step(s, a, verify).value, verify)
  {
  }

  lemma CheckKeeps(s: State, a: Action, verify: (string, string) -> bool)
    requires Consistent(s, verify) && Step(s, a, verify).Some? && (a.CheckSession? || a.Verify?)
    ensures Consistent(Step(s, a, verify).value, verify)
  {
  }

  lemma InsertKeeps(s: State, a: Action, verify: (string, string) -> bool)
    requires Consistent(s, verify) && Step(s, a, verify).Some? && a.InsertSession?
    ensures Consistent(Step(s, a, verify).value, verify)
  {
  }

  lemma UpdateKeeps(s: State, a: Action, verify: (string, string) -> bool)
    requires Consistent(s, verify) && Step(s, a, verify).Some? && (a.UpdateHash? || a.RevokeAll?)
    ensures Consistent(Step(s, a, verify).value, verify)
  {
  }

  lemma LoginCommitKeeps(s: State, a: Action, verify: (string, string) -> bool)
    requires Consistent(s, verify) && Step(s, a, verify).Some? && a.Commit? && s.txs[a.tx].LoginInserted?
    ensures Consistent(Step(s, a, verify).value, verify)
  {
  }

  lemma ChangeCommitKeeps(s: State, a: Action, verify: (string, string) -> bool)
    requires Consistent(s, verify) && Step(s, a, verify).Some? && a.Commit? && s.txs[a.tx].ChangeRevoked?
    ensures Consistent(Step(s, a, verify).value, verify)
  {
  }

  lemma RollbackKeeps(s: State, a: Action, verify: (string, string) -> bool)
    requires Consistent(s, verify) && Step(s, a, verify).Some? && a.Rollback?
    ensures Consistent(Step(s, a, verify).value, verify)
  {
  }

  lemma OtherLoginKeeps(s: State, a: Action, verify: (string, string) -> bool)
    requires Consistent(s, verify) && Step(s, a, verify).Some? && a.OtherLogin?
    ensures Consistent(Step(s, a, verify).value, verify)
  {
  }

  lemma EndingKeeps(s: State, a: Action, verify: (string, string) -> bool)
    requires Consistent(s, verify) && Step(s, a, verify).Some? && (a.Logout? || a.DropSession?)
    ensures Consistent(Step(s, a, verify).value, verify)
  {
  }

  lemma StepKeepsConsistent(s: State, a: Action, verify: (string, string) -> bool)
    requires Consistent(s, verify) && Step(s, a, verify).Some?
    ensures Consistent(Step(s, a, verify).value, verify)
  {
    match a {
      case BeginLogin(_) => BeginKeeps(s, a, verify);
      case BeginChange(_, _) => BeginKeeps(s, a, verify);
      case LockAccount(_) => LockKeeps(s, a, verify);
      case CheckSession(_) => CheckKeeps(s, a, verify);
      case Verify(_, _) => CheckKeeps(s, a, verify);
      case InsertSession(_, _) => InsertKeeps(s, a, verify);
      case UpdateHash(_, _) => UpdateKeeps(s, a, verify);
      case RevokeAll(_) => UpdateKeeps(s, a, verify);
      case Commit(tx) =>
        if s.txs[tx].LoginInserted? { LoginCommitKeeps(s, a, verify); } else { ChangeCommitKeeps(s, a, verify); }
      case Rollback(_) => RollbackKeeps(s, a, verify);
      case OtherLogin(_) => OtherLoginKeeps(s, a, verify);
      case _ => EndingKeeps(s, a, verify);
    }
  }

  lemma {:induction false} RunKeepsConsistent(s: State, acts: seq<Action>, verify: (string, string) -> bool)
    requires Consistent(s, verify) && Run(s, acts, verify).Some?
    ensures Consistent(Run(s, acts, verify).value, verify)
    decreases |acts|
  {
    if acts != [] {
      StepKeepsConsistent(s, acts[0], verify);
      RunKeepsConsistent(Step(s, acts[0], verify).value, acts[1..], verify);
    }
  }

  /** However logins and changes interleave, every live password session verifies against the hash stored now. */
  lemma LivePasswordSessionsMatchStoredHash(hash: Option<string>, acts: seq<Action>, verify: (string, string) -> bool)
    requires Run(Start(hash), acts, verify).Some?
    ensures var s := Run(Start(hash), acts, verify).value;
            forall id :: id in s.sessions && !s.sessions[id].revoked && s.sessions[id].password.Some? ==>
              s.hash.Some? && verify(s.sessions[id].password.value, s.hash.value)
  {
    RunKeepsConsistent(Start(hash), acts, verify);
  }

  /** Of any number of changes started from one session, at most one commits. */
  lemma OneChangePerSession(hash: Option<string>, acts: seq<Action>, verify: (string, string) -> bool, i: nat, j: nat)
    requires Run(Start(hash), acts, verify).Some?
    requires i < |Run(Start(hash), acts, verify).value.changes| && j < |Run(Start(hash), acts, verify).value.changes|
    requires Run(Start(hash), acts, verify).value.changes[i] == Run(Start(hash), acts, verify).value.changes[j]
    ensures i == j
  {
    RunKeepsConsistent(Start(hash), acts, verify);
  }

  // ---------------------------------------------------------------- the two services, undisturbed

  datatype Account = Account(hash: Option<string>, active: bool)

  datatype Held = Held(username: string, revoked: bool)

  datatype Reply =
    | RateLimited | MethodUnavailable | InvalidCredentials | UserDisabled | InvalidInput | InvalidSession
    | PasswordUnavailable | Done

  /** Clock readings of one call, in the order the statements take them. */
  datatype Clock = Clock(openedAt: int, touchedAt: int, databaseTime: int, recordedAt: int)

  /** Whether the call obtained its two concurrency slots. */
  datatype Slots = Slots(login: bool, verification: bool)

  function Row<V>(rows: map<string, V>, key: string): Option<V> { if key in rows then Some(rows[key]) else None }

  function Utf8Length(s: string): nat {
    if s == [] then 0
    else (var c := s[0] as int; if c < 0x80 then 1 else if c < 0x800 then 2 else if c < 0x10000 then 3 else 4)
         + Utf8Length(s[1..])
  }

  /** The number of bytes of a text is that of its characters together, one to four each. */
  lemma {:induction false} Utf8LengthMeans(s: string, c: char, t: string)
    ensures Utf8Length("") == 0 && Utf8Length(s + [c] + t) == Utf8Length(s) + Utf8Length([c]) + Utf8Length(t)
    ensures Utf8Length([c]) == 1 <==> c as int <= 127
    ensures Utf8Length([c]) == 2 <==> 128 <= c as int <= 2047
    ensures Utf8Length([c]) == 3 <==> 2048 <= c as int <= 65535
    ensures 1 <= Utf8Length([c]) <= 4
  {
    if s == [] {
      assert s + [c] + t == [c] + t;
    } else {
      assert s + [c] + t == [s[0]] + (s[1..] + [c] + t);
      Utf8LengthMeans(s[1..], c, t);
    }
  }

  predicate UsableHash(a: Account, supported: string -> bool) { a.hash.Some? && supported(a.hash.value) }

  predicate Acceptable(current: string, next: string) {
    0 < |current| && Utf8Length(current) <= 4096 && 8 <= |next| <= 128 && current != next
  }

  /** A current password of 1 to 4096 bytes, and a different new one of 8 to 128 characters. */
  lemma AcceptableMeans(current: string, next: string)
    ensures Acceptable(current, next) <==>
            current != "" && Utf8Length(current) < 4097 && 7 < |next| < 129 && next != current
  {
  }

  /** Everything the two services store. */
  datatype Rows = Rows(
    attempts: map<string, Limiter.Attempt>, accounts: map<string, Account>, sessions: map<string, Held>)

  /**
   A call's effect on the attempt rows: the row is gone when it is done; otherwise nothing, or one more
   failure on a row that is not blocked.
   */
  predicate AttemptsAfter(before: Rows, after: Rows, username: string, clock: Clock, done: bool) {
    var row := Limiter.Ensured(Row(before.attempts, username), clock.openedAt, clock.touchedAt);
    if done then !Limiter.Blocked(row, clock.databaseTime) && after.attempts == before.attempts - {username}
    else
      || after.attempts == before.attempts
      || (&& !Limiter.Blocked(row, clock.databaseTime)
          && after.attempts == before.attempts[username := Limiter.FailureRecorded(row, clock.recordedAt)])
  }

  /** The account's stored hash and a password that verifies against it. */
  predicate Verified(rows: Rows, username: string, password: string, verify: (string, string) -> bool) {
    username in rows.accounts && rows.accounts[username].hash.Some?
    && verify(password, rows.accounts[username].hash.value)
  }

  /** What a login leaves behind. */
  predicate LoginEffect(before: Rows, after: Rows, done: bool, username: string, password: string, sessionId: string,
                        clock: Clock, verify: (string, string) -> bool)
  {
    && after.accounts == before.accounts && AttemptsAfter(before, after, username, clock, done)
    && (done ==> Verified(before, username, password, verify))
    && after.sessions == if done then before.sessions[sessionId := Held(username, false)] else before.sessions
  }

  function SessionsRevoked(sessions: map<string, Held>, username: string): map<string, Held> {
    map id | id in sessions ::
      if sessions[id].username == username then sessions[id].(revoked := true) else sessions[id]
  }

  /** What a password change leaves behind. */
  predicate ChangeEffect(before: Rows, after: Rows, done: bool, sessionId: string, current: string, newHash: string,
                         clock: Clock, verify: (string, string) -> bool)
  {
    if sessionId !in before.sessions then !done && after == before
    else
      var username := before.sessions[sessionId].username;
      && AttemptsAfter(before, after, username, clock, done)
      && if done
         then
           && !before.sessions[sessionId].revoked && Verified(before, username, current, verify)
           && after.accounts == before.accounts[username := before.accounts[username].(hash := Some(newHash))]
           && after.sessions == SessionsRevoked(before.sessions, username)
         else after.accounts == before.accounts && after.sessions == before.sessions
  }

  class AuthService {
    var attempts: map<string, Limiter.Attempt>
    var accounts: map<string, Account>
    var sessions: map<string, Held>

    ghost function Stored(): Rows
      reads this
    {
      Rows(attempts, accounts, sessions)
    }

    /** Locks the attempt row, inserting it first when it is missing; nobody else writes rows during this call. */
    method LockOrCreateLoginAttempt(username: string, clock: Clock) returns (attempt: Limiter.Attempt)
      modifies this`attempts
      ensures attempt == Limiter.Ensured(Row(old(attempts), username), clock.openedAt, clock.touchedAt)
      ensures attempts == old(attempts)[username := attempt]
    {
      var found := Limiter.Round(Row(attempts, username), false);
      var n;
      attempt, n := Limiter.LockOrCreateLoginAttempt([found], clock.openedAt, clock.touchedAt);
      attempts := attempts[username := attempt];
    }

    /** Records a failure on the locked row and says what the caller is told. */
    method RecordFailure(username: string, now: int) returns (r: Reply)
      requires username in attempts
      modifies this`attempts
      ensures attempts == old(attempts)[username := Limiter.FailureRecorded(old(attempts)[username], now)]
      ensures r == if attempts[username].failed >= Limiter.THRESHOLD && attempts[username].blockedUntil.Some?
                   then RateLimited else InvalidCredentials
    {
      attempts := attempts[username := Limiter.FailureRecorded(attempts[username], now)];
      if attempts[username].failed >= Limiter.THRESHOLD && attempts[username].blockedUntil.Some? {
        return RateLimited;
      }
      return InvalidCredentials;
    }

    /** The attempt row a call locks. */
    function Locked(username: string, clock: Clock): Limiter.Attempt
      reads this
    {
      Limiter.Ensured(Row(attempts, username), clock.openedAt, clock.touchedAt)
    }

    /** Whether a login gets as far as comparing its password. */
    predicate Compares(username: string, localLogin: bool, slots: Slots, clock: Clock)
      reads this
    {
      slots.login && localLogin && slots.verification && !Limiter.Blocked(Locked(username, clock), clock.databaseTime)
    }

    /** Whether the account has a stored, supported hash that the password verifies against. */
    predicate Matches(username: string, password: string, supported: string -> bool, verify: (string, string) -> bool)
      reads this
    {
      && username in accounts && UsableHash(accounts[username], supported)
      && verify(password, accounts[username].hash.value)
    }

    /**
     A session appears only for an active account whose stored, supported hash verifies; a wrong
     password, an unknown name and an unusable hash all count one failure; anything refused
     earlier or by status leaves every row as it was.
     */
    method Login(username: string, password: string, sessionId: string, localLogin: bool, slots: Slots, clock: Clock,
                 supported: string -> bool, verify: (string, string) -> bool) returns (r: Reply)
      requires sessionId !in sessions
      modifies this
      ensures accounts == old(accounts)
      ensures r.Done? <==>
              && old(Compares(username, localLogin, slots, clock))
              && old(Matches(username, password, supported, verify)) && accounts[username].active
      ensures r.UserDisabled? <==>
              && old(Compares(username, localLogin, slots, clock))
              && old(Matches(username, password, supported, verify)) && !accounts[username].active
      ensures old(Compares(username, localLogin, slots, clock))
              && !old(Matches(username, password, supported, verify)) ==>
                var counted := Limiter.FailureRecorded(old(Locked(username, clock)), clock.recordedAt);
                && attempts == old(attempts)[username := counted]
                && r == if counted.failed >= Limiter.THRESHOLD && counted.blockedUntil.Some?
                        then RateLimited else InvalidCredentials
      ensures r.InvalidCredentials? ==> old(Compares(username, localLogin, slots, clock))
      ensures r.Done? ==>
                && slots.login && slots.verification && localLogin && username in accounts
                && var account := accounts[username];
                   account.active && account.hash.Some? && supported(account.hash.value)
                   && verify(password, account.hash.value)
      ensures r.Done? && username in old(attempts) && old(attempts)[username].blockedUntil.Some? ==>
                old(attempts)[username].blockedUntil.value <= clock.databaseTime
      ensures (slots.login && slots.verification && localLogin && username in accounts
               && accounts[username].active && accounts[username].hash.Some?
               && supported(accounts[username].hash.value) && verify(password, accounts[username].hash.value)
               && (username in old(attempts) ==>
                     old(attempts)[username].blockedUntil.None?
                     || old(attempts)[username].blockedUntil.value <= clock.databaseTime)) ==>
                r.Done?
      ensures r.Done? ==>
                sessions == old(sessions)[sessionId := Held(username, false)] && attempts == old(attempts) - {username}
      ensures !r.Done? ==> sessions == old(sessions)
      ensures r.MethodUnavailable? <==> slots.login && !localLogin
      ensures r.MethodUnavailable? || r.UserDisabled? ==> attempts == old(attempts)
      ensures var row := Limiter.Ensured(Row(old(attempts), username), clock.openedAt, clock.touchedAt);
              var counted := Limiter.FailureRecorded(row, clock.recordedAt);
              && (r.InvalidCredentials? ==> attempts == old(attempts)[username := counted])
              && (r.InvalidCredentials? ==> counted.failed < Limiter.THRESHOLD || counted.blockedUntil.None?)
              && (r.RateLimited? ==>
                    || (attempts == old(attempts)[username := counted] && counted.failed >= Limiter.THRESHOLD)
                    || (attempts == old(attempts)
                        && (!slots.login || !slots.verification || Limiter.Blocked(row, clock.databaseTime))))
      ensures r in {RateLimited, MethodUnavailable, InvalidCredentials, UserDisabled, Done}
      ensures LoginEffect(old(Stored()), Stored(), r.Done?, username, password, sessionId, clock, verify)
    {
      if !slots.login { return RateLimited; }
      if !localLogin { return MethodUnavailable; }
      var committed := attempts;
      var attempt := LockOrCreateLoginAttempt(username, clock);
      if Limiter.Blocked(attempt, clock.databaseTime) || !slots.verification {
        attempts := committed;
        return RateLimited;
      }
      var matches := username in accounts && UsableHash(accounts[username], supported)
                     && verify(password, accounts[username].hash.value);
      if !matches {
        r := RecordFailure(username, clock.recordedAt);
        return;
      }
      if !accounts[username].active {
        attempts := committed;
        return UserDisabled;
      }
      attempts := attempts - {username};
      sessions := sessions[sessionId := Held(username, false)];
      return Done;
    }

    /** A session that is not revoked, of an account that is active. */
    predicate LiveSession(sessionId: string)
      reads this
    {
      && sessionId != "" && sessionId in sessions && !sessions[sessionId].revoked
      && sessions[sessionId].username in accounts && accounts[sessions[sessionId].username].active
    }

    /**
     The account's hash changes exactly after its current password verified, in a live session of that
     account that is not blocked; then the account has no live session and no attempt row. A compared
     wrong password counts one failure, and every other refusal changes nothing.
     */
    method ChangePassword(sessionId: string, current: string, next: string, newHash: string, slots: Slots, clock: Clock,
                          supported: string -> bool, verify: (string, string) -> bool) returns (r: Reply)
      modifies this
      ensures r.InvalidInput? <==> !Acceptable(current, next)
      ensures r.InvalidSession? <==>
                Acceptable(current, next) && (sessionId == "" || (slots.login && !old(LiveSession(sessionId))))
      ensures r.Done? <==>
                && Acceptable(current, next) && slots.login && slots.verification && old(LiveSession(sessionId))
                && var username := old(sessions)[sessionId].username;
                   && !Limiter.Blocked(old(Locked(username, clock)), clock.databaseTime)
                   && UsableHash(old(accounts)[username], supported)
                   && verify(current, old(accounts)[username].hash.value)
      ensures r.Done? ==>
                var username := old(sessions)[sessionId].username;
                && accounts == old(accounts)[username := old(accounts)[username].(hash := Some(newHash))]
                && sessions.Keys == old(sessions).Keys
                && (forall id :: id in sessions ==>
                      var was := old(sessions)[id];
                      sessions[id] == was.(revoked := was.revoked || was.username == username))
                && attempts == old(attempts) - {username}
      ensures r.Done? ==>
                && old(sessions)[sessionId].username in old(accounts) && !old(sessions)[sessionId].revoked
                && var account := old(accounts)[old(sessions)[sessionId].username];
                   account.active && account.hash.Some? && supported(account.hash.value)
                   && verify(current, account.hash.value)
      ensures (Acceptable(current, next) && slots.login && slots.verification
               && sessionId != "" && sessionId in old(sessions) && !old(sessions)[sessionId].revoked
               && var username := old(sessions)[sessionId].username;
                  && (username in old(attempts) ==>
                        old(attempts)[username].blockedUntil.None?
                        || old(attempts)[username].blockedUntil.value <= clock.databaseTime)
                  && username in old(accounts)
                  && var account := old(accounts)[username];
                     account.active && account.hash.Some? && supported(account.hash.value)
                     && verify(current, account.hash.value)) ==>
                r.Done?
      ensures !r.Done? ==> accounts == old(accounts) && sessions == old(sessions)
      ensures !r.Done? && attempts != old(attempts) ==>
                && (r.InvalidCredentials? || r.RateLimited?) && old(LiveSession(sessionId))
                && var username := old(sessions)[sessionId].username;
                   var counted := Limiter.FailureRecorded(old(Locked(username, clock)), clock.recordedAt);
                   && accounts[username].hash.Some? && !verify(current, accounts[username].hash.value)
                   && attempts == old(attempts)[username := counted]
                   && (r.RateLimited? <==> counted.failed >= Limiter.THRESHOLD && counted.blockedUntil.Some?)
      ensures r.RateLimited? && attempts == old(attempts) ==>
                || !slots.login || !slots.verification
                || (old(LiveSession(sessionId))
                    && Limiter.Blocked(old(Locked(sessions[sessionId].username, clock)), clock.databaseTime))
      ensures r.InvalidCredentials? ==>
                && sessionId in sessions
                && var username := sessions[sessionId].username;
                   && username in accounts && accounts[username].hash.Some?
                   && !verify(current, accounts[username].hash.value)
                   && var counted := Limiter.FailureRecorded(old(Locked(username, clock)), clock.recordedAt);
                      attempts == old(attempts)[username := counted]
      ensures r.PasswordUnavailable? ==>
                && old(LiveSession(sessionId))
                && var hash := old(accounts)[old(sessions)[sessionId].username].hash;
                   hash.None? || !supported(hash.value)
      ensures r in {InvalidInput, InvalidSession, RateLimited, PasswordUnavailable, InvalidCredentials, Done}
      ensures ChangeEffect(old(Stored()), Stored(), r.Done?, sessionId, current, newHash, clock, verify)
    {
      if current == "" || Utf8Length(current) > 4096 || |next| < 8 || |next| > 128 || current == next {
        return InvalidInput;
      }
      if sessionId == "" { return InvalidSession; }
      if !slots.login { return RateLimited; }
      if sessionId !in sessions || sessions[sessionId].revoked
         || sessions[sessionId].username !in accounts || !accounts[sessions[sessionId].username].active {
        return InvalidSession;
      }
      var username := sessions[sessionId].username;
      var committed := attempts;
      var attempt := LockOrCreateLoginAttempt(username, clock);
      if Limiter.Blocked(attempt, clock.databaseTime) {
        attempts := committed;
        return RateLimited;
      }
      if !UsableHash(accounts[username], supported) {
        attempts := committed;
        return PasswordUnavailable;
      }
      if !slots.verification {
        attempts := committed;
        return RateLimited;
      }
      if !verify(current, accounts[username].hash.value) {
        r := RecordFailure(username, clock.recordedAt);
        return;
      }
      accounts := accounts[username := accounts[username].(hash := Some(newHash))];
      sessions := SessionsRevoked(sessions, username);
      attempts := attempts - {username};
      return Done;
    }
  }
}
