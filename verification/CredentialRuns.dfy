/**
 The two services of `Credentials` as runs of the two protocols: what a call leaves in the rows is what
 one transaction of the account's protocol and one of its limiter lead to.
 */
module CredentialRuns {
  import opened Common
  import opened Credentials
  import Limiter = LoginLimiter

  // ---------------------------------------------------------------- the account's protocol

  predicate Idle(s: State) { s.txs == map[] && s.sharers == {} && s.owner.None? }

  /** The protocol's state of account `user` is what the rows hold. */
  ghost predicate Shows(s: State, rows: Rows, user: string) {
    && s.hash == (if user in rows.accounts then rows.accounts[user].hash else None)
    && (forall id :: id in s.sessions <==> id in rows.sessions && rows.sessions[id].username == user)
    && (forall id :: id in s.sessions ==> s.sessions[id].revoked == rows.sessions[id].revoked)
  }

  function LoginSteps(password: string, sessionId: string): seq<Action> {
    [BeginLogin(0), LockAccount(0), Verify(0, password), InsertSession(0, sessionId), Commit(0)]
  }

  function ChangeSteps(sessionId: string, current: string, newHash: string): seq<Action> {
    [BeginChange(0, sessionId), LockAccount(0), CheckSession(0), Verify(0, current), UpdateHash(0, newHash),
     RevokeAll(0), Commit(0)]
  }

  lemma RunFirst(s: State, acts: seq<Action>, verify: (string, string) -> bool)
    ensures acts != [] && Step(s, acts[0], verify).Some? ==>
              Run(s, acts, verify) == Run(Step(s, acts[0], verify).value, acts[1..], verify)
  {
  }

  lemma LoginRuns(s: State, password: string, sessionId: string, verify: (string, string) -> bool)
    requires Idle(s) && s.hash.Some? && verify(password, s.hash.value) && sessionId !in s.usedIds
    ensures Run(s, LoginSteps(password, sessionId), verify)
            == Some(s.(sessions := s.sessions[sessionId := Session(Some(password), false)],
                       usedIds := s.usedIds + {sessionId}))
  {
    var acts := LoginSteps(password, sessionId);
    var s1 := Step(s, acts[0], verify).value;
    var s2 := Step(s1, acts[1], verify).value;
    var s3 := Step(s2, acts[2], verify).value;
    var s4 := Step(s3, acts[3], verify).value;
    var s5 := Step(s4, acts[4], verify).value;
    assert acts[1..] == [LockAccount(0), Verify(0, password), InsertSession(0, sessionId), Commit(0)];
    assert acts[2..] == acts[1..][1..] == [Verify(0, password), InsertSession(0, sessionId), Commit(0)];
    assert acts[3..] == acts[2..][1..] == [InsertSession(0, sessionId), Commit(0)];
    assert acts[4..] == acts[3..][1..] == [Commit(0)];
    RunFirst(s, acts, verify);
    RunFirst(s1, acts[1..], verify);
    RunFirst(s2, acts[2..], verify);
    RunFirst(s3, acts[3..], verify);
    RunFirst(s4, acts[4..], verify);
    assert Run(s5, acts[4..][1..], verify) == Some(s5);
  }

  /** A change up to the verified password. */
  lemma ChangeVerifies(s: State, sessionId: string, current: string, rest: seq<Action>,
                       verify: (string, string) -> bool)
    requires Idle(s) && s.hash.Some? && verify(current, s.hash.value) && sessionId in Live(s)
    ensures Run(s, [BeginChange(0, sessionId), LockAccount(0), CheckSession(0), Verify(0, current)] + rest, verify)
            == Run(s.(owner := Some(0), txs := map[0 := ChangeVerified(sessionId)]), rest, verify)
  {
    var acts := [BeginChange(0, sessionId), LockAccount(0), CheckSession(0), Verify(0, current)] + rest;
    var s1 := Step(s, acts[0], verify).value;
    var s2 := Step(s1, acts[1], verify).value;
    var s3 := Step(s2, acts[2], verify).value;
    assert acts[2..] == acts[1..][1..] && acts[3..] == acts[2..][1..] && acts[3..][1..] == rest;
    RunFirst(s, acts, verify);
    RunFirst(s1, acts[1..], verify);
    RunFirst(s2, acts[2..], verify);
    RunFirst(s3, acts[3..], verify);
    assert Step(s3, acts[3], verify).value == s.(owner := Some(0), txs := map[0 := ChangeVerified(sessionId)]);
  }

  /** And from there to its commit. */
  lemma ChangeCommits(s: State, sessionId: string, newHash: string, verify: (string, string) -> bool)
    requires Idle(s)
    ensures Run(s.(owner := Some(0), txs := map[0 := ChangeVerified(sessionId)]),
                [UpdateHash(0, newHash), RevokeAll(0), Commit(0)], verify)
            == Some(s.(hash := Some(newHash), sessions := AllRevoked(s.sessions, Live(s)),
                       changes := s.changes + [sessionId]))
  {
    var acts := [UpdateHash(0, newHash), RevokeAll(0), Commit(0)];
    var s1 := s.(owner := Some(0), txs := map[0 := ChangeVerified(sessionId)]);
    var s2 := Step(s1, acts[0], verify).value;
    var s3 := Step(s2, acts[1], verify).value;
    var s4 := Step(s3, acts[2], verify).value;
    assert acts[2..] == acts[1..][1..] && acts[2..][1..] == [];
    RunFirst(s1, acts, verify);
    RunFirst(s2, acts[1..], verify);
    RunFirst(s3, acts[2..], verify);
    assert Live(s2) == Live(s) && s4.txs == s.txs && s4.sharers == s.sharers;
    assert Run(s4, acts[2..][1..], verify) == Some(s4);
  }

  /** One login is a run of its account's protocol, and no other account notices. */
  lemma LoginIsARun(before: Rows, after: Rows, done: bool, username: string, password: string, sessionId: string,
                    clock: Clock, verify: (string, string) -> bool, user: string, s: State)
    returns (n: State)
    requires LoginEffect(before, after, done, username, password, sessionId, clock, verify)
    requires Idle(s) && Shows(s, before, user) && sessionId !in s.usedIds && sessionId !in before.sessions
    ensures Run(s, if done && user == username then LoginSteps(password, sessionId) else [], verify) == Some(n)
    ensures Idle(n) && Shows(n, after, user)
  {
    n := s;
    if done && user == username {
      LoginRuns(s, password, sessionId, verify);
      n := Run(s, LoginSteps(password, sessionId), verify).value;
    }
  }

  /** So is one password change. */
  lemma ChangeIsARun(before: Rows, after: Rows, done: bool, sessionId: string, current: string, newHash: string,
                     clock: Clock, verify: (string, string) -> bool, user: string, s: State)
    returns (n: State)
    requires ChangeEffect(before, after, done, sessionId, current, newHash, clock, verify)
    requires Idle(s) && Shows(s, before, user)
    ensures var own := done && before.sessions[sessionId].username == user;
            Run(s, if own then ChangeSteps(sessionId, current, newHash) else [], verify) == Some(n)
    ensures Idle(n) && Shows(n, after, user)
  {
    n := s;
    if done && before.sessions[sessionId].username == user {
      var first := [BeginChange(0, sessionId), LockAccount(0), CheckSession(0), Verify(0, current)];
      var rest := [UpdateHash(0, newHash), RevokeAll(0), Commit(0)];
      assert ChangeSteps(sessionId, current, newHash) == first + rest;
      ChangeVerifies(s, sessionId, current, rest, verify);
      ChangeCommits(s, sessionId, newHash, verify);
      n := Run(s, first + rest, verify).value;
    }
  }

  // ---------------------------------------------------------------- the limiter's protocol

  /** The transaction of a call that got past the block. */
  function AttemptSteps(clock: Clock, done: bool): seq<Limiter.Action> {
    [Limiter.Tick(clock.recordedAt), Limiter.Acquire(clock.openedAt, clock.touchedAt, clock.databaseTime)]
    + if done then [Limiter.Succeed] else [Limiter.RecordFailure, Limiter.Commit]
  }

  /** The readings of a call that starts no earlier than `now`, in the order it takes them. */
  predicate InOrder(clock: Clock, now: int) {
    now <= clock.recordedAt && clock.openedAt <= clock.touchedAt <= clock.recordedAt
    && clock.databaseTime <= clock.recordedAt
  }

  lemma AttemptRuns(l: Limiter.State, clock: Clock, done: bool)
    requires l.holder.None? && InOrder(clock, l.clock)
    requires !Limiter.Blocked(Limiter.Ensured(l.row, clock.openedAt, clock.touchedAt), clock.databaseTime)
    ensures var counted :=
                Limiter.FailureRecorded(Limiter.Ensured(l.row, clock.openedAt, clock.touchedAt), clock.recordedAt);
            Limiter.Run(l, AttemptSteps(clock, done))
            == Some(if done then Limiter.State(clock.recordedAt, None, None, [])
                    else Limiter.State(clock.recordedAt, Some(counted), None, l.failures + [clock.recordedAt]))
  {
    var acts := AttemptSteps(clock, done);
    var l1 := Limiter.Step(l, acts[0]).value;
    var l2 := Limiter.Step(l1, acts[1]).value;
    var l3 := Limiter.Step(l2, acts[2]).value;
    assert acts[1..][1..] == if done then [Limiter.Succeed] else [Limiter.RecordFailure, Limiter.Commit];
    assert Limiter.Run(l, acts) == Limiter.Run(l1, acts[1..]) == Limiter.Run(l2, acts[1..][1..]);
    assert acts[1..][1..][1..] == if done then [] else [Limiter.Commit];
    assert Limiter.Run(l2, acts[1..][1..]) == Limiter.Run(l3, acts[1..][1..][1..]);
    if !done { assert Limiter.Run(l3, [Limiter.Commit]) == Limiter.Step(l3, Limiter.Commit); }
  }

  /**
   On the attempt rows each call is one transaction of the limiter's protocol of its username, or leaves it as
   it was.
   */
  lemma AttemptsAreARun(before: Rows, after: Rows, username: string, clock: Clock, done: bool, user: string,
                        l: Limiter.State)
    returns (n: Limiter.State)
    requires AttemptsAfter(before, after, username, clock, done)
    requires l.row == Row(before.attempts, user) && l.holder.None? && InOrder(clock, l.clock)
    ensures var same := user != username || (!done && after.attempts == before.attempts);
            Limiter.Run(l, if same then [] else AttemptSteps(clock, done)) == Some(n)
    ensures n.holder.None? && n.row == Row(after.attempts, user)
  {
    n := l;
    if user == username && (done || after.attempts != before.attempts) {
      AttemptRuns(l, clock, done);
      n := Limiter.Run(l, AttemptSteps(clock, done)).value;
    }
  }
}
