/**
 Wrong passwords for one protected link. Every unlock runs under the link's row lock,
 reads the database clock once under that lock, and counts a wrong password with
 `NextPasswordFailure`. A window opens exactly at its first failure.
 */
module UnlockLimiter {
  import opened Common
  import opened FailureWindows

  const MAX_FAILURES: nat := 5

  datatype Counter = Counter(attempts: nat, windowStartedAt: Option<int>, blockedUntil: Option<int>)

  const CLEAR := Counter(0, None, None)

  function NextPasswordFailure(now: int, attempts: nat, windowStartedAt: Option<int>): Counter {
    if windowStartedAt.None? || now >= windowStartedAt.value + WINDOW then
      Counter(1, Some(now), None)
    else
      Counter(attempts + 1, windowStartedAt,
              if attempts + 1 >= MAX_FAILURES then Some(now + WINDOW) else None)
  }

  /** In fifteen minutes the fifth wrong password blocks for fifteen more; after that a new count begins. */
  lemma NextFailureMeans(now: int, attempts: nat, started: Option<int>)
    ensures var next := NextPasswordFailure(now, attempts, started);
            var open := started.Some? && now - started.value < 900_000_000;
            && next.attempts == (if open then attempts + 1 else 1)
            && next.windowStartedAt == Some(if open then started.value else now)
            && next.blockedUntil == if open && next.attempts > 4 then Some(now + 900_000_000) else None
  {
  }

  predicate Blocked(c: Counter, now: int) { c.blockedUntil.Some? && now < c.blockedUntil.value }

  /**
   `holder` is the unlock that owns the row lock, with the clock value it read; `failures` are
   the wrong passwords committed since the last success or password edit.
   */
  datatype Phase = Locked | Timed(now: int) | Counted(now: int, next: Counter)

  datatype State = State(clock: int, row: Counter, holder: Option<Phase>, failures: seq<int>)

  datatype Action =
    | Tick(now: int)
    | LockRow
    | ReadClock
    | WrongPassword
    | Commit
    | RightPassword
    | Rollback
    | EditPassword

  /** A wrong password is refused without counting while blocked. */
  function Step(s: State, a: Action): Option<State> {
    match a
    case Tick(now) => if now >= s.clock then Some(s.(clock := now)) else None
    case LockRow => if s.holder.None? then Some(s.(holder := Some(Locked))) else None
    case ReadClock => if s.holder == Some(Locked) then Some(s.(holder := Some(Timed(s.clock)))) else None
    case WrongPassword =>
      if s.holder.Some? && s.holder.value.Timed? && !Blocked(s.row, s.holder.value.now) then
        var now := s.holder.value.now;
        Some(s.(holder := Some(Counted(now, NextPasswordFailure(now, s.row.attempts, s.row.windowStartedAt)))))
      else None
    case Commit =>
      if s.holder.Some? && s.holder.value.Counted?
      then Some(s.(row := s.holder.value.next, holder := None, failures := s.failures + [s.holder.value.now]))
      else None
    case RightPassword =>
      if s.holder.Some? && s.holder.value.Timed? && !Blocked(s.row, s.holder.value.now)
      then Some(s.(row := CLEAR, holder := None, failures := []))
      else None
    case Rollback => if s.holder.Some? then Some(s.(holder := None)) else None
    case EditPassword => if s.holder.None? then Some(s.(row := CLEAR, failures := [])) else None
  }

  /** While blocked, neither password counts: the holder can only let go. */
  lemma BlockedSteps(s: State)
    ensures s.holder.Some? && s.holder.value.Timed? ==>
              var blocked := s.row.blockedUntil.Some? && s.row.blockedUntil.value > s.holder.value.now;
              && (Step(s, WrongPassword) == None <==> blocked)
              && (Step(s, RightPassword) == None <==> blocked)
              && (!blocked ==>
                    Step(s, RightPassword) == Some(s.(row := Counter(0, None, None), holder := None, failures := [])))
  {
  }

  function Run(s: State, acts: seq<Action>): Option<State>
    decreases |acts|
  {
    if acts == [] then Some(s)
    else
      var n := Step(s, acts[0]);
      if n.None? then None else Run(n.value, acts[1..])
  }

  function Start(clock: int): State { State(clock, CLEAR, None, []) }

  /** The counter holds exactly the failures of the current window, which opened at the first of them. */
  ghost predicate Consistent(s: State) {
    var n, k := |s.failures|, s.row.attempts;
    && Ordered(s.failures) && (n > 0 ==> s.failures[n - 1] <= s.clock)
    && k <= n && k <= MAX_FAILURES
    && (k == 0 ==> s.row == CLEAR && n == 0)
    && (k > 0 ==>
          && s.row.windowStartedAt == Some(s.failures[n - k])
          && s.failures[n - 1] < s.failures[n - k] + WINDOW
          && s.row.blockedUntil == (if k == MAX_FAILURES then Some(s.failures[n - 1] + WINDOW) else None)
          && (n - k >= MAX_FAILURES - 1 ==> s.failures[n - k] - s.failures[n - k - (MAX_FAILURES - 1)] >= WINDOW))
    && (s.holder.Some? ==>
          match s.holder.value
          case Locked => true
          case Timed(now) => now <= s.clock && (n > 0 ==> s.failures[n - 1] <= now)
          case Counted(now, next) =>
            && now <= s.clock && (n > 0 ==> s.failures[n - 1] <= now)
            && !Blocked(s.row, now) && next == NextPasswordFailure(now, k, s.row.windowStartedAt))
  }

  /** A failure recorded past a block, or in a full window, always finds the window over. */
  lemma BlockOutlivesWindow(s: State, now: int)
    requires Consistent(s) && s.row.attempts == MAX_FAILURES && !Blocked(s.row, now)
    ensures NextPasswordFailure(now, s.row.attempts, s.row.windowStartedAt) == Counter(1, Some(now), None)
  {
    var n := |s.failures|;
    assert s.failures[n - MAX_FAILURES] <= s.failures[n - 1];
  }

  /** The failure about to be committed is a window later than the fourth before its window's first. */
  lemma NextFailureIsSpread(s: State, now: int)
    requires Consistent(s) && !Blocked(s.row, now) && (|s.failures| > 0 ==> s.failures[|s.failures| - 1] <= now)
    ensures var n := |s.failures|;
            var next := NextPasswordFailure(now, s.row.attempts, s.row.windowStartedAt);
            && (next.attempts == 1 && n >= MAX_FAILURES - 1 ==> now - s.failures[n - (MAX_FAILURES - 1)] >= WINDOW)
            && (n >= 2 * MAX_FAILURES - 2 ==> now - s.failures[n - (2 * MAX_FAILURES - 2)] >= WINDOW)
  {
    var n, k := |s.failures|, s.row.attempts;
    if n > 0 {
      if k == MAX_FAILURES {
        BlockOutlivesWindow(s, now);
      } else if n >= MAX_FAILURES - 1 {
        assert s.failures[n - (MAX_FAILURES - 1)] <= s.failures[n - k];
        if n - k >= MAX_FAILURES - 1 && n >= 2 * MAX_FAILURES - 2 {
          assert s.failures[n - (2 * MAX_FAILURES - 2)] <= s.failures[n - k - (MAX_FAILURES - 1)];
        }
      }
    }
  }

  lemma CommitKeepsConsistent(s: State)
    requires Consistent(s) && Spread(s.failures, 2 * MAX_FAILURES - 2) && Step(s, Commit).Some?
    ensures Consistent(Step(s, Commit).value) && Spread(Step(s, Commit).value.failures, 2 * MAX_FAILURES - 2)
  {
    var now := s.holder.value.now;
    NextFailureIsSpread(s, now);
    AppendKeeps(s.failures, 2 * MAX_FAILURES - 2, now);
    if s.row.attempts == MAX_FAILURES { BlockOutlivesWindow(s, now); }
  }

  lemma OtherStepKeepsConsistent(s: State, a: Action)
    requires Consistent(s) && Spread(s.failures, 2 * MAX_FAILURES - 2) && Step(s, a).Some? && !a.Commit?
    ensures Consistent(Step(s, a).value) && Spread(Step(s, a).value.failures, 2 * MAX_FAILURES - 2)
  {
    if a.RightPassword? || a.EditPassword? { assert Step(s, a).value.failures == []; }
  }

  lemma StepKeepsConsistent(s: State, a: Action)
    requires Consistent(s) && Spread(s.failures, 2 * MAX_FAILURES - 2) && Step(s, a).Some?
    ensures Consistent(Step(s, a).value) && Spread(Step(s, a).value.failures, 2 * MAX_FAILURES - 2)
  {
    if a.Commit? { CommitKeepsConsistent(s); } else { OtherStepKeepsConsistent(s, a); }
  }

  lemma {:induction false} RunKeepsConsistent(s: State, acts: seq<Action>)
    requires Consistent(s) && Spread(s.failures, 2 * MAX_FAILURES - 2) && Run(s, acts).Some?
    ensures Consistent(Run(s, acts).value) && Spread(Run(s, acts).value.failures, 2 * MAX_FAILURES - 2)
    decreases |acts|
  {
    if acts != [] {
      StepKeepsConsistent(s, acts[0]);
      RunKeepsConsistent(Step(s, acts[0]).value, acts[1..]);
    }
  }

  /** Over any interleaving, no fifteen-minute interval holds more than eight counted wrong passwords. */
  lemma AtMostEightWrongPasswords(clock: int, acts: seq<Action>, from: int)
    requires Run(Start(clock), acts).Some?
    ensures CountWithin(Run(Start(clock), acts).value.failures, from, from + 900_000_000) <= 8
    ensures Run(Start(clock), acts).value.row.attempts <= 5
  {
    RunKeepsConsistent(Start(clock), acts);
    SpreadBoundsCount(Run(Start(clock), acts).value.failures, 8, from);
  }

  /** After a block, the next counted wrong password opens a fresh window with count one. */
  lemma FirstFailureAfterBlock(clock: int, acts: seq<Action>)
    requires Run(Start(clock), acts + [Commit]).Some? && Run(Start(clock), acts).Some?
    requires Run(Start(clock), acts).value.row.blockedUntil.Some?
    ensures var s := Run(Start(clock), acts).value;
            s.holder.Some? && s.holder.value.Counted?
            && Run(Start(clock), acts + [Commit]).value.row == Counter(1, Some(s.holder.value.now), None)
  {
    RunKeepsConsistent(Start(clock), acts);
    RunAppends(Start(clock), acts, [Commit]);
    var s := Run(Start(clock), acts).value;
    assert Run(s, [Commit]) == Step(s, Commit);
    BlockOutlivesWindow(s, s.holder.value.now);
  }

  lemma {:induction false} RunAppends(s: State, a: seq<Action>, b: seq<Action>)
    requires Run(s, a).Some?
    ensures Run(s, a + b) == Run(Run(s, a).value, b)
    decreases |a|
  {
    if a == [] {
      assert a + b == b;
    } else {
      assert (a + b)[1..] == a[1..] + b;
      RunAppends(Step(s, a[0]).value, a[1..], b);
    }
  }

  /** A complete wrong-password unlock at time `now`. */
  function Attempt(now: int): seq<Action> { [Tick(now), LockRow, ReadClock, WrongPassword, Commit] }

  lemma AttemptCounts(s: State, now: int)
    requires s.holder.None? && now >= s.clock && !Blocked(s.row, now)
    ensures Run(s, Attempt(now)) ==
            Some(State(now, NextPasswordFailure(now, s.row.attempts, s.row.windowStartedAt), None, s.failures + [now]))
  {
    var acts := Attempt(now);
    var s1 := s.(clock := now);
    var s2 := s1.(holder := Some(Locked));
    var s3 := s2.(holder := Some(Timed(now)));
    var s4 := Step(s3, WrongPassword).value;
    assert acts[1..] == [LockRow, ReadClock, WrongPassword, Commit];
    assert acts[1..][1..] == [ReadClock, WrongPassword, Commit];
    assert acts[1..][1..][1..] == [WrongPassword, Commit];
    assert acts[1..][1..][1..][1..] == [Commit];
    assert Run(s4, [Commit]) == Step(s4, Commit);
    assert Run(s3, [WrongPassword, Commit]) == Run(s4, [Commit]);
    assert Run(s2, [ReadClock, WrongPassword, Commit]) == Run(s3, [WrongPassword, Commit]);
    assert Run(s1, acts[1..]) == Run(s2, [ReadClock, WrongPassword, Commit]);
  }

  /** `n` wrong passwords at one instant, all within the window they find open. */
  lemma {:induction false} Burst(s: State, now: int, n: nat) returns (acts: seq<Action>)
    requires s.holder.None? && now >= s.clock && s.row.blockedUntil.None? && s.row.windowStartedAt.Some?
    requires now < s.row.windowStartedAt.value + WINDOW && 0 < n && s.row.attempts + n <= MAX_FAILURES
    ensures Run(s, acts).Some?
    ensures var e := Run(s, acts).value;
            && e.clock == now && e.holder.None? && e.failures == s.failures + seq(n, _ => now)
            && e.row == Counter(s.row.attempts + n, s.row.windowStartedAt,
                                if s.row.attempts + n == MAX_FAILURES then Some(now + WINDOW) else None)
    decreases n
  {
    AttemptCounts(s, now);
    var s1 := Run(s, Attempt(now)).value;
    if n == 1 {
      acts := Attempt(now);
    } else {
      var rest := Burst(s1, now, n - 1);
      acts := Attempt(now) + rest;
      RunAppends(s, Attempt(now), rest);
    }
  }

  /** The bound is exact: some run counts eight wrong passwords within one interval. */
  lemma EightWrongPasswordsHappen() returns (acts: seq<Action>, from: int)
    ensures Run(Start(0), acts).Some?
    ensures CountWithin(Run(Start(0), acts).value.failures, from, from + 900_000_000) == 8
  {
    from := WINDOW - 1;
    AttemptCounts(Start(0), 0);
    var s1 := Run(Start(0), Attempt(0)).value;
    var three := Burst(s1, WINDOW - 1, 3);
    var s2 := Run(s1, three).value;
    AttemptCounts(s2, WINDOW);
    var s3 := Run(s2, Attempt(WINDOW)).value;
    var four := Burst(s3, WINDOW, 4);
    acts := Attempt(0) + three + Attempt(WINDOW) + four;
    RunAppends(Start(0), Attempt(0), three);
    RunAppends(Start(0), Attempt(0) + three, Attempt(WINDOW));
    RunAppends(Start(0), Attempt(0) + three + Attempt(WINDOW), four);
    var log := Run(Start(0), acts).value.failures;
    assert |log| == 9 && log[0] == 0 && forall i :: 1 <= i < 9 ==> from <= log[i] < from + WINDOW;
    CountsTheRest(log, 1, from);
  }

  // ---------------------------------------------------------------- one unlock

  /** Fifteen minutes in microseconds. */
  const GRANT_LIFETIME: int := 900_000_000

  datatype Reply =
    | NotAdmitted
    | NoPassword
    | PasswordRequired
    | RateLimited(retryAt: int)
    | WrongInput
    | Granted(expiresAt: int)

  /** The counter after an unlock: one more failure on a wrong password that was compared, clear on a right one. */
  function CounterAfter(before: Counter, now: int, compared: bool, granted: bool): Counter {
    if granted then CLEAR
    else if compared then NextPasswordFailure(now, before.attempts, before.windowStartedAt)
    else before
  }

  function UnlockSteps(now: int, compared: bool, granted: bool): seq<Action> {
    [Tick(now), LockRow, ReadClock]
    + if granted then [RightPassword] else if compared then [WrongPassword, Commit] else [Rollback]
  }

  /** An unlock is a run of the protocol with the same counter, and logs exactly the wrong password it counts. */
  lemma UnlockIsARun(s: State, now: int, compared: bool, granted: bool)
    requires s.holder.None? && s.clock <= now && (compared ==> !Blocked(s.row, now)) && (granted ==> compared)
    ensures Run(s, UnlockSteps(now, compared, granted))
            == Some(State(now, CounterAfter(s.row, now, compared, granted), None,
                          if granted then [] else if compared then s.failures + [now] else s.failures))
  {
    var acts := UnlockSteps(now, compared, granted);
    var s1 := Step(s, acts[0]).value;
    var s2 := Step(s1, acts[1]).value;
    var s3 := Step(s2, acts[2]).value;
    var s4 := Step(s3, acts[3]).value;
    assert acts[1..][1..] == acts[2..] && acts[2..][1..] == acts[3..] && acts[3..][1..] == acts[4..];
    assert Run(s, acts) == Run(s1, acts[1..]) == Run(s2, acts[2..]);
    assert Run(s2, acts[2..]) == Run(s3, acts[3..]) == Run(s4, acts[4..]);
    if compared && !granted {
      assert acts[4..] == [Commit];
      assert Run(s4, [Commit]) == Step(s4, Commit);
    }
  }

  /** The password state of one link and the access grants issued for it, by token. */
  class ProtectedLink {
    var hash: Option<string>
    var counter: Counter
    var grants: map<string, int>

    /** Whether this unlock gets as far as comparing passwords. */
    predicate Compares(admitted: bool, password: string, now: int)
      reads this
    {
      admitted && hash.Some? && password != "" && !Blocked(counter, now)
    }

    /**
     Runs under the link's row lock. `verify` includes the input's own length rules, `admitted` are
     the link's own conditions, and `now` is the clock read under the lock.
     */
    method Unlock(admitted: bool, password: string, now: int, token: string, verify: (string, string) -> bool)
      returns (r: Reply)
      requires token !in grants
      modifies this
      ensures hash == old(hash)
      ensures counter == CounterAfter(old(counter), now, old(Compares(admitted, password, now)), r.Granted?)
      ensures r.Granted? <==> old(Compares(admitted, password, now)) && verify(password, hash.value)
      ensures r.Granted? ==> counter == Counter(0, None, None) && r.expiresAt == now + 900_000_000
      ensures (admitted && old(hash).Some? && password != "" && verify(password, old(hash).value)
               && (old(counter).blockedUntil.None? || old(counter).blockedUntil.value <= now)) ==>
                r.Granted?
      ensures r == NotAdmitted <==> !admitted
      ensures r == NoPassword <==> admitted && hash.None?
      ensures r == PasswordRequired <==> admitted && hash.Some? && password == ""
      ensures grants == if r.Granted? then old(grants)[token := r.expiresAt] else old(grants)
      ensures old(Compares(admitted, password, now)) && !r.Granted? ==>
                && counter == NextPasswordFailure(now, old(counter).attempts, old(counter).windowStartedAt)
                && r == if counter.blockedUntil.Some? then RateLimited(counter.blockedUntil.value) else WrongInput
      ensures !old(Compares(admitted, password, now)) ==> counter == old(counter)
      ensures admitted && hash.Some? && password != "" && old(counter).blockedUntil.Some?
              && now < old(counter).blockedUntil.value ==>
                r == RateLimited(old(counter).blockedUntil.value)
    {
      if !admitted { return NotAdmitted; }
      if hash.None? { return NoPassword; }
      if password == "" { return PasswordRequired; }
      if counter.blockedUntil.Some? && now < counter.blockedUntil.value {
        return RateLimited(counter.blockedUntil.value);
      }
      if !verify(password, hash.value) {
        counter := NextPasswordFailure(now, counter.attempts, counter.windowStartedAt);
        if counter.blockedUntil.Some? { return RateLimited(counter.blockedUntil.value); }
        return WrongInput;
      }
      counter := CLEAR;
      var expiresAt := now + GRANT_LIFETIME;
      grants := grants[token := expiresAt];
      return Granted(expiresAt);
    }
  }
}
