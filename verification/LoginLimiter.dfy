/**
 Failed logins for one username. The attempt row may be missing: `Login` and
 `ChangePassword` lock it, or insert it with no failures and then lock it, and a
 cleanup deletes it once it is stale. A window can therefore open before its first
 failure, and the clock value compared with the block may be older than the lock.
 */
module LoginLimiter {
  import opened Common
  import opened FailureWindows

  const THRESHOLD: nat := 10

  datatype Attempt = Attempt(failed: nat, windowStartedAt: int, blockedUntil: Option<int>, updatedAt: int)

  // ---------------------------------------------------------------- the statements

  /** Both columns take their own clock reading, in order. */
  function Ensured(row: Option<Attempt>, openedAt: int, touchedAt: int): Attempt {
    if row.Some? then row.value else Attempt(0, openedAt, None, touchedAt)
  }

  /**
   One round of locking the row: what the locking read finds, and whether another transaction's row
   is in the way of the insert that follows an empty read. That row can be gone again by the next round.
   */
  datatype Round = Round(found: Option<Attempt>, taken: bool)

  predicate Settles(r: Round) { r.found.Some? || !r.taken }

  /** Retries until a read finds a row to lock; a row it has inserted itself cannot be deleted by others. */
  method LockOrCreateLoginAttempt(rounds: seq<Round>, openedAt: int, touchedAt: int) returns (attempt: Attempt, n: nat)
    requires rounds != [] && Settles(rounds[|rounds| - 1])
    ensures n < |rounds| && (rounds[n].found.Some? || !rounds[n].taken)
    ensures forall i :: 0 <= i < n ==> rounds[i].found.None? && rounds[i].taken
    ensures attempt == Ensured(rounds[n].found, openedAt, touchedAt)
  {
    n := 0;
    var own := None;
    while true
      invariant n < |rounds| && forall i :: 0 <= i < n ==> !Settles(rounds[i])
      invariant own.Some? ==> !rounds[n].taken && rounds[n].found.None?
                              && own.value == Attempt(0, openedAt, None, touchedAt)
      decreases |rounds| - n, own.None?
    {
      var found := if own.Some? then own else rounds[n].found;
      if found.Some? { return found.value, n; }
      if rounds[n].taken {
        n := n + 1;
      } else {
        own := Some(Attempt(0, openedAt, None, touchedAt));
      }
    }
  }

  function FailureRecorded(row: Attempt, now: int): Attempt {
    var over := row.windowStartedAt <= now - WINDOW;
    Attempt(if over then 1 else row.failed + 1,
            if over then now else row.windowStartedAt,
            if over then None else if row.failed + 1 >= THRESHOLD then Some(now + WINDOW) else row.blockedUntil,
            now)
  }

  /** In fifteen minutes the tenth failure blocks for fifteen more; after that a new count begins. */
  lemma FailureMeans(row: Attempt, now: int)
    ensures var next := FailureRecorded(row, now);
            var open := now - row.windowStartedAt < 900_000_000;
            && next.updatedAt == now && next.windowStartedAt == (if open then row.windowStartedAt else now)
            && next.failed == (if open then row.failed + 1 else 1)
            && (open && next.failed > 9 ==> next.blockedUntil == Some(now + 900_000_000))
            && (open && next.failed <= 9 ==> next.blockedUntil == row.blockedUntil)
            && (!open ==> next.blockedUntil == None)
  {
  }

  predicate Stale(row: Attempt, now: int) {
    row.updatedAt <= now - WINDOW && (row.blockedUntil.None? || row.blockedUntil.value <= now)
  }

  predicate Blocked(row: Attempt, databaseTime: int) {
    row.blockedUntil.Some? && row.blockedUntil.value > databaseTime
  }

  // ---------------------------------------------------------------- the protocol

  /** The transaction that owns the attempt row: the row as it sees it, and a failure it has recorded. */
  datatype Holder = Holder(seen: Attempt, databaseTime: int, recorded: Option<int>)

  /** `row` is the committed row; `failures` were committed since the last success. */
  datatype State = State(clock: int, row: Option<Attempt>, holder: Option<Holder>, failures: seq<int>)

  datatype Action =
    | Tick(now: int)
    | Acquire(openedAt: int, touchedAt: int, databaseTime: int)
    | RecordFailure
    | Commit
    | Succeed
    | Rollback
    | Cleanup

  function Step(s: State, a: Action): Option<State> {
    match a
    case Tick(now) => if now >= s.clock then Some(s.(clock := now)) else None
    case Acquire(openedAt, touchedAt, databaseTime) =>
      // Clock readings were taken before the lock was granted, possibly long before.
      if s.holder.None? && openedAt <= touchedAt <= s.clock && databaseTime <= s.clock
      then Some(s.(holder := Some(Holder(Ensured(s.row, openedAt, touchedAt), databaseTime, None))))
      else None
    case RecordFailure =>
      if s.holder.Some? && s.holder.value.recorded.None? && !Blocked(s.holder.value.seen, s.holder.value.databaseTime)
      then
        var h := s.holder.value;
        Some(s.(holder := Some(h.(seen := FailureRecorded(h.seen, s.clock), recorded := Some(s.clock)))))
      else None
    case Commit =>
      if s.holder.Some? && s.holder.value.recorded.Some?
      then Some(s.(row := Some(s.holder.value.seen), holder := None,
                   failures := s.failures + [s.holder.value.recorded.value]))
      else None
    case Succeed =>
      if s.holder.Some? && s.holder.value.recorded.None? && !Blocked(s.holder.value.seen, s.holder.value.databaseTime)
      then Some(s.(row := None, holder := None, failures := []))
      else None
    case Rollback => if s.holder.Some? then Some(s.(holder := None)) else None
    case Cleanup =>
      // `skip locked`: a row some transaction holds is left alone.
      if s.holder.None? && s.row.Some? && Stale(s.row.value, s.clock) then Some(s.(row := None)) else None
  }

  function Run(s: State, acts: seq<Action>): Option<State>
    decreases |acts|
  {
    if acts == [] then Some(s)
    else
      var n := Step(s, acts[0]);
      if n.None? then None else Run(n.value, acts[1..])
  }

  function Start(clock: int): State { State(clock, None, None, []) }

  /** A row counts the last `failed` failures; a block starts exactly at the tenth. */
  ghost predicate RowOk(row: Attempt, log: seq<int>) {
    var n, k := |log|, row.failed;
    && k <= n && k <= THRESHOLD
    && (n > 0 && k > 0 ==> row.updatedAt == log[n - 1])
    && row.windowStartedAt <= row.updatedAt
    && (k > 0 ==>
          && log[n - 1] < row.windowStartedAt + WINDOW && row.windowStartedAt <= log[n - k]
          && (n > k ==> row.windowStartedAt >= log[n - k - 1] || log[n - k] >= log[n - k - 1] + WINDOW)
          && (n - k >= THRESHOLD ==> log[n - k] - log[n - k - THRESHOLD] >= WINDOW))
    && row.blockedUntil == (if k == THRESHOLD then Some(log[n - 1] + WINDOW) else None)
  }

  ghost predicate Consistent(s: State) {
    var n := |s.failures|;
    && Ordered(s.failures) && Spread(s.failures, 2 * THRESHOLD - 1)
    && (n > 0 ==> s.failures[n - 1] <= s.clock)
    && (s.row.Some? ==> s.row.value.failed > 0 && RowOk(s.row.value, s.failures))
    && (s.row.None? && n > 0 ==> s.failures[n - 1] + WINDOW <= s.clock)
    && (s.holder.Some? ==> HolderOk(s, s.holder.value))
  }

  /** What the holder sees is the committed row, a fresh one, or either with one more failure. */
  ghost predicate HolderOk(s: State, h: Holder) {
    && h.databaseTime <= s.clock
    && (h.recorded.None? ==> if s.row.Some? then h.seen == s.row.value
                             else h.seen.failed == 0 && RowOk(h.seen, s.failures) && h.seen.updatedAt <= s.clock)
    && (h.recorded.Some? ==> h.recorded.value <= s.clock && RecordedOk(s.failures, h.seen, h.recorded.value))
  }

  /** Committing this failure keeps the log in order and spread out, and the row in step with it. */
  ghost predicate RecordedOk(log: seq<int>, row: Attempt, now: int) {
    Ordered(log + [now]) && Spread(log + [now], 2 * THRESHOLD - 1) && row.failed > 0 && RowOk(row, log + [now])
  }

  /** A block lasts at least until its window is over. */
  lemma BlockOutlivesWindow(row: Attempt, log: seq<int>)
    requires RowOk(row, log) && row.blockedUntil.Some?
    ensures row.blockedUntil.value >= row.windowStartedAt + WINDOW
  {
  }

  /** A failure that opens a new window is a whole window later than the tenth failure before it. */
  lemma NewWindowIsSpread(row: Attempt, log: seq<int>, now: int)
    requires Ordered(log) && RowOk(row, log) && row.windowStartedAt <= now - WINDOW
    requires |log| > 0 && log[|log| - 1] <= now
    requires row.failed == 0 ==> log[|log| - 1] + WINDOW <= now
    requires row.blockedUntil.Some? ==> row.blockedUntil.value <= now
    ensures |log| >= THRESHOLD ==> now - log[|log| - THRESHOLD] >= WINDOW
  {
    var n, k := |log|, row.failed;
    if n >= THRESHOLD && 0 < k < THRESHOLD {
      assert log[n - THRESHOLD] <= log[n - k - 1];
    }
  }

  /** The failure to be recorded is a window later than the nineteenth before it. */
  lemma RecordingIsSpread(row: Attempt, log: seq<int>, now: int)
    requires Ordered(log) && RowOk(row, log)
    requires |log| > 0 ==> log[|log| - 1] <= now
    requires row.failed == 0 && |log| > 0 ==> log[|log| - 1] + WINDOW <= now
    requires row.blockedUntil.Some? ==> row.blockedUntil.value <= now
    ensures |log| >= 2 * THRESHOLD - 1 ==> now - log[|log| - (2 * THRESHOLD - 1)] >= WINDOW
  {
    var n, k := |log|, row.failed;
    if n >= 2 * THRESHOLD - 1 {
      if row.windowStartedAt <= now - WINDOW {
        NewWindowIsSpread(row, log, now);
        assert log[n - (2 * THRESHOLD - 1)] <= log[n - THRESHOLD];
      } else if k > 0 {
        assert k < THRESHOLD;
        assert log[n - (2 * THRESHOLD - 1)] <= log[n - k - THRESHOLD];
      } else {
        assert log[n - (2 * THRESHOLD - 1)] <= log[n - 1];
      }
    }
  }

  lemma RecordingKeepsStep(row: Attempt, log: seq<int>, now: int)
    requires Ordered(log) && Spread(log, 2 * THRESHOLD - 1) && RowOk(row, log)
    requires |log| > 0 ==> log[|log| - 1] <= now
    requires row.updatedAt <= now
    requires row.failed == 0 && |log| > 0 ==> log[|log| - 1] + WINDOW <= now
    requires row.blockedUntil.Some? ==> row.blockedUntil.value <= now
    ensures RecordedOk(log, FailureRecorded(row, now), now)
  {
    RecordingIsSpread(row, log, now);
    AppendKeeps(log, 2 * THRESHOLD - 1, now);
    if row.windowStartedAt <= now - WINDOW {
      if |log| > 0 { NewWindowIsSpread(row, log, now); }
    } else {
      if row.failed == THRESHOLD { BlockOutlivesWindow(row, log); }
    }
  }

  lemma RecordFailureKeeps(s: State)
    requires Consistent(s) && Step(s, RecordFailure).Some?
    ensures Consistent(Step(s, RecordFailure).value)
  {
    RecordingKeepsStep(s.holder.value.seen, s.failures, s.clock);
  }

  lemma AcquireKeeps(s: State, a: Action)
    requires Consistent(s) && Step(s, a).Some? && a.Acquire?
    ensures Consistent(Step(s, a).value)
  {
  }

  lemma CommitKeeps(s: State)
    requires Consistent(s) && Step(s, Commit).Some?
    ensures Consistent(Step(s, Commit).value)
  {
  }

  lemma OtherStepKeeps(s: State, a: Action)
    requires Consistent(s) && Step(s, a).Some? && (a.Tick? || a.Succeed? || a.Rollback? || a.Cleanup?)
    ensures Consistent(Step(s, a).value)
  {
  }

  lemma StepKeepsConsistent(s: State, a: Action)
    requires Consistent(s) && Step(s, a).Some?
    ensures Consistent(Step(s, a).value)
  {
    match a
    case RecordFailure => RecordFailureKeeps(s);
    case Acquire(_, _, _) => AcquireKeeps(s, a);
    case Commit => CommitKeeps(s);
    case _ => OtherStepKeeps(s, a);
  }

  lemma {:induction false} RunKeepsConsistent(s: State, acts: seq<Action>)
    requires Consistent(s) && Run(s, acts).Some?
    ensures Consistent(Run(s, acts).value)
    decreases |acts|
  {
    if acts != [] {
      StepKeepsConsistent(s, acts[0]);
      RunKeepsConsistent(Step(s, acts[0]).value, acts[1..]);
    }
  }

  /** Over any interleaving, cleanup included, no fifteen-minute interval holds more than nineteen failures. */
  lemma AtMostNineteenFailures(clock: int, acts: seq<Action>, from: int)
    requires Run(Start(clock), acts).Some?
    ensures CountWithin(Run(Start(clock), acts).value.failures, from, from + 900_000_000) <= 19
  {
    RunKeepsConsistent(Start(clock), acts);
    SpreadBoundsCount(Run(Start(clock), acts).value.failures, 19, from);
  }

  /** Every committed row has at most ten failures, is blocked exactly at ten, and no earlier than its window's end. */
  lemma CommittedRow(clock: int, acts: seq<Action>)
    requires Run(Start(clock), acts).Some? && Run(Start(clock), acts).value.row.Some?
    ensures var row := Run(Start(clock), acts).value.row.value;
            && 1 <= row.failed <= 10
            && (row.blockedUntil.Some? <==> row.failed == 10)
            && (row.blockedUntil.Some? ==> row.blockedUntil.value >= row.windowStartedAt + 900_000_000
                                           && row.blockedUntil.value == row.updatedAt + 900_000_000)
  {
    RunKeepsConsistent(Start(clock), acts);
  }

  // ---------------------------------------------------------------- the bound is exact

  /** A failed login at time `now`, on a row that exists already. */
  function FailedLogin(now: int): seq<Action> { [Tick(now), Acquire(now, now, now), RecordFailure, Commit] }

  lemma FailedLoginCounts(s: State, now: int)
    requires s.holder.None? && s.row.Some? && now >= s.clock && !Blocked(s.row.value, now)
    ensures Run(s, FailedLogin(now))
            == Some(State(now, Some(FailureRecorded(s.row.value, now)), None, s.failures + [now]))
  {
    var acts := FailedLogin(now);
    var s1 := s.(clock := now);
    var s2 := Step(s1, acts[1]).value;
    var s3 := Step(s2, RecordFailure).value;
    assert acts[1..] == [Acquire(now, now, now), RecordFailure, Commit];
    assert acts[1..][1..] == [RecordFailure, Commit];
    assert acts[1..][1..][1..] == [Commit];
    assert Run(s3, [Commit]) == Step(s3, Commit);
    assert Run(s2, [RecordFailure, Commit]) == Run(s3, [Commit]);
    assert Run(s1, acts[1..]) == Run(s2, [RecordFailure, Commit]);
  }

  lemma {:induction false} RunAppends(s: State, a: seq<Action>, b: seq<Action>)
    requires Run(s, a).Some?
    ensures Run(s, a + b) == Run(Run(s, a).value, b)
    decreases |a|
  {
    if a == [] {
      assert a + b == b;
    } else {
      assert (a + b)[1..] == a[1..] + b;
      RunAppends(Step(s, a[0]).value, a[1..], b);
    }
  }

  /** `n` failures at one instant, all within the window they find open. */
  lemma {:induction false} Burst(s: State, now: int, n: nat) returns (acts: seq<Action>)
    requires s.holder.None? && s.row.Some? && s.row.value.blockedUntil.None? && now >= s.clock
    requires now < s.row.value.windowStartedAt + WINDOW && 0 < n && s.row.value.failed + n <= THRESHOLD
    ensures Run(s, acts).Some?
    ensures var e := Run(s, acts).value;
            && e.clock == now && e.holder.None? && e.failures == s.failures + seq(n, _ => now)
            && e.row == Some(Attempt(s.row.value.failed + n, s.row.value.windowStartedAt,
                                     if s.row.value.failed + n == THRESHOLD then Some(now + WINDOW) else None, now))
    decreases n
  {
    FailedLoginCounts(s, now);
    var s1 := Run(s, FailedLogin(now)).value;
    if n == 1 {
      acts := FailedLogin(now);
    } else {
      var rest := Burst(s1, now, n - 1);
      acts := FailedLogin(now) + rest;
      RunAppends(s, FailedLogin(now), rest);
    }
  }

  /** The first failure of a new row, one microsecond after the row's window opened. */
  lemma FirstFailure() returns (acts: seq<Action>)
    ensures Run(Start(0), acts) == Some(State(1, Some(Attempt(1, 0, None, 1)), None, [1]))
  {
    acts := [Acquire(0, 0, 0), Tick(1), RecordFailure, Commit];
    var s1 := Step(Start(0), acts[0]).value;
    var s2 := s1.(clock := 1);
    var s3 := Step(s2, RecordFailure).value;
    assert acts[1..] == [Tick(1), RecordFailure, Commit];
    assert acts[1..][1..] == [RecordFailure, Commit];
    assert acts[1..][1..][1..] == [Commit];
    assert Run(s3, [Commit]) == Step(s3, Commit);
    assert Run(s2, [RecordFailure, Commit]) == Run(s3, [Commit]);
    assert Step(s1, Tick(1)) == Some(s2);
    assert Run(s1, acts[1..]) == Run(s2, [RecordFailure, Commit]);
    assert Run(Start(0), acts) == Run(s1, acts[1..]);
    assert s3.failures + [1] == [1];
    assert Step(s3, Commit) == Some(State(1, Some(Attempt(1, 0, None, 1)), None, [1]));
  }

  /** Some run records nineteen failures within one interval. */
  lemma NineteenFailuresHappen() returns (acts: seq<Action>, from: int)
    ensures Run(Start(0), acts).Some?
    ensures CountWithin(Run(Start(0), acts).value.failures, from, from + 900_000_000) == 19
  {
    from := 1;
    var first := FirstFailure();
    var s1 := Run(Start(0), first).value;
    var eight := Burst(s1, 1, 8);
    var s2 := Run(s1, eight).value;
    FailedLoginCounts(s2, WINDOW);
    var s3 := Run(s2, FailedLogin(WINDOW)).value;
    var nine := Burst(s3, WINDOW, 9);
    acts := first + eight + FailedLogin(WINDOW) + nine;
    RunAppends(Start(0), first, eight);
    RunAppends(Start(0), first + eight, FailedLogin(WINDOW));
    RunAppends(Start(0), first + eight + FailedLogin(WINDOW), nine);
    CountsTheRest(Run(Start(0), acts).value.failures, 0, from);
  }
}
