/**
 A client pages through the audit log while records are inserted and the cleanup runs. Each
 request fixes its retention cutoff when its transaction begins and takes its snapshot of the
 table only with its first query; a cleanup can come in between.
 */
module PagingRuns {
  import opened Common
  import opened Paging

  /** Five seconds in microseconds: a request that takes longer is cancelled. */
  const READ_TIMEOUT: int := 5_000_000

  /** `begun` is the clock value at which the request under way began; `snapshots` are those of the requests served. */
  datatype State = State(
    clock: int, table: set<Record>, begun: Option<int>, requests: seq<Request>, snapshots: seq<int>)

  datatype Action =
    | Tick(now: int)
    | Insert(record: Record)
    | Cleanup(now: int, locked: set<Record>, left: set<Record>)
    | Begin
    | Serve(rows: seq<Record>)
    | GiveUp

  /** The list query of the request under way, on the table as it is now. */
  ghost predicate Answers(s: State, q: Query, size: PageSize, rows: seq<Record>)
    requires s.begun.Some?
  {
    var cursor := CursorBefore(s.requests, size, |s.requests|);
    IsListing(rows, Eligible(s.table, q, s.begun.value - RETENTION, cursor), size + 1)
  }

  ghost function Step(s: State, a: Action, q: Query, size: PageSize): Option<State> {
    match a
    case Tick(now) => if now >= s.clock then Some(s.(clock := now)) else None
    case Insert(r) =>
      if forall k :: k in s.table ==> k.key != r.key then Some(s.(table := s.table + {r})) else None
    case Cleanup(now, locked, left) =>
      // The statement compares with the start of its own transaction.
      if now <= s.clock && IsCleanup(s.table, locked, now, left) then Some(s.(table := left)) else None
    case Begin =>
      if s.begun.None? && (s.requests != [] ==> HasMore(size, s.requests, |s.requests| - 1))
      then Some(s.(begun := Some(s.clock))) else None
    case Serve(rows) =>
      if s.begun.Some? && s.clock < s.begun.value + READ_TIMEOUT && Answers(s, q, size, rows)
      then Some(s.(begun := None, snapshots := s.snapshots + [s.clock],
                   requests := s.requests + [Request(s.table, s.begun.value - RETENTION, rows)]))
      else None
    case GiveUp => Some(s.(begun := None))
  }

  /** A request reads the table as it is within five seconds of its begin, and looks back 180 days from that begin. */
  lemma ServeMeans(s: State, rows: seq<Record>, q: Query, size: PageSize)
    ensures Step(s, Serve(rows), q, size).Some? ==>
              var n := Step(s, Serve(rows), q, size).value;
              && s.begun.Some? && s.clock - s.begun.value < 5_000_000 && n.begun.None?
              && n.table == s.table && n.clock == s.clock && n.snapshots == s.snapshots + [s.clock]
              && n.requests == s.requests + [Request(s.table, s.begun.value - 15_552_000_000_000, rows)]
    ensures Step(s, Begin, q, size).Some? ==>
              Step(s, Begin, q, size) == Some(s.(begun := Some(s.clock)))
  {
  }

  /** Time goes on, records with new keys come in, and a request can be given up; nothing else changes. */
  lemma OtherStepsMean(s: State, now: int, r: Record, q: Query, size: PageSize)
    ensures Step(s, Tick(now), q, size) == if now < s.clock then None else Some(s.(clock := now))
    ensures Step(s, Insert(r), q, size) ==
            if exists k :: k in s.table && k.key == r.key then None else Some(s.(table := s.table + {r}))
    ensures Step(s, GiveUp, q, size) == Some(s.(begun := None))
  {
  }

  ghost function Run(s: State, acts: seq<Action>, q: Query, size: PageSize): Option<State>
    decreases |acts|
  {
    if acts == [] then Some(s)
    else
      var n := Step(s, acts[0], q, size);
      if n.None? then None else Run(n.value, acts[1..], q, size)
  }

  function Start(clock: int, table: set<Record>): State { State(clock, table, None, [], []) }

  // ---------------------------------------------------------------- invariant

  /** Cutoffs and snapshots keep step with the clock. */
  ghost predicate Timely(s: State) {
    && |s.snapshots| == |s.requests|
    && (s.begun.Some? ==> s.begun.value <= s.clock)
    && (forall i :: 0 <= i < |s.snapshots| ==> s.requests[i].cutoff <= s.snapshots[i] - RETENTION)
    && (forall i, j :: 0 <= i <= j < |s.snapshots| ==> s.snapshots[i] <= s.snapshots[j] <= s.clock)
  }

  /** A record of the first snapshot stays in every table until it has expired there. */
  ghost predicate Keeps(s: State, r: Record)
    requires |s.snapshots| == |s.requests|
  {
    s.requests != [] && r in s.requests[0].table ==>
      && (!Expired(r, s.clock) ==> r in s.table)
      && forall i :: 0 <= i < |s.requests| && !Expired(r, s.snapshots[i]) ==> r in s.requests[i].table
  }

  ghost predicate Inv(s: State, q: Query, size: PageSize, r: Record) {
    && Walk(q, size, s.requests) && Timely(s) && Keeps(s, r)
    && (s.begun.Some? && s.requests != [] ==> HasMore(size, s.requests, |s.requests| - 1))
  }

  lemma StepKeepsInv(s: State, a: Action, q: Query, size: PageSize, r: Record)
    requires Inv(s, q, size, r) && Step(s, a, q, size).Some?
    ensures Inv(Step(s, a, q, size).value, q, size, r)
  {
    if a.Serve? {
      WalkContinues(q, size, s.requests, Request(s.table, s.begun.value - RETENTION, a.rows));
    }
  }

  lemma {:induction false} RunKeepsInv(s: State, acts: seq<Action>, q: Query, size: PageSize, r: Record)
    requires Inv(s, q, size, r) && Run(s, acts, q, size).Some?
    ensures Inv(Run(s, acts, q, size).value, q, size, r)
    decreases |acts|
  {
    if acts != [] {
      StepKeepsInv(s, acts[0], q, size, r);
      RunKeepsInv(Step(s, acts[0], q, size).value, acts[1..], q, size, r);
    }
  }

  // ---------------------------------------------------------------- what the client gets

  /**
   A walk that finished, whose last request began at `begun` and took its snapshot at `taken`; `r` was
   there at the first.
   */
  ghost predicate Ended(clock: int, table: set<Record>, acts: seq<Action>, q: Query, size: PageSize, r: Record,
                        begun: int, taken: int) {
    && Run(Start(clock, table), acts, q, size).Some?
    && var s := Run(Start(clock, table), acts, q, size).value;
       && Finished(size, s.requests) && |s.snapshots| == |s.requests|
       && r in s.requests[0].table
       && s.requests[|s.requests| - 1].cutoff == begun - RETENTION
       && s.snapshots[|s.snapshots| - 1] == taken
  }

  ghost predicate ShownOnce(clock: int, table: set<Record>, acts: seq<Action>, q: Query, size: PageSize, r: Record) {
    && Run(Start(clock, table), acts, q, size).Some?
    && multiset(Shown(size, Run(Start(clock, table), acts, q, size).value.requests))[r] == 1
  }

  /**
   Whatever is inserted and cleaned up meanwhile, a matching record unexpired at the last snapshot is shown
   exactly once.
   */
  lemma UnexpiredRecordsAreShownOnce(clock: int, table: set<Record>, acts: seq<Action>, q: Query, size: PageSize,
                                     r: Record, begun: int, taken: int)
    requires Ended(clock, table, acts, q, size, r, begun, taken)
    requires Matches(r, q, begun - RETENTION) && !Expired(r, taken)
    ensures ShownOnce(clock, table, acts, q, size, r)
  {
    var start := Start(clock, table);
    RunKeepsInv(start, acts, q, size, r);
    var s := Run(start, acts, q, size).value;
    forall i | 0 <= i < |s.requests| ensures r in s.requests[i].table && Matches(r, q, s.requests[i].cutoff) {
      assert s.snapshots[i] <= taken;
    }
    PagesAreComplete(q, size, s.requests, r);
  }

  // ---------------------------------------------------------------- when it does not

  /** The record `k` places above `r`, at the same time. */
  function Above(r: Record, k: nat): Record { r.(key := Key(r.key.at, r.key.id + k)) }

  /** `size` newer records and `r`: the rows of a first page that stops just above `r`. */
  function Stack(r: Record, size: PageSize): seq<Record> {
    seq(size + 1, i requires 0 <= i <= size => Above(r, size - i))
  }

  function Crowd(r: Record, size: PageSize): set<Record> { Elements(Stack(r, size)) }

  function FirstRequest(r: Record, size: PageSize, begun: int): Request {
    Request(Crowd(r, size), begun - RETENTION, Stack(r, size))
  }

  lemma CrowdIs(r: Record, size: PageSize)
    ensures forall x :: x in Crowd(r, size) <==> exists k: nat :: k <= size && x == Above(r, k)
    ensures r in Crowd(r, size)
  {
    forall k: nat | k <= size ensures Above(r, k) in Crowd(r, size) {
      assert Stack(r, size)[size - k] == Above(r, k);
    }
    assert Above(r, 0) == r;
  }

  lemma FirstPage(q: Query, size: PageSize, r: Record, begun: int)
    requires Matches(r, q, begun - RETENTION)
    ensures Step(State(begun, Crowd(r, size), Some(begun), [], []), Serve(Stack(r, size)), q, size)
            == Some(State(begun, Crowd(r, size), None, [FirstRequest(r, size, begun)], [begun]))
    ensures HasMore(size, [FirstRequest(r, size, begun)], 0)
  {
    var s := State(begun, Crowd(r, size), Some(begun), [], []);
    CrowdIs(r, size);
    assert Eligible(Crowd(r, size), q, begun - RETENTION, None) == Crowd(r, size);
    assert Answers(s, q, size, Stack(r, size));
    assert s.requests + [FirstRequest(r, size, begun)] == [FirstRequest(r, size, begun)];
    assert s.snapshots + [begun] == [begun];
  }

  /** A cleanup that takes the oldest record of a table, as far as its five hundred rows go. */
  lemma CleanupTakesTheOldest(table: set<Record>, now: int, r: Record) returns (left: set<Record>)
    requires r in table && Expired(r, now) && forall k :: k in table ==> !Below(k.key, r.key)
    ensures IsCleanup(table, {}, now, left) && r !in left
  {
    left := table - {r};
    for count := 1 to 500
      invariant left <= table && |table| == |left| + count && r !in left
      invariant forall x :: x in table && x !in left ==> x in Expirable(table, {}, now)
      invariant forall d, k :: d in table && d !in left && k in Expirable(left, {}, now) ==> !Below(k.key, d.key)
    {
      if Expirable(left, {}, now) == {} { return; }
      var oldest := OldestExists(Expirable(left, {}, now));
      left := left - {oldest};
    }
  }

  lemma SecondPage(q: Query, size: PageSize, r: Record, begun: int, taken: int, left: set<Record>)
    requires begun <= taken < begun + READ_TIMEOUT && left <= Crowd(r, size) - {r}
    ensures var first := [FirstRequest(r, size, begun)];
            Step(State(taken, left, Some(begun), first, [begun]), Serve([]), q, size)
            == Some(State(taken, left, None, first + [Request(left, begun - RETENTION, [])], [begun, taken]))
  {
    var s := State(taken, left, Some(begun), [FirstRequest(r, size, begun)], [begun]);
    var cursor := CursorBefore(s.requests, size, 1);
    assert cursor == Some(Above(r, 1).key);
    CrowdIs(r, size);
    forall x | x in left ensures !Below(x.key, cursor.value) {
      var k: nat :| k <= size && x == Above(r, k);
      assert Above(r, 0) == r;
    }
    assert Eligible(left, q, begun - RETENTION, cursor) == {};
    assert [begun] + [taken] == [begun, taken];
  }

  lemma OnlyNewerAreShown(r: Record, size: PageSize, begun: int, left: set<Record>)
    ensures r !in Shown(size, [FirstRequest(r, size, begun)] + [Request(left, begun - RETENTION, [])])
  {
    var first := [FirstRequest(r, size, begun)];
    assert (first + [Request(left, begun - RETENTION, [])])[..1] == first && first[..0] == [];
    assert Shown(size, first) == Stack(r, size)[..size];
    forall i | 0 <= i < size ensures Stack(r, size)[..size][i] != r { assert Stack(r, size)[i] == Above(r, size - i); }
  }

  /**
   The retention cutoff alone does not promise that: a record that expires after the last request
   began is cleaned up before its snapshot, and no page shows it, whatever the page size.
   */
  lemma ExpiredBeforeTheSnapshot(q: Query, size: PageSize, r: Record, begun: int, taken: int)
    returns (table: set<Record>, acts: seq<Action>)
    requires Matches(r, q, begun - RETENTION)
    requires begun <= taken < begun + READ_TIMEOUT && Expired(r, taken)
    ensures Ended(begun, table, acts, q, size, r, begun, taken) && !ShownOnce(begun, table, acts, q, size, r)
  {
    table := Crowd(r, size);
    CrowdIs(r, size);
    var first := [FirstRequest(r, size, begun)];
    var left := CleanupTakesTheOldest(table, taken, r);
    FirstPage(q, size, r, begun);
    SecondPage(q, size, r, begun, taken, left);
    OnlyNewerAreShown(r, size, begun, left);
    acts := [];
    acts := RunFrom(State(taken, left, Some(begun), first, [begun]), Serve([]), acts, q, size);
    acts := RunFrom(State(taken, table, Some(begun), first, [begun]), Cleanup(taken, {}, left), acts, q, size);
    acts := RunFrom(State(begun, table, Some(begun), first, [begun]), Tick(taken), acts, q, size);
    acts := RunFrom(State(begun, table, None, first, [begun]), Begin, acts, q, size);
    acts := RunFrom(State(begun, table, Some(begun), [], []), Serve(Stack(r, size)), acts, q, size);
    acts := RunFrom(Start(begun, table), Begin, acts, q, size);
  }

  lemma RunFrom(s: State, a: Action, rest: seq<Action>, q: Query, size: PageSize) returns (acts: seq<Action>)
    ensures Run(s, acts, q, size)
            == if Step(s, a, q, size).None? then None else Run(Step(s, a, q, size).value, rest, q, size)
  {
    acts := [a] + rest;
    assert acts[1..] == rest;
  }

  /**
   For a record matching at the last request's cutoff, and any page size: every walk shows it exactly
   once if and only if it has not expired at the last snapshot.
   */
  lemma ShownExactlyUnlessExpired(q: Query, size: PageSize, r: Record, begun: int, taken: int)
    requires Matches(r, q, begun - RETENTION) && begun <= taken < begun + READ_TIMEOUT
    ensures (forall clock, table, acts ::
               Ended(clock, table, acts, q, size, r, begun, taken) ==> ShownOnce(clock, table, acts, q, size, r))
            <==> !Expired(r, taken)
  {
    if Expired(r, taken) {
      var table, acts := ExpiredBeforeTheSnapshot(q, size, r, begun, taken);
      assert Ended(begun, table, acts, q, size, r, begun, taken);
    } else {
      forall clock, table, acts | Ended(clock, table, acts, q, size, r, begun, taken)
        ensures ShownOnce(clock, table, acts, q, size, r)
      {
        UnexpiredRecordsAreShownOnce(clock, table, acts, q, size, r, begun, taken);
      }
    }
  }
}
