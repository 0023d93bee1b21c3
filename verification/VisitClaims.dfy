/**
 Public redirects: `Open` and `Continue` read a link without a lock and, when the
 link has a visit limit, re-check and claim one visit under row locks.

 A run interleaves any number of calls, one database statement at a time, with
 owner edits, password unlocks, grant cleanup and the passage of time. The main
 results say which outcomes equal a single atomic visit, exactly when a `Continue`
 can return an outcome no single instant explains, and that claims never exceed
 the limit.
 */
module VisitClaims {
  import opened Common

  datatype Mode = Direct | Intermediate | Confirmation

  datatype Link = Link(
    target: string, active: bool, mode: Mode, expiresAt: Option<int>,
    hasPassword: bool, passwordUpdatedAt: Option<int>,
    maxVisits: Option<nat>, visitsUsed: nat, deleted: bool)

  /** `served` tells which request hosts name this domain. */
  datatype Domain = Domain(served: string -> bool, enabled: bool, shortLinks: bool)

  datatype Grant = Grant(createdAt: int, expiresAt: int)

  /** The rows one slug depends on; `issued` also remembers grants that cleanup has deleted. */
  datatype Db = Db(link: Option<Link>, domain: Domain, grants: map<string, Grant>, issued: map<string, Grant>)

  datatype Refusal = Missing | Disabled | Expired | Exhausted | NotInteractive | PasswordRequired

  datatype Outcome = Refused(why: Refusal) | Page(mode: Mode, requiresPassword: bool) | Target(url: string)

  datatype Request = Open(host: string) | Continue(host: string, token: string)

  // ---------------------------------------------------------------- one atomic visit

  predicate Interactive(mode: Mode) { mode != Direct }

  predicate PastExpiry(l: Link, now: int) { l.expiresAt.Some? && l.expiresAt.value <= now }

  predicate UsedUp(l: Link) { l.maxVisits.Some? && l.visitsUsed >= l.maxVisits.value }

  predicate Reachable(db: Db, host: string) {
    && db.link.Some? && !db.link.value.deleted
    && db.domain.enabled && db.domain.shortLinks && db.domain.served(host)
  }

  /** The refusal every visitor meets, if any. */
  function Gate(db: Db, host: string, now: int): Option<Refusal> {
    if !Reachable(db, host) then Some(Missing)
    else if !db.link.value.active then Some(Disabled)
    else if PastExpiry(db.link.value, now) then Some(Expired)
    else if UsedUp(db.link.value) then Some(Exhausted)
    else None
  }

  predicate Accepts(link: Option<Link>, grants: map<string, Grant>, token: string, now: int) {
    && token != "" && token in grants && grants[token].expiresAt > now
    && link.Some? && !link.value.deleted
    && (link.value.passwordUpdatedAt.Some? ==> grants[token].createdAt >= link.value.passwordUpdatedAt.value)
  }

  /** The grant query, on the rows still stored. */
  predicate GrantFound(db: Db, token: string, now: int) { Accepts(db.link, db.grants, token, now) }

  /** Whether a grant issued for this link is good at clock value `now`. */
  predicate GrantValid(db: Db, token: string, now: int) { Accepts(db.link, db.issued, token, now) }

  /** What one indivisible visit answers at clock value `now`. */
  function Visit(db: Db, r: Request, now: int): Outcome {
    var gate := Gate(db, r.host, now);
    if gate.Some? then Refused(gate.value)
    else
      var l := db.link.value;
      match r
      case Open(_) =>
        if l.hasPassword || Interactive(l.mode) then Page(l.mode, l.hasPassword) else Target(l.target)
      case Continue(_, token) =>
        if !l.hasPassword && !Interactive(l.mode) then Refused(NotInteractive)
        else if l.hasPassword && !GrantValid(db, token, now) then Refused(PasswordRequired)
        else Target(l.target)
  }

  /** One visit leaves the rows unchanged unless it hands out a limited target. */
  function AfterVisit(db: Db, o: Outcome): Db {
    if o.Target? && db.link.Some? && db.link.value.maxVisits.Some?
    then db.(link := Some(db.link.value.(visitsUsed := db.link.value.visitsUsed + 1)))
    else db
  }

  // ---------------------------------------------------------------- what a visit means, row by row

  /** The slug leads nowhere under this host. */
  ghost predicate Absent(db: Db, host: string) {
    || db.link.None? || db.link.value.deleted
    || !db.domain.enabled || !db.domain.shortLinks || !db.domain.served(host)
  }

  /** There is a link that is active, not expired and has visits left. */
  ghost predicate Usable(db: Db, host: string, now: int) {
    && !Absent(db, host) && db.link.value.active
    && (db.link.value.expiresAt.None? || now < db.link.value.expiresAt.value)
    && (db.link.value.maxVisits.None? || db.link.value.visitsUsed < db.link.value.maxVisits.value)
  }

  /** The refusals that do not depend on who asks: each by the first condition that fails. */
  ghost predicate RefusedByLink(db: Db, host: string, now: int, why: Refusal) {
    match why
    case Missing => Absent(db, host)
    case Disabled => !Absent(db, host) && !db.link.value.active
    case Expired =>
      && !Absent(db, host) && db.link.value.active
      && db.link.value.expiresAt.Some? && db.link.value.expiresAt.value <= now
    case Exhausted =>
      && !Absent(db, host) && db.link.value.active
      && (db.link.value.expiresAt.None? || now < db.link.value.expiresAt.value)
      && db.link.value.maxVisits.Some? && db.link.value.maxVisits.value <= db.link.value.visitsUsed
    case NotInteractive => false
    case PasswordRequired => false
  }

  /** An `Open` hands out the target of a direct link without password, and the page of any other usable link. */
  ghost predicate OpenAnswers(db: Db, host: string, now: int, o: Outcome) {
    match o
    case Target(url) =>
      && Usable(db, host, now) && !db.link.value.hasPassword && db.link.value.mode == Direct
      && url == db.link.value.target
    case Page(mode, requiresPassword) =>
      && Usable(db, host, now) && mode == db.link.value.mode && requiresPassword == db.link.value.hasPassword
      && (requiresPassword || mode == Intermediate || mode == Confirmation)
    case Refused(why) => RefusedByLink(db, host, now, why)
  }

  /** The token names a grant of this link that is still running and no older than the password. */
  ghost predicate Unlocked(db: Db, token: string, now: int) {
    && token != "" && token in db.issued && now < db.issued[token].expiresAt
    && (db.link.Some? && db.link.value.passwordUpdatedAt.Some? ==>
          db.link.value.passwordUpdatedAt.value <= db.issued[token].createdAt)
  }

  /** A `Continue` hands out the target of a usable link that needs it, given a grant where there is a password. */
  ghost predicate ContinueAnswers(db: Db, host: string, token: string, now: int, o: Outcome) {
    match o
    case Target(url) =>
      && Usable(db, host, now) && url == db.link.value.target
      && (if db.link.value.hasPassword then Unlocked(db, token, now) else db.link.value.mode != Direct)
    case Page(_, _) => false
    case Refused(NotInteractive) =>
      Usable(db, host, now) && !db.link.value.hasPassword && db.link.value.mode == Direct
    case Refused(PasswordRequired) =>
      Usable(db, host, now) && db.link.value.hasPassword && !Unlocked(db, token, now)
    case Refused(why) => RefusedByLink(db, host, now, why)
  }

  /** A visit gives exactly the answer its row calls for. */
  lemma VisitMeans(db: Db, host: string, token: string, now: int, o: Outcome)
    ensures Visit(db, Open(host), now) == o <==> OpenAnswers(db, host, now, o)
    ensures Visit(db, Continue(host, token), now) == o <==> ContinueAnswers(db, host, token, now, o)
  {
  }

  /** It uses up a visit of a limited link whose target it hands out, and changes nothing else. */
  lemma VisitCosts(db: Db, o: Outcome)
    ensures var after := AfterVisit(db, o);
            && after.domain == db.domain && after.grants == db.grants && after.issued == db.issued
            && (o.Target? && db.link.Some? && db.link.value.maxVisits.Some? ==>
                  && after.link.Some? && after.link.value.visitsUsed == db.link.value.visitsUsed + 1
                  && after.link.value.(visitsUsed := 0) == db.link.value.(visitsUsed := 0))
            && (!o.Target? || db.link.None? || db.link.value.maxVisits.None? ==> after.link == db.link)
  {
  }

  // ---------------------------------------------------------------- the protocol

  datatype Progress =
    | Fresh
    | AwaitGrant(link: Link)
    | AwaitClaim
    | AwaitLock
    | Holding
    | HoldingGrant(link: Link)
    | HoldingClaim(link: Link)
    | HoldingCommit(link: Link, claimed: bool)
    | Done(outcome: Outcome, claimed: bool)
    | Aborted

  /**
   A claim that takes five seconds (in microseconds) is cancelled: its statements fail from then on.
   The time is taken on the database clock, assumed not to outrun the application's meanwhile.
   */
  const CLAIM_TIMEOUT: int := 5_000_000

  /**
   `beganAt`, `readAt` and `movedAt` are positions in the run: the start of the call, its deciding
   read and its latest statement. `startedAt` is the clock value at which its claim started.
   */
  datatype Call = Call(request: Request, beganAt: nat, readAt: nat, movedAt: nat, startedAt: int, progress: Progress)

  datatype State = State(index: nat, clock: int, db: Db, holder: Option<nat>, calls: map<nat, Call>)

  datatype Action =
    | Tick(now: int)
    | Edit(link: Link)
    | EditDomain(domain: Domain)
    | IssueGrant(token: string, expiresAt: int)
    | DropGrant(token: string)
    | Begin(call: nat, request: Request)
    | Read(call: nat)
    | CheckGrant(call: nat)
    | StartClaim(call: nat)
    | Lock(call: nat)
    | Reread(call: nat)
    | Claim(call: nat)
    | Commit(call: nat)
    | Abort(call: nat)

  ghost predicate WellFormed(db: Db, clock: int) {
    && (db.link.Some? ==>
          && (db.link.value.maxVisits.None? ==> db.link.value.visitsUsed == 0)
          && (db.link.value.passwordUpdatedAt.Some? ==> db.link.value.passwordUpdatedAt.value <= clock))
    && (forall t :: t in db.issued ==> db.issued[t].createdAt <= clock)
    && (forall t :: t in db.grants ==> t in db.issued && db.grants[t] == db.issued[t])
    && (forall t :: t in db.issued && t !in db.grants ==> db.issued[t].expiresAt <= clock)
  }

  /** Owner updates, creation and soft deletion, as the update statements constrain them. */
  predicate LegalEdit(was: Option<Link>, l: Link, clock: int) {
    && (was.None? ==> l.visitsUsed == 0 && !l.deleted
                      && l.passwordUpdatedAt == (if l.hasPassword then Some(clock) else None))
    && (was.Some? ==>
          && !was.value.deleted
          && (l.passwordUpdatedAt == was.value.passwordUpdatedAt || l.passwordUpdatedAt == Some(clock))
          && (l.maxVisits.None? ==> l.visitsUsed == 0)
          && (l.maxVisits.Some? && was.value.maxVisits.None? ==> l.visitsUsed == 0)
          && (l.maxVisits.Some? && was.value.maxVisits.Some? ==>
                l.visitsUsed == was.value.visitsUsed))
  }

  /** A new link starts unvisited; an edit keeps the counter while there was and is a limit, and clears it otherwise. */
  lemma EditMeans(was: Option<Link>, l: Link, clock: int)
    ensures was == None ==>
              (LegalEdit(was, l, clock) <==>
                && l.visitsUsed == 0 && !l.deleted
                && (l.hasPassword ==> l.passwordUpdatedAt == Some(clock))
                && (!l.hasPassword ==> l.passwordUpdatedAt == None))
    ensures was != None ==>
              (LegalEdit(was, l, clock) <==>
                && !was.value.deleted && l.passwordUpdatedAt in [Some(clock), was.value.passwordUpdatedAt]
                && l.visitsUsed == if l.maxVisits == None || was.value.maxVisits == None then 0
                                   else was.value.visitsUsed)
  {
  }

  /** The first, unlocked read: `Open` and `Continue` test their conditions in different orders. */
  ghost function FirstRead(db: Db, r: Request, now: int): Progress {
    if !Reachable(db, r.host) then Done(Refused(Missing), false)
    else
      var l := db.link.value;
      match r
      case Open(_) =>
        if !l.active then Done(Refused(Disabled), false)
        else if PastExpiry(l, now) then Done(Refused(Expired), false)
        else if UsedUp(l) then Done(Refused(Exhausted), false)
        else if l.hasPassword || Interactive(l.mode) then Done(Page(l.mode, l.hasPassword), false)
        else if l.maxVisits.Some? then AwaitClaim
        else Done(Target(l.target), false)
      case Continue(_, _) =>
        if UsedUp(l) then
          if !l.active then Done(Refused(Disabled), false)
          else if PastExpiry(l, now) then Done(Refused(Expired), false)
          else Done(Refused(Exhausted), false)
        else if l.maxVisits.Some? then AwaitClaim
        else if !l.active then Done(Refused(Disabled), false)
        else if PastExpiry(l, now) then Done(Refused(Expired), false)
        else if !l.hasPassword && !Interactive(l.mode) then Done(Refused(NotInteractive), false)
        else if l.hasPassword then AwaitGrant(l)
        else Done(Target(l.target), false)
  }

  /** The second read, made while the link and domain rows are locked. */
  ghost function SecondRead(db: Db, r: Request, now: int): Progress {
    if !Reachable(db, r.host) then Done(Refused(Missing), false)
    else
      var l := db.link.value;
      if !l.active then Done(Refused(Disabled), false)
      else if PastExpiry(l, now) then Done(Refused(Expired), false)
      else if UsedUp(l) then Done(Refused(Exhausted), false)
      else if r.Open? && (l.hasPassword || Interactive(l.mode)) then Done(Page(l.mode, l.hasPassword), false)
      else if r.Continue? && !l.hasPassword && !Interactive(l.mode) then Done(Refused(NotInteractive), false)
      else if r.Continue? && l.hasPassword then HoldingGrant(l)
      else HoldingClaim(l)
  }

  /** Whether the claim of `c` is still within its time. */
  predicate InTime(c: Call, now: int) { now < c.startedAt + CLAIM_TIMEOUT }

  /** Moves one call; a finished or aborted call no longer holds the row locks. */
  ghost function Move(s: State, id: nat, c: Call): State
    requires id in s.calls
  {
    s.(calls := s.calls[id := c.(movedAt := s.index)],
       holder := if s.holder == Some(id) && (c.progress.Done? || c.progress.Aborted?) then None else s.holder)
  }

  ghost function Effect(s: State, a: Action): Option<State> {
    match a
    case Tick(now) => if now >= s.clock then Some(s.(clock := now)) else None
    case Edit(l) =>
      if s.holder.None? && LegalEdit(s.db.link, l, s.clock) then Some(s.(db := s.db.(link := Some(l)))) else None
    case EditDomain(d) =>
      if s.holder.None? then Some(s.(db := s.db.(domain := d))) else None
    case IssueGrant(token, expiresAt) =>
      // A grant token is fresh random text, so no call already under way carries it.
      if s.holder.None? && token !in s.db.issued
         && (forall id :: id in s.calls && s.calls[id].request.Continue? ==> s.calls[id].request.token != token)
      then Some(s.(db := s.db.(grants := s.db.grants[token := Grant(s.clock, expiresAt)],
                               issued := s.db.issued[token := Grant(s.clock, expiresAt)]))) else None
    case DropGrant(token) =>
      if token in s.db.grants && s.db.grants[token].expiresAt <= s.clock
      then Some(s.(db := s.db.(grants := s.db.grants - {token}))) else None
    case Begin(id, r) =>
      if id !in s.calls
      then Some(s.(calls := s.calls[id := Call(r, s.index + 1, s.index + 1, s.index + 1, s.clock, Fresh)]))
      else None
    case Read(id) =>
      if id in s.calls && s.calls[id].progress.Fresh?
      then var c := s.calls[id];
           Some(Move(s, id, c.(readAt := s.index, progress := FirstRead(s.db, c.request, s.clock))))
      else None
    case CheckGrant(id) =>
      if id in s.calls && s.calls[id].request.Continue? then
        var c := s.calls[id];
        var valid := GrantFound(s.db, c.request.token, s.clock);
        match c.progress
        case AwaitGrant(l) =>
          Some(Move(s, id, c.(progress := Done(if valid then Target(l.target) else Refused(PasswordRequired), false))))
        case HoldingGrant(l) =>
          if !InTime(c, s.clock) then None
          else
            var next := if valid then HoldingClaim(l) else Done(Refused(PasswordRequired), false);
            Some(Move(s, id, c.(progress := next)))
        case _ => None
      else None
    case StartClaim(id) =>
      if id in s.calls && s.calls[id].progress.AwaitClaim?
      then Some(Move(s, id, s.calls[id].(startedAt := s.clock, progress := AwaitLock)))
      else None
    case Lock(id) =>
      if id in s.calls && s.calls[id].progress.AwaitLock? && InTime(s.calls[id], s.clock) && s.holder.None? then
        var c := s.calls[id];
        if s.db.link.Some? && !s.db.link.value.deleted
        then Some(Move(s, id, c.(progress := Holding)).(holder := Some(id)))
        else Some(Move(s, id, c.(readAt := s.index, progress := Done(Refused(Missing), false))))
      else None
    case Reread(id) =>
      if id in s.calls && s.calls[id].progress.Holding? && InTime(s.calls[id], s.clock)
      then var c := s.calls[id];
           Some(Move(s, id, c.(readAt := s.index, progress := SecondRead(s.db, c.request, s.clock))))
      else None
    case Claim(id) =>
      if id in s.calls && s.calls[id].progress.HoldingClaim? && InTime(s.calls[id], s.clock) then
        var c := s.calls[id];
        // The claim statement reads its own locked row; it increments only below the limit.
        if s.db.link.Some? && s.db.link.value.maxVisits.Some? && UsedUp(s.db.link.value)
        then Some(Move(s, id, c.(progress := Done(Refused(Exhausted), false))))
        else Some(Move(s, id, c.(progress := HoldingCommit(c.progress.link, c.progress.link.maxVisits.Some?))))
      else None
    case Commit(id) =>
      if id in s.calls && s.calls[id].progress.HoldingCommit? && InTime(s.calls[id], s.clock) then
        var c := s.calls[id];
        var o := Target(c.progress.link.target);
        Some(Move(if c.progress.claimed then s.(db := AfterVisit(s.db, o)) else s,
                  id, c.(progress := Done(o, c.progress.claimed))))
      else None
    case Abort(id) =>
      if id in s.calls && !s.calls[id].progress.Done? && !s.calls[id].progress.Aborted?
      then Some(Move(s, id, s.calls[id].(progress := Aborted))) else None
  }

  ghost function Step(s: State, a: Action): Option<State> {
    var e := Effect(s, a);
    if e.Some? then Some(e.value.(index := s.index + 1)) else None
  }

  /** A run: the states visited, one action apart, from a well-formed store with no call under way. */
  ghost predicate IsRun(run: seq<State>, acts: seq<Action>) {
    && |run| == |acts| + 1
    && run[0].index == 0 && run[0].holder.None? && run[0].calls == map[] && WellFormed(run[0].db, run[0].clock)
    && (forall i :: 0 <= i < |acts| ==> Step(run[i], acts[i]) == Some(run[i + 1]))
  }

  // ---------------------------------------------------------------- invariants of every run

  ghost predicate InHold(p: Progress) {
    p.Holding? || p.HoldingGrant? || p.HoldingClaim? || p.HoldingCommit?
  }

  ghost predicate StateOk(s: State) {
    && WellFormed(s.db, s.clock)
    && (forall id :: id in s.calls ==> (InHold(s.calls[id].progress) <==> s.holder == Some(id)))
    && (s.holder.Some? ==> s.holder.value in s.calls && s.db.link.Some? && !s.db.link.value.deleted)
  }

  /** Clock, password revision and issued grants only move forward. */
  ghost predicate Later(a: State, b: State) {
    && a.clock <= b.clock
    && (a.db.link.Some? ==> b.db.link.Some?)
    && (a.db.link.Some? && a.db.link.value.passwordUpdatedAt.Some?
        && a.db.link.value.passwordUpdatedAt.value <= a.clock ==>
          && b.db.link.value.passwordUpdatedAt.Some?
          && a.db.link.value.passwordUpdatedAt.value <= b.db.link.value.passwordUpdatedAt.value)
    && (forall t :: t in a.db.issued ==> t in b.db.issued && b.db.issued[t] == a.db.issued[t])
  }

  predicate ByEnvironment(a: Action) {
    a.Tick? || a.Edit? || a.EditDomain? || a.IssueGrant? || a.DropGrant?
  }

  lemma EnvironmentKeepsState(s: State, a: Action)
    requires StateOk(s) && Step(s, a).Some? && ByEnvironment(a)
    ensures StateOk(Step(s, a).value) && Later(s, Step(s, a).value)
  {
  }

  lemma FirstReadsKeepState(s: State, a: Action)
    requires StateOk(s) && Step(s, a).Some? && (a.Begin? || a.Read?)
    ensures StateOk(Step(s, a).value) && Later(s, Step(s, a).value)
  {
  }

  lemma LockedReadsKeepState(s: State, a: Action)
    requires StateOk(s) && Step(s, a).Some? && (a.CheckGrant? || a.Reread?)
    ensures StateOk(Step(s, a).value) && Later(s, Step(s, a).value)
  {
  }

  lemma LocksKeepState(s: State, a: Action)
    requires StateOk(s) && Step(s, a).Some? && (a.StartClaim? || a.Lock? || a.Abort?)
    ensures StateOk(Step(s, a).value) && Later(s, Step(s, a).value)
  {
  }

  lemma WritesKeepState(s: State, a: Action)
    requires StateOk(s) && Step(s, a).Some? && (a.Claim? || a.Commit?)
    ensures StateOk(Step(s, a).value) && Later(s, Step(s, a).value)
  {
  }

  lemma StepKeepsState(s: State, a: Action)
    requires StateOk(s) && Step(s, a).Some?
    ensures StateOk(Step(s, a).value) && Later(s, Step(s, a).value)
  {
    if ByEnvironment(a) {
      EnvironmentKeepsState(s, a);
    } else if a.Begin? || a.Read? {
      FirstReadsKeepState(s, a);
    } else if a.CheckGrant? || a.Reread? {
      LockedReadsKeepState(s, a);
    } else if a.StartClaim? || a.Lock? || a.Abort? {
      LocksKeepState(s, a);
    } else {
      WritesKeepState(s, a);
    }
  }

  /** Deleting expired grants never changes the answer of the grant query. */
  lemma CleanupIsInvisible(s: State, token: string)
    requires StateOk(s)
    ensures GrantFound(s.db, token, s.clock) <==> GrantValid(s.db, token, s.clock)
  {
  }

  // ---------------------------------------------------------------- outcomes are atomic

  /**
   `o` is what one visit answers at position `k`, no later than the call's last statement, at a clock
   value from inside the call.
   */
  ghost predicate AtomicAt(run: seq<State>, c: Call, o: Outcome, claimed: bool, k: nat, now: int) {
    && c.beganAt <= k <= c.movedAt && k < |run|
    && run[c.beganAt].clock <= now <= run[k].clock
    && o == Visit(run[k].db, c.request, now)
    && (claimed <==> AfterVisit(run[k].db, o) != run[k].db)
    && (claimed ==> k + 1 < |run| && run[k + 1].db == AfterVisit(run[k].db, o))
  }

  ghost predicate Atomic(run: seq<State>, c: Call, o: Outcome, claimed: bool) {
    exists k: nat, now: int :: AtomicAt(run, c, o, claimed, k, now)
  }

  /**
   A `Continue` whose grant may stop being valid between the link read and the grant
   check without the link's own conditions accounting for it: an unlimited link, which
   is read without a lock, or a limited link that expires no later than the grant, when
   the grant expires before the claim is cancelled.
   */
  ghost predicate Vulnerable(db: Db, r: Request, now: int) {
    && r.Continue? && Gate(db, r.host, now).None? && db.link.value.hasPassword
    && GrantValid(db, r.token, now)
    && (db.link.value.maxVisits.None?
        || (&& db.link.value.expiresAt.Some? && db.link.value.expiresAt.value <= db.issued[r.token].expiresAt
            && db.issued[r.token].expiresAt < now + CLAIM_TIMEOUT))
  }

  ghost predicate Explained(run: seq<State>, c: Call, o: Outcome, claimed: bool)
    requires c.readAt < |run|
  {
    || Atomic(run, c, o, claimed)
    || (&& o == Refused(PasswordRequired) && !claimed
        && Vulnerable(run[c.readAt].db, c.request, run[c.readAt].clock))
  }

  /** Grants a running call can use were all issued before its deciding read. */
  ghost predicate NoNewGrant(before: Db, after: Db, r: Request) {
    r.Continue? && r.token in after.issued ==>
      r.token in before.issued && before.issued[r.token] == after.issued[r.token]
  }

  /** The link's conditions held at the deciding read, and a grant too once it has been checked. */
  ghost predicate Admitted(s: State, r: Request, l: Link, grantChecked: bool) {
    && Gate(s.db, r.host, s.clock).None? && s.db.link == Some(l)
    && (r.Open? ==> !l.hasPassword && !Interactive(l.mode))
    && (r.Continue? ==> l.hasPassword || Interactive(l.mode))
    && (r.Continue? && l.hasPassword && grantChecked ==> GrantValid(s.db, r.token, s.clock))
  }

  ghost predicate CallOk(run: seq<State>, c: Call) {
    && c.beganAt <= c.readAt < |run|
    && var s := run[|run| - 1];
       var read := run[c.readAt];
       && run[c.beganAt].clock <= read.clock
       && Later(read, s) && WellFormed(read.db, read.clock)
       && (!c.progress.Done? && !c.progress.Aborted? ==> NoNewGrant(read.db, s.db, c.request))
       && match c.progress
          case Fresh => true
          case AwaitClaim => true
          case AwaitLock => c.startedAt <= s.clock
          case Holding => c.startedAt <= s.clock
          case Aborted => true
          case AwaitGrant(l) =>
            Admitted(read, c.request, l, false) && c.request.Continue? && l.hasPassword && l.maxVisits.None?
          case HoldingGrant(l) =>
            && Admitted(read, c.request, l, false) && c.request.Continue? && l.hasPassword
            && c.startedAt <= read.clock && s.db.link == read.db.link && s.db.domain == read.db.domain
          case HoldingClaim(l) =>
            && Admitted(read, c.request, l, true)
            && s.db.link == read.db.link && s.db.domain == read.db.domain
          case HoldingCommit(l, claimed) =>
            && Admitted(read, c.request, l, true) && (claimed <==> l.maxVisits.Some?)
            && s.db.link == read.db.link && s.db.domain == read.db.domain
          case Done(o, claimed) => Explained(run, c, o, claimed)
  }

  lemma AtomicLasts(run: seq<State>, next: State, c: Call, o: Outcome, claimed: bool)
    requires Atomic(run, c, o, claimed)
    ensures Atomic(run + [next], c, o, claimed)
  {
    var k: nat, now: int :| AtomicAt(run, c, o, claimed, k, now);
    assert AtomicAt(run + [next], c, o, claimed, k, now);
  }

  /** A grant valid at a check was already valid at the earlier deciding read. */
  lemma GrantWasValid(read: State, s: State, token: string, r: Request)
    requires r == Continue(r.host, token) && NoNewGrant(read.db, s.db, r)
             && Later(read, s) && WellFormed(read.db, read.clock)
    requires GrantValid(s.db, token, s.clock)
    requires read.db.link.Some? && !read.db.link.value.deleted
    ensures GrantValid(read.db, token, read.clock)
  {
  }

  /** The phases in which a call holds the row lock after its deciding read. */
  predicate HoldsRead(p: Progress) { p.HoldingGrant? || p.HoldingClaim? || p.HoldingCommit? }

  /** A step of somebody else issues no grant that call `id` could use, and spares the rows it has locked. */
  lemma StepSparesCall(s: State, a: Action, id: nat)
    requires StateOk(s) && Step(s, a).Some? && id in s.calls
    requires var n := Step(s, a).value; id in n.calls && n.calls[id] == s.calls[id]
    ensures var n, c := Step(s, a).value, s.calls[id];
            && (!c.progress.Done? && !c.progress.Aborted? ==> NoNewGrant(s.db, n.db, c.request))
            && (HoldsRead(c.progress) ==> n.db.link == s.db.link && n.db.domain == s.db.domain)
  {
  }

  /** What is known about an unmoved call outlasts any such state. */
  lemma CallOkLasts(run: seq<State>, n: State, c: Call)
    requires |run| > 0 && CallOk(run, c)
    requires var s := run[|run| - 1];
             && Later(run[c.readAt], n) && s.clock <= n.clock
             && (!c.progress.Done? && !c.progress.Aborted? ==> NoNewGrant(s.db, n.db, c.request))
             && (HoldsRead(c.progress) ==> n.db.link == s.db.link && n.db.domain == s.db.domain)
    ensures CallOk(run + [n], c)
  {
    if c.progress.Done? && Atomic(run, c, c.progress.outcome, c.progress.claimed) {
      AtomicLasts(run, n, c, c.progress.outcome, c.progress.claimed);
    }
  }

  /** A step that does not move call `c` keeps what is known about it. */
  lemma StillOk(run: seq<State>, a: Action, id: nat, c: Call)
    requires |run| > 0 && var s := run[|run| - 1];
             StateOk(s) && Step(s, a).Some? && id in s.calls && s.calls[id] == c && CallOk(run, c)
             && id in Step(s, a).value.calls && Step(s, a).value.calls[id] == c
    ensures CallOk(run + [Step(run[|run| - 1], a).value], c)
  {
    var s := run[|run| - 1];
    var n := Step(s, a).value;
    StepKeepsState(s, a);
    StepSparesCall(s, a, id);
    CallOkLasts(run, n, c);
  }

  /** The exceptional refusal: the grant held at the link read but not at the grant check. */
  lemma LateRefusal(run: seq<State>, c: Call, s: State)
    requires CallOk(run, c) && s == run[|run| - 1] && StateOk(s)
    requires c.progress.AwaitGrant? || (c.progress.HoldingGrant? && InTime(c, s.clock))
    requires c.request.Continue? && !GrantValid(s.db, c.request.token, s.clock)
    ensures Explained(run, c.(movedAt := |run| - 1), Refused(PasswordRequired), false)
  {
    var read := run[c.readAt];
    var token := c.request.token;
    var m := c.(movedAt := |run| - 1);
    if !GrantValid(read.db, token, read.clock) {
      assert AtomicAt(run, m, Refused(PasswordRequired), false, c.readAt, read.clock);
    } else if !Vulnerable(read.db, c.request, read.clock) {
      var g := read.db.issued[token].expiresAt;
      assert g <= s.clock < read.clock + CLAIM_TIMEOUT;
      assert AtomicAt(run, m, Refused(PasswordRequired), false, |run| - 1, g);
    }
  }

  ghost function After(run: seq<State>, a: Action): seq<State>
    requires |run| > 0 && Step(run[|run| - 1], a).Some?
  {
    run + [Step(run[|run| - 1], a).value]
  }

  /** A read that answers the call answers what a visit at that instant answers. */
  lemma ReadIsVisit(db: Db, r: Request, now: int, p: Progress)
    requires || p == FirstRead(db, r, now) || p == SecondRead(db, r, now)
             || ((db.link.None? || db.link.value.deleted) && p == Done(Refused(Missing), false))
    ensures p.Done? ==> p.outcome == Visit(db, r, now) && !p.claimed && AfterVisit(db, p.outcome) == db
  {
  }

  /** A read, locked or not, that puts call `c` of the last state into progress `p`. */
  lemma ReadMoves(run: seq<State>, n: State, c: Call, p: Progress)
    requires |run| > 0 && var s := run[|run| - 1];
             && WellFormed(s.db, s.clock) && s.index == |run| - 1 && CallOk(run, c)
             && (p == FirstRead(s.db, c.request, s.clock) || p == SecondRead(s.db, c.request, s.clock)
                 || ((s.db.link.None? || s.db.link.value.deleted) && p == Done(Refused(Missing), false)))
             && n.db == s.db && n.clock == s.clock
             && (p.HoldingGrant? ==> c.startedAt <= s.clock)
    ensures CallOk(run + [n], c.(readAt := |run| - 1, movedAt := |run| - 1, progress := p))
  {
    var s := run[|run| - 1];
    var m := c.(readAt := |run| - 1, movedAt := |run| - 1, progress := p);
    ReadIsVisit(s.db, c.request, s.clock, p);
    if p.Done? {
      assert AtomicAt(run + [n], m, p.outcome, false, s.index, s.clock);
    }
  }

  /** A grant check that succeeds. */
  lemma CheckPasses(run: seq<State>, n: State, c: Call, p: Progress)
    requires |run| > 0 && var s := run[|run| - 1];
             && CallOk(run, c) && c.request.Continue? && GrantValid(s.db, c.request.token, s.clock)
             && (c.progress.AwaitGrant? || c.progress.HoldingGrant?)
             && p == (if c.progress.AwaitGrant? then Done(Target(c.progress.link.target), false)
                      else HoldingClaim(c.progress.link))
             && n.db == s.db && n.clock == s.clock
    ensures CallOk(run + [n], c.(movedAt := |run| - 1, progress := p))
  {
    var s := run[|run| - 1];
    var read := run[c.readAt];
    GrantWasValid(read, s, c.request.token, c.request);
    if p.Done? {
      assert AtomicAt(run + [n], c.(movedAt := |run| - 1, progress := p), p.outcome, false, c.readAt, read.clock);
    }
  }

  /** A grant check that fails. */
  lemma CheckRefuses(run: seq<State>, n: State, c: Call)
    requires |run| > 0 && var s := run[|run| - 1];
             && StateOk(s) && CallOk(run, c) && c.request.Continue? && !GrantValid(s.db, c.request.token, s.clock)
             && (c.progress.AwaitGrant? || (c.progress.HoldingGrant? && InTime(c, s.clock)))
             && n.db == s.db && n.clock == s.clock
    ensures CallOk(run + [n], c.(movedAt := |run| - 1, progress := Done(Refused(PasswordRequired), false)))
  {
    var m := c.(movedAt := |run| - 1, progress := Done(Refused(PasswordRequired), false));
    LateRefusal(run, c, run[|run| - 1]);
    var late := c.(movedAt := |run| - 1);
    if Atomic(run, late, Refused(PasswordRequired), false) {
      var k: nat, now: int :| AtomicAt(run, late, Refused(PasswordRequired), false, k, now);
      assert AtomicAt(run + [n], m, Refused(PasswordRequired), false, k, now);
    }
  }

  /** A claim started, a lock taken, a claim written or an abort: the rows stay as they were. */
  lemma LockClaimOrAbortMoves(run: seq<State>, n: State, c: Call, startedAt: int, p: Progress)
    requires |run| > 0 && var s := run[|run| - 1];
             && StateOk(s) && CallOk(run, c)
             && (|| (c.progress.AwaitClaim? && p == AwaitLock && startedAt == s.clock)
                 || (c.progress.AwaitLock? && p == Holding && startedAt == c.startedAt)
                 || (c.progress.HoldingClaim?
                     && !(s.db.link.Some? && s.db.link.value.maxVisits.Some? && UsedUp(s.db.link.value))
                     && p == HoldingCommit(c.progress.link, c.progress.link.maxVisits.Some?))
                 || p == Aborted)
             && n.db == s.db && n.clock == s.clock
    ensures !c.progress.Done? ==> CallOk(run + [n], c.(movedAt := |run| - 1, startedAt := startedAt, progress := p))
  {
  }

  /** The claim statement never finds the counter at its limit: the locked row was below it. */
  lemma ClaimSucceeds(run: seq<State>, c: Call)
    requires |run| > 0 && CallOk(run, c) && c.progress.HoldingClaim?
    ensures var l := run[|run| - 1].db.link; l.Some? && !(l.value.maxVisits.Some? && UsedUp(l.value))
  {
  }

  /** A commit, with its claim if there is one. */
  lemma CommitMoves(run: seq<State>, n: State, c: Call)
    requires |run| > 0 && var s := run[|run| - 1];
             && StateOk(s) && CallOk(run, c) && c.progress.HoldingCommit?
             && n.db == (if c.progress.claimed then AfterVisit(s.db, Target(c.progress.link.target)) else s.db)
             && n.clock == s.clock
    ensures CallOk(run + [n],
                   c.(movedAt := |run| - 1, progress := Done(Target(c.progress.link.target), c.progress.claimed)))
  {
    var s := run[|run| - 1];
    var o := Target(c.progress.link.target);
    var m := c.(movedAt := |run| - 1, progress := Done(o, c.progress.claimed));
    GrantStillThere(run[c.readAt], s, c);
    assert AtomicAt(run + [n], m, o, c.progress.claimed, |run| - 1, run[c.readAt].clock);
  }

  /** The link's conditions and the grant, evaluated at the read's clock value, still hold on the locked rows. */
  lemma GrantStillThere(read: State, s: State, c: Call)
    requires Later(read, s) && WellFormed(read.db, read.clock)
    requires c.progress.HoldingCommit? && Admitted(read, c.request, c.progress.link, true)
    requires s.db.link == read.db.link && s.db.domain == read.db.domain
    ensures Visit(s.db, c.request, read.clock) == Target(c.progress.link.target)
  {
  }

  /** Everything known about a run: each state is consistent and each call's progress is accounted for. */
  ghost predicate RunOk(run: seq<State>) {
    && |run| > 0
    && var s := run[|run| - 1];
       && StateOk(s) && s.index == |run| - 1
       && (forall id :: id in s.calls ==> CallOk(run, s.calls[id]))
  }

  /** How action `a` moves call `c` to `m`, and the state `s` to `n`. */
  ghost predicate Moves(s: State, a: Action, n: State, c: Call, m: Call) {
    && n.clock == s.clock && (a.Commit? || n.db == s.db)
    && (a.Lock? || a.Reread? || a.Claim? || a.Commit? || (a.CheckGrant? && c.progress.HoldingGrant?) ==>
          InTime(c, s.clock))
    && match a
       case Read(_) =>
         c.progress.Fresh?
         && m == c.(readAt := s.index, movedAt := s.index, progress := FirstRead(s.db, c.request, s.clock))
       case StartClaim(_) =>
         c.progress.AwaitClaim? && m == c.(movedAt := s.index, startedAt := s.clock, progress := AwaitLock)
       case Reread(_) =>
         c.progress.Holding?
         && m == c.(readAt := s.index, movedAt := s.index, progress := SecondRead(s.db, c.request, s.clock))
       case Lock(_) =>
         && c.progress.AwaitLock?
         && m == if s.db.link.Some? && !s.db.link.value.deleted
                 then c.(movedAt := s.index, progress := Holding)
                 else c.(readAt := s.index, movedAt := s.index, progress := Done(Refused(Missing), false))
       case CheckGrant(_) =>
         && c.request.Continue? && (c.progress.AwaitGrant? || c.progress.HoldingGrant?)
         && m == c.(movedAt := s.index,
                    progress := if !GrantFound(s.db, c.request.token, s.clock)
                                then Done(Refused(PasswordRequired), false)
                                else if c.progress.AwaitGrant? then Done(Target(c.progress.link.target), false)
                                else HoldingClaim(c.progress.link))
       case Claim(_) =>
         && c.progress.HoldingClaim?
         && m == c.(movedAt := s.index,
                    progress := if s.db.link.Some? && s.db.link.value.maxVisits.Some? && UsedUp(s.db.link.value)
                                then Done(Refused(Exhausted), false)
                                else HoldingCommit(c.progress.link, c.progress.link.maxVisits.Some?))
       case Commit(_) =>
         && c.progress.HoldingCommit?
         && m == c.(movedAt := s.index, progress := Done(Target(c.progress.link.target), c.progress.claimed))
         && n.db == (if c.progress.claimed then AfterVisit(s.db, Target(c.progress.link.target)) else s.db)
       case Abort(_) => !c.progress.Done? && m == c.(movedAt := s.index, progress := Aborted)
       case _ => false
  }

  lemma StepMoves(s: State, a: Action, id: nat)
    requires Step(s, a).Some? && id in s.calls && Step(s, a).value.calls[id] != s.calls[id]
    ensures Moves(s, a, Step(s, a).value, s.calls[id], Step(s, a).value.calls[id])
    ensures !ByEnvironment(a) && !a.Begin? && a.call == id
  {
  }

  lemma MovedCallOk(run: seq<State>, a: Action, n: State, c: Call, m: Call)
    requires |run| > 0 && StateOk(run[|run| - 1]) && run[|run| - 1].index == |run| - 1 && CallOk(run, c)
    requires Moves(run[|run| - 1], a, n, c, m)
    ensures CallOk(run + [n], m)
  {
    var s := run[|run| - 1];
    match a {
      case Read(_) => ReadMoves(run, n, c, m.progress);
      case Reread(_) => ReadMoves(run, n, c, m.progress);
      case Lock(_) =>
        if m.progress.Done? {
          ReadMoves(run, n, c, m.progress);
        } else {
          LockClaimOrAbortMoves(run, n, c, c.startedAt, Holding);
        }
      case Claim(_) =>
        ClaimSucceeds(run, c);
        LockClaimOrAbortMoves(run, n, c, c.startedAt, m.progress);
      case StartClaim(_) => LockClaimOrAbortMoves(run, n, c, s.clock, AwaitLock);
      case Abort(_) => LockClaimOrAbortMoves(run, n, c, c.startedAt, Aborted);
      case CheckGrant(_) =>
        CleanupIsInvisible(s, c.request.token);
        if GrantValid(s.db, c.request.token, s.clock) {
          CheckPasses(run, n, c, m.progress);
        } else {
          CheckRefuses(run, n, c);
        }
      case Commit(_) => CommitMoves(run, n, c);
    }
  }

  lemma StepKeepsCall(run: seq<State>, a: Action, id: nat)
    requires RunOk(run) && Step(run[|run| - 1], a).Some? && id in Step(run[|run| - 1], a).value.calls
    ensures CallOk(After(run, a), Step(run[|run| - 1], a).value.calls[id])
  {
    var s := run[|run| - 1];
    var n := Step(s, a).value;
    if id !in s.calls {
      assert a.Begin? && a.call == id;
    } else if n.calls[id] == s.calls[id] {
      StillOk(run, a, id, s.calls[id]);
    } else {
      StepMoves(s, a, id);
      MovedCallOk(run, a, n, s.calls[id], n.calls[id]);
    }
  }

  lemma StepKeepsRun(run: seq<State>, a: Action)
    requires RunOk(run) && Step(run[|run| - 1], a).Some?
    ensures RunOk(After(run, a))
  {
    var s := run[|run| - 1];
    var n := Step(s, a).value;
    StepKeepsState(s, a);
    forall id | id in n.calls ensures CallOk(After(run, a), n.calls[id]) { StepKeepsCall(run, a, id); }
  }

  lemma {:induction false} EveryRunOk(run: seq<State>, acts: seq<Action>)
    requires IsRun(run, acts)
    ensures RunOk(run)
    decreases |acts|
  {
    if acts != [] {
      var n := |acts| - 1;
      EveryRunOk(run[..n + 1], acts[..n]);
      assert Step(run[n], acts[n]) == Some(run[n + 1]);
      StepKeepsRun(run[..n + 1], acts[n]);
      assert run[..n + 1] + [run[n + 1]] == run;
    }
  }

  /** A call is answered by a statement of its own, and only once. */
  lemma AnsweringStep(s: State, a: Action, id: nat)
    requires Step(s, a).Some? && id in Step(s, a).value.calls && Step(s, a).value.calls[id].progress.Done?
    requires id !in s.calls || s.calls[id] != Step(s, a).value.calls[id]
    ensures id in s.calls && !s.calls[id].progress.Done? && Step(s, a).value.calls[id].movedAt == s.index
  {
    if id in s.calls { StepMoves(s, a, id); }
  }

  lemma {:induction false} RunIndex(run: seq<State>, acts: seq<Action>, i: nat)
    requires IsRun(run, acts) && i <= |acts|
    ensures run[i].index == i
  {
    if i > 0 {
      RunIndex(run, acts, i - 1);
      assert Step(run[i - 1], acts[i - 1]) == Some(run[i]);
    }
  }

  /** The recorded last statement of an answered call is the step that answered it. */
  lemma {:induction false} AnsweredByItsLastStatement(run: seq<State>, acts: seq<Action>, id: nat, n: nat)
    requires IsRun(run, acts) && n <= |acts| && id in run[n].calls && run[n].calls[id].progress.Done?
    ensures var c := run[n].calls[id];
            && c.movedAt < n && id in run[c.movedAt].calls && id in run[c.movedAt + 1].calls
            && !run[c.movedAt].calls[id].progress.Done? && run[c.movedAt + 1].calls[id] == c
  {
    if n > 0 {
      assert Step(run[n - 1], acts[n - 1]) == Some(run[n]);
      if id in run[n - 1].calls && run[n - 1].calls[id] == run[n].calls[id] {
        AnsweredByItsLastStatement(run, acts, id, n - 1);
      } else {
        AnsweringStep(run[n - 1], acts[n - 1], id);
        RunIndex(run, acts, n - 1);
      }
    }
  }

  /**
   In every interleaving, an `Open` answers what one atomic visit answers at some instant
   inside the call, from its start to its last statement; if it claimed a visit, the claim is that
   instant's only effect.
   */
  lemma OpenIsAtomic(run: seq<State>, acts: seq<Action>, id: nat)
    requires IsRun(run, acts) && id in run[|acts|].calls
    requires run[|acts|].calls[id].request.Open? && run[|acts|].calls[id].progress.Done?
    ensures var c := run[|acts|].calls[id]; Atomic(run, c, c.progress.outcome, c.progress.claimed)
  {
    EveryRunOk(run, acts);
  }

  /** So does a `Continue`, except for a refusal of a grant at a vulnerable read. */
  lemma ContinueIsAtomic(run: seq<State>, acts: seq<Action>, id: nat)
    requires IsRun(run, acts) && id in run[|acts|].calls
    requires run[|acts|].calls[id].request.Continue? && run[|acts|].calls[id].progress.Done?
    ensures var c := run[|acts|].calls[id];
            || Atomic(run, c, c.progress.outcome, c.progress.claimed)
            || (&& c.progress.outcome == Refused(PasswordRequired) && c.readAt < |run|
                && Vulnerable(run[c.readAt].db, c.request, run[c.readAt].clock))
  {
    EveryRunOk(run, acts);
  }

  /** What an `Open` answers in any run is called for by the row at some instant inside the call. */
  lemma OpenAnswersItsRow(run: seq<State>, acts: seq<Action>, id: nat)
    requires IsRun(run, acts) && id in run[|acts|].calls
    requires run[|acts|].calls[id].request.Open? && run[|acts|].calls[id].progress.Done?
    ensures var c := run[|acts|].calls[id];
            exists k: nat, now: int ::
              && c.beganAt <= k <= c.movedAt && k < |run| && run[c.beganAt].clock <= now <= run[k].clock
              && OpenAnswers(run[k].db, c.request.host, now, c.progress.outcome)
  {
    OpenIsAtomic(run, acts, id);
    var c := run[|acts|].calls[id];
    var k: nat, now: int :| AtomicAt(run, c, c.progress.outcome, c.progress.claimed, k, now);
    VisitMeans(run[k].db, c.request.host, "", now, c.progress.outcome);
  }

  /** So is what a `Continue` answers, but for a missing grant after a deciding read that found the link usable. */
  lemma ContinueAnswersItsRow(run: seq<State>, acts: seq<Action>, id: nat)
    requires IsRun(run, acts) && id in run[|acts|].calls
    requires run[|acts|].calls[id].request.Continue? && run[|acts|].calls[id].progress.Done?
    ensures var c := run[|acts|].calls[id];
            || (c.progress.outcome == Refused(PasswordRequired) && c.readAt < |run|
                && Usable(run[c.readAt].db, c.request.host, run[c.readAt].clock)
                && run[c.readAt].db.link.value.hasPassword)
            || exists k: nat, now: int ::
                 && c.beganAt <= k <= c.movedAt && k < |run| && run[c.beganAt].clock <= now <= run[k].clock
                 && ContinueAnswers(run[k].db, c.request.host, c.request.token, now, c.progress.outcome)
  {
    ContinueIsAtomic(run, acts, id);
    var c := run[|acts|].calls[id];
    if Atomic(run, c, c.progress.outcome, c.progress.claimed) {
      var k: nat, now: int :| AtomicAt(run, c, c.progress.outcome, c.progress.claimed, k, now);
      VisitMeans(run[k].db, c.request.host, c.request.token, now, c.progress.outcome);
    }
  }

  /** The vulnerable reads, in the row's own terms. */
  lemma VulnerableMeans(db: Db, r: Request, now: int)
    ensures Vulnerable(db, r, now) <==>
            && r.Continue? && Usable(db, r.host, now) && db.link.value.hasPassword && Unlocked(db, r.token, now)
            && (db.link.value.maxVisits.None?
                || (&& db.link.value.expiresAt.Some?
                    && db.link.value.expiresAt.value <= db.issued[r.token].expiresAt < now + 5_000_000))
  {
  }

  // ---------------------------------------------------------------- exactly when a Continue is atomic

  /** Call `id` ended in this run and its deciding read saw these rows at this clock value. */
  ghost predicate DecidedOn(run: seq<State>, acts: seq<Action>, id: nat, db: Db, clock: int, r: Request) {
    && IsRun(run, acts) && id in run[|acts|].calls
    && var c := run[|acts|].calls[id];
       && c.request == r && c.progress.Done? && c.readAt < |run|
       && run[c.readAt].db == db && run[c.readAt].clock == clock
  }

  ghost predicate EndsAtomically(run: seq<State>, id: nat) {
    && |run| > 0 && id in run[|run| - 1].calls
    && var c := run[|run| - 1].calls[id];
       c.progress.Done? && Atomic(run, c, c.progress.outcome, c.progress.claimed)
  }

  /** The owner deletes an unlimited link between the unlocked read and the grant check. */
  lemma UnlimitedLinkDeletedMidway(db: Db, clock: int, r: Request) returns (run: seq<State>, acts: seq<Action>)
    requires WellFormed(db, clock) && Vulnerable(db, r, clock) && db.link.value.maxVisits.None?
    ensures DecidedOn(run, acts, 0, db, clock, r) && !EndsAtomically(run, 0)
  {
    var s0 := State(0, clock, db, None, map[]);
    acts := [Begin(0, r), Read(0), Edit(db.link.value.(deleted := true)), CheckGrant(0)];
    var s1 := Step(s0, acts[0]).value;
    var s2 := Step(s1, acts[1]).value;
    var s3 := Step(s2, acts[2]).value;
    var s4 := Step(s3, acts[3]).value;
    run := [s0, s1, s2, s3, s4];
    var c := s4.calls[0];
    assert c.progress == Done(Refused(PasswordRequired), false);
    forall k: nat, now: int ensures !AtomicAt(run, c, Refused(PasswordRequired), false, k, now) {
      if c.beganAt <= k < |run| {
        assert k == 1 || k == 2 || k == 3 || k == 4;
      }
    }
  }

  /**
   The link expires while a limited `Continue` holds its lock, and the grant no earlier but within
   the claim's time.
   */
  lemma LimitedLinkExpiresMidway(db: Db, clock: int, r: Request) returns (run: seq<State>, acts: seq<Action>)
    requires WellFormed(db, clock) && Vulnerable(db, r, clock) && db.link.value.maxVisits.Some?
    ensures DecidedOn(run, acts, 0, db, clock, r) && !EndsAtomically(run, 0)
  {
    var g := db.issued[r.token].expiresAt;
    var s0 := State(0, clock, db, None, map[]);
    acts := [Begin(0, r), Read(0), StartClaim(0), Lock(0), Reread(0), Tick(g), CheckGrant(0)];
    var s1 := Step(s0, acts[0]).value;
    var s2 := Step(s1, acts[1]).value;
    var s3 := Step(s2, acts[2]).value;
    var s4 := Step(s3, acts[3]).value;
    var s5 := Step(s4, acts[4]).value;
    var s6 := Step(s5, acts[5]).value;
    var s7 := Step(s6, acts[6]).value;
    run := [s0, s1, s2, s3, s4, s5, s6, s7];
    var c := s7.calls[0];
    assert c.progress == Done(Refused(PasswordRequired), false);
    forall k: nat, now: int ensures !AtomicAt(run, c, Refused(PasswordRequired), false, k, now) {
      if c.beganAt <= k < |run| {
        assert run[k].db == db;
      }
    }
  }

  /**
   A `Continue` whose deciding read saw these rows is atomic in every interleaving
   if and only if those rows are not vulnerable.
   */
  lemma ContinueAtomicExactly(db: Db, clock: int, r: Request)
    requires WellFormed(db, clock) && r.Continue?
    ensures (forall run, acts, id :: DecidedOn(run, acts, id, db, clock, r) ==> EndsAtomically(run, id))
            <==> !Vulnerable(db, r, clock)
  {
    if Vulnerable(db, r, clock) {
      var run, acts;
      if db.link.value.maxVisits.None? {
        run, acts := UnlimitedLinkDeletedMidway(db, clock, r);
      } else {
        run, acts := LimitedLinkExpiresMidway(db, clock, r);
      }
      assert DecidedOn(run, acts, 0, db, clock, r);
    } else {
      forall run, acts, id | DecidedOn(run, acts, id, db, clock, r) ensures EndsAtomically(run, id) {
        ContinueIsAtomic(run, acts, id);
      }
    }
  }

  // ---------------------------------------------------------------- the visit quota

  ghost predicate TouchesLimit(s: State, a: Action) {
    && a.Edit?
    && (s.db.link.None? || a.link.maxVisits != s.db.link.value.maxVisits)
  }

  ghost predicate CommitsClaim(s: State, a: Action) {
    && a.Commit? && a.call in s.calls
    && s.calls[a.call].progress.HoldingCommit? && s.calls[a.call].progress.claimed
  }

  /** How many claims committed in steps `m` up to `n` of the run. */
  ghost function ClaimsCommitted(run: seq<State>, acts: seq<Action>, m: nat, n: nat): nat
    requires m <= n <= |acts| < |run|
    decreases n
  {
    if n == m then 0
    else ClaimsCommitted(run, acts, m, n - 1) + if CommitsClaim(run[n - 1], acts[n - 1]) then 1 else 0
  }

  /** One step: the counter grows by one exactly on a committed claim, and stays within the limit. */
  lemma StepCounts(run: seq<State>, a: Action)
    requires RunOk(run) && Step(run[|run| - 1], a).Some? && run[|run| - 1].db.link.Some?
    requires !TouchesLimit(run[|run| - 1], a)
    ensures var s := run[|run| - 1];
            var n := Step(s, a).value;
            && n.db.link.Some? && n.db.link.value.maxVisits == s.db.link.value.maxVisits
            && n.db.link.value.visitsUsed == s.db.link.value.visitsUsed + (if CommitsClaim(s, a) then 1 else 0)
            && (CommitsClaim(s, a) ==>
                  n.db.link.value.maxVisits.Some? && n.db.link.value.visitsUsed <= n.db.link.value.maxVisits.value)
  {
    if a.Commit? { assert CallOk(run, run[|run| - 1].calls[a.call]); }
  }

  lemma CountsAt(run: seq<State>, acts: seq<Action>, i: nat)
    requires IsRun(run, acts) && i < |acts| && run[i].db.link.Some? && !TouchesLimit(run[i], acts[i])
    ensures var s, n := run[i], run[i + 1];
            && n.db.link.Some? && n.db.link.value.maxVisits == s.db.link.value.maxVisits
            && n.db.link.value.visitsUsed == s.db.link.value.visitsUsed + (if CommitsClaim(s, acts[i]) then 1 else 0)
            && (CommitsClaim(s, acts[i]) ==>
                  n.db.link.value.maxVisits.Some? && n.db.link.value.visitsUsed <= n.db.link.value.maxVisits.value)
  {
    EveryRunOk(run[..i + 1], acts[..i]);
    assert run[..i + 1][i] == run[i];
    assert Step(run[i], acts[i]) == Some(run[i + 1]);
    StepCounts(run[..i + 1], acts[i]);
  }

  /**
   While the limit is left alone in steps `m` up to `n`, visits_used grows by exactly the number
   of committed claims, and at most max_visits - visits_used (at `m`) of them commit.
   */
  lemma {:induction false} QuotaHolds(run: seq<State>, acts: seq<Action>, m: nat, n: nat)
    requires IsRun(run, acts) && m <= n <= |acts| && run[m].db.link.Some?
    requires forall i :: m <= i < n ==> !TouchesLimit(run[i], acts[i])
    ensures var claims := ClaimsCommitted(run, acts, m, n);
            var before := run[m].db.link.value;
            && run[n].db.link.Some?
            && run[n].db.link.value.maxVisits == before.maxVisits
            && run[n].db.link.value.visitsUsed == before.visitsUsed + claims
            && (claims > 0 ==> before.maxVisits.Some? && claims <= before.maxVisits.value - before.visitsUsed)
    decreases n
  {
    if n > m {
      QuotaHolds(run, acts, m, n - 1);
      CountsAt(run, acts, n - 1);
    }
  }

  // ---------------------------------------------------------------- the targets handed out

  /** The calls whose deciding read came at position `m` or later and that were answered with the target. */
  ghost function TargetCalls(s: State, m: nat): set<nat> {
    set id | id in s.calls && s.calls[id].progress.Done? && s.calls[id].progress.outcome.Target?
             && s.calls[id].readAt >= m
  }

  ghost predicate Limited(s: State) { s.db.link.Some? && s.db.link.value.maxVisits.Some? }

  lemma LimitedTargetMoves(run: seq<State>, a: Action, n: State, c: Call, m: Call)
    requires |run| > 0 && CallOk(run, c) && Moves(run[|run| - 1], a, n, c, m) && run[|run| - 1].index == |run| - 1
    requires m.progress.Done? && m.progress.outcome.Target? && m.readAt < |run| && Limited(run[m.readAt])
    ensures a.Commit? && c.progress.HoldingCommit? && c.progress.claimed
  {
  }

  lemma CallOkAt(run: seq<State>, acts: seq<Action>, id: nat, n: nat)
    requires IsRun(run, acts) && n <= |acts| && id in run[n].calls
    ensures CallOk(run[..n + 1], run[n].calls[id]) && run[n].index == n
  {
    EveryRunOk(run[..n + 1], acts[..n]);
    assert run[..n + 1][n] == run[n];
  }

  /** The deciding read of an answered call came before the position of its answer. */
  lemma DecidedBefore(run: seq<State>, acts: seq<Action>, id: nat, n: nat)
    requires IsRun(run, acts) && n <= |acts| && id in run[n].calls && run[n].calls[id].progress.Done?
    ensures run[n].calls[id].readAt < n
  {
    AnsweredByItsLastStatement(run, acts, id, n);
    var k := run[n].calls[id].movedAt;
    CallOkAt(run, acts, id, k);
    assert Step(run[k], acts[k]) == Some(run[k + 1]);
    StepMoves(run[k], acts[k], id);
  }

  /** A call decided while the link has a limit is answered with the target only by committing a claim. */
  lemma NewTarget(run: seq<State>, acts: seq<Action>, m: nat, n: nat, id: nat)
    requires IsRun(run, acts) && m <= n < |acts| && forall i :: m <= i <= n ==> Limited(run[i])
    requires id in TargetCalls(run[n + 1], m) && id !in TargetCalls(run[n], m)
    ensures CommitsClaim(run[n], acts[n]) && acts[n].call == id
  {
    var s, next, before := run[n], run[n + 1], run[..n + 1];
    assert Step(s, acts[n]) == Some(next);
    AnsweringStep(s, acts[n], id);
    StepMoves(s, acts[n], id);
    DecidedBefore(run, acts, id, n + 1);
    CallOkAt(run, acts, id, n);
    assert before[n] == s && before[next.calls[id].readAt] == run[next.calls[id].readAt];
    LimitedTargetMoves(before, acts[n], next, s.calls[id], next.calls[id]);
  }

  /** One step answers at most one such call, and only by committing a claim. */
  lemma TargetStep(run: seq<State>, acts: seq<Action>, m: nat, n: nat)
    requires IsRun(run, acts) && m <= n < |acts| && forall i :: m <= i <= n ==> Limited(run[i])
    ensures |TargetCalls(run[n + 1], m)| <=
            |TargetCalls(run[n], m)| + if CommitsClaim(run[n], acts[n]) then 1 else 0
  {
    var before, after := TargetCalls(run[n], m), TargetCalls(run[n + 1], m);
    forall id | id in after && id !in before ensures CommitsClaim(run[n], acts[n]) && acts[n].call == id {
      NewTarget(run, acts, m, n, id);
    }
    if CommitsClaim(run[n], acts[n]) {
      SubsetCount(after, before + {acts[n].call});
    } else {
      SubsetCount(after, before);
    }
  }

  lemma NoTargetsYet(run: seq<State>, acts: seq<Action>, m: nat)
    requires IsRun(run, acts) && m <= |acts|
    ensures |TargetCalls(run[m], m)| == 0
  {
    forall id | id in TargetCalls(run[m], m) ensures false { DecidedBefore(run, acts, id, m); }
  }

  /** A step answers no more of these calls than it commits claims. */
  ghost predicate Paid(run: seq<State>, acts: seq<Action>, m: nat, i: nat)
    requires i < |acts| < |run|
  {
    |TargetCalls(run[i + 1], m)| <= |TargetCalls(run[i], m)| + if CommitsClaim(run[i], acts[i]) then 1 else 0
  }

  lemma {:induction false} TargetsArePaid(run: seq<State>, acts: seq<Action>, m: nat, n: nat)
    requires m <= n <= |acts| < |run| && |TargetCalls(run[m], m)| == 0
    requires forall i :: m <= i < n ==> Paid(run, acts, m, i)
    ensures |TargetCalls(run[n], m)| <= ClaimsCommitted(run, acts, m, n)
    decreases n
  {
    if n > m {
      TargetsArePaid(run, acts, m, n - 1);
      assert Paid(run, acts, m, n - 1);
    }
  }

  /**
   While a link's limit is left alone in steps `m` up to `n`, no more calls decided since then are
   answered with the target than the limit still allowed at `m`.
   */
  lemma TargetsStayWithinLimit(run: seq<State>, acts: seq<Action>, m: nat, n: nat)
    requires IsRun(run, acts) && m <= n <= |acts|
    requires Limited(run[m]) && forall i :: m <= i < n ==> !TouchesLimit(run[i], acts[i])
    ensures var before := run[m].db.link.value;
            var targets := TargetCalls(run[n], m);
            targets != {} ==> |targets| <= before.maxVisits.value - before.visitsUsed
  {
    forall i | m <= i <= n ensures Limited(run[i]) {
      QuotaHolds(run, acts, m, i);
    }
    QuotaHolds(run, acts, m, n);
    NoTargetsYet(run, acts, m);
    forall i | m <= i < n ensures Paid(run, acts, m, i) { TargetStep(run, acts, m, i); }
    TargetsArePaid(run, acts, m, n);
  }

  // ---------------------------------------------------------------- the claim transaction itself

  /** A claim that re-reads at `readAt` and checks the grant at `checkAt` is a visit, unless the grant lapsed. */
  function ClaimAnswer(db: Db, r: Request, readAt: int, checkAt: int): Outcome {
    if r.Continue? && Gate(db, r.host, readAt).None? && db.link.value.hasPassword && !GrantFound(db, r.token, checkAt)
    then Refused(PasswordRequired)
    else Visit(db, r, readAt)
  }

  ghost function RunFrom(s: State, acts: seq<Action>): Option<State>
    decreases |acts|
  {
    if acts == [] then Some(s)
    else
      var n := Step(s, acts[0]);
      if n.None? then None else RunFrom(n.value, acts[1..])
  }

  lemma RunFirst(s: State, a: Action, rest: seq<Action>) returns (acts: seq<Action>)
    ensures acts == [a] + rest
    ensures RunFrom(s, acts) == if Step(s, a).None? then None else RunFrom(Step(s, a).value, rest)
  {
    acts := [a] + rest;
    assert acts[1..] == rest;
  }

  /** Call `id` waits for its claim and no claim is under way. */
  ghost predicate MayClaim(s: State, id: nat, readAt: int) {
    s.holder.None? && id in s.calls && s.calls[id].progress.AwaitClaim? && s.clock <= readAt && WellFormed(s.db, readAt)
  }

  /** `n` is `s` after call `id` was answered `o`; nothing else changed but clock and position. */
  ghost predicate Answered(s: State, n: State, id: nat, o: Outcome) {
    && n.holder.None? && id in n.calls && n.calls[id].progress.Done? && n.calls[id].progress.outcome == o
    && n.db == AfterVisit(s.db, o) && (n.calls[id].progress.claimed <==> n.db != s.db)
    && n.calls == s.calls[id := n.calls[id]]
  }

  /** From a held claim past its checks to the commit. */
  lemma ClaimCommits(s: State, id: nat, l: Link) returns (acts: seq<Action>, n: State)
    requires id in s.calls && s.calls[id].progress == HoldingClaim(l) && s.holder == Some(id)
    requires InTime(s.calls[id], s.clock) && s.db.link == Some(l) && !UsedUp(l)
    ensures RunFrom(s, acts) == Some(n) && Answered(s, n, id, Target(l.target))
  {
    var s1 := Step(s, Claim(id)).value;
    n := Step(s1, Commit(id)).value;
    acts := RunFirst(s1, Commit(id), []);
    acts := RunFirst(s, Claim(id), acts);
  }

  /** The grant check of a held claim, and what follows. */
  lemma ClaimChecks(s: State, id: nat, l: Link, checkAt: int) returns (acts: seq<Action>, n: State)
    requires id in s.calls && s.calls[id].progress == HoldingGrant(l) && s.holder == Some(id)
    requires s.calls[id].request.Continue? && s.db.link == Some(l) && !UsedUp(l)
    requires s.clock <= checkAt < s.calls[id].startedAt + CLAIM_TIMEOUT
    ensures RunFrom(s, acts) == Some(n)
    ensures var valid := GrantFound(s.db, s.calls[id].request.token, checkAt);
            Answered(s, n, id, if valid then Target(l.target) else Refused(PasswordRequired))
  {
    var s1 := Step(s, Tick(checkAt)).value;
    var s2 := Step(s1, CheckGrant(id)).value;
    if GrantFound(s.db, s.calls[id].request.token, checkAt) {
      acts, n := ClaimCommits(s2, id, l);
    } else {
      acts, n := [], s2;
    }
    acts := RunFirst(s1, CheckGrant(id), acts);
    acts := RunFirst(s, Tick(checkAt), acts);
  }

  /** The locked re-read of a claim, and what follows. */
  lemma ClaimRereads(s: State, id: nat, checkAt: int) returns (acts: seq<Action>, n: State)
    requires id in s.calls && s.calls[id].progress == Holding && s.holder == Some(id) && WellFormed(s.db, s.clock)
    requires s.calls[id].startedAt == s.clock <= checkAt < s.clock + CLAIM_TIMEOUT
    ensures RunFrom(s, acts) == Some(n)
    ensures Answered(s, n, id, ClaimAnswer(s.db, s.calls[id].request, s.clock, checkAt))
  {
    var r := s.calls[id].request;
    var s1 := Step(s, Reread(id)).value;
    var p := SecondRead(s.db, r, s.clock);
    assert s1.calls[id].progress == p;
    if p.HoldingGrant? {
      acts, n := ClaimChecks(s1, id, p.link, checkAt);
    } else if p.HoldingClaim? {
      acts, n := ClaimCommits(s1, id, p.link);
    } else {
      acts, n := [], s1;
    }
    acts := RunFirst(s, Reread(id), acts);
  }

  /** A claim call that stays within its time is a run of the protocol, with the same answer and effect. */
  lemma ClaimIsARun(s: State, id: nat, readAt: int, checkAt: int) returns (acts: seq<Action>, n: State)
    requires MayClaim(s, id, readAt) && readAt <= checkAt < readAt + CLAIM_TIMEOUT
    ensures RunFrom(s, acts) == Some(n)
    ensures Answered(s, n, id, ClaimAnswer(s.db, s.calls[id].request, readAt, checkAt))
  {
    var s1 := Step(s, Tick(readAt)).value;
    var s2 := Step(s1, StartClaim(id)).value;
    var s3 := Step(s2, Lock(id)).value;
    if s.db.link.Some? && !s.db.link.value.deleted {
      acts, n := ClaimRereads(s3, id, checkAt);
    } else {
      acts, n := [], s3;
    }
    acts := RunFirst(s2, Lock(id), acts);
    acts := RunFirst(s1, StartClaim(id), acts);
    acts := RunFirst(s, Tick(readAt), acts);
  }

  /** The stored rows, as one claim transaction sees and updates them while it holds their locks. */
  class RedirectStore {
    var db: Db

    /**
     Re-reads at `readAt`, checks the grant at `checkAt`, claims and commits. The answer is one
     visit at `readAt`, unless the grant lapsed before it was checked; a refusal changes nothing.
     */
    method ClaimLimitedVisit(r: Request, readAt: int, checkAt: int) returns (o: Outcome)
      requires WellFormed(db, readAt) && readAt <= checkAt
      modifies this
      ensures o == ClaimAnswer(old(db), r, readAt, checkAt)
      ensures db == AfterVisit(old(db), o)
    {
      if !Reachable(db, r.host) { return Refused(Missing); }
      var link := db.link.value;
      if !link.active { return Refused(Disabled); }
      if PastExpiry(link, readAt) { return Refused(Expired); }
      if UsedUp(link) { return Refused(Exhausted); }
      if r.Open? && (link.hasPassword || Interactive(link.mode)) { return Page(link.mode, link.hasPassword); }
      if r.Continue? {
        if !link.hasPassword && !Interactive(link.mode) { return Refused(NotInteractive); }
        if link.hasPassword {
          if !GrantFound(db, r.token, checkAt) { return Refused(PasswordRequired); }
        }
      }
      if link.maxVisits.Some? {
        db := db.(link := Some(link.(visitsUsed := link.visitsUsed + 1)));
      }
      return Target(link.target);
    }
  }
}
