/**
 Interleaved membership changes, permission edits, account edits and sign-ups. A change
 checks everything once it holds its locks, writes later, and ends with commit or rollback.
 */
module AdminGroup {
  import opened Common
  import opened Groups
  import P = Permissions

  datatype Request =
    | Batch(actor: nat, versions: map<nat, int>, dest: P.Group)
    | Single(actor: nat, target: nat, expected: int, dest: P.Group)

  /** `running` holds the changes that passed their checks and still hold their locks. */
  datatype Sys = Sys(users: Users, groups: GroupRows, running: map<nat, Request>)

  ghost function ReplyTo(users: Users, groups: GroupRows, r: Request): Reply {
    match r
    case Batch(actor, versions, dest) => BatchReply(users, groups, actor, versions, dest)
    case Single(actor, target, expected, dest) => SingleReply(users, groups, actor, target, expected, dest)
  }

  function Locked(r: Request): set<nat> {
    {r.actor} + if r.Batch? then r.versions.Keys else {r.target}
  }

  /** The group rows held in share mode. */
  function Shared(users: Users, r: Request): set<P.Group> {
    if r.Batch? then {P.Admin, P.User} else if r.actor in users then {users[r.actor].group} else {}
  }

  function MovedBy(users: Users, r: Request): set<nat> {
    if r.Batch? then Moved(users, r.versions, r.dest)
    else if r.target in users && users[r.target].group != r.dest then {r.target} else {}
  }

  datatype Action =
    | Begin(tx: nat, request: Request)
    | Commit(tx: nat, clock: nat -> int)
    | Rollback(tx: nat)
    | SetPermissions(group: P.Group, values: seq<P.Key>)
    | EditAccount(id: nat, active: bool, now: int)
    | CreateAccount(id: nat, account: User)

  predicate RowFree(s: Sys, id: nat) { forall t :: t in s.running ==> id !in Locked(s.running[t]) }

  predicate RowsFree(s: Sys, r: Request) { forall t :: t in s.running ==> Locked(s.running[t]) !! Locked(r) }

  predicate GroupFree(s: Sys, g: P.Group) { forall t :: t in s.running ==> g !in Shared(s.users, s.running[t]) }

  /** What the permission editor stores: only normalized sets, and only for the two editable groups. */
  predicate Storable(group: P.Group, values: seq<P.Key>) {
    && (group == P.User || group == P.Admin)
    && Distinct(values) && (forall v :: v in values ==> P.Listed(P.CATALOG, v))
    && P.Ownership(P.CATALOG, group, values)
  }

  /** A step that has to wait, or is refused, changes nothing. */
  ghost function Step(s: Sys, a: Action): Sys {
    match a
    case Begin(t, r) =>
      if t !in s.running && RowsFree(s, r) && ReplyTo(s.users, s.groups, r).Done?
      then s.(running := s.running[t := r])
      else s
    case Commit(t, clock) =>
      if t !in s.running then s
      else
        var r := s.running[t];
        s.(users := MoveUsers(s.users, MovedBy(s.users, r), r.dest, clock), running := s.running - {t})
    case Rollback(t) => s.(running := s.running - {t})
    case SetPermissions(g, values) =>
      if GroupFree(s, g) && Present(s.groups, g) && Storable(g, values)
      then s.(groups := s.groups[g := s.groups[g].(permissions := P.Chosen(P.CATALOG, values))]) else s
    case EditAccount(id, active, now) =>
      if id in s.users && RowFree(s, id) && !s.users[id].deleted && !s.users[id].builtin
      then s.(users := s.users[id := s.users[id].(active := active, updatedAt := now)]) else s
    case CreateAccount(id, account) =>
      if id !in s.users && RowFree(s, id) then s.(users := s.users[id := account]) else s
  }

  /** The rows a permission edit has to wait for, and what a commit writes, by the request. */
  lemma RequestMeans(s: Sys, t: nat, clock: nat -> int)
    requires t in s.running
    ensures var r, n := s.running[t], Step(s, Commit(t, clock));
            var moved := if r.Batch? then set id | id in r.versions && id in s.users && s.users[id].group != r.dest
                         else set id | id == r.target && id in s.users && s.users[id].group != r.dest;
            && n.groups == s.groups && n.running == s.running - {t}
            && UsersMoved(s.users, n.users, moved, r.dest, clock)
    ensures s.running[t].Batch? ==> Shared(s.users, s.running[t]) == {P.User, P.Admin}
    ensures s.running[t].Single? && s.running[t].actor in s.users ==>
              Shared(s.users, s.running[t]) == {s.users[s.running[t].actor].group}
    ensures Locked(s.running[t])
            == {s.running[t].actor} + if s.running[t].Single? then {s.running[t].target} else s.running[t].versions.Keys
  {
    var r := s.running[t];
    MoveMeans(s.users, map[], MovedBy(s.users, r), r.dest, clock);
    assert MovedBy(s.users, r) ==
           if r.Batch? then set id | id in r.versions && id in s.users && s.users[id].group != r.dest
           else set id | id == r.target && id in s.users && s.users[id].group != r.dest;
  }

  /** Stored permission sets list catalog keys once; users own no protected one and administrators every one. */
  lemma StorableMeans(group: P.Group, values: seq<P.Key>)
    ensures Storable(group, values) <==>
            && Distinct(values) && (forall v :: v in values ==> P.Listed(P.CATALOG, v))
            && ((group == P.User && forall d :: d in P.CATALOG && d.isProtected ==> d.key !in values)
                || (group == P.Admin && forall d :: d in P.CATALOG && d.isProtected ==> d.key in values))
  {
  }

  /** Accounts are edited and created only on rows no running change has locked. */
  lemma AccountStepsMean(s: Sys, id: nat, active: bool, now: int, account: User)
    ensures var free := forall t :: t in s.running ==> id !in Locked(s.running[t]);
            && Step(s, EditAccount(id, active, now)) ==
               (if id in s.users && free && !s.users[id].deleted && !s.users[id].builtin
                then var u := s.users[id];
                     s.(users := s.users[id := User(u.group, active, u.deleted, u.builtin, now)])
                else s)
            && Step(s, CreateAccount(id, account)) ==
               (if id in s.users || !free then s else s.(users := s.users[id := account]))
  {
  }

  ghost function Run(s: Sys, actions: seq<Action>): Sys
    decreases |actions|
  {
    if actions == [] then s else Run(Step(s, actions[0]), actions[1..])
  }

  // ---------------------------------------------------------------- invariant

  /** Only the admin group can administer. */
  predicate AdministratorsOnly(groups: GroupRows) { forall g :: g in groups && Administers(groups, g) ==> g == P.Admin }

  predicate AdminGroupNotEmpty(users: Users) {
    exists id :: id in users && users[id].group == P.Admin && !users[id].deleted
  }

  ghost predicate Separate(running: map<nat, Request>) {
    forall t, u :: t in running && u in running && t != u ==> Locked(running[t]) !! Locked(running[u])
  }

  /** Every running change would still get the reply it got when it took its locks. */
  ghost predicate StillValid(s: Sys) {
    forall t :: t in s.running ==> ReplyTo(s.users, s.groups, s.running[t]).Done?
  }

  ghost predicate Inv(s: Sys) {
    AdministratorsOnly(s.groups) && AdminGroupNotEmpty(s.users) && Separate(s.running) && StillValid(s)
  }

  predicate SameRows(a: Users, b: Users, ids: set<nat>) {
    forall id :: id in ids ==> (id in a <==> id in b) && (id in a ==> a[id] == b[id])
  }

  /** A request's reply reads only the rows it locks. */
  lemma ReplyReadsLockedRows(users: Users, other: Users, groups: GroupRows, r: Request)
    requires SameRows(users, other, Locked(r))
    ensures ReplyTo(users, groups, r) == ReplyTo(other, groups, r)
    ensures MovedBy(users, r) == MovedBy(other, r) && Shared(users, r) == Shared(other, r)
  {
    assert r.actor in Locked(r);
    if r.Batch? {
      assert forall id :: id in r.versions ==> id in Locked(r);
      assert AnyMissing(users, r.versions) == AnyMissing(other, r.versions);
      assert AnyBuiltin(users, r.versions) == AnyBuiltin(other, r.versions);
      assert AnyElsewhere(users, r.versions) == AnyElsewhere(other, r.versions);
      assert AnyStale(users, r.versions) == AnyStale(other, r.versions);
      assert Kept(users, r.versions, r.dest) == Kept(other, r.versions, r.dest);
      assert Moved(users, r.versions, r.dest) == Moved(other, r.versions, r.dest);
    } else {
      assert r.target in Locked(r);
    }
  }

  /** Its actor is an administrator, and is not one of those it moves. */
  lemma ActorIsAdministrator(users: Users, groups: GroupRows, r: Request)
    requires AdministratorsOnly(groups) && ReplyTo(users, groups, r).Done?
    ensures r.actor in users && users[r.actor].group == P.Admin && !users[r.actor].deleted
    ensures r.actor !in MovedBy(users, r) && MovedBy(users, r) <= Locked(r)
  {
    if r.Single? { assert Administers(groups, users[r.actor].group); }
  }

  lemma OthersKeepTheirRows(s: Sys, users: Users, changed: set<nat>)
    requires StillValid(s)
    requires forall t :: t in s.running ==> Locked(s.running[t]) !! changed
    requires forall id :: id !in changed ==>
               (id in s.users <==> id in users) && (id in users ==> users[id] == s.users[id])
    ensures StillValid(s.(users := users))
  {
    forall t | t in s.running ensures ReplyTo(users, s.groups, s.running[t]).Done? {
      ReplyReadsLockedRows(s.users, users, s.groups, s.running[t]);
    }
  }

  lemma CommitKeeps(s: Sys, t: nat, clock: nat -> int)
    requires Inv(s) && t in s.running
    ensures Inv(Step(s, Commit(t, clock)))
  {
    var r := s.running[t];
    var after := Step(s, Commit(t, clock));
    ActorIsAdministrator(s.users, s.groups, r);
    assert after.users[r.actor] == s.users[r.actor];
    var others := s.(running := s.running - {t});
    forall u | u in others.running ensures Locked(others.running[u]) !! MovedBy(s.users, r) {
      assert Locked(s.running[u]) !! Locked(r);
    }
    OthersKeepTheirRows(others, after.users, MovedBy(s.users, r));
  }

  lemma PermissionsKeepReplies(s: Sys, g: P.Group, values: seq<P.Key>, t: nat)
    requires Inv(s) && t in s.running && GroupFree(s, g) && Present(s.groups, g) && Storable(g, values)
    ensures ReplyTo(s.users, Step(s, SetPermissions(g, values)).groups, s.running[t]).Done?
  {
    assert g !in Shared(s.users, s.running[t]);
  }

  lemma PermissionsKeep(s: Sys, g: P.Group, values: seq<P.Key>)
    requires Inv(s)
    ensures Inv(Step(s, SetPermissions(g, values)))
  {
    var after := Step(s, SetPermissions(g, values));
    if GroupFree(s, g) && Present(s.groups, g) && Storable(g, values) {
      forall t | t in s.running ensures ReplyTo(after.users, after.groups, after.running[t]).Done? {
        PermissionsKeepReplies(s, g, values, t);
      }
      if g == P.User { UsersNeverAdminister(values); }
      forall h | h in after.groups && Administers(after.groups, h) ensures h == P.Admin {
        if h != g { assert Administers(s.groups, h); }
      }
    }
  }

  lemma UsersNeverAdminister(values: seq<P.Key>)
    requires P.Ownership(P.CATALOG, P.User, values)
    ensures P.AdminAccess !in P.Chosen(P.CATALOG, values)
  {
    P.ChosenHasTheSameKeys(P.CATALOG, values, P.AdminAccess);
    assert P.CATALOG[19] in P.CATALOG;
  }

  lemma AccountsKeep(s: Sys, a: Action)
    requires Inv(s) && (a.EditAccount? || a.CreateAccount?)
    ensures Inv(Step(s, a))
  {
    var after := Step(s, a);
    if after != s {
      OthersKeepTheirRows(s, after.users, {a.id});
      var admin :| admin in s.users && s.users[admin].group == P.Admin && !s.users[admin].deleted;
      assert admin in after.users && after.users[admin].group == P.Admin && !after.users[admin].deleted;
    }
  }

  lemma StepKeeps(s: Sys, a: Action)
    requires Inv(s)
    ensures Inv(Step(s, a))
  {
    match a
    case Begin(t, r) =>
    case Commit(t, clock) => if t in s.running { CommitKeeps(s, t, clock); }
    case Rollback(t) =>
    case SetPermissions(g, values) => PermissionsKeep(s, g, values);
    case EditAccount(_, _, _) => AccountsKeep(s, a);
    case CreateAccount(_, _) => AccountsKeep(s, a);
  }

  /** No interleaving ever commits a state with an empty admin group. */
  lemma {:induction false} AdminGroupNeverEmpties(s: Sys, actions: seq<Action>)
    requires s.running == map[] && AdministratorsOnly(s.groups) && AdminGroupNotEmpty(s.users)
    ensures forall n :: 0 <= n <= |actions| ==> AdminGroupNotEmpty(Run(s, actions[..n]).users)
  {
    forall n | 0 <= n <= |actions| ensures AdminGroupNotEmpty(Run(s, actions[..n]).users) {
      RunKeeps(s, actions[..n]);
    }
  }

  lemma {:induction false} RunKeeps(s: Sys, actions: seq<Action>)
    requires Inv(s)
    ensures Inv(Run(s, actions))
    decreases |actions|
  {
    if actions != [] {
      StepKeeps(s, actions[0]);
      RunKeeps(Step(s, actions[0]), actions[1..]);
    }
  }

  /**
   A change is atomic at its commit: whatever ran since it took its locks, it would pass the same
   checks now, and the rows it writes are those its checks read.
   */
  lemma CommitsAreAtomic(s: Sys, actions: seq<Action>, t: nat)
    requires s.running == map[] && AdministratorsOnly(s.groups) && AdminGroupNotEmpty(s.users)
    requires t in Run(s, actions).running
    ensures var now := Run(s, actions); var r := now.running[t];
            && ReplyTo(now.users, now.groups, r).Done?
            && MovedBy(now.users, r) <= Locked(r) && r.actor !in MovedBy(now.users, r)
            && now.users[r.actor].group == P.Admin
  {
    RunKeeps(s, actions);
    var now := Run(s, actions);
    ActorIsAdministrator(now.users, now.groups, now.running[t]);
  }
}
