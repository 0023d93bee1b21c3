/**
 Membership changes, one account at a time or in a batch. A change locks the rows of the
 actor and of every target, and shares the group rows it authorizes against, until it ends.
 */
module Groups {
  import opened Common
  import P = Permissions
  import Revisions

  datatype User = User(group: P.Group, active: bool, deleted: bool, builtin: bool, updatedAt: int)

  datatype GroupRow = GroupRow(builtin: bool, permissions: seq<P.Key>)

  datatype Session = Session(user: nat, live: bool)

  datatype Reply =
    | Denied | Invalid | NotFound | BuiltinUser | SelfChange | VersionConflict
    | Done(moved: nat, kept: nat)

  type Users = map<nat, User>
  type GroupRows = map<P.Group, GroupRow>

  // ---------------------------------------------------------------- the request's items

  datatype Item = Item(id: nat, expected: int, wellFormed: bool)

  /** The expected version of each account; None for a malformed or repeated item. */
  function Versions(items: seq<Item>): Option<map<nat, int>> {
    if items == [] then Some(map[])
    else
      var n := |items| - 1;
      var rest := Versions(items[..n]);
      if rest.None? || !items[n].wellFormed || items[n].id in rest.value then None
      else Some(rest.value[items[n].id := items[n].expected])
  }

  predicate WellFormed(items: seq<Item>) {
    && (forall i :: 0 <= i < |items| ==> items[i].wellFormed)
    && (forall i, j :: 0 <= i < j < |items| ==> items[i].id != items[j].id)
  }

  lemma {:induction false} VersionsExactly(items: seq<Item>)
    ensures Versions(items).Some? <==> WellFormed(items)
    ensures Versions(items).Some? ==>
              var m := Versions(items).value;
              && (forall item :: item in items ==> item.id in m && m[item.id] == item.expected)
              && (forall id :: id in m ==> exists item :: item in items && item.id == id)
  {
    if items != [] {
      var n := |items| - 1;
      VersionsExactly(items[..n]);
      assert items == items[..n] + [items[n]];
      if Versions(items[..n]).Some? && items[n].id in Versions(items[..n]).value {
        var item :| item in items[..n] && item.id == items[n].id;
        var i :| 0 <= i < n && items[i] == item;
        assert items[i].id == items[n].id;
      }
    }
  }

  lemma RepeatedItem(items: seq<Item>, i: nat, j: nat)
    requires i < j < |items| && items[i] == items[j]
    ensures multiset(items)[items[i]] >= 2
  {
    assert items == items[..j] + [items[j]] + items[j + 1..];
    assert items[i] in items[..j];
  }

  lemma {:induction false} ItemOccursOnce(items: seq<Item>, x: Item)
    requires forall i, j :: 0 <= i < j < |items| ==> items[i].id != items[j].id
    ensures multiset(items)[x] <= 1
  {
    if items != [] {
      var n := |items| - 1;
      assert items == items[..n] + [items[n]];
      ItemOccursOnce(items[..n], x);
      assert forall i :: 0 <= i < n ==> items[..n][i].id != items[n].id;
    }
  }

  lemma WellFormedIgnoresOrder(items: seq<Item>, other: seq<Item>)
    requires multiset(items) == multiset(other) && WellFormed(items)
    ensures WellFormed(other)
  {
    forall i | 0 <= i < |other| ensures other[i].wellFormed && other[i] in items {
      assert other[i] in multiset(other);
    }
    forall i, j | 0 <= i < j < |other| ensures other[i].id != other[j].id {
      var a, b := other[i], other[j];
      assert a in multiset(other) && b in multiset(other);
      if a == b {
        RepeatedItem(other, i, j);
        ItemOccursOnce(items, a);
      } else {
        var k :| 0 <= k < |items| && items[k] == a;
        var l :| 0 <= l < |items| && items[l] == b;
        assert items[k].id != items[l].id;
      }
    }
  }

  lemma SameItemsSameVersions(items: seq<Item>, other: seq<Item>)
    requires WellFormed(items) && WellFormed(other)
    requires forall x :: x in items <==> x in other
    ensures Versions(items) == Versions(other)
  {
    VersionsExactly(items);
    VersionsExactly(other);
    var m, k := Versions(items).value, Versions(other).value;
    forall id | id in m ensures id in k && k[id] == m[id] {
      var x :| x in items && x.id == id;
      assert x in other;
    }
    forall id | id in k ensures id in m {
      var x :| x in other && x.id == id;
      assert x in items;
    }
    assert m == k;
  }

  /** Every order of the request's items means the same request. */
  lemma VersionsIgnoreOrder(items: seq<Item>, other: seq<Item>)
    requires multiset(items) == multiset(other)
    ensures Versions(items) == Versions(other)
  {
    forall x ensures x in items <==> x in other {
      assert x in multiset(items) <==> x in items;
      assert x in multiset(other) <==> x in other;
    }
    if WellFormed(items) {
      WellFormedIgnoresOrder(items, other);
      SameItemsSameVersions(items, other);
    } else {
      if WellFormed(other) { WellFormedIgnoresOrder(other, items); }
      VersionsExactly(items);
      VersionsExactly(other);
    }
  }

  // ---------------------------------------------------------------- replies

  predicate Present(groups: GroupRows, g: P.Group) { g in groups && groups[g].builtin }

  predicate Administers(groups: GroupRows, g: P.Group) { g in groups && P.AdminAccess in groups[g].permissions }

  /** Who a batch would move, and who is there already. */
  function Moved(users: Users, versions: map<nat, int>, dest: P.Group): set<nat> {
    set id | id in versions && id in users && users[id].group != dest
  }

  function Kept(users: Users, versions: map<nat, int>, dest: P.Group): set<nat> {
    set id | id in versions && id in users && users[id].group == dest
  }

  predicate BatchAllowed(users: Users, groups: GroupRows, actor: nat) {
    && actor in users && !users[actor].deleted && users[actor].active && !users[actor].builtin
    && users[actor].group == P.Admin && Administers(groups, P.Admin)
  }

  ghost predicate AnyMissing(users: Users, versions: map<nat, int>) {
    exists id :: id in versions && (id !in users || users[id].deleted)
  }

  ghost predicate AnyBuiltin(users: Users, versions: map<nat, int>) {
    exists id :: id in versions && id in users && users[id].builtin
  }

  ghost predicate AnyElsewhere(users: Users, versions: map<nat, int>) {
    exists id :: id in versions && id in users && users[id].group != P.Admin && users[id].group != P.User
  }

  ghost predicate AnyStale(users: Users, versions: map<nat, int>) {
    exists id :: id in versions && id in users && users[id].updatedAt != versions[id]
  }

  /** A refusal is decided by what holds of some target, so neither order of rows nor of items matters. */
  ghost function TargetRefusal(users: Users, actor: nat, versions: map<nat, int>): Option<Reply> {
    if AnyMissing(users, versions) then Some(NotFound)
    else if AnyBuiltin(users, versions) then Some(BuiltinUser)
    else if actor in versions then Some(SelfChange)
    else if AnyElsewhere(users, versions) then Some(Invalid)
    else if AnyStale(users, versions) then Some(VersionConflict)
    else None
  }

  ghost function BatchReply(users: Users, groups: GroupRows, actor: nat, versions: map<nat, int>,
                            dest: P.Group): Reply {
    if actor !in users || users[actor].deleted || !users[actor].active || users[actor].builtin then Denied
    else if !Present(groups, P.Admin) then Invalid
    else if !BatchAllowed(users, groups, actor) then Denied
    else if !Present(groups, P.User) then Invalid
    else
      var refusal := TargetRefusal(users, actor, versions);
      if refusal.Some? then refusal.value
      else Done(|Moved(users, versions, dest)|, |Kept(users, versions, dest)|)
  }

  ghost function BatchOutcome(users: Users, groups: GroupRows, actor: nat, items: seq<Item>, dest: P.Group): Reply {
    if !(1 <= |items| <= 100) || (dest != P.User && dest != P.Admin) || Versions(items).None? then Invalid
    else BatchReply(users, groups, actor, Versions(items).value, dest)
  }

  /** A batch of 1 to 100 well-formed items for different accounts, into one of two groups, is looked at further. */
  lemma BatchOutcomeMeans(users: Users, groups: GroupRows, actor: nat, items: seq<Item>, dest: P.Group)
    ensures var good := 0 < |items| < 101 && dest in {P.User, P.Admin}
                        && (forall i :: 0 <= i < |items| ==> items[i].wellFormed)
                        && forall i, j :: 0 <= i < j < |items| ==> items[i].id != items[j].id;
            && (!good ==> BatchOutcome(users, groups, actor, items, dest) == Invalid)
            && (good ==>
                  exists versions: map<nat, int> ::
                    && Asked(items, versions)
                    && BatchOutcome(users, groups, actor, items, dest)
                       == BatchReply(users, groups, actor, versions, dest))
  {
    VersionsExactly(items);
    if WellFormed(items) { assert Asked(items, Versions(items).value); }
  }

  /** Each item's account has the version the item expects, and there are no others. */
  ghost predicate Asked(items: seq<Item>, versions: map<nat, int>) {
    && (forall item :: item in items ==> item.id in versions && versions[item.id] == item.expected)
    && (forall id :: id in versions ==> exists item :: item in items && item.id == id)
  }

  /** Reordering the items changes neither the error nor the counts. */
  lemma OutcomeIgnoresOrder(users: Users, groups: GroupRows, actor: nat, items: seq<Item>, other: seq<Item>,
                            dest: P.Group)
    requires multiset(items) == multiset(other)
    ensures BatchOutcome(users, groups, actor, items, dest) == BatchOutcome(users, groups, actor, other, dest)
  {
    assert |items| == |multiset(items)| == |multiset(other)| == |other|;
    VersionsIgnoreOrder(items, other);
  }

  function SingleReply(users: Users, groups: GroupRows, actor: nat, target: nat, expected: int, dest: P.Group): Reply {
    if actor !in users || !users[actor].active || users[actor].deleted then Denied
    else if users[actor].group == P.Guest || !Administers(groups, users[actor].group) then Denied
    else if target !in users || users[target].deleted then NotFound
    else if users[target].builtin then BuiltinUser
    else if target == actor then SelfChange
    else if users[target].updatedAt != expected then VersionConflict
    else if !Present(groups, dest) then Invalid
    else if users[target].group == dest then Done(0, 1) else Done(1, 0)
  }

  function MoveUsers(users: Users, moved: set<nat>, dest: P.Group, clock: nat -> int): Users {
    map id | id in users ::
      if id in moved
      then users[id].(group := dest, updatedAt := Revisions.NextRevision(clock(id), users[id].updatedAt))
      else users[id]
  }

  function RevokeSessions(sessions: map<nat, Session>, moved: set<nat>): map<nat, Session> {
    map s | s in sessions :: if sessions[s].user in moved then sessions[s].(live := false) else sessions[s]
  }

  // ---------------------------------------------------------------- what a change does, row by row

  /** A moved account is in the destination under a newer version, and is otherwise as it was. */
  predicate MovedUser(before: User, after: User, dest: P.Group, now: int) {
    && after.group == dest && after.active == before.active
    && after.deleted == before.deleted && after.builtin == before.builtin
    && after.updatedAt > before.updatedAt && after.updatedAt >= now
    && (after.updatedAt == now || after.updatedAt == before.updatedAt + 1)
  }

  /** The accounts in `moved` have moved; every other row is the identical one. */
  ghost predicate UsersMoved(before: Users, after: Users, moved: set<nat>, dest: P.Group, clock: nat -> int) {
    && after.Keys == before.Keys
    && (forall id :: id in before && id in moved ==> MovedUser(before[id], after[id], dest, clock(id)))
    && (forall id :: id in before && id !in moved ==> after[id] == before[id])
  }

  /** A session is live exactly if it was and its user has not moved; nobody else's is touched. */
  ghost predicate SessionsRevoked(before: map<nat, Session>, after: map<nat, Session>, moved: set<nat>) {
    && after.Keys == before.Keys
    && forall s :: s in before ==>
         && after[s].user == before[s].user
         && (after[s].live <==> before[s].live && before[s].user !in moved)
  }

  lemma MoveMeans(users: Users, sessions: map<nat, Session>, moved: set<nat>, dest: P.Group, clock: nat -> int)
    ensures UsersMoved(users, MoveUsers(users, moved, dest, clock), moved, dest, clock)
    ensures SessionsRevoked(sessions, RevokeSessions(sessions, moved), moved)
  {
  }

  /** Of the five questions asked about the targets, the first that some target fails decides. */
  lemma TargetRefusalMeans(users: Users, actor: nat, versions: map<nat, int>)
    ensures var r := TargetRefusal(users, actor, versions);
            var missing := exists id :: id in versions && (id !in users || users[id].deleted);
            var guarded := exists id :: id in versions && id in users && users[id].builtin;
            var elsewhere := exists id :: id in versions && id in users
                               && users[id].group != P.Admin && users[id].group != P.User;
            var stale := exists id :: id in versions && id in users && users[id].updatedAt != versions[id];
            r == if missing then Some(NotFound) else if guarded then Some(BuiltinUser)
                 else if actor in versions then Some(SelfChange) else if elsewhere then Some(Invalid)
                 else if stale then Some(VersionConflict) else None
  {
  }

  /** Only an active, ordinary administrator moves anybody, and only between the two built-in groups. */
  lemma BatchReplyMeans(users: Users, groups: GroupRows, actor: nat, versions: map<nat, int>, dest: P.Group)
    ensures var reply := BatchReply(users, groups, actor, versions, dest);
            var fit := actor in users && !users[actor].deleted && users[actor].active && !users[actor].builtin;
            var adminKept := P.Admin in groups && groups[P.Admin].builtin;
            var mayMove := fit && adminKept && users[actor].group == P.Admin
                           && P.AdminAccess in groups[P.Admin].permissions;
            var userKept := P.User in groups && groups[P.User].builtin;
            && (reply == Denied <==> !fit || (adminKept && !mayMove))
            && (fit && !adminKept ==> reply == Invalid)
            && (mayMove && !userKept ==> reply == Invalid)
            && (mayMove && userKept && TargetRefusal(users, actor, versions).Some? ==>
                  reply == TargetRefusal(users, actor, versions).value)
            && (reply.Done? <==> mayMove && userKept && TargetRefusal(users, actor, versions) == None)
  {
  }

  /** The two counts: the targets that were elsewhere, and all the others. */
  lemma BatchCounts(users: Users, groups: GroupRows, actor: nat, versions: map<nat, int>, dest: P.Group)
    ensures var reply := BatchReply(users, groups, actor, versions, dest);
            reply.Done? ==>
              && reply.moved == |set id | id in versions && id in users && users[id].group != dest|
              && reply.moved + reply.kept == |versions|
  {
    if BatchReply(users, groups, actor, versions, dest).Done? {
      var moved, kept := Moved(users, versions, dest), Kept(users, versions, dest);
      assert moved == set id | id in versions && id in users && users[id].group != dest;
      assert moved + kept == versions.Keys && moved !! kept;
      assert |versions| == |versions.Keys|;
    }
  }

  /** The single change asks its questions in another order, and lets any administering group act. */
  lemma SingleReplyMeans(users: Users, groups: GroupRows, actor: nat, target: nat, expected: int, dest: P.Group)
    ensures var reply := SingleReply(users, groups, actor, target, expected, dest);
            var allowed := actor in users && users[actor].active && !users[actor].deleted
                           && users[actor].group != P.Guest && users[actor].group in groups
                           && P.AdminAccess in groups[users[actor].group].permissions;
            var there := target in users && !users[target].deleted;
            var other := allowed && there && !users[target].builtin && target != actor;
            && (reply == Denied <==> !allowed)
            && (reply == NotFound <==> allowed && !there)
            && (reply == BuiltinUser <==> allowed && there && users[target].builtin)
            && (reply == SelfChange <==> allowed && there && !users[target].builtin && target == actor)
            && (reply == VersionConflict <==> other && users[target].updatedAt != expected)
            && (reply.Done? <==> other && users[target].updatedAt == expected
                                 && dest in groups && groups[dest].builtin)
            && (reply.Done? ==> reply == if users[target].group == dest then Done(0, 1) else Done(1, 0))
  {
  }

  // ---------------------------------------------------------------- the batch, pass by pass

  lemma BadPrefix(items: seq<Item>, n: nat)
    requires n <= |items| && Versions(items[..n]).None?
    ensures Versions(items).None?
  {
    VersionsExactly(items);
    VersionsExactly(items[..n]);
  }

  method CollectVersions(items: seq<Item>) returns (r: Option<map<nat, int>>)
    ensures r == Versions(items)
  {
    var versions: map<nat, int> := map[];
    for i := 0 to |items|
      invariant Versions(items[..i]) == Some(versions)
    {
      var item := items[i];
      assert items[..i + 1][..i] == items[..i];
      if !item.wellFormed || item.id in versions {
        BadPrefix(items, i + 1);
        return None;
      }
      versions := versions[item.id := item.expected];
    }
    assert items[..|items|] == items;
    return Some(versions);
  }

  function Going(users: Users, targets: seq<nat>, dest: P.Group): set<nat> {
    set id | id in targets && id in users && users[id].group != dest
  }

  function Staying(users: Users, targets: seq<nat>, dest: P.Group): set<nat> {
    set id | id in targets && id in users && users[id].group == dest
  }

  lemma OneMoreTarget(users: Users, targets: seq<nat>, i: nat, dest: P.Group)
    requires i < |targets| && targets[i] in users && targets[i] !in targets[..i]
    ensures var id := targets[i];
            && Going(users, targets[..i + 1], dest) ==
               Going(users, targets[..i], dest) + (if users[id].group == dest then {} else {id})
            && Staying(users, targets[..i + 1], dest) ==
               Staying(users, targets[..i], dest) + (if users[id].group == dest then {id} else {})
            && id !in Going(users, targets[..i], dest) && id !in Staying(users, targets[..i], dest)
  {
    assert targets[..i + 1] == targets[..i] + [targets[i]];
  }

  function MoveRow(u: User, dest: P.Group, now: int): User {
    u.(group := dest, updatedAt := Revisions.NextRevision(now, u.updatedAt))
  }

  /** The rows once the first `i` targets are done. */
  function MovedTo(users: Users, targets: seq<nat>, i: nat, dest: P.Group, clock: nat -> int): Users
    requires i <= |targets|
  {
    MoveUsers(users, Going(users, targets[..i], dest), dest, clock)
  }

  function RevokedTo(sessions: map<nat, Session>, users: Users, targets: seq<nat>, i: nat,
                     dest: P.Group): map<nat, Session>
    requires i <= |targets|
  {
    RevokeSessions(sessions, Going(users, targets[..i], dest))
  }

  lemma OneMoreMove(users: Users, sessions: map<nat, Session>, targets: seq<nat>, i: nat, dest: P.Group,
                    clock: nat -> int)
    requires i < |targets| && targets[i] in users && targets[i] !in targets[..i]
    ensures var id := targets[i];
            && id in MovedTo(users, targets, i, dest, clock)
            && MovedTo(users, targets, i, dest, clock)[id] == users[id]
            && (users[id].group == dest ==>
                  && MovedTo(users, targets, i + 1, dest, clock) == MovedTo(users, targets, i, dest, clock)
                  && RevokedTo(sessions, users, targets, i + 1, dest) == RevokedTo(sessions, users, targets, i, dest))
            && (users[id].group != dest ==>
                  && MovedTo(users, targets, i + 1, dest, clock)
                     == MovedTo(users, targets, i, dest, clock)[id := MoveRow(users[id], dest, clock(id))]
                  && RevokedTo(sessions, users, targets, i + 1, dest)
                     == RevokeSessions(RevokedTo(sessions, users, targets, i, dest), {id}))
  {
    OneMoreTarget(users, targets, i, dest);
  }

  lemma OneMoreCount(users: Users, targets: seq<nat>, i: nat, dest: P.Group)
    requires i < |targets| && targets[i] in users && targets[i] !in targets[..i]
    ensures var stays := users[targets[i]].group == dest;
            && |Going(users, targets[..i + 1], dest)| == |Going(users, targets[..i], dest)| + (if stays then 0 else 1)
            && |Staying(users, targets[..i + 1], dest)|
               == |Staying(users, targets[..i], dest)| + (if stays then 1 else 0)
  {
    OneMoreTarget(users, targets, i, dest);
  }

  class UserTable {
    var users: Users
    var groups: GroupRows
    var sessions: map<nat, Session>

    /** The passes over the locked targets, one category at a time; None when none refuses. */
    method RefuseTargets(targets: seq<nat>, actor: nat, versions: map<nat, int>) returns (r: Option<Reply>)
      requires Distinct(targets)
      requires forall id :: id in targets <==> id in versions && id in users
      ensures r == TargetRefusal(users, actor, versions)
    {
      var found := AllFound(targets, versions);
      if !found { return Some(NotFound); }
      for i := 0 to |targets|
        invariant forall j :: 0 <= j < i ==> !users[targets[j]].builtin
      {
        if users[targets[i]].builtin {
          assert targets[i] in targets;
          assert AnyBuiltin(users, versions);
          return Some(BuiltinUser);
        }
      }
      assert !AnyBuiltin(users, versions);
      if actor in versions { return Some(SelfChange); }
      r := RefuseStates(targets, versions);
    }

    method AllFound(targets: seq<nat>, versions: map<nat, int>) returns (ok: bool)
      requires Distinct(targets)
      requires forall id :: id in targets <==> id in versions && id in users
      ensures ok <==> !AnyMissing(users, versions)
    {
      DistinctCover(targets, versions.Keys);
      if |targets| != |versions.Keys| { return false; }
      for i := 0 to |targets|
        invariant forall j :: 0 <= j < i ==> !users[targets[j]].deleted
      {
        if users[targets[i]].deleted {
          assert targets[i] in targets;
          return false;
        }
      }
      return true;
    }

    method RefuseStates(targets: seq<nat>, versions: map<nat, int>) returns (r: Option<Reply>)
      requires forall id :: id in targets <==> id in versions && id in users
      ensures r == if AnyElsewhere(users, versions) then Some(Invalid)
                   else if AnyStale(users, versions) then Some(VersionConflict) else None
    {
      for i := 0 to |targets|
        invariant forall j :: 0 <= j < i ==> users[targets[j]].group == P.Admin || users[targets[j]].group == P.User
      {
        assert targets[i] in targets;
        if users[targets[i]].group != P.Admin && users[targets[i]].group != P.User { return Some(Invalid); }
      }
      assert !AnyElsewhere(users, versions);
      for i := 0 to |targets|
        invariant forall j :: 0 <= j < i ==> users[targets[j]].updatedAt == versions[targets[j]]
      {
        assert targets[i] in targets;
        if users[targets[i]].updatedAt != versions[targets[i]] { return Some(VersionConflict); }
      }
      return None;
    }

    /** Moves the targets that are not there yet, counting both kinds. */
    method MoveTargets(targets: seq<nat>, dest: P.Group, clock: nat -> int) returns (changed: nat, same: nat)
      requires Distinct(targets)
      requires forall id :: id in targets ==> id in users
      modifies this
      ensures groups == old(groups)
      ensures users == MoveUsers(old(users), Going(old(users), targets, dest), dest, clock)
      ensures sessions == RevokeSessions(old(sessions), Going(old(users), targets, dest))
      ensures changed == |Going(old(users), targets, dest)| && same == |Staying(old(users), targets, dest)|
      ensures UsersMoved(old(users), users, Going(old(users), targets, dest), dest, clock)
      ensures SessionsRevoked(old(sessions), sessions, Going(old(users), targets, dest))
    {
      changed, same := 0, 0;
      ghost var was, wasSessions := users, sessions;
      assert Going(was, targets[..0], dest) == {} && Staying(was, targets[..0], dest) == {};
      for i := 0 to |targets|
        invariant groups == old(groups)
        invariant users == MovedTo(was, targets, i, dest, clock)
        invariant sessions == RevokedTo(wasSessions, was, targets, i, dest)
        invariant changed == |Going(was, targets[..i], dest)| && same == |Staying(was, targets[..i], dest)|
      {
        var id := targets[i];
        OneMoreMove(was, wasSessions, targets, i, dest, clock);
        OneMoreCount(was, targets, i, dest);
        if users[id].group == dest {
          same := same + 1;
        } else {
          users := users[id := MoveRow(users[id], dest, clock(id))];
          sessions := RevokeSessions(sessions, {id});
          changed := changed + 1;
        }
      }
      assert targets[..|targets|] == targets;
      MoveMeans(was, wasSessions, Going(was, targets, dest), dest, clock);
    }

    /** One pass over the locked rows picks the actor's row and the targets. */
    method SelectTargets(actor: nat, versions: map<nat, int>, rows: seq<nat>)
      returns (current: Option<User>, targets: seq<nat>)
      requires Distinct(rows)
      requires forall id :: id in rows <==> id in users && (id == actor || id in versions)
      ensures current == if actor in users then Some(users[actor]) else None
      ensures forall id :: id in targets <==> id in versions && id in users
      ensures Distinct(targets)
    {
      current, targets := None, [];
      for i := 0 to |rows|
        invariant current == if actor in rows[..i] then Some(users[actor]) else None
        invariant forall id :: id in targets <==> id in rows[..i] && id in versions
        invariant Distinct(targets)
      {
        assert rows[..i + 1] == rows[..i] + [rows[i]];
        assert rows[i] !in rows[..i];
        if rows[i] == actor { current := Some(users[actor]); }
        if rows[i] in versions { targets := targets + [rows[i]]; }
      }
      assert rows[..|rows|] == rows;
    }

    /** `rows` are the locked rows, the actor's among them, in whatever order the database returns them. */
    method BatchChangeGroup(actor: nat, items: seq<Item>, dest: P.Group, rows: seq<nat>, clock: nat -> int)
      returns (reply: Reply)
      requires Distinct(rows)
      requires forall id :: id in rows <==>
                 id in users && (id == actor || exists item :: item in items && item.id == id)
      modifies this
      ensures reply == BatchOutcome(old(users), old(groups), actor, items, dest)
      ensures groups == old(groups)
      ensures !reply.Done? ==> users == old(users) && sessions == old(sessions)
      ensures reply.Done? ==>
                var moved := Moved(old(users), Versions(items).value, dest);
                users == MoveUsers(old(users), moved, dest, clock) && sessions == RevokeSessions(old(sessions), moved)
      ensures reply.Done? ==>
                var moved := Moved(old(users), Versions(items).value, dest);
                && UsersMoved(old(users), users, moved, dest, clock)
                && SessionsRevoked(old(sessions), sessions, moved)
    {
      if |items| < 1 || |items| > 100 || (dest != P.User && dest != P.Admin) { return Invalid; }
      var collected := CollectVersions(items);
      if collected.None? { return Invalid; }
      var versions := collected.value;
      VersionsExactly(items);
      var current, targets := SelectTargets(actor, versions, rows);
      if current.None? || current.value.deleted || !current.value.active || current.value.builtin { return Denied; }
      if P.Admin !in groups || !groups[P.Admin].builtin { return Invalid; }
      if current.value.group != P.Admin || P.AdminAccess !in groups[P.Admin].permissions { return Denied; }
      if P.User !in groups || !groups[P.User].builtin { return Invalid; }
      var refusal := RefuseTargets(targets, actor, versions);
      if refusal.Some? { return refusal.value; }
      assert Going(users, targets, dest) == Moved(users, versions, dest);
      assert Staying(users, targets, dest) == Kept(users, versions, dest);
      MoveMeans(users, sessions, Moved(users, versions, dest), dest, clock);
      var changed, same := MoveTargets(targets, dest, clock);
      return Done(changed, same);
    }

    method ChangeGroup(actor: nat, target: nat, expected: int, dest: P.Group, clock: nat -> int) returns (reply: Reply)
      requires dest == P.User || dest == P.Admin
      modifies this
      ensures reply == SingleReply(old(users), old(groups), actor, target, expected, dest)
      ensures groups == old(groups)
      ensures !reply.Done? ==> users == old(users) && sessions == old(sessions)
      ensures reply.Done? ==>
                var moved := if old(users)[target].group == dest then {} else {target};
                users == MoveUsers(old(users), moved, dest, clock) && sessions == RevokeSessions(old(sessions), moved)
      ensures reply.Done? ==>
                var moved := if old(users)[target].group == dest then {} else {target};
                UsersMoved(old(users), users, moved, dest, clock) && SessionsRevoked(old(sessions), sessions, moved)
    {
      if actor !in users || !users[actor].active || users[actor].deleted { return Denied; }
      var group := users[actor].group;
      if group !in groups || group == P.Guest || P.AdminAccess !in groups[group].permissions { return Denied; }
      if target !in users || users[target].deleted { return NotFound; }
      if users[target].builtin { return BuiltinUser; }
      if target == actor { return SelfChange; }
      if users[target].updatedAt != expected { return VersionConflict; }
      if dest !in groups || !groups[dest].builtin { return Invalid; }
      if users[target].group == dest {
        return Done(0, 1);
      }
      users := users[target := MoveRow(users[target], dest, clock(target))];
      sessions := RevokeSessions(sessions, {target});
      return Done(1, 0);
    }
  }
}
