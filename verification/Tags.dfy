/** Tag lists: adding, removing, replacing and renaming, one list at a time and in all-or-nothing batches. */
module Tags {
  import opened Common
  import Revisions

  type TagList = seq<string>

  // ---------------------------------------------------------------- one list

  /** What is left without `tags`, in the old order. */
  function Removed(existing: TagList, tags: TagList): TagList {
    if existing == [] then []
    else
      var n := |existing| - 1;
      Removed(existing[..n], tags) + if existing[n] in tags then [] else [existing[n]]
  }

  /** The list followed by those of `tags` it lacks, in their own order. */
  function Added(existing: TagList, tags: TagList): TagList {
    if tags == [] then existing
    else
      var n := |tags| - 1;
      var before := Added(existing, tags[..n]);
      if tags[n] in before then before else before + [tags[n]]
  }

  /** `to` takes the place of `from`, unless it has a place already. */
  function Renamed(existing: TagList, from: string, to: string, hasTo: bool): TagList {
    if existing == [] then []
    else
      var n := |existing| - 1;
      Renamed(existing[..n], from, to, hasTo)
      + if existing[n] != from then [existing[n]] else if hasTo then [] else [to]
  }

  function Rename(existing: TagList, from: string, to: string): TagList {
    Renamed(existing, from, to, to in existing)
  }

  datatype Operation =
    | Add(tags: TagList)
    | Remove(tags: TagList)
    | Replace(tags: TagList)
    | RenameTo(from: string, to: string)

  function Edited(existing: TagList, op: Operation): TagList {
    match op
    case Add(tags) => Added(existing, tags)
    case Remove(tags) => Removed(existing, tags)
    case Replace(tags) => tags
    case RenameTo(from, to) => Rename(existing, from, to)
  }

  method ApplyBatchTags(existing: TagList, op: Operation) returns (result: TagList)
    requires !op.RenameTo?
    ensures result == Edited(existing, op)
  {
    if op.Replace? { return op.tags; }
    var tags := op.tags;
    if op.Remove? {
      result := [];
      for i := 0 to |existing|
        invariant result == Removed(existing[..i], tags)
      {
        assert existing[..i + 1][..i] == existing[..i];
        if existing[i] !in tags { result := result + [existing[i]]; }
      }
      assert existing[..|existing|] == existing;
      return;
    }
    result := existing;
    for i := 0 to |tags|
      invariant result == Added(existing, tags[..i])
    {
      assert tags[..i + 1][..i] == tags[..i];
      if tags[i] !in result { result := result + [tags[i]]; }
    }
    assert tags[..|tags|] == tags;
  }

  method RenameBatchTag(existing: TagList, from: string, to: string) returns (result: TagList)
    ensures result == Rename(existing, from, to)
  {
    var hasTo := to in existing;
    result := [];
    for i := 0 to |existing|
      invariant result == Renamed(existing[..i], from, to, hasTo)
    {
      assert existing[..i + 1][..i] == existing[..i];
      if existing[i] != from {
        result := result + [existing[i]];
      } else if !hasTo {
        result := result + [to];
      }
    }
    assert existing[..|existing|] == existing;
  }

  // ---------------------------------------------------------------- what the edits mean

  lemma Snoc(s: TagList)
    requires s != []
    ensures s == s[..|s| - 1] + [s[|s| - 1]]
  {
  }

  lemma {:induction false} RemovedHas(existing: TagList, tags: TagList, t: string)
    ensures t in Removed(existing, tags) <==> t in existing && t !in tags
  {
    if existing != [] {
      Snoc(existing);
      RemovedHas(existing[..|existing| - 1], tags, t);
    }
  }

  lemma {:induction false} AddedHas(existing: TagList, tags: TagList, t: string)
    ensures t in Added(existing, tags) <==> t in existing || t in tags
  {
    if tags != [] {
      Snoc(tags);
      AddedHas(existing, tags[..|tags| - 1], t);
      AddedHas(existing, tags[..|tags| - 1], tags[|tags| - 1]);
    }
  }

  lemma {:induction false} RenamedHas(existing: TagList, from: string, to: string, hasTo: bool, t: string)
    requires from != to
    ensures t in Renamed(existing, from, to, hasTo) <==>
            (t in existing && t != from) || (t == to && from in existing && !hasTo)
  {
    if existing != [] {
      Snoc(existing);
      RenamedHas(existing[..|existing| - 1], from, to, hasTo, t);
    }
  }

  // ---------------------------------------------------------------- no duplicates

  lemma {:induction false} RemovedIsDistinct(existing: TagList, tags: TagList)
    requires Distinct(existing)
    ensures Distinct(Removed(existing, tags)) && |Removed(existing, tags)| <= |existing|
  {
    if existing != [] {
      var n := |existing| - 1;
      RemovedIsDistinct(existing[..n], tags);
      RemovedHas(existing[..n], tags, existing[n]);
      LastIsNew(existing);
    }
  }

  lemma LastIsNew(s: TagList)
    requires s != [] && Distinct(s)
    ensures s[|s| - 1] !in s[..|s| - 1] && Distinct(s[..|s| - 1])
  {
  }

  lemma {:induction false} AddedIsDistinct(existing: TagList, tags: TagList)
    requires Distinct(existing)
    ensures Distinct(Added(existing, tags))
  {
    if tags != [] { AddedIsDistinct(existing, tags[..|tags| - 1]); }
  }

  lemma {:induction false} RenamedIsDistinct(existing: TagList, from: string, to: string, hasTo: bool)
    requires Distinct(existing) && from != to && (to in existing ==> hasTo)
    ensures Distinct(Renamed(existing, from, to, hasTo)) && |Renamed(existing, from, to, hasTo)| <= |existing|
  {
    if existing != [] {
      var n := |existing| - 1;
      Snoc(existing);
      LastIsNew(existing);
      RenamedIsDistinct(existing[..n], from, to, hasTo);
      RenamedHas(existing[..n], from, to, hasTo, existing[n]);
      RenamedHas(existing[..n], from, to, hasTo, to);
    }
  }

  predicate ValidOperation(op: Operation) {
    if op.RenameTo? then op.from != op.to else Distinct(op.tags) && |op.tags| <= 10
  }

  /** Every edit of a duplicate-free list gives a duplicate-free list; only adding can make it longer. */
  lemma EditedIsDistinct(existing: TagList, op: Operation)
    requires Distinct(existing) && ValidOperation(op)
    ensures Distinct(Edited(existing, op))
    ensures op.Remove? || op.RenameTo? ==> |Edited(existing, op)| <= |existing|
  {
    match op
    case Add(tags) => AddedIsDistinct(existing, tags);
    case Remove(tags) => RemovedIsDistinct(existing, tags);
    case Replace(_) =>
    case RenameTo(from, to) => RenamedIsDistinct(existing, from, to, to in existing);
  }

  // ---------------------------------------------------------------- order

  predicate Before(s: TagList, a: string, b: string) { exists i, j :: 0 <= i < j < |s| && s[i] == a && s[j] == b }

  lemma BeforeInSnoc(s: TagList, x: string, a: string, b: string)
    ensures Before(s + [x], a, b) <==> Before(s, a, b) || (a in s && x == b)
  {
    var t := s + [x];
    if Before(s, a, b) {
      var i, j :| 0 <= i < j < |s| && s[i] == a && s[j] == b;
      assert t[i] == a && t[j] == b;
    }
    if a in s && x == b {
      var i :| 0 <= i < |s| && s[i] == a;
      assert t[i] == a && t[|s|] == b;
    }
  }

  /** Survivors of a removal keep their order. */
  lemma {:induction false} RemovedKeepsOrder(existing: TagList, tags: TagList, a: string, b: string)
    requires a !in tags && b !in tags
    ensures Before(Removed(existing, tags), a, b) <==> Before(existing, a, b)
  {
    if existing != [] {
      var n := |existing| - 1;
      Snoc(existing);
      RemovedKeepsOrder(existing[..n], tags, a, b);
      RemovedHas(existing[..n], tags, a);
      BeforeInSnoc(existing[..n], existing[n], a, b);
      BeforeInSnoc(Removed(existing[..n], tags), existing[n], a, b);
      assert Removed(existing[..n], tags) + [] == Removed(existing[..n], tags);
    }
  }

  /** Adding leaves the old list as a prefix. */
  lemma {:induction false} AddedKeepsThePrefix(existing: TagList, tags: TagList)
    ensures existing <= Added(existing, tags)
  {
    if tags != [] { AddedKeepsThePrefix(existing, tags[..|tags| - 1]); }
  }

  /** Tags that were added come in the order they were given. */
  lemma {:induction false} AddedInOrder(existing: TagList, tags: TagList, a: string, b: string)
    requires a !in existing && b !in existing && Distinct(tags)
    ensures Before(Added(existing, tags), a, b) <==> Before(tags, a, b)
  {
    if tags != [] {
      var n := |tags| - 1;
      var before := Added(existing, tags[..n]);
      Snoc(tags);
      LastIsNew(tags);
      AddedInOrder(existing, tags[..n], a, b);
      AddedHas(existing, tags[..n], a);
      AddedHas(existing, tags[..n], tags[n]);
      BeforeInSnoc(tags[..n], tags[n], a, b);
      BeforeInSnoc(before, tags[n], a, b);
    }
  }

  /** Tags that are not renamed keep their order. */
  lemma {:induction false} RenamedKeepsOrder(existing: TagList, from: string, to: string, hasTo: bool, a: string,
                                             b: string)
    requires from != to && a !in [from, to] && b !in [from, to]
    ensures Before(Renamed(existing, from, to, hasTo), a, b) <==> Before(existing, a, b)
  {
    if existing != [] {
      var n := |existing| - 1;
      var init := Renamed(existing[..n], from, to, hasTo);
      Snoc(existing);
      RenamedKeepsOrder(existing[..n], from, to, hasTo, a, b);
      RenamedHas(existing[..n], from, to, hasTo, a);
      BeforeInSnoc(existing[..n], existing[n], a, b);
      BeforeInSnoc(init, existing[n], a, b);
      BeforeInSnoc(init, to, a, b);
      assert init + [] == init;
    }
  }

  // ---------------------------------------------------------------- laws

  lemma {:induction false} AddingPresentTags(existing: TagList, tags: TagList)
    requires forall t :: t in tags ==> t in existing
    ensures Added(existing, tags) == existing
  {
    if tags != [] {
      Snoc(tags);
      AddingPresentTags(existing, tags[..|tags| - 1]);
    }
  }

  lemma AddIsIdempotent(existing: TagList, tags: TagList)
    ensures Added(Added(existing, tags), tags) == Added(existing, tags)
  {
    forall t | t in tags ensures t in Added(existing, tags) { AddedHas(existing, tags, t); }
    AddingPresentTags(Added(existing, tags), tags);
  }

  lemma {:induction false} RemovedAppend(existing: TagList, x: string, tags: TagList)
    ensures Removed(existing + [x], tags) == Removed(existing, tags) + if x in tags then [] else [x]
  {
    assert (existing + [x])[..|existing|] == existing;
  }

  lemma {:induction false} RemovedOfAdded(existing: TagList, some: TagList, tags: TagList)
    requires forall t :: t in some ==> t in tags
    ensures Removed(Added(existing, some), tags) == Removed(existing, tags)
  {
    if some != [] {
      var n := |some| - 1;
      Snoc(some);
      RemovedOfAdded(existing, some[..n], tags);
      RemovedAppend(Added(existing, some[..n]), some[n], tags);
    }
  }

  /** Removing after adding erases exactly the given tags, old or new. */
  lemma RemoveAfterAdd(existing: TagList, tags: TagList)
    ensures Removed(Added(existing, tags), tags) == Removed(existing, tags)
  {
    RemovedOfAdded(existing, tags, tags);
  }

  lemma {:induction false} RenamedAppend(existing: TagList, x: string, from: string, to: string, hasTo: bool)
    ensures Renamed(existing + [x], from, to, hasTo) ==
            Renamed(existing, from, to, hasTo) + if x != from then [x] else if hasTo then [] else [to]
  {
    assert (existing + [x])[..|existing|] == existing;
  }

  lemma {:induction false} RenamedBack(existing: TagList, from: string, to: string)
    requires from != to && to !in existing
    ensures Renamed(Renamed(existing, from, to, false), to, from, false) == existing
  {
    if existing != [] {
      var n := |existing| - 1;
      Snoc(existing);
      RenamedBack(existing[..n], from, to);
      RenamedAppend(Renamed(existing[..n], from, to, false), if existing[n] == from then to else existing[n],
                    to, from, false);
    }
  }

  /** Renaming to a fresh tag and back is the identity. */
  lemma RenameBack(existing: TagList, from: string, to: string)
    requires from != to && to !in existing
    ensures Rename(Rename(existing, from, to), to, from) == existing
  {
    RenamedHas(existing, from, to, false, from);
    RenamedBack(existing, from, to);
  }

  // ---------------------------------------------------------------- batches

  datatype Row = Row(owner: nat, tags: TagList, updatedAt: int)

  type Rows = map<nat, Row>

  datatype Scope = Scope(actor: nat, admin: bool)

  datatype Refusal = Missing | Conflict | Limit

  datatype Reply = Refused(refusal: Refusal) | Done(changed: nat, same: nat)

  /** The first thing wrong with one link; renaming never makes a list longer and has no limit check. */
  function LinkRefusal(row: Row, expected: int, scope: Scope, op: Operation): Option<Refusal> {
    if !scope.admin && row.owner != scope.actor then Some(Missing)
    else if row.updatedAt != expected then Some(Conflict)
    else if !op.RenameTo? && |Edited(row.tags, op)| > 10 then Some(Limit)
    else None
  }

  /** Whose link it is, then its version, then the ten tags a link may have: the first failure is the answer. */
  lemma LinkRefusalMeans(row: Row, expected: int, scope: Scope, op: Operation)
    ensures var r := LinkRefusal(row, expected, scope, op);
            var foreign, stale := !(scope.admin || row.owner == scope.actor), row.updatedAt != expected;
            && (r == Some(Missing) <==> foreign)
            && (r == Some(Conflict) <==> !foreign && stale)
            && (r == Some(Limit) <==>
                  !foreign && !stale && !op.RenameTo? && 11 <= |Edited(row.tags, op)|)
  {
  }

  /** Tags given with an operation are at most ten and all different; a rename has two different ones. */
  lemma ValidOperationMeans(op: Operation)
    ensures op.RenameTo? ==> (ValidOperation(op) <==> op.from != op.to)
    ensures !op.RenameTo? ==>
              (ValidOperation(op) <==>
                |op.tags| < 11 && forall i, j :: 0 <= i < j < |op.tags| ==> op.tags[i] != op.tags[j])
  {
  }

  type Edit = TagList -> TagList

  function Editor(op: Operation): Edit { existing => Edited(existing, op) }

  function EditRow(row: Row, edit: Edit, now: int): Row {
    if edit(row.tags) == row.tags then row
    else Row(row.owner, edit(row.tags), Revisions.NextRevision(now, row.updatedAt))
  }

  function EditRows(rows: Rows, ids: set<nat>, edit: Edit, clock: nat -> int): Rows {
    map id | id in rows :: if id in ids then EditRow(rows[id], edit, clock(id)) else rows[id]
  }

  /** A link once its list is edited: nothing else changes, and a list that stays leaves the row as it is. */
  predicate RowEdited(before: Row, after: Row, tags: TagList, now: int) {
    && after.owner == before.owner && after.tags == tags
    && (before.tags == tags ==> after.updatedAt == before.updatedAt)
    && (before.tags != tags ==>
          && after.updatedAt > before.updatedAt && after.updatedAt >= now
          && (after.updatedAt == now || after.updatedAt == before.updatedAt + 1))
  }

  /** Every link asked for has its edited list, and every other row is the identical one. */
  ghost predicate RowsEdited(before: Rows, after: Rows, ids: set<nat>, op: Operation, clock: nat -> int) {
    && after.Keys == before.Keys
    && (forall id :: id in before && id in ids ==>
          RowEdited(before[id], after[id], Edited(before[id].tags, op), clock(id)))
    && (forall id :: id in before && id !in ids ==> after[id] == before[id])
  }

  lemma EditMeans(rows: Rows, ids: set<nat>, op: Operation, clock: nat -> int)
    ensures RowsEdited(rows, EditRows(rows, ids, Editor(op), clock), ids, op, clock)
  {
  }

  /** How many of the first `n` links an edit changes. */
  function Changes(rows: Rows, links: seq<nat>, n: nat, edit: Edit): (c: nat)
    requires n <= |links| && forall i :: 0 <= i < n ==> links[i] in rows
    ensures c <= n
  {
    if n == 0 then 0
    else Changes(rows, links, n - 1, edit) + if edit(rows[links[n - 1]].tags) == rows[links[n - 1]].tags then 0 else 1
  }

  /** The links whose list an operation changes. */
  function Changing(rows: Rows, links: seq<nat>, op: Operation): set<nat> {
    set id | id in links && id in rows && Edited(rows[id].tags, op) != rows[id].tags
  }

  /** `changed` counts those links. */
  lemma {:induction false} ChangesMean(rows: Rows, links: seq<nat>, op: Operation)
    requires Distinct(links) && forall i :: 0 <= i < |links| ==> links[i] in rows
    ensures Changes(rows, links, |links|, Editor(op)) == |Changing(rows, links, op)|
  {
    if links != [] {
      var n := |links| - 1;
      ChangesMean(rows, links[..n], op);
      ChangesOfPrefix(rows, links, n, n, Editor(op));
      OneMoreChanging(rows, links[..n], links[n], op);
      assert links == links[..n] + [links[n]];
    } else {
      assert Changing(rows, links, op) == {};
    }
  }

  lemma OneMoreChanging(rows: Rows, links: seq<nat>, id: nat, op: Operation)
    requires id !in links && id in rows
    ensures |Changing(rows, links + [id], op)|
            == |Changing(rows, links, op)| + if Edited(rows[id].tags, op) == rows[id].tags then 0 else 1
  {
    assert Changing(rows, links + [id], op)
        == Changing(rows, links, op) + if Edited(rows[id].tags, op) == rows[id].tags then {} else {id};
  }

  lemma {:induction false} ChangesOfPrefix(rows: Rows, links: seq<nat>, m: nat, n: nat, edit: Edit)
    requires n <= m <= |links| && forall i :: 0 <= i < m ==> links[i] in rows
    ensures Changes(rows, links[..m], n, edit) == Changes(rows, links, n, edit)
  {
    if n > 0 { ChangesOfPrefix(rows, links, m, n - 1, edit); }
  }

  /** The refusal of the first link that is refused, from `i` on. */
  function FirstRefusal(rows: Rows, links: seq<nat>, versions: map<nat, int>, scope: Scope, op: Operation,
                        i: nat): Option<Refusal>
    requires i <= |links| && forall j :: i <= j < |links| ==> links[j] in rows && links[j] in versions
    decreases |links| - i
  {
    if i == |links| then None
    else
      var here := LinkRefusal(rows[links[i]], versions[links[i]], scope, op);
      if here.Some? then here else FirstRefusal(rows, links, versions, scope, op, i + 1)
  }

  lemma {:induction false} NobodyRefused(rows: Rows, links: seq<nat>, versions: map<nat, int>, scope: Scope,
                                         op: Operation, i: nat)
    requires i <= |links| && forall j :: i <= j < |links| ==> links[j] in rows && links[j] in versions
    ensures FirstRefusal(rows, links, versions, scope, op, i).None? <==>
            forall j :: i <= j < |links| ==> LinkRefusal(rows[links[j]], versions[links[j]], scope, op).None?
    decreases |links| - i
  {
    if i < |links| { NobodyRefused(rows, links, versions, scope, op, i + 1); }
  }

  /** The checks of one locked link, and its new list. */
  method ComputeList(link: Row, version: int, scope: Scope, op: Operation)
    returns (refusal: Option<Refusal>, list: TagList)
    ensures refusal == LinkRefusal(link, version, scope, op)
    ensures refusal.None? ==> list == Edited(link.tags, op)
  {
    if !scope.admin && link.owner != scope.actor { return Some(Missing), []; }
    if link.updatedAt != version { return Some(Conflict), []; }
    if op.RenameTo? {
      list := RenameBatchTag(link.tags, op.from, op.to);
    } else {
      list := ApplyBatchTags(link.tags, op);
      if |list| > 10 { return Some(Limit), []; }
    }
    return None, list;
  }

  class TagTable {
    var rows: Rows

    /** First pass: every locked link is checked and its new list computed, nothing is written. */
    method ComputeLists(links: seq<nat>, versions: map<nat, int>, scope: Scope, op: Operation)
      returns (refusal: Option<Refusal>, lists: seq<TagList>)
      requires forall i :: 0 <= i < |links| ==> links[i] in rows && links[i] in versions
      ensures refusal == FirstRefusal(rows, links, versions, scope, op, 0)
      ensures refusal.None? ==>
                |lists| == |links| && forall i :: 0 <= i < |links| ==> lists[i] == Edited(rows[links[i]].tags, op)
    {
      var computed := new TagList[|links|](_ => []);
      for i := 0 to |links|
        invariant FirstRefusal(rows, links, versions, scope, op, 0) == FirstRefusal(rows, links, versions, scope, op, i)
        invariant forall j :: 0 <= j < i ==> computed[j] == Edited(rows[links[j]].tags, op)
      {
        var refused, list := ComputeList(rows[links[i]], versions[links[i]], scope, op);
        if refused.Some? { return refused, []; }
        computed[i] := list;
      }
      return None, computed[..];
    }

    /** Second pass: writes the lists that differ, each with a newer revision. */
    method WriteLists(links: seq<nat>, lists: seq<TagList>, ghost edit: Edit, clock: nat -> int)
      returns (changed: nat, same: nat)
      requires Distinct(links) && |lists| == |links|
      requires forall i :: 0 <= i < |links| ==> links[i] in rows && lists[i] == edit(rows[links[i]].tags)
      modifies this
      ensures rows == EditRows(old(rows), Elements(links), edit, clock)
      ensures changed + same == |links| && changed == Changes(old(rows), links, |links|, edit)
    {
      changed, same := 0, 0;
      ghost var was := rows;
      assert rows == EditRows(was, Elements(links[..0]), edit, clock);
      for i := 0 to |links|
        invariant rows == EditRows(was, Elements(links[..i]), edit, clock)
        invariant changed + same == i && changed == Changes(was, links, i, edit)
      {
        var id := links[i];
        OneMoreRow(was, links, i, edit, clock);
        if rows[id].tags == lists[i] {
          same := same + 1;
        } else {
          rows := rows[id := Row(rows[id].owner, lists[i], Revisions.NextRevision(clock(id), rows[id].updatedAt))];
          changed := changed + 1;
        }
      }
      assert links[..|links|] == links;
    }

    /** `links` are the locked rows among the requested ids, in the order the database returns them. */
    method BatchTags(ids: seq<nat>, versions: map<nat, int>, links: seq<nat>, scope: Scope, op: Operation,
                     clock: nat -> int)
      returns (reply: Reply)
      requires Distinct(ids) && versions.Keys == Elements(ids)
      requires Distinct(links) && forall id :: id in links <==> id in versions && id in rows
      modifies this
      ensures |links| <= |ids| && forall i :: 0 <= i < |links| ==> links[i] in old(rows) && links[i] in versions
      ensures reply ==
              if exists id :: id in versions && id !in old(rows) then Refused(Missing)
              else
                var refusal := FirstRefusal(old(rows), links, versions, scope, op, 0);
                if refusal.Some? then Refused(refusal.value)
                else
                  var changes := Changes(old(rows), links, |links|, Editor(op));
                  Done(changes, |ids| - changes)
      ensures rows == if reply.Done? then EditRows(old(rows), versions.Keys, Editor(op), clock) else old(rows)
      ensures reply.Done? ==> RowsEdited(old(rows), rows, versions.Keys, op, clock)
    {
      DistinctCount(ids);
      DistinctCount(links);
      DistinctCover(links, versions.Keys);
      assert forall i :: 0 <= i < |links| ==> links[i] in links;
      SubsetCount(Elements(links), Elements(ids));
      if |links| != |ids| { return Refused(Missing); }
      assert Elements(links) == versions.Keys;
      NobodyRefused(rows, links, versions, scope, op, 0);
      var refusal, lists := ComputeLists(links, versions, scope, op);
      if refusal.Some? { return Refused(refusal.value); }
      EditMeans(rows, versions.Keys, op, clock);
      var changed, same := WriteLists(links, lists, Editor(op), clock);
      return Done(changed, same);
    }
  }

  lemma OneMoreRow(rows: Rows, links: seq<nat>, i: nat, edit: Edit, clock: nat -> int)
    requires i < |links| && Distinct(links) && links[i] in rows
    ensures var id, so := links[i], EditRows(rows, Elements(links[..i]), edit, clock);
            && id in so && so[id] == rows[id]
            && EditRows(rows, Elements(links[..i + 1]), edit, clock) == so[id := EditRow(rows[id], edit, clock(id))]
            && (edit(rows[id].tags) == rows[id].tags ==> so[id := EditRow(rows[id], edit, clock(id))] == so)
  {
    assert links[..i + 1] == links[..i] + [links[i]];
    assert forall j :: 0 <= j < i ==> links[..i][j] != links[i];
    assert Elements(links[..i + 1]) == Elements(links[..i]) + {links[i]};
  }

  predicate ValidRows(rows: Rows) { forall id :: id in rows ==> Distinct(rows[id].tags) && |rows[id].tags| <= 10 }

  /** A batch that commits keeps every list duplicate-free and within the limit. */
  lemma BatchKeepsListsValid(rows: Rows, versions: map<nat, int>, scope: Scope, op: Operation, clock: nat -> int)
    requires ValidRows(rows) && ValidOperation(op)
    requires forall id :: id in versions ==> id in rows && LinkRefusal(rows[id], versions[id], scope, op).None?
    ensures ValidRows(EditRows(rows, versions.Keys, Editor(op), clock))
  {
    forall id | id in versions ensures Distinct(EditRow(rows[id], Editor(op), clock(id)).tags) {
      EditedIsDistinct(rows[id].tags, op);
    }
    forall id | id in versions ensures |EditRow(rows[id], Editor(op), clock(id)).tags| <= 10 {
      EditedIsDistinct(rows[id].tags, op);
    }
  }
}
