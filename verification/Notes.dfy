/**
 Batch note edits in two steps: a preview returns both revisions of every link, and the
 write that follows must present them. Clearing is replacing by the empty note.

 The batch locks its rows before it reads them and keeps them until it ends, so each preview
 and each write is one step between those of other writers.
 */
module Notes {
  import opened Common
  import Revisions

  /** `main` is the link's own revision, `noteRevision` the note's. */
  datatype Row = Row(owner: nat, main: int, note: string, noteRevision: int, deleted: bool)

  datatype Versions = Versions(main: int, note: int)

  type Rows = map<nat, Row>

  // ---------------------------------------------------------------- the request's items

  /** An item as parsed; None marks an identifier or revision that did not parse. */
  datatype Item = Item(id: Option<nat>, main: Option<int>, note: Option<int>)

  predicate Parsed(item: Item, write: bool) { item.id.Some? && item.main.Some? && (write ==> item.note.Some?) }

  predicate GoodItems(items: seq<Item>, write: bool) {
    && 1 <= |items| <= 100 && (forall i :: 0 <= i < |items| ==> Parsed(items[i], write))
    && forall i, j :: 0 <= i < j < |items| ==> items[i].id != items[j].id
  }

  /** One to a hundred items with different ids, both revisions parsed; a preview needs the link's only. */
  lemma GoodItemsMean(items: seq<Item>, write: bool)
    ensures GoodItems(items, write) <==>
            && 0 < |items| < 101
            && (forall i :: 0 <= i < |items| ==>
                  items[i].id != None && items[i].main != None && (items[i].note != None || !write))
            && !exists i, j :: 0 <= i < j < |items| && items[i].id == items[j].id
  {
  }

  /** The ids in request order, and the revisions each must have; a preview pins no note revision. */
  method NormalizeBatchNoteItems(items: seq<Item>, write: bool) returns (r: Option<(seq<nat>, map<nat, Versions>)>)
    ensures r.Some? <==> GoodItems(items, write)
    ensures r.Some? ==>
              var (ids, versions) := r.value;
              && |ids| == |items| && Distinct(ids) && versions.Keys == Elements(ids)
              && forall i :: 0 <= i < |items| ==>
                   && items[i].id == Some(ids[i]) && versions[ids[i]].main == items[i].main.value
                   && (write ==> versions[ids[i]].note == items[i].note.value)
  {
    if |items| < 1 || |items| > 100 { return None; }
    var ids: seq<nat> := [];
    var versions: map<nat, Versions> := map[];
    for i := 0 to |items|
      invariant |ids| == i && Distinct(ids)
      invariant forall id :: id in versions <==> id in ids
      invariant forall j :: 0 <= j < i ==>
                  && Parsed(items[j], write) && items[j].id == Some(ids[j])
                  && versions[ids[j]].main == items[j].main.value
                  && (write ==> versions[ids[j]].note == items[j].note.value)
    {
      var item := items[i];
      if item.id.None? { return None; }
      var id := item.id.value;
      if id in versions {
        var j :| 0 <= j < i && ids[j] == id;
        assert items[j].id == items[i].id;
        return None;
      }
      if item.main.None? || (write && item.note.None?) { return None; }
      ids := ids + [id];
      versions := versions[id := Versions(item.main.value, if write then item.note.value else 0)];
    }
    assert forall i, j :: 0 <= i < j < |items| ==> ids[i] != ids[j];
    return Some((ids, versions));
  }

  // ---------------------------------------------------------------- replies

  datatype Reply = Missing | Conflict | Done(changed: nat, same: nat)

  datatype Scope = Scope(actor: nat, admin: bool)

  predicate Live(rows: Rows, id: nat) { id in rows && !rows[id].deleted }

  predicate Visible(rows: Rows, ids: set<nat>, scope: Scope) {
    forall id :: id in ids ==> Live(rows, id) && (scope.admin || rows[id].owner == scope.actor)
  }

  predicate UpToDate(rows: Rows, versions: map<nat, Versions>, write: bool) {
    forall id :: id in versions && id in rows ==>
                   rows[id].main == versions[id].main && (write ==> rows[id].noteRevision == versions[id].note)
  }

  function Changing(rows: Rows, ids: set<nat>, note: string): set<nat> {
    set id | id in ids && id in rows && rows[id].note != note
  }

  function Staying(rows: Rows, ids: set<nat>, note: string): set<nat> {
    set id | id in ids && id in rows && rows[id].note == note
  }

  function ReplyTo(rows: Rows, versions: map<nat, Versions>, note: string, scope: Scope, write: bool): Reply {
    if !Visible(rows, versions.Keys, scope) then Missing
    else if !UpToDate(rows, versions, write) then Conflict
    else Done(|Changing(rows, versions.Keys, note)|, |Staying(rows, versions.Keys, note)|)
  }

  function NewNote(row: Row, note: string, now: int): Row {
    row.(note := note, noteRevision := Revisions.NextRevision(now, row.noteRevision))
  }

  function WriteNotes(rows: Rows, ids: set<nat>, note: string, clock: nat -> int): Rows {
    map id | id in rows :: if id in ids then NewNote(rows[id], note, clock(id)) else rows[id]
  }

  // ---------------------------------------------------------------- what a write does, row by row

  /** A note row once `note` is stored in it: a newer note revision if the note differs, nothing else. */
  predicate Stored(before: Row, after: Row, note: string, now: int) {
    && after.note == note
    && after.main == before.main && after.owner == before.owner && after.deleted == before.deleted
    && (before.note == note ==> after.noteRevision == before.noteRevision)
    && (before.note != note ==>
          && after.noteRevision > before.noteRevision && after.noteRevision >= now
          && (after.noteRevision == now || after.noteRevision == before.noteRevision + 1))
  }

  /** Every link asked for ends with the note, and every other row is the identical one. */
  ghost predicate NotesStored(before: Rows, after: Rows, ids: set<nat>, note: string, clock: nat -> int) {
    && after.Keys == before.Keys
    && (forall id :: id in before && id in ids ==> Stored(before[id], after[id], note, clock(id)))
    && (forall id :: id in before && id !in ids ==> after[id] == before[id])
  }

  lemma WriteStores(rows: Rows, ids: set<nat>, note: string, clock: nat -> int)
    ensures NotesStored(rows, WriteNotes(rows, Changing(rows, ids, note), note, clock), ids, note, clock)
  {
  }

  /** A note that is stored already keeps its row as it is, so clearing a cleared note writes nothing. */
  lemma SameNoteSameRow(before: Row, after: Row, now: int)
    ensures Stored(before, after, before.note, now) ==> after == before
  {
  }

  /** What one action does to the rows. */
  lemma StepMeans(rows: Rows, a: Action)
    ensures a.Batch? && ReplyTo(rows, a.versions, a.note, a.scope, true).Done? ==>
              NotesStored(rows, Step(rows, a), a.versions.Keys, a.note, a.clock)
    ensures a.Batch? && !ReplyTo(rows, a.versions, a.note, a.scope, true).Done? ==> Step(rows, a) == rows
    ensures a.EditNote? && a.id in rows && !rows[a.id].deleted && rows[a.id].noteRevision == a.expected ==>
              NotesStored(rows, Step(rows, a), {a.id}, a.note, _ => a.now)
    ensures a.EditNote? && !(a.id in rows && !rows[a.id].deleted && rows[a.id].noteRevision == a.expected) ==>
              Step(rows, a) == rows
    ensures a.EditLink? && a.id in rows ==>
              var row := rows[a.id];
              Step(rows, a) == rows[a.id := Row(a.owner, a.main, row.note, row.noteRevision, a.deleted)]
    ensures a.Create? && a.id !in rows ==> Step(rows, a) == rows[a.id := a.row]
    ensures (a.EditLink? && a.id !in rows) || (a.Create? && a.id in rows) ==> Step(rows, a) == rows
  {
    if a.Batch? && ReplyTo(rows, a.versions, a.note, a.scope, true).Done? {
      WriteStores(rows, a.versions.Keys, a.note, a.clock);
    }
  }

  /** The first of two questions that some asked link fails decides; otherwise both kinds of links are counted. */
  lemma ReplyMeans(rows: Rows, versions: map<nat, Versions>, note: string, scope: Scope, write: bool)
    ensures var reply := ReplyTo(rows, versions, note, scope, write);
            var hidden := exists id :: id in versions &&
                            (id !in rows || rows[id].deleted || (!scope.admin && rows[id].owner != scope.actor));
            var stale := exists id :: id in versions && id in rows &&
                           (rows[id].main != versions[id].main ||
                            (write && rows[id].noteRevision != versions[id].note));
            && (reply == Missing <==> hidden)
            && (reply == Conflict <==> !hidden && stale)
            && (reply.Done? ==>
                  && reply.changed == |set id | id in versions && id in rows && rows[id].note != note|
                  && reply.changed + reply.same == |versions|)
  {
    var reply := ReplyTo(rows, versions, note, scope, write);
    if reply.Done? {
      var changing, staying := Changing(rows, versions.Keys, note), Staying(rows, versions.Keys, note);
      assert changing == set id | id in versions && id in rows && rows[id].note != note;
      assert forall id :: id in versions ==> Live(rows, id);
      assert changing + staying == versions.Keys && changing !! staying;
      assert |versions| == |versions.Keys|;
    }
  }

  // ---------------------------------------------------------------- the batch, pass by pass

  /** The rows once the first `i` links are done. */
  function WrittenTo(rows: Rows, links: seq<nat>, i: nat, note: string, clock: nat -> int): Rows
    requires i <= |links|
  {
    WriteNotes(rows, Changing(rows, Elements(links[..i]), note), note, clock)
  }

  lemma OneMoreNote(rows: Rows, links: seq<nat>, i: nat, note: string, clock: nat -> int)
    requires i < |links| && Distinct(links) && links[i] in rows
    ensures var id := links[i]; var so := WrittenTo(rows, links, i, note, clock);
            && id in so && so[id] == rows[id]
            && WrittenTo(rows, links, i + 1, note, clock) ==
               if rows[id].note == note then so else so[id := NewNote(rows[id], note, clock(id))]
  {
    OneMoreLink(rows, links, i, note);
  }

  lemma OneMoreLink(rows: Rows, links: seq<nat>, i: nat, note: string)
    requires i < |links| && Distinct(links) && links[i] in rows
    ensures var id := links[i]; var stays := rows[id].note == note;
            var done, next := Elements(links[..i]), Elements(links[..i + 1]);
            && id !in done
            && Changing(rows, next, note) == Changing(rows, done, note) + (if stays then {} else {id})
            && Staying(rows, next, note) == Staying(rows, done, note) + (if stays then {id} else {})
  {
    assert links[..i + 1] == links[..i] + [links[i]];
    assert forall j :: 0 <= j < i ==> links[..i][j] != links[i];
  }

  lemma OneMoreCount(rows: Rows, links: seq<nat>, i: nat, note: string)
    requires i < |links| && Distinct(links) && links[i] in rows
    ensures var stays := rows[links[i]].note == note;
            var done, next := Elements(links[..i]), Elements(links[..i + 1]);
            && |Changing(rows, next, note)| == |Changing(rows, done, note)| + (if stays then 0 else 1)
            && |Staying(rows, next, note)| == |Staying(rows, done, note)| + (if stays then 1 else 0)
  {
    OneMoreLink(rows, links, i, note);
  }

  class NoteTable {
    var rows: Rows

    /** Ownership for all, then revisions for all; `links` are the locked live rows in any order. */
    method CheckLinks(links: seq<nat>, versions: map<nat, Versions>, scope: Scope, write: bool)
      returns (refusal: Option<Reply>)
      requires Distinct(links) && forall id :: id in links <==> id in versions && Live(rows, id)
      ensures refusal == if !Visible(rows, versions.Keys, scope) then Some(Missing)
                         else if !UpToDate(rows, versions, write) then Some(Conflict) else None
    {
      DistinctCover(links, versions.Keys);
      if |links| != |versions.Keys| { return Some(Missing); }
      assert forall j :: 0 <= j < |links| ==> links[j] in links && Live(rows, links[j]);
      for i := 0 to |links|
        invariant forall j :: 0 <= j < i ==> scope.admin || rows[links[j]].owner == scope.actor
      {
        if !scope.admin && rows[links[i]].owner != scope.actor {
          assert links[i] in links;
          return Some(Missing);
        }
      }
      assert Visible(rows, versions.Keys, scope);
      for i := 0 to |links|
        invariant forall j :: 0 <= j < i ==>
                    && rows[links[j]].main == versions[links[j]].main
                    && (write ==> rows[links[j]].noteRevision == versions[links[j]].note)
      {
        var expected := versions[links[i]];
        if rows[links[i]].main != expected.main || (write && rows[links[i]].noteRevision != expected.note) {
          assert links[i] in links;
          return Some(Conflict);
        }
      }
      return None;
    }

    /** Writes the links that change, counting both kinds. */
    method WriteLinks(links: seq<nat>, note: string, clock: nat -> int) returns (changed: nat, same: nat)
      requires Distinct(links) && forall id :: id in links ==> id in rows
      modifies this
      ensures rows == WriteNotes(old(rows), Changing(old(rows), Elements(links), note), note, clock)
      ensures changed == |Changing(old(rows), Elements(links), note)|
      ensures same == |Staying(old(rows), Elements(links), note)|
    {
      changed, same := 0, 0;
      ghost var was := rows;
      assert Changing(was, Elements(links[..0]), note) == {} && Staying(was, Elements(links[..0]), note) == {};
      assert rows == WrittenTo(was, links, 0, note, clock);
      for i := 0 to |links|
        invariant rows == WrittenTo(was, links, i, note, clock)
        invariant changed == |Changing(was, Elements(links[..i]), note)|
        invariant same == |Staying(was, Elements(links[..i]), note)|
      {
        var id := links[i];
        OneMoreNote(was, links, i, note, clock);
        OneMoreCount(was, links, i, note);
        if rows[id].note == note {
          same := same + 1;
        } else {
          rows := rows[id := NewNote(rows[id], note, clock(id))];
          changed := changed + 1;
        }
      }
      assert links[..|links|] == links;
    }

    /** Everything is locked and checked before anything is written; a refusal writes nothing. */
    method BatchNotes(versions: map<nat, Versions>, links: seq<nat>, note: string, scope: Scope, clock: nat -> int)
      returns (reply: Reply)
      requires Distinct(links) && forall id :: id in links <==> id in versions && Live(rows, id)
      modifies this
      ensures reply == ReplyTo(old(rows), versions, note, scope, true)
      ensures rows == if reply.Done? then WriteNotes(old(rows), Changing(old(rows), versions.Keys, note), note, clock)
                      else old(rows)
      ensures reply.Done? ==> NotesStored(old(rows), rows, versions.Keys, note, clock)
    {
      WriteStores(rows, versions.Keys, note, clock);
      var refusal := CheckLinks(links, versions, scope, true);
      if refusal.Some? { return refusal.value; }
      assert Elements(links) == versions.Keys;
      var changed, same := WriteLinks(links, note, clock);
      return Done(changed, same);
    }

    /** Both revisions of every link in request order, and the counts to come. */
    method PreviewItems(ids: seq<nat>, note: string)
      returns (confirmed: seq<Versions>, willChange: seq<bool>, changed: nat, same: nat)
      requires Distinct(ids) && forall i :: 0 <= i < |ids| ==> ids[i] in rows
      ensures |confirmed| == |willChange| == |ids|
      ensures forall i :: 0 <= i < |ids| ==>
                && confirmed[i] == Versions(rows[ids[i]].main, rows[ids[i]].noteRevision)
                && (willChange[i] <==> rows[ids[i]].note != note)
      ensures changed == |Changing(rows, Elements(ids), note)| && same == |Staying(rows, Elements(ids), note)|
    {
      confirmed, willChange := [], [];
      changed, same := 0, 0;
      assert Changing(rows, Elements(ids[..0]), note) == {} && Staying(rows, Elements(ids[..0]), note) == {};
      for i := 0 to |ids|
        invariant |confirmed| == |willChange| == i
        invariant changed == |Changing(rows, Elements(ids[..i]), note)|
        invariant same == |Staying(rows, Elements(ids[..i]), note)|
        invariant forall j :: 0 <= j < i ==>
                    && confirmed[j] == Versions(rows[ids[j]].main, rows[ids[j]].noteRevision)
                    && (willChange[j] <==> rows[ids[j]].note != note)
      {
        var link := rows[ids[i]];
        OneMoreCount(rows, ids, i, note);
        confirmed := confirmed + [Versions(link.main, link.noteRevision)];
        willChange := willChange + [link.note != note];
        if link.note != note { changed := changed + 1; } else { same := same + 1; }
      }
      assert ids[..|ids|] == ids;
    }

    /** A preview needs the links' own revisions only, and writes nothing. */
    method PreviewNotes(ids: seq<nat>, versions: map<nat, Versions>, links: seq<nat>, note: string, scope: Scope)
      returns (reply: Reply, confirmed: seq<Versions>, willChange: seq<bool>)
      requires Distinct(ids) && Elements(ids) == versions.Keys
      requires Distinct(links) && forall id :: id in links <==> id in versions && Live(rows, id)
      ensures reply == ReplyTo(rows, versions, note, scope, false)
      ensures reply.Done? ==> |confirmed| == |willChange| == |ids|
      ensures reply.Done? ==> forall i :: 0 <= i < |ids| ==>
                && ids[i] in rows && confirmed[i] == Versions(rows[ids[i]].main, rows[ids[i]].noteRevision)
                && (willChange[i] <==> rows[ids[i]].note != note)
    {
      var refusal := CheckLinks(links, versions, scope, false);
      if refusal.Some? { return refusal.value, [], []; }
      forall i | 0 <= i < |ids| ensures ids[i] in rows {
        assert ids[i] in Elements(ids) && Live(rows, ids[i]);
      }
      var changed, same;
      confirmed, willChange, changed, same := PreviewItems(ids, note);
      reply := Done(changed, same);
    }
  }

  // ---------------------------------------------------------------- between preview and write

  /** Everything that may happen to links in between, other batches included. */
  datatype Action =
    | Batch(versions: map<nat, Versions>, note: string, scope: Scope, clock: nat -> int)
    | EditNote(id: nat, expected: int, note: string, now: int)
    | EditLink(id: nat, main: int, owner: nat, deleted: bool)
    | Create(id: nat, row: Row)

  function Step(rows: Rows, a: Action): Rows {
    match a
    case Batch(versions, note, scope, clock) =>
      if ReplyTo(rows, versions, note, scope, true).Done?
      then WriteNotes(rows, Changing(rows, versions.Keys, note), note, clock) else rows
    case EditNote(id, expected, note, now) =>
      if Live(rows, id) && rows[id].noteRevision == expected && rows[id].note != note
      then rows[id := NewNote(rows[id], note, now)] else rows
    case EditLink(id, main, owner, deleted) =>
      if id in rows then rows[id := rows[id].(main := main, owner := owner, deleted := deleted)] else rows
    case Create(id, row) => if id in rows then rows else rows[id := row]
  }

  function Run(rows: Rows, actions: seq<Action>): Rows
    decreases |actions|
  {
    if actions == [] then rows else Run(Step(rows, actions[0]), actions[1..])
  }

  /** A note revision only advances, and while it stands still so does the note. */
  predicate NoteAdvanced(before: Row, after: Row) {
    before.noteRevision < after.noteRevision || (before.noteRevision == after.noteRevision && before.note == after.note)
  }

  lemma {:induction false} NotesAdvance(rows: Rows, actions: seq<Action>, id: nat)
    requires id in rows
    ensures id in Run(rows, actions) && NoteAdvanced(rows[id], Run(rows, actions)[id])
    decreases |actions|
  {
    if actions != [] { NotesAdvance(Step(rows, actions[0]), actions[1..], id); }
  }

  /** The revisions a preview hands out. */
  function Confirmed(rows: Rows, ids: set<nat>): map<nat, Versions> {
    map id | id in ids && id in rows :: Versions(rows[id].main, rows[id].noteRevision)
  }

  /**
   A write that presents a preview's revisions and commits changes exactly the links the preview
   announced, whatever other writers did in between.
   */
  lemma CommitMatchesPreview(rows: Rows, asked: map<nat, Versions>, note: string, scope: Scope, actions: seq<Action>)
    requires ReplyTo(rows, asked, note, scope, false).Done?
    ensures var confirmed, now := Confirmed(rows, asked.Keys), Run(rows, actions);
            var reply := ReplyTo(now, confirmed, note, scope, true);
            && (reply.Done? ==>
                  && reply == ReplyTo(rows, asked, note, scope, false)
                  && Changing(now, confirmed.Keys, note) == Changing(rows, asked.Keys, note)
                  && forall id :: id in asked ==> id in now && now[id].note == rows[id].note)
  {
    var confirmed, now := Confirmed(rows, asked.Keys), Run(rows, actions);
    assert confirmed.Keys == asked.Keys;
    if ReplyTo(now, confirmed, note, scope, true).Done? {
      forall id | id in asked ensures id in now && now[id].note == rows[id].note {
        assert Live(rows, id);
        NotesAdvance(rows, actions, id);
      }
      assert Changing(now, confirmed.Keys, note) == Changing(rows, asked.Keys, note);
      assert Staying(now, confirmed.Keys, note) == Staying(rows, asked.Keys, note);
    }
  }

  /** It commits exactly when every link is still visible and neither of its revisions has moved. */
  lemma CommitsUnlessRevised(rows: Rows, asked: map<nat, Versions>, note: string, scope: Scope, actions: seq<Action>)
    requires ReplyTo(rows, asked, note, scope, false).Done?
    ensures var confirmed, now := Confirmed(rows, asked.Keys), Run(rows, actions);
            ReplyTo(now, confirmed, note, scope, true).Done? <==>
            && Visible(now, asked.Keys, scope)
            && forall id :: id in asked ==>
                 now[id].main == rows[id].main && now[id].noteRevision == rows[id].noteRevision
  {
    var confirmed, now := Confirmed(rows, asked.Keys), Run(rows, actions);
    assert confirmed.Keys == asked.Keys;
    forall id | id in asked ensures id in now && id in rows {
      assert Live(rows, id);
      NotesAdvance(rows, actions, id);
    }
  }

  /** A second write with the same revisions changes nothing more: it conflicts if the first changed any note. */
  lemma RepeatedWriteConflicts(rows: Rows, versions: map<nat, Versions>, note: string, scope: Scope, clock: nat -> int)
    requires ReplyTo(rows, versions, note, scope, true).Done? && ReplyTo(rows, versions, note, scope, true).changed > 0
    ensures var after := Step(rows, Batch(versions, note, scope, clock));
            ReplyTo(after, versions, note, scope, true) == Conflict
  {
    var id :| id in Changing(rows, versions.Keys, note);
    var after := Step(rows, Batch(versions, note, scope, clock));
    assert after[id].noteRevision > versions[id].note;
  }
}
