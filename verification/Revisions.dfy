/**
 Compare-and-set resources: footer links, site settings and a domain's sort order. The
 writer's clock may step backwards, so each real change takes a revision strictly newer
 than the stored one. Instants are microseconds.
 */
module Revisions {

  datatype Resource<C> = Resource(content: C, revision: int)

  datatype Reply = Conflict | Rejected | Unchanged | Changed(revision: int)

  /** One update command; `skipsNoOps` is false for settings, which rewrite equal content too. */
  datatype Command<C> = Command(expected: int, content: C, clock: int, skipsNoOps: bool, accepted: bool)

  /** The earliest instant that is newer than the stored revision and not before the clock. */
  function NextRevision(clock: int, revision: int): (next: int)
    ensures next > revision && next >= clock
    ensures next == clock || next == revision + 1
  {
    if clock > revision then clock else revision + 1
  }

  function Answer<C(==)>(r: Resource<C>, c: Command<C>): Reply {
    if r.revision != c.expected then Conflict
    else if c.skipsNoOps && r.content == c.content then Unchanged
    else if !c.accepted then Rejected
    else Changed(NextRevision(c.clock, r.revision))
  }

  function Applied<C(==)>(r: Resource<C>, c: Command<C>): Resource<C> {
    var a := Answer(r, c);
    if a.Changed? then Resource(c.content, a.revision) else r
  }

  /** A stale command conflicts before anything else; equal content counts as no change where that is so. */
  lemma AnswerMeans<C>(r: Resource<C>, c: Command<C>)
    ensures var a, current := Answer(r, c), c.expected == r.revision;
            && (a == Conflict <==> !current)
            && (a == Unchanged <==> current && c.skipsNoOps && c.content == r.content)
            && (a == Rejected <==> current && !(c.skipsNoOps && c.content == r.content) && !c.accepted)
            && (a.Changed? ==> Applied(r, c) == Resource(c.content, a.revision) && a.revision > r.revision)
            && (!a.Changed? ==> Applied(r, c) == r)
  {
  }

  /** The stored versions after each command of a history, the first one included. */
  function History<C(==)>(r: Resource<C>, commands: seq<Command<C>>): (h: seq<Resource<C>>)
    ensures |h| == |commands| + 1 && h[0] == r
    decreases |commands|
  {
    if commands == [] then [r] else [r] + History(Applied(r, commands[0]), commands[1..])
  }

  lemma {:induction false} HistorySteps<C>(r: Resource<C>, commands: seq<Command<C>>, i: nat)
    requires i < |commands|
    ensures History(r, commands)[i + 1] == Applied(History(r, commands)[i], commands[i])
    decreases |commands|
  {
    if i > 0 { HistorySteps(Applied(r, commands[0]), commands[1..], i - 1); }
  }

  /** Later versions have a newer revision, or are the very same version. */
  lemma {:induction false} RevisionsOnlyAdvance<C>(r: Resource<C>, commands: seq<Command<C>>, i: nat, j: nat)
    requires i <= j <= |commands|
    ensures var h := History(r, commands); h[i].revision < h[j].revision || h[i] == h[j]
    decreases j - i
  {
    if i < j {
      RevisionsOnlyAdvance(r, commands, i, j - 1);
      HistorySteps(r, commands, j - 1);
    }
  }

  /** A revision never names two contents. */
  lemma RevisionNamesOneContent<C>(r: Resource<C>, commands: seq<Command<C>>, i: nat, j: nat)
    requires i <= |commands| && j <= |commands|
    requires History(r, commands)[i].revision == History(r, commands)[j].revision
    ensures History(r, commands)[i].content == History(r, commands)[j].content
  {
    if i <= j { RevisionsOnlyAdvance(r, commands, i, j); } else { RevisionsOnlyAdvance(r, commands, j, i); }
  }

  /**
   A command built on version `seen` takes effect only if that version is still stored: every real
   change replaces exactly the content its author saw, and gives it a newer revision.
   */
  lemma ChangesReplaceWhatTheirAuthorSaw<C>(r: Resource<C>, commands: seq<Command<C>>, seen: nat, i: nat)
    requires seen <= i < |commands| && commands[i].expected == History(r, commands)[seen].revision
    ensures var h := History(r, commands);
            && (Answer(h[i], commands[i]) != Conflict <==> h[i] == h[seen])
            && (Answer(h[i], commands[i]).Changed? ==>
                  h[i] == h[seen] && h[i + 1] == Resource(commands[i].content, h[i + 1].revision)
                  && forall k :: 0 <= k <= i ==> h[k].revision < h[i + 1].revision)
  {
    var h := History(r, commands);
    RevisionsOnlyAdvance(r, commands, seen, i);
    HistorySteps(r, commands, i);
    forall k | 0 <= k <= i ensures h[k].revision <= h[i].revision {
      RevisionsOnlyAdvance(r, commands, k, i);
    }
  }

  /** A stale command conflicts even when it asks for the content already stored. */
  lemma StaleNoOpConflicts<C>(r: Resource<C>, commands: seq<Command<C>>, i: nat, changed: nat)
    requires changed < i < |commands| && Answer(History(r, commands)[changed], commands[changed]).Changed?
    requires commands[i].expected <= History(r, commands)[changed].revision
    ensures Answer(History(r, commands)[i], commands[i]) == Conflict
  {
    HistorySteps(r, commands, changed);
    RevisionsOnlyAdvance(r, commands, changed + 1, i);
  }

  // ---------------------------------------------------------------- the settings collection

  datatype Setting = Setting(value: string, updatedAt: int)

  const REVISION := "site.settings_revision"

  /** The keys one update rewrites, in order. */
  const KEYS: seq<string> := [
    "site.name", "site.default_language", "site.default_theme", "site.footer_text",
    "site.show_powered_by", "auth.local_login_enabled", REVISION]

  lemma KeysAre()
    ensures KEYS == ["site.name", "site.default_language", "site.default_theme", "site.footer_text",
                     "site.show_powered_by", "auth.local_login_enabled", "site.settings_revision"]
  {
  }

  type Rows = map<string, Setting>

  /** One update: a value for every editable key; `accepted` when some login method would stay usable. */
  datatype Update = Update(values: map<string, string>, expected: int, accepted: bool, clock: int)

  predicate Complete(rows: Rows) { forall k :: k in KEYS ==> k in rows }

  predicate Full(u: Update) { forall k :: k in KEYS ==> k in u.values }

  /** The seven rows as one resource, whose revision is that of the revision row. */
  function Collection(rows: Rows): Resource<map<string, string>>
    requires Complete(rows)
  {
    assert KEYS[6] == REVISION;
    Resource(map k | k in KEYS :: rows[k].value, rows[REVISION].updatedAt)
  }

  function SettingsCommand(u: Update): Command<map<string, string>>
    requires Full(u)
  {
    Command(u.expected, map k | k in KEYS :: u.values[k], u.clock, false, u.accepted)
  }

  function UpdateReply(rows: Rows, u: Update): Reply {
    if REVISION !in rows then Rejected
    else if rows[REVISION].updatedAt != u.expected then Conflict
    else if !u.accepted || !Complete(rows) then Rejected
    else Changed(NextRevision(u.clock, u.expected))
  }

  function Updated(rows: Rows, u: Update): Rows
    requires Full(u)
  {
    var reply := UpdateReply(rows, u);
    if !reply.Changed? then rows
    else map k | k in rows :: if k in KEYS then Setting(u.values[k], reply.revision) else rows[k]
  }

  /** An update of the settings is one command on the collection, and touches no other row. */
  lemma UpdateIsOneCommand(rows: Rows, u: Update)
    requires Complete(rows) && Full(u)
    ensures Complete(Updated(rows, u))
    ensures UpdateReply(rows, u) == Answer(Collection(rows), SettingsCommand(u))
    ensures Collection(Updated(rows, u)) == Applied(Collection(rows), SettingsCommand(u))
    ensures forall k :: k in rows && k !in KEYS ==> k in Updated(rows, u) && Updated(rows, u)[k] == rows[k]
  {
    assert KEYS[6] == REVISION && REVISION in rows;
    var after := Updated(rows, u);
    assert forall k :: k in KEYS ==> k in after;
    if UpdateReply(rows, u).Changed? {
      assert (map k | k in KEYS :: after[k].value) == (map k | k in KEYS :: u.values[k]);
    }
  }

  function UpdatedBy(rows: Rows, updates: seq<Update>): Rows
    requires forall u :: u in updates ==> Full(u)
    decreases |updates|
  {
    if updates == [] then rows else UpdatedBy(Updated(rows, updates[0]), updates[1..])
  }

  function Commands(updates: seq<Update>): (c: seq<Command<map<string, string>>>)
    requires forall u :: u in updates ==> Full(u)
    ensures |c| == |updates|
  {
    if updates == [] then [] else [SettingsCommand(updates[0])] + Commands(updates[1..])
  }

  /** Any series of settings updates is a history of the collection. */
  lemma {:induction false} SettingsFollowHistory(rows: Rows, updates: seq<Update>, i: nat)
    requires Complete(rows) && (forall u :: u in updates ==> Full(u)) && i <= |updates|
    ensures Complete(UpdatedBy(rows, updates[..i]))
    ensures Collection(UpdatedBy(rows, updates[..i])) == History(Collection(rows), Commands(updates))[i]
    decreases |updates|
  {
    if i > 0 {
      UpdateIsOneCommand(rows, updates[0]);
      SettingsFollowHistory(Updated(rows, updates[0]), updates[1..], i - 1);
      assert updates[..i][1..] == updates[1..][..i - 1];
    }
  }

  /** One settings revision never names two collections of values. */
  lemma SettingsRevisionNamesOneContent(rows: Rows, updates: seq<Update>, i: nat, j: nat)
    requires Complete(rows) && (forall u :: u in updates ==> Full(u)) && i <= |updates| && j <= |updates|
    ensures Complete(UpdatedBy(rows, updates[..i])) && Complete(UpdatedBy(rows, updates[..j]))
    ensures var a, b := Collection(UpdatedBy(rows, updates[..i])), Collection(UpdatedBy(rows, updates[..j]));
            a.revision == b.revision ==> a.content == b.content
  {
    SettingsFollowHistory(rows, updates, i);
    SettingsFollowHistory(rows, updates, j);
    var h := History(Collection(rows), Commands(updates));
    if h[i].revision == h[j].revision { RevisionNamesOneContent(Collection(rows), Commands(updates), i, j); }
  }

  class SettingsTable {
    var rows: Rows

    /**
     Writes every editable key with one new revision, or nothing: a stale revision, a missing
     provider or a missing row leaves the whole table as it was.
     */
    method UpdateSettings(values: map<string, string>, expected: int, keepsLocalLogin: bool,
                          providersAvailable: bool, clock: int)
      returns (r: Reply)
      requires forall k :: k in KEYS ==> k in values
      modifies this
      ensures r.Changed? <==>
              && (forall k :: k in KEYS ==> k in old(rows)) && old(rows)[REVISION].updatedAt == expected
              && (keepsLocalLogin || providersAvailable)
      ensures r.Changed? ==> r.revision == NextRevision(clock, expected)
      ensures r.Changed? ==> rows.Keys == old(rows).Keys
                             && forall k :: k in rows ==>
                                  rows[k] == if k in KEYS then Setting(values[k], r.revision) else old(rows)[k]
      ensures !r.Changed? ==> rows == old(rows)
      ensures r.Conflict? <==> REVISION in old(rows) && old(rows)[REVISION].updatedAt != expected
      ensures var u := Update(values, expected, keepsLocalLogin || providersAvailable, clock);
              r == UpdateReply(old(rows), u) && rows == Updated(old(rows), u)
    {
      if REVISION !in rows { return Rejected; }
      var revision := rows[REVISION].updatedAt;
      if revision != expected { return Conflict; }
      if !keepsLocalLogin && !providersAvailable { return Rejected; }
      var next := NextRevision(clock, revision);
      var committed := rows;
      for i := 0 to |KEYS|
        invariant forall j :: 0 <= j < i ==> KEYS[j] in committed
        invariant rows.Keys == committed.Keys
        invariant forall k :: k in rows ==>
                    rows[k] == if k in KEYS[..i] then Setting(values[k], next) else committed[k]
      {
        if KEYS[i] !in rows {
          rows := committed;
          assert KEYS[i] in KEYS;
          return Rejected;
        }
        rows := rows[KEYS[i] := Setting(values[KEYS[i]], next)];
        assert KEYS[..i + 1] == KEYS[..i] + [KEYS[i]];
      }
      assert KEYS[..|KEYS|] == KEYS;
      return Changed(next);
    }
  }
}
