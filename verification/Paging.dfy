/**
 Keyset paging over a log that grows and is trimmed while a client pages. The audit log
 and the visit list share the scheme: newest first, one row more than the page asks for,
 and a cursor naming the last row shown.
 */
module Paging {
  import opened Common

  datatype Key = Key(at: int, id: int)

  datatype Record = Record(key: Key, actor: string, resource: string, action: string)

  /** A half-open time range and optional exact filters; empty text matches everything. */
  datatype Query = Query(start: int, end: int, actor: string, resource: string, action: string)

  datatype Page = Page(items: seq<Record>, hasMore: bool, next: Option<Key>)

  predicate Below(a: Key, b: Key) { a.at < b.at || (a.at == b.at && a.id < b.id) }

  predicate Matches(r: Record, q: Query, cutoff: int) {
    && q.start <= r.key.at < q.end && r.key.at >= cutoff
    && (q.actor == "" || r.actor == q.actor)
    && (q.resource == "" || r.resource == q.resource)
    && (q.action == "" || r.action == q.action)
  }

  function Eligible(table: set<Record>, q: Query, cutoff: int, cursor: Option<Key>): set<Record> {
    set r | r in table && Matches(r, q, cutoff) && (cursor.Some? ==> Below(r.key, cursor.value))
  }

  /** What a request asks for: its range and filters, what retention still covers, and older than the cursor. */
  lemma EligibleMeans(table: set<Record>, q: Query, cutoff: int, cursor: Option<Key>, r: Record)
    ensures r in Eligible(table, q, cutoff, cursor) <==>
            && r in table && q.start <= r.key.at && r.key.at < q.end && cutoff <= r.key.at
            && (q.actor != "" ==> r.actor == q.actor)
            && (q.resource != "" ==> r.resource == q.resource)
            && (q.action != "" ==> r.action == q.action)
            && (cursor.None? || r.key.at < cursor.value.at
                || (r.key.at == cursor.value.at && r.key.id < cursor.value.id))
  {
  }

  ghost predicate Descending(rows: seq<Record>) {
    forall i, j :: 0 <= i < j < |rows| ==> Below(rows[j].key, rows[i].key)
  }

  /** The answer of the list query: the newest eligible rows, newest first, at most `limit`. */
  ghost predicate IsListing(rows: seq<Record>, eligible: set<Record>, limit: nat) {
    && Descending(rows) && |rows| <= limit
    && (forall r :: r in rows ==> r in eligible)
    && (forall r :: r in eligible && r !in rows ==>
          |rows| == limit && forall i :: 0 <= i < |rows| ==> Below(r.key, rows[i].key))
  }

  ghost predicate DistinctKeys(s: set<Record>) { forall a, b :: a in s && b in s && a.key == b.key ==> a == b }

  /** The newest record of a nonempty set. */
  lemma {:induction false} NewestExists(s: set<Record>) returns (m: Record)
    requires s != {} && DistinctKeys(s)
    ensures m in s && forall r :: r in s && r != m ==> Below(r.key, m.key)
    decreases |s|
  {
    m :| m in s;
    if s != {m} {
      var rest := s - {m};
      var n := NewestExists(rest);
      if Below(m.key, n.key) { m := n; }
    }
  }

  /** The list query has an answer for every table. */
  lemma {:induction false} ListingExists(eligible: set<Record>, limit: nat) returns (rows: seq<Record>)
    requires DistinctKeys(eligible)
    ensures IsListing(rows, eligible, limit)
    decreases limit
  {
    rows := [];
    if limit > 0 && eligible != {} {
      var m := NewestExists(eligible);
      var rest := ListingExists(eligible - {m}, limit - 1);
      rows := [m] + rest;
      forall r | r in rows ensures r in eligible { if r != m { assert r in rest; } }
      forall r | r in eligible && r !in rows
        ensures |rows| == limit && forall i :: 0 <= i < |rows| ==> Below(r.key, rows[i].key)
      {
        assert rows[0] == m && r != m && r !in rest;
      }
      forall i, j | 0 <= i < j < |rows| ensures Below(rows[j].key, rows[i].key) {
        assert rows[j] in rest;
      }
    }
  }

  lemma EmptyListing(rows: seq<Record>, eligible: set<Record>, limit: nat)
    requires IsListing(rows, eligible, limit)
    ensures rows == [] <==> limit == 0 || eligible == {}
  {
    if rows != [] { assert rows[0] in eligible; }
    if eligible != {} { var r :| r in eligible; }
  }

  lemma FirstIsNewest(rows: seq<Record>, eligible: set<Record>, limit: nat, r: Record)
    requires IsListing(rows, eligible, limit) && rows != [] && r in eligible && r != rows[0]
    ensures Below(r.key, rows[0].key)
  {
    if r in rows {
      var i :| 0 <= i < |rows| && rows[i] == r;
    }
  }

  /** And only one: two listings of the same rows agree. */
  lemma {:induction false} ListingIsUnique(a: seq<Record>, b: seq<Record>, eligible: set<Record>, limit: nat)
    requires IsListing(a, eligible, limit) && IsListing(b, eligible, limit)
    ensures a == b
    decreases limit
  {
    EmptyListing(a, eligible, limit);
    EmptyListing(b, eligible, limit);
    if a != [] {
      assert a[0] in eligible && b[0] in eligible;
      if a[0] != b[0] {
        FirstIsNewest(a, eligible, limit, b[0]);
        FirstIsNewest(b, eligible, limit, a[0]);
      }
      TailIsListing(a, eligible, limit);
      TailIsListing(b, eligible, limit);
      ListingIsUnique(a[1..], b[1..], eligible - {a[0]}, limit - 1);
    }
  }

  lemma TailIsListing(a: seq<Record>, eligible: set<Record>, limit: nat)
    requires IsListing(a, eligible, limit) && a != []
    ensures IsListing(a[1..], eligible - {a[0]}, limit - 1)
  {
    forall r | r in a[1..] ensures r in eligible - {a[0]} {
      var i :| 0 <= i < |a[1..]| && a[1..][i] == r;
      assert Below(a[i + 1].key, a[0].key);
    }
    forall r | r in eligible - {a[0]} && r !in a[1..] ensures r !in a {
    }
  }

  // ---------------------------------------------------------------- one page

  type PageSize = n: nat | n > 0 witness 1

  /** The page cut from `size` + 1 rows. */
  function PageOf(rows: seq<Record>, size: PageSize): Page {
    if |rows| > size then Page(rows[..size], true, Some(rows[size - 1].key)) else Page(rows, false, None)
  }

  /** As many rows as fit, and a cursor at the last of them exactly if one is left over. */
  lemma PageMeans(rows: seq<Record>, size: PageSize)
    ensures var page := PageOf(rows, size);
            && page.items <= rows && |page.items| == (if |rows| < size then |rows| else size)
            && (page.hasMore <==> |page.items| < |rows|)
            && page.next == if page.hasMore then Some(page.items[|page.items| - 1].key) else None
  {
  }

  /** Truncates the rows, appends the items one by one and takes the cursor from the last item shown. */
  method Audit(rows: seq<Record>, size: PageSize) returns (page: Page)
    requires size <= 100 && |rows| <= size + 1
    ensures page == PageOf(rows, size)
  {
    var shown := rows;
    var hasMore := |rows| > size;
    if hasMore { shown := rows[..size]; }
    var items := [];
    for i := 0 to |shown|
      invariant items == shown[..i]
    {
      items := items + [shown[i]];
    }
    var next := None;
    if hasMore { next := Some(items[|items| - 1].key); }
    return Page(items, hasMore, next);
  }

  // ---------------------------------------------------------------- following the cursor

  /** One request as served: the table and retention cutoff it saw, and the rows it read. */
  datatype Request = Request(table: set<Record>, cutoff: int, rows: seq<Record>)

  function CursorBefore(requests: seq<Request>, size: PageSize, i: nat): Option<Key>
    requires i <= |requests|
  {
    if i == 0 then None else PageOf(requests[i - 1].rows, size).next
  }

  ghost predicate Served(q: Query, size: PageSize, requests: seq<Request>, i: nat)
    requires i < |requests|
  {
    var r := requests[i];
    IsListing(r.rows, Eligible(r.table, q, r.cutoff, CursorBefore(requests, size, i)), size + 1)
  }

  predicate HasMore(size: PageSize, requests: seq<Request>, i: nat)
    requires i < |requests|
  {
    PageOf(requests[i].rows, size).hasMore
  }

  /** A client that follows the cursor from page to page while there is more. */
  ghost predicate Walk(q: Query, size: PageSize, requests: seq<Request>) {
    && (forall i :: 0 <= i < |requests| ==> Served(q, size, requests, i))
    && (forall i :: 0 <= i < |requests| - 1 ==> HasMore(size, requests, i))
  }

  ghost predicate Finished(size: PageSize, requests: seq<Request>) {
    requests != [] && !HasMore(size, requests, |requests| - 1)
  }

  /** Everything shown so far, in order. */
  function Shown(size: PageSize, requests: seq<Request>): seq<Record> {
    if requests == [] then []
    else Shown(size, requests[..|requests| - 1]) + PageOf(requests[|requests| - 1].rows, size).items
  }

  ghost predicate VisibleThroughout(r: Record, q: Query, requests: seq<Request>) {
    forall i :: 0 <= i < |requests| ==> r in requests[i].table && Matches(r, q, requests[i].cutoff)
  }

  lemma PrefixIsWalk(q: Query, size: PageSize, requests: seq<Request>)
    requires Walk(q, size, requests) && requests != []
    ensures Walk(q, size, requests[..|requests| - 1])
  {
    var before := requests[..|requests| - 1];
    forall i | 0 <= i < |before| ensures Served(q, size, before, i) {
      assert Served(q, size, requests, i);
    }
    forall i | 0 <= i < |before| - 1 ensures HasMore(size, before, i) {
      assert HasMore(size, requests, i);
    }
  }

  /** One more request at the cursor extends a walk that has more. */
  lemma WalkContinues(q: Query, size: PageSize, requests: seq<Request>, last: Request)
    requires Walk(q, size, requests) && (requests != [] ==> HasMore(size, requests, |requests| - 1))
    requires var cursor := CursorBefore(requests, size, |requests|);
             IsListing(last.rows, Eligible(last.table, q, last.cutoff, cursor), size + 1)
    ensures Walk(q, size, requests + [last])
  {
    var all := requests + [last];
    forall i | 0 <= i < |all| ensures Served(q, size, all, i) {
      if i < |requests| {
        assert Served(q, size, requests, i);
      } else {
        assert all[i] == last;
      }
    }
    forall i | 0 <= i < |all| - 1 ensures HasMore(size, all, i) {
      assert HasMore(size, requests, i);
    }
  }

  /** A page read below the cursor continues the descending list. */
  lemma PageContinues(shown: seq<Record>, items: seq<Record>)
    requires Descending(shown) && Descending(items)
    requires shown != [] ==> forall r :: r in items ==> Below(r.key, shown[|shown| - 1].key)
    ensures Descending(shown + items)
  {
    forall i, j | 0 <= i < j < |shown + items| ensures Below((shown + items)[j].key, (shown + items)[i].key) {
      if i < |shown| <= j {
        assert items[j - |shown|] in items;
        assert Below(items[j - |shown|].key, shown[|shown| - 1].key);
      }
    }
  }

  /** What one page leaves out lies below its cursor. */
  lemma PageLeavesOut(rows: seq<Record>, eligible: set<Record>, size: PageSize, r: Record)
    requires IsListing(rows, eligible, size + 1) && r in eligible && r !in PageOf(rows, size).items
    ensures PageOf(rows, size).hasMore && Below(r.key, PageOf(rows, size).next.value)
  {
    var items := PageOf(rows, size).items;
    assert forall k :: 0 <= k < |items| ==> items[k] == rows[k] && items[k] in items;
  }

  /** The items of a page, all eligible and descending to its cursor. */
  lemma PageIsListed(rows: seq<Record>, eligible: set<Record>, size: PageSize)
    requires IsListing(rows, eligible, size + 1)
    ensures var page := PageOf(rows, size);
            && Descending(page.items) && (forall r :: r in page.items ==> r in eligible)
            && (page.hasMore ==> page.items != [] && page.next == Some(page.items[|page.items| - 1].key))
            && (!page.hasMore ==> page.next.None?)
  {
    forall r | r in PageOf(rows, size).items ensures r in eligible { assert r in rows; }
  }

  /** Where the walk stands: what is shown, where the cursor is, and what is still to come. */
  ghost predicate Progressing(q: Query, size: PageSize, requests: seq<Request>) {
    var shown := Shown(size, requests);
    var cursor := CursorBefore(requests, size, |requests|);
    && Descending(shown)
    && (cursor.Some? ==> shown != [] && cursor.value == shown[|shown| - 1].key)
    && (forall r :: r in shown ==> q.start <= r.key.at < q.end)
    && (requests != [] ==> forall r :: VisibleThroughout(r, q, requests) && r !in shown ==>
          cursor.Some? && Below(r.key, cursor.value))
  }

  /**
   After any number of requests: the rows shown strictly descend and end at the cursor, and a record
   visible throughout is either shown already or below the cursor, still to come.
   */
  lemma {:induction false} WalkInvariant(q: Query, size: PageSize, requests: seq<Request>)
    requires Walk(q, size, requests)
    ensures Progressing(q, size, requests)
    decreases |requests|
  {
    if requests != [] {
      var before, last := requests[..|requests| - 1], requests[|requests| - 1];
      assert requests == before + [last];
      PrefixIsWalk(q, size, requests);
      LatestRequest(q, size, requests);
      WalkInvariant(q, size, before);
      NextRequest(q, size, before, last);
    }
  }

  /** One more page, in terms of what was shown and where the cursor stood. */
  lemma NextPage(q: Query, size: PageSize, shown: seq<Record>, cursor: Option<Key>, last: Request)
    requires Descending(shown) && (forall r :: r in shown ==> q.start <= r.key.at < q.end)
    requires if shown == [] then cursor.None? else cursor == Some(shown[|shown| - 1].key)
    requires IsListing(last.rows, Eligible(last.table, q, last.cutoff, cursor), size + 1)
    ensures var page := PageOf(last.rows, size);
            && Descending(shown + page.items)
            && (page.next.Some? ==> page.items != [] && page.next.value == page.items[|page.items| - 1].key)
            && (forall r :: r in shown + page.items ==> q.start <= r.key.at < q.end)
            && (forall r :: r in Eligible(last.table, q, last.cutoff, cursor) && r !in page.items ==>
                  page.next.Some? && Below(r.key, page.next.value))
  {
    var eligible := Eligible(last.table, q, last.cutoff, cursor);
    PageIsListed(last.rows, eligible, size);
    PageContinues(shown, PageOf(last.rows, size).items);
    forall r | r in eligible && r !in PageOf(last.rows, size).items
      ensures PageOf(last.rows, size).next.Some? && Below(r.key, PageOf(last.rows, size).next.value)
    {
      PageLeavesOut(last.rows, eligible, size, r);
    }
  }

  /** The latest request in terms of the walk before it. */
  lemma LatestRequest(q: Query, size: PageSize, requests: seq<Request>)
    requires Walk(q, size, requests) && requests != []
    ensures var n := |requests| - 1;
            var cursor := CursorBefore(requests[..n], size, n);
            && IsListing(requests[n].rows, Eligible(requests[n].table, q, requests[n].cutoff, cursor), size + 1)
            && (n > 0 ==> cursor.Some?)
  {
    var n := |requests| - 1;
    assert Served(q, size, requests, n);
    if n > 0 { assert HasMore(size, requests, n - 1); }
  }

  lemma VisibleBefore(r: Record, q: Query, before: seq<Request>, last: Request)
    requires VisibleThroughout(r, q, before + [last])
    ensures VisibleThroughout(r, q, before) && r in last.table && Matches(r, q, last.cutoff)
  {
    assert (before + [last])[|before|] == last;
    forall i | 0 <= i < |before| ensures r in before[i].table && Matches(r, q, before[i].cutoff) {
      assert (before + [last])[i] == before[i];
    }
  }

  lemma NextRequest(q: Query, size: PageSize, before: seq<Request>, last: Request)
    requires Progressing(q, size, before)
    requires var cursor := CursorBefore(before, size, |before|);
             && IsListing(last.rows, Eligible(last.table, q, last.cutoff, cursor), size + 1)
             && (before != [] ==> cursor.Some?)
    ensures Progressing(q, size, before + [last])
  {
    var requests := before + [last];
    assert requests[..|before|] == before;
    var shown, cursor := Shown(size, before), CursorBefore(before, size, |before|);
    NextPage(q, size, shown, cursor, last);
    forall r | VisibleThroughout(r, q, requests) && r !in Shown(size, requests)
      ensures PageOf(last.rows, size).next.Some? && Below(r.key, PageOf(last.rows, size).next.value)
    {
      VisibleBefore(r, q, before, last);
      assert r in Eligible(last.table, q, last.cutoff, cursor);
    }
  }

  /** No page repeats a record, and records come strictly newest first, whatever happens to the table in between. */
  lemma PagesDescend(q: Query, size: PageSize, requests: seq<Request>)
    requires Walk(q, size, requests)
    ensures var shown := Shown(size, requests);
            forall i, j :: 0 <= i < j < |shown| ==>
              var newer, older := shown[i].key, shown[j].key;
              older.at < newer.at || (older.at == newer.at && older.id < newer.id)
  {
    WalkInvariant(q, size, requests);
  }

  lemma DescendingHasNoRepeats(rows: seq<Record>, r: Record)
    requires Descending(rows) && r in rows
    ensures multiset(rows)[r] == 1
  {
    var k :| 0 <= k < |rows| && rows[k] == r;
    assert rows == rows[..k] + [r] + rows[k + 1..];
    assert r !in rows[..k] && r !in rows[k + 1..];
  }

  /** Every record visible at every request is shown exactly once. */
  lemma PagesAreComplete(q: Query, size: PageSize, requests: seq<Request>, r: Record)
    requires Walk(q, size, requests) && Finished(size, requests) && VisibleThroughout(r, q, requests)
    ensures multiset(Shown(size, requests))[r] == 1
  {
    WalkInvariant(q, size, requests);
    assert CursorBefore(requests, size, |requests|).None?;
    DescendingHasNoRepeats(Shown(size, requests), r);
  }

  /** On a table that does not change, the pages together are the whole list, sorted. */
  lemma StaticPagesAreTheList(q: Query, size: PageSize, requests: seq<Request>, table: set<Record>, cutoff: int)
    requires Walk(q, size, requests) && Finished(size, requests)
    requires forall i :: 0 <= i < |requests| ==> requests[i].table == table && requests[i].cutoff == cutoff
    ensures var all := Eligible(table, q, cutoff, None);
            forall limit: nat :: limit >= |Shown(size, requests)| ==> IsListing(Shown(size, requests), all, limit)
  {
    WalkInvariant(q, size, requests);
    ShownCameFromTable(q, size, requests, table, cutoff);
    forall r | r in Eligible(table, q, cutoff, None) ensures r in Shown(size, requests) {
      assert VisibleThroughout(r, q, requests);
    }
  }

  lemma {:induction false} ShownCameFromTable(q: Query, size: PageSize, requests: seq<Request>, table: set<Record>,
                                              cutoff: int)
    requires Walk(q, size, requests)
    requires forall i :: 0 <= i < |requests| ==> requests[i].table == table && requests[i].cutoff == cutoff
    ensures forall r :: r in Shown(size, requests) ==> r in Eligible(table, q, cutoff, None)
    decreases |requests|
  {
    if requests != [] {
      var n := |requests| - 1;
      PrefixIsWalk(q, size, requests);
      ShownCameFromTable(q, size, requests[..n], table, cutoff);
      var items := PageOf(requests[n].rows, size).items;
      assert Served(q, size, requests, n);
      forall r | r in items ensures r in Eligible(table, q, cutoff, None) { assert r in requests[n].rows; }
    }
  }

  /**
   A cursor handed out always lies inside the date range, so the visit list never rejects its own
   cursor, and not before the retention cutoff of the request that made it.
   */
  lemma CursorStaysInRange(q: Query, size: PageSize, requests: seq<Request>)
    requires Walk(q, size, requests) && CursorBefore(requests, size, |requests|).Some?
    ensures requests != []
    ensures var at := CursorBefore(requests, size, |requests|).value.at;
            q.start <= at < q.end && requests[|requests| - 1].cutoff <= at
  {
    var n := |requests| - 1;
    var last := requests[n];
    var eligible := Eligible(last.table, q, last.cutoff, CursorBefore(requests, size, n));
    assert Served(q, size, requests, n);
    PageIsListed(last.rows, eligible, size);
    var items := PageOf(last.rows, size).items;
    assert items[|items| - 1] in eligible;
  }

  // ---------------------------------------------------------------- retention

  /** 180 days in microseconds. */
  const RETENTION: int := 180 * 24 * 3_600_000_000

  predicate Expired(r: Record, now: int) { r.key.at < now - RETENTION }

  /** A record is kept for 180 days, and longer while it is locked. */
  lemma ExpirableMeans(rows: set<Record>, locked: set<Record>, now: int, r: Record)
    ensures r in Expirable(rows, locked, now) <==>
            r in rows && r !in locked && now - r.key.at > 15_552_000_000_000
  {
  }

  function Expirable(rows: set<Record>, locked: set<Record>, now: int): set<Record> {
    set r | r in rows && r !in locked && Expired(r, now)
  }

  /** The oldest record of a nonempty set. */
  lemma {:induction false} OldestExists(s: set<Record>) returns (m: Record)
    requires s != {}
    ensures m in s && forall r :: r in s ==> !Below(r.key, m.key)
    decreases |s|
  {
    m :| m in s;
    if s != {m} {
      var n := OldestExists(s - {m});
      if Below(n.key, m.key) { m := n; }
    }
  }

  /** What one cleanup statement may leave of a table: the oldest expired unlocked rows go, at most five hundred. */
  ghost predicate IsCleanup(table: set<Record>, locked: set<Record>, now: int, left: set<Record>) {
    && left <= table && |table| <= |left| + 500
    && (forall r :: r in table && r !in left ==> r in Expirable(table, locked, now))
    && (forall d, k :: d in table && d !in left && k in Expirable(left, locked, now) ==> !Below(k.key, d.key))
    && (|table| < |left| + 500 ==> Expirable(left, locked, now) == {})
  }

  class AuditLog {
    var rows: set<Record>

    /** Deletes the oldest expired rows nobody has locked, at most five hundred. */
    method DeleteExpired(locked: set<Record>, now: int) returns (count: nat)
      modifies this
      ensures rows <= old(rows) && |rows| + count == |old(rows)| && count <= 500
      ensures forall r :: r in old(rows) && r !in rows ==> r in Expirable(old(rows), locked, now)
      ensures forall d, k :: d in old(rows) && d !in rows && k in Expirable(rows, locked, now) ==> !Below(k.key, d.key)
      ensures count < 500 ==> Expirable(rows, locked, now) == {}
      ensures IsCleanup(old(rows), locked, now, rows)
    {
      count := 0;
      while count < 500 && Expirable(rows, locked, now) != {}
        invariant rows <= old(rows) && |rows| + count == |old(rows)| && count <= 500
        invariant forall r :: r in old(rows) && r !in rows ==> r in Expirable(old(rows), locked, now)
        invariant forall d, k :: d in old(rows) && d !in rows && k in Expirable(rows, locked, now) ==>
                            !Below(k.key, d.key)
        decreases 500 - count
      {
        ghost var oldest := OldestExists(Expirable(rows, locked, now));
        var next :| next in Expirable(rows, locked, now)
                    && forall r :: r in Expirable(rows, locked, now) ==> !Below(r.key, next.key);
        rows := rows - {next};
        count := count + 1;
      }
    }

    /**
     One maintenance cycle: at most four batches. Only rows expired by its last clock reading go,
     at most two thousand of them, and it stops early only when a batch was not full.
     */
    method CleanupAudit(clocks: seq<int>, locked: seq<set<Record>>) returns (batches: nat)
      requires |clocks| == 4 && |locked| == 4 && forall i, j :: 0 <= i <= j < 4 ==> clocks[i] <= clocks[j]
      modifies this
      ensures rows <= old(rows) && |old(rows)| <= |rows| + 2000
      ensures forall r :: r in old(rows) && r !in rows ==> Expired(r, clocks[3])
      ensures 1 <= batches <= 4
      ensures batches < 4 ==> Expirable(rows, locked[batches - 1], clocks[batches - 1]) == {}
    {
      batches := 0;
      for i := 0 to 4
        invariant batches == i
        invariant rows <= old(rows) && |old(rows)| <= |rows| + 500 * i
        invariant forall r :: r in old(rows) && r !in rows ==> Expired(r, clocks[3])
      {
        var before := rows;
        var count := DeleteExpired(locked[i], clocks[i]);
        batches := i + 1;
        forall r | r in old(rows) && r !in rows ensures Expired(r, clocks[3]) {
          if r in before { assert r in Expirable(before, locked[i], clocks[i]); }
        }
        if count < 500 { return; }
      }
    }
  }
}
