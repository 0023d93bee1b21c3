/**
 A client that follows the cursor as text: the server encodes the key of the last row shown, the
 client sends the text back, and the server decodes it. Times are microseconds since the start of
 year 1, as the database keeps them.
 */
module CursorWalks {
  import opened Common
  import opened Paging
  import opened Cursors
  import opened Numerals
  import Timestamps
  import Uuids

  /** How one list writes its row ids; `ranged` when the cursor's time must lie in the requested range. */
  datatype Ids = Ids(valid: string -> bool, write: int -> string, read: string -> int, ranged: bool)

  /** A row id that its text stands for. */
  predicate Spelled(ids: Ids, id: int) {
    var text := ids.write(id);
    ids.valid(text) && Plain(text) && |text| <= 36 && ids.read(text) == id
  }

  function AuditIds(): Ids {
    Ids(ValidAuditID, n => FormatInt(n), raw => if ParseInt64(raw).Some? then ParseInt64(raw).value else 0, false)
  }

  /** Every id an audit row can have. */
  lemma AuditIdsAreSpelled(id: int)
    requires 1 <= id <= MAX_INT64
    ensures Spelled(AuditIds(), id)
  {
    AuditIDsExactly(Decimal(id));
    AuditIDIsPlain(Decimal(id));
  }

  /** Visits have UUIDs, numbered as the database compares them. */
  function VisitIds(): Ids { Ids(ValidUUID, n => Uuids.Uuid(n), raw => Uuids.Number(raw), true) }

  /** Every id a visit can have. */
  lemma VisitIdsAreSpelled(raw: string)
    requires ValidUUID(raw)
    ensures Spelled(VisitIds(), Uuids.Number(raw)) && VisitIds().write(Uuids.Number(raw)) == raw
  {
    Uuids.UuidOfNumber(raw);
    UUIDIsPlain(raw);
  }

  // ---------------------------------------------------------------- times and their stamps

  /** The first microsecond of year 10000. */
  function EndOfTime(): int { Timestamps.DaysBeforeYear(10_000) * 86_400_000_000 }

  /** The `n`-th day from the start of year 1, counted from 0. */
  predicate IsDay(n: nat, y: nat, m: nat, d: nat) {
    && 1 <= y <= 9999 && 1 <= m <= 12 && 1 <= d <= Timestamps.DaysIn(y, m)
    && Timestamps.DaysBeforeYear(y) + Timestamps.DaysBeforeMonth(y, m) + d - 1 == n
  }

  lemma NextYear(n: nat, y: nat)
    requires IsDay(n, y, 12, 31) && n + 1 < Timestamps.DaysBeforeYear(10_000)
    ensures IsDay(n + 1, y + 1, 1, 1)
  {
    Timestamps.YearLength(y);
    Timestamps.MonthsOfYear(y);
    assert y != 9999;
  }

  /** Every day of the years 1 to 9999 has a date. */
  lemma {:induction false} DateExists(n: nat) returns (year: nat, month: nat, day: nat)
    requires n < Timestamps.DaysBeforeYear(10_000)
    ensures IsDay(n, year, month, day)
  {
    if n == 0 {
      year, month, day := 1, 1, 1;
    } else {
      var y, m, d := DateExists(n - 1);
      if d < Timestamps.DaysIn(y, m) {
        year, month, day := y, m, d + 1;
      } else if m < 12 {
        year, month, day := y, m + 1, 1;
      } else {
        NextYear(n - 1, y);
        year, month, day := y + 1, 1, 1;
      }
    }
  }

  ghost predicate StampOf(at: int, stamp: Timestamps.Stamp) {
    StoredTime(stamp) && Timestamps.Instant(stamp) == at * 1000
  }

  /** Every microsecond of the years 1 to 9999 but the very first has a stamp. */
  lemma StampExists(at: int) returns (stamp: Timestamps.Stamp)
    requires 0 < at < EndOfTime()
    ensures StampOf(at, stamp)
  {
    var seconds, micros := at / 1_000_000, at % 1_000_000;
    var minutes := seconds / 60;
    var hours := minutes / 60;
    var year, month, day := DateExists(hours / 24);
    stamp := Timestamps.Stamp(year, month, day, hours % 24, minutes % 60, seconds % 60, micros * 1000, 0);
  }

  // ---------------------------------------------------------------- both ends of the cursor

  /** A key that a stored row can have. */
  predicate Storable(ids: Ids, k: Key) { 0 < k.at < EndOfTime() && Spelled(ids, k.id) }

  /** The cursor text the server hands out for key `k`. */
  ghost predicate Encodes(ids: Ids, k: Key, text: string) {
    exists stamp :: StampOf(k.at, stamp) && Plain(Timestamps.Format(stamp)) && Plain(ids.write(k.id))
                    && text == EncodeCursor(stamp, ids.write(k.id))
  }

  /** The key a decoded cursor stands for, None on the first page; refused when outside a range that must hold it. */
  function KeyOf(ids: Ids, q: Query, cursor: Option<Cursor>): Option<Option<Key>> {
    if cursor.None? then None
    else match cursor.value
      case Start => Some(None)
      case At(at, id) =>
        var instant := Timestamps.Instant(at);
        if ids.ranged && !(q.start * 1000 <= instant < q.end * 1000) then None
        else Some(Some(Key(instant / 1000, ids.read(id))))
  }

  /** What the server makes of a cursor text. */
  function Received(reader: Reader, ids: Ids, q: Query, text: string): Option<Option<Key>> {
    KeyOf(ids, q, DecodeCursor(reader, text, ids.valid))
  }

  lemma KeyOfStamp(ids: Ids, q: Query, k: Key, stamp: Timestamps.Stamp)
    requires Storable(ids, k) && q.start <= k.at < q.end && StampOf(k.at, stamp)
    ensures KeyOf(ids, q, Some(At(stamp, ids.write(k.id)))) == Some(Some(k))
  {
  }

  lemma Microseconds(at: int, limit: int)
    ensures at * 1000 / 1000 == at && (at * 1000 < limit * 1000 <==> at < limit)
  {
  }

  /** The visit list refuses exactly the cursors outside the requested range, the audit list none of them. */
  lemma OutOfRangeIsRefused(q: Query, at: int, id: string, stamp: Timestamps.Stamp)
    requires Timestamps.Instant(stamp) == at * 1000
    ensures KeyOf(VisitIds(), q, Some(At(stamp, id))) ==
            if at < q.start || q.end <= at then None else Some(Some(Key(at, Uuids.Number(id))))
    ensures KeyOf(AuditIds(), q, Some(At(stamp, id))) == Some(Some(Key(at, AuditIds().read(id))))
  {
    Microseconds(at, q.start);
    Microseconds(at, q.end);
  }

  /** A key in the requested range comes back from its text, and only that key. */
  lemma KeySurvives(reader: Reader, ids: Ids, q: Query, k: Key, stamp: Timestamps.Stamp)
    requires ReadsDocuments(reader) && Storable(ids, k) && q.start <= k.at < q.end && StampOf(k.at, stamp)
    ensures Plain(Timestamps.Format(stamp)) && Plain(ids.write(k.id))
    ensures Received(reader, ids, q, EncodeCursor(stamp, ids.write(k.id))) == Some(Some(k))
  {
    CursorRoundTrip(reader, stamp, ids.write(k.id), ids.valid);
    KeyOfStamp(ids, q, k, stamp);
  }

  /** And every storable key has a text. */
  lemma TextExists(ids: Ids, k: Key)
    requires Storable(ids, k)
    ensures exists text :: Encodes(ids, k, text)
  {
    var stamp := StampExists(k.at);
    TimestampIsPlain(stamp);
    assert Encodes(ids, k, EncodeCursor(stamp, ids.write(k.id)));
  }

  // ---------------------------------------------------------------- the exchange

  /** The keys of stored rows, the texts handed out for a key, and what is made of a text: None if it is refused. */
  datatype Codec = Codec(storable: Key -> bool, encodes: (Key, string) -> bool, received: string -> Option<Option<Key>>)

  ghost function CodecOf(reader: Reader, ids: Ids, q: Query): Codec {
    Codec(k => Storable(ids, k), (k, text) => Encodes(ids, k, text), text => Received(reader, ids, q, text))
  }

  /** The text a client sent, and the request as served, or None when it was refused. */
  datatype Exchange = Exchange(sent: string, served: Option<Request>)

  /** First nothing, then the cursor of the page before, while there is more. */
  ghost predicate Sends(codec: Codec, size: PageSize, xs: seq<Exchange>, i: nat)
    requires i < |xs|
  {
    if i == 0 then xs[i].sent == ""
    else
      && xs[i - 1].served.Some?
      && var page := PageOf(xs[i - 1].served.value.rows, size);
         page.hasMore && codec.encodes(page.next.value, xs[i].sent)
  }

  ghost predicate RowsStorable(codec: Codec, rows: seq<Record>) {
    forall i :: 0 <= i < |rows| ==> codec.storable(rows[i].key)
  }

  ghost predicate Answers(codec: Codec, q: Query, size: PageSize, x: Exchange) {
    var cursor := codec.received(x.sent);
    if cursor.None? then x.served.None?
    else
      && x.served.Some?
      && var r := x.served.value;
         IsListing(r.rows, Eligible(r.table, q, r.cutoff, cursor.value), size + 1) && RowsStorable(codec, r.rows)
  }

  ghost predicate Exchanged(codec: Codec, q: Query, size: PageSize, xs: seq<Exchange>, i: nat)
    requires i < |xs|
  {
    Sends(codec, size, xs, i) && Answers(codec, q, size, xs[i])
  }

  ghost predicate TextWalk(codec: Codec, q: Query, size: PageSize, xs: seq<Exchange>) {
    forall i :: 0 <= i < |xs| ==> Exchanged(codec, q, size, xs, i)
  }

  predicate AllServed(xs: seq<Exchange>) { forall i :: 0 <= i < |xs| ==> xs[i].served.Some? }

  function Requests(xs: seq<Exchange>): (requests: seq<Request>)
    requires AllServed(xs)
    ensures |requests| == |xs|
  {
    seq(|xs|, i requires 0 <= i < |xs| => xs[i].served.value)
  }

  // ---------------------------------------------------------------- text walks are walks

  /** Storable keys in the range have texts, and each is read as the key it was made from. */
  ghost predicate Faithful(codec: Codec, q: Query) {
    && codec.received("") == Some(None)
    && (forall k :: codec.storable(k) ==> exists text :: codec.encodes(k, text))
    && forall k, text :: codec.storable(k) && q.start <= k.at < q.end && codec.encodes(k, text) ==>
         codec.received(text) == Some(Some(k))
  }

  lemma CodecWrites(reader: Reader, ids: Ids, q: Query, k: Key)
    requires Storable(ids, k)
    ensures exists text :: CodecOf(reader, ids, q).encodes(k, text)
  {
    TextExists(ids, k);
    var text :| Encodes(ids, k, text);
    assert CodecOf(reader, ids, q).encodes(k, text);
  }

  lemma CodecReads(reader: Reader, ids: Ids, q: Query, k: Key, text: string)
    requires ReadsDocuments(reader)
    ensures Storable(ids, k) && q.start <= k.at < q.end && Encodes(ids, k, text) ==>
              Received(reader, ids, q, text) == Some(Some(k))
  {
    if Storable(ids, k) && q.start <= k.at < q.end && Encodes(ids, k, text) {
      var stamp :| StampOf(k.at, stamp) && Plain(Timestamps.Format(stamp)) && Plain(ids.write(k.id))
                   && text == EncodeCursor(stamp, ids.write(k.id));
      KeySurvives(reader, ids, q, k, stamp);
    }
  }

  lemma CodecIsFaithful(reader: Reader, ids: Ids, q: Query)
    requires ReadsDocuments(reader)
    ensures Faithful(CodecOf(reader, ids, q), q)
  {
    var codec := CodecOf(reader, ids, q);
    forall k | codec.storable(k) ensures exists text :: codec.encodes(k, text) { CodecWrites(reader, ids, q, k); }
    forall k, text | codec.storable(k) && q.start <= k.at < q.end && codec.encodes(k, text)
      ensures codec.received(text) == Some(Some(k))
    {
      CodecReads(reader, ids, q, k, text);
    }
  }

  /** The cursor after a walk whose rows are storable is storable and in range. */
  lemma CursorIsStorable(codec: Codec, q: Query, size: PageSize, requests: seq<Request>)
    requires Walk(q, size, requests) && requests != [] && HasMore(size, requests, |requests| - 1)
    requires RowsStorable(codec, requests[|requests| - 1].rows)
    ensures var cursor := CursorBefore(requests, size, |requests|);
            cursor.Some? && codec.storable(cursor.value) && q.start <= cursor.value.at < q.end
  {
    CursorStaysInRange(q, size, requests);
  }

  lemma PrefixIsTextWalk(codec: Codec, q: Query, size: PageSize, xs: seq<Exchange>, n: nat)
    requires TextWalk(codec, q, size, xs) && n <= |xs|
    ensures TextWalk(codec, q, size, xs[..n])
  {
    forall i | 0 <= i < n ensures Exchanged(codec, q, size, xs[..n], i) { assert Exchanged(codec, q, size, xs, i); }
  }

  /** What the client sends is read as the cursor of the walk so far. */
  lemma SentIsCursor(codec: Codec, q: Query, size: PageSize, xs: seq<Exchange>, requests: seq<Request>, n: nat)
    requires Faithful(codec, q) && Walk(q, size, requests) && n == |requests| < |xs| && Sends(codec, size, xs, n)
    requires n > 0 ==> xs[n - 1].served == Some(requests[n - 1]) && RowsStorable(codec, requests[n - 1].rows)
    ensures codec.received(xs[n].sent) == Some(CursorBefore(requests, size, n))
    ensures n > 0 ==> HasMore(size, requests, n - 1)
  {
    if n > 0 { CursorIsStorable(codec, q, size, requests); }
  }

  lemma {:induction false} FaithfulWalk(codec: Codec, q: Query, size: PageSize, xs: seq<Exchange>)
    requires Faithful(codec, q) && TextWalk(codec, q, size, xs)
    ensures AllServed(xs) && Walk(q, size, Requests(xs))
    decreases |xs|
  {
    if xs != [] {
      var n := |xs| - 1;
      var before := xs[..n];
      PrefixIsTextWalk(codec, q, size, xs, n);
      FaithfulWalk(codec, q, size, before);
      var requests := Requests(before);
      assert Exchanged(codec, q, size, xs, n);
      assert n > 0 ==> Exchanged(codec, q, size, xs, n - 1);
      SentIsCursor(codec, q, size, xs, requests, n);
      WalkContinues(q, size, requests, xs[n].served.value);
      assert Requests(xs) == requests + [xs[n].served.value];
    }
  }

  /** A client that sends back the cursor text is never refused, and what it reads is a walk. */
  lemma TextWalkIsWalk(reader: Reader, ids: Ids, q: Query, size: PageSize, xs: seq<Exchange>)
    requires ReadsDocuments(reader) && TextWalk(CodecOf(reader, ids, q), q, size, xs)
    ensures AllServed(xs) && Walk(q, size, Requests(xs))
  {
    CodecIsFaithful(reader, ids, q);
    FaithfulWalk(CodecOf(reader, ids, q), q, size, xs);
  }

  lemma ExchangeContinues(codec: Codec, q: Query, size: PageSize, before: seq<Exchange>, x: Exchange)
    requires TextWalk(codec, q, size, before) && Answers(codec, q, size, x)
    requires Sends(codec, size, before + [x], |before|)
    ensures TextWalk(codec, q, size, before + [x])
  {
    var xs := before + [x];
    forall i | 0 <= i < |xs| ensures Exchanged(codec, q, size, xs, i) {
      if i < |before| { assert Exchanged(codec, q, size, before, i); }
    }
  }

  lemma {:induction false} TextsExist(codec: Codec, q: Query, size: PageSize, requests: seq<Request>)
    returns (xs: seq<Exchange>)
    requires Faithful(codec, q) && Walk(q, size, requests)
    requires forall i :: 0 <= i < |requests| ==> RowsStorable(codec, requests[i].rows)
    ensures TextWalk(codec, q, size, xs) && AllServed(xs) && Requests(xs) == requests
    decreases |requests|
  {
    xs := [];
    if requests != [] {
      var n := |requests| - 1;
      PrefixIsWalk(q, size, requests);
      LatestRequest(q, size, requests);
      var before := TextsExist(codec, q, size, requests[..n]);
      var text := "";
      if n > 0 {
        assert HasMore(size, requests, n - 1);
        CursorIsStorable(codec, q, size, requests[..n]);
        text :| codec.encodes(PageOf(requests[n - 1].rows, size).next.value, text);
        assert Requests(before)[n - 1] == requests[n - 1];
      }
      xs := before + [Exchange(text, Some(requests[n]))];
      assert n > 0 ==> xs[n - 1].served.value == requests[n - 1];
      SentIsCursor(codec, q, size, xs, requests[..n], n);
      ExchangeContinues(codec, q, size, before, xs[n]);
      assert Requests(xs) == requests;
    }
  }

  /** Conversely every walk over storable rows can travel as text. */
  lemma WalkTravelsAsText(reader: Reader, ids: Ids, q: Query, size: PageSize, requests: seq<Request>)
    returns (xs: seq<Exchange>)
    requires ReadsDocuments(reader) && Walk(q, size, requests)
    requires forall i, j :: 0 <= i < |requests| && 0 <= j < |requests[i].rows| ==>
               Storable(ids, requests[i].rows[j].key)
    ensures TextWalk(CodecOf(reader, ids, q), q, size, xs) && AllServed(xs) && Requests(xs) == requests
  {
    CodecIsFaithful(reader, ids, q);
    xs := TextsExist(CodecOf(reader, ids, q), q, size, requests);
  }
}
