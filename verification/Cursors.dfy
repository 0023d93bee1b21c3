/**
 Paging cursors: a timestamp and an identifier, as a JSON object in base64. `Reader` stands
 for the JSON tokenizer: the members of the one object a text consists of, in order, or None.
 */
module Cursors {
  import opened Common
  import opened Numerals
  import Base64
  import StrictJson
  import Timestamps

  /** A string value between its quotes, and with its escapes decoded; anything else is `Other`. */
  datatype Json = Text(raw: string, decoded: string) | Other

  type Member = StrictJson.Member<Json>

  function Field(name: string, value: Json): Member { StrictJson.Member(name, value) }

  type Reader = seq<byte> -> Option<seq<Member>>

  /** `Start` is the cursor of an empty string: the first page. */
  datatype Cursor = Start | At(at: Timestamps.Stamp, id: string)

  const MAX_CURSOR: nat := 512

  // ---------------------------------------------------------------- identifiers

  const MAX_INT64: int := 0x7fff_ffff_ffff_ffff

  /** Base ten, an optional sign, and the range of a signed 64-bit integer. */
  function ParseInt64(raw: string): Option<int> {
    var negative := raw != [] && raw[0] == '-';
    var digits := if raw != [] && raw[0] in "+-" then raw[1..] else raw;
    if digits == [] || !Digits(digits) then None
    else
      var value: int := Value(digits);
      var n := if negative then -value else value;
      if -MAX_INT64 - 1 <= n <= MAX_INT64 then Some(n) else None
  }

  function FormatInt(n: int): string { if n < 0 then "-" + Decimal(-n) else Decimal(n) }

  predicate ValidAuditID(raw: string) {
    var id := ParseInt64(raw);
    id.Some? && id.value > 0 && FormatInt(id.value) == raw
  }

  /** No sign, no leading zero, no overflow: exactly the canonical numerals of positive 64-bit integers. */
  lemma AuditIDsExactly(raw: string)
    ensures ValidAuditID(raw) <==> exists n: nat :: 1 <= n <= 9_223_372_036_854_775_807 && raw == Decimal(n)
    ensures forall n: nat :: 1 <= n <= MAX_INT64 && raw == Decimal(n) ==> ParseInt64(raw) == Some(n)
  {
    forall n: nat | 1 <= n <= MAX_INT64 && raw == Decimal(n) ensures ParseInt64(raw) == Some(n) {
      ValueOfDecimal(n);
      assert IsDigit(raw[0]);
    }
    if ValidAuditID(raw) { assert raw == Decimal(ParseInt64(raw).value); }
  }

  predicate LowerHex(c: char) { IsDigit(c) || 'a' <= c <= 'f' }

  /** Canonical and not the nil UUID. */
  predicate ValidUUID(raw: string) {
    && |raw| == 36
    && (forall i :: 0 <= i < 36 ==> if i in {8, 13, 18, 23} then raw[i] == '-' else LowerHex(raw[i]))
    && exists i :: 0 <= i < 36 && raw[i] != '-' && raw[i] != '0'
  }

  // ---------------------------------------------------------------- writing

  /** Printable ASCII that JSON text holds as it is. */
  predicate PlainChar(c: char) { ' ' <= c <= '~' && c !in "\"\\<>&" }

  lemma PlainCharMeans(c: char)
    ensures PlainChar(c) <==> 32 <= c as int <= 126 && c !in ['\"', '\\', '<', '>', '&']
  {
  }

  predicate Plain(s: string) { forall i :: 0 <= i < |s| ==> PlainChar(s[i]) }

  predicate AsciiText(s: string) { forall i :: 0 <= i < |s| ==> (s[i] as int) < 128 }

  function Ascii(s: string): (b: seq<byte>)
    requires AsciiText(s)
    ensures |b| == |s|
  {
    seq(|s|, i requires 0 <= i < |s| => s[i] as int)
  }

  function Document(createdAt: string, id: string): string {
    "{\"createdAt\":\"" + createdAt + "\",\"id\":\"" + id + "\"}"
  }

  /** Both values stand between quotes, behind their names. */
  lemma DocumentMeans(createdAt: string, id: string)
    ensures var d, n := Document(createdAt, id), |createdAt|;
            && |d| == n + |id| + 24
            && d[..14] == ['{', '\"', 'c', 'r', 'e', 'a', 't', 'e', 'd', 'A', 't', '\"', ':', '\"']
            && d[14..14 + n] == createdAt
            && d[14 + n..22 + n] == ['\"', ',', '\"', 'i', 'd', '\"', ':', '\"']
            && d[22 + n..22 + n + |id|] == id && d[22 + n + |id|..] == ['\"', '}']
  {
  }

  lemma DocumentIsAscii(createdAt: string, id: string)
    requires Plain(createdAt) && Plain(id)
    ensures AsciiText(Document(createdAt, id)) && |Document(createdAt, id)| == |createdAt| + |id| + 24
  {
    PiecesAreAscii("{\"createdAt\":\"", createdAt);
    PiecesAreAscii("\",\"id\":\"", id);
    var a, b := "{\"createdAt\":\"" + createdAt, "\",\"id\":\"" + id;
    assert Document(createdAt, id) == a + b + "\"}";
  }

  lemma PiecesAreAscii(piece: string, s: string)
    requires AsciiText(piece) && Plain(s)
    ensures AsciiText(piece + s)
  {
    forall i | 0 <= i < |piece + s| ensures ((piece + s)[i] as int) < 128 {
      if i >= |piece| { assert PlainChar(s[i - |piece|]); }
    }
  }

  function EncodeCursor(at: Timestamps.Stamp, id: string): string
    requires Plain(Timestamps.Format(at)) && Plain(id)
  {
    DocumentIsAscii(Timestamps.Format(at), id);
    Base64.Encode(Ascii(Document(Timestamps.Format(at), id)))
  }

  // ---------------------------------------------------------------- reading

  /** What is relied on: a document of two plain strings reads as just that. */
  ghost predicate ReadsDocuments(reader: Reader) {
    forall createdAt, id :: Plain(createdAt) && Plain(id) && AsciiText(Document(createdAt, id)) ==>
      reader(Ascii(Document(createdAt, id)))
      == Some([Field("createdAt", Text(createdAt, createdAt)), Field("id", Text(id, id))])
  }

  /** The two fields, in either order; None for a missing, repeated or unknown one. */
  function Fields(members: seq<Member>): Option<(Json, Json)> {
    if |members| != 2 then None
    else if members[0].name == "createdAt" && members[1].name == "id" then Some((members[0].value, members[1].value))
    else if members[1].name == "createdAt" && members[0].name == "id" then Some((members[1].value, members[0].value))
    else None
  }

  /** The timestamp must lie after the start of year 1, in UTC. */
  function ReadFields(createdAt: Json, id: Json, validId: string -> bool): Option<Cursor> {
    if createdAt.Other? || id.Other? then None
    else
      var at := Timestamps.Parse(createdAt.raw);
      if at.None? || Timestamps.Instant(at.value) <= 0 || !validId(id.decoded) then None
      else Some(At(at.value, id.decoded))
  }

  function DecodeCursor(reader: Reader, raw: string, validId: string -> bool): Option<Cursor> {
    if raw == [] then Some(Start)
    else if |raw| > MAX_CURSOR then None
    else
      var data := Base64.Decode(raw);
      if data.None? || Base64.Encode(data.value) != raw then None
      else
        var members := reader(data.value);
        if members.None? then None
        else
          var fields := Fields(members.value);
          if fields.None? then None else ReadFields(fields.value.0, fields.value.1, validId)
  }

  const CURSOR_FIELDS: seq<string> := ["createdAt", "id"]

  lemma NoThirdField(members: seq<Member>, i: nat, j: nat, k: nat)
    requires StrictJson.Complete(members, CURSOR_FIELDS) && i < |members| && j < |members|
    requires members[i].name == "createdAt" && members[j].name == "id"
    ensures k < |members| ==> k == i || k == j
  {
    if k < |members| { assert members[k].name in CURSOR_FIELDS; }
  }

  /** Two fields are complete in one of two orders. */
  lemma FieldsWhenComplete(members: seq<Member>)
    ensures StrictJson.Complete(members, CURSOR_FIELDS) <==> Fields(members).Some?
  {
    if StrictJson.Complete(members, CURSOR_FIELDS) {
      assert "createdAt" in CURSOR_FIELDS && "id" in CURSOR_FIELDS;
      var i :| 0 <= i < |members| && members[i].name == "createdAt";
      var j :| 0 <= j < |members| && members[j].name == "id";
      NoThirdField(members, i, j, 0);
      NoThirdField(members, i, j, 1);
      NoThirdField(members, i, j, 2);
    }
    if Fields(members).Some? {
      assert StrictJson.Names(members, "createdAt") && StrictJson.Names(members, "id") by {
        assert members[0].name == "createdAt" || members[1].name == "createdAt";
        assert members[0].name == "id" || members[1].name == "id";
      }
    }
  }

  method DecodeKeysetCursor(reader: Reader, raw: string, validId: string -> bool) returns (r: Option<Cursor>)
    ensures r == DecodeCursor(reader, raw, validId)
  {
    if raw == "" { return Some(Start); }
    if |raw| > MAX_CURSOR { return None; }
    var data := Base64.Decode(raw);
    if data.None? || Base64.Encode(data.value) != raw { return None; }
    var members := reader(data.value);
    if members.None? { return None; }
    var values := StrictJson.CollectFields(members.value, CURSOR_FIELDS);
    FieldsWhenComplete(members.value);
    if values.None? { return None; }
    assert "createdAt" in Elements(CURSOR_FIELDS) && "id" in Elements(CURSOR_FIELDS);
    r := ReadFields(values.value["createdAt"], values.value["id"], validId);
  }

  // ---------------------------------------------------------------- round trip

  lemma DigitsArePlain(s: string)
    requires Digits(s)
    ensures Plain(s)
  {
    forall i | 0 <= i < |s| ensures PlainChar(s[i]) { assert IsDigit(s[i]); }
  }

  lemma PlainPieces(a: string, b: string)
    requires Plain(a) && Plain(b)
    ensures Plain(a + b)
  {
    forall i | 0 <= i < |a + b| ensures PlainChar((a + b)[i]) {
      if i < |a| { assert PlainChar(a[i]); } else { assert PlainChar(b[i - |a|]); }
    }
  }

  lemma FractionIsPlain(nanos: nat)
    requires nanos < 1_000_000_000
    ensures Plain(Timestamps.Fraction(nanos)) && |Timestamps.Fraction(nanos)| <= 10
  {
    if nanos > 0 {
      var d := Timestamps.TrimZeros(Padded(nanos, 9));
      Timestamps.FractionSurvives(nanos);
      DigitsArePlain(d);
      PlainPieces(".", d);
    }
  }

  lemma AssembledIsPlain(year: string, month: string, day: string, hour: string, minute: string, second: string)
    requires Digits(year) && Digits(month) && Digits(day) && Digits(hour) && Digits(minute) && Digits(second)
    ensures Plain(Timestamps.Assemble(year, month, day, hour, minute, second))
  {
    DigitsArePlain(year);
    DigitsArePlain(month);
    DigitsArePlain(day);
    DigitsArePlain(hour);
    DigitsArePlain(minute);
    DigitsArePlain(second);
    PlainPieces(year, "-");
    PlainPieces(year + "-", month);
    PlainPieces(year + "-" + month, "-");
    PlainPieces(year + "-" + month + "-", day);
    var date := year + "-" + month + "-" + day;
    PlainPieces(date, "T");
    PlainPieces(date + "T", hour);
    PlainPieces(date + "T" + hour, ":");
    PlainPieces(date + "T" + hour + ":", minute);
    PlainPieces(date + "T" + hour + ":" + minute, ":");
    PlainPieces(date + "T" + hour + ":" + minute + ":", second);
  }

  lemma TimestampIsPlain(at: Timestamps.Stamp)
    requires at.nanos < 1_000_000_000
    ensures Plain(Timestamps.Format(at)) && |Timestamps.Format(at)| <= 30
  {
    FractionIsPlain(at.nanos);
    PlainPieces(Timestamps.Fraction(at.nanos), "Z");
    AssembledIsPlain(Padded(at.year, 4), Padded(at.month, 2), Padded(at.day, 2),
                     Padded(at.hour, 2), Padded(at.minute, 2), Padded(at.second, 2));
    PlainPieces(Timestamps.Head(at), Timestamps.Fraction(at.nanos) + "Z");
  }

  predicate StoredTime(at: Timestamps.Stamp) {
    Timestamps.ValidDate(at) && Timestamps.ValidTime(at) && at.offset == 0 && Timestamps.Instant(at) > 0
  }

  lemma TwoFields(createdAt: Json, id: Json)
    ensures Fields([Field("createdAt", createdAt), Field("id", id)]) == Some((createdAt, id))
  {
  }

  /** A document survives the base64 and JSON layers. */
  lemma DecodeOfDocument(reader: Reader, text: string, id: string, validId: string -> bool)
    requires ReadsDocuments(reader) && Plain(text) && Plain(id) && |text| <= 30 && |id| <= 36
    requires AsciiText(Document(text, id)) && |Document(text, id)| == |text| + |id| + 24
    ensures DecodeCursor(reader, Base64.Encode(Ascii(Document(text, id))), validId) ==
            ReadFields(Text(text, text), Text(id, id), validId)
  {
    var data := Ascii(Document(text, id));
    var raw := Base64.Encode(data);
    Base64.EncodedLength(data);
    assert Base64.Decode(raw) == Some(data) by { Base64.AcceptsExactlyEncodings(raw); }
    var members := [Field("createdAt", Text(text, text)), Field("id", Text(id, id))];
    assert reader(data) == Some(members);
    TwoFields(Text(text, text), Text(id, id));
  }

  /** Decoding an encoded cursor gives the same instant and the same identifier. */
  lemma CursorRoundTrip(reader: Reader, at: Timestamps.Stamp, id: string, validId: string -> bool)
    requires ReadsDocuments(reader) && StoredTime(at)
    requires Plain(id) && |id| <= 36 && validId(id)
    ensures Plain(Timestamps.Format(at)) && DecodeCursor(reader, EncodeCursor(at, id), validId) == Some(At(at, id))
  {
    TimestampIsPlain(at);
    DocumentIsAscii(Timestamps.Format(at), id);
    DecodeOfDocument(reader, Timestamps.Format(at), id, validId);
    Timestamps.ParseOfFormat(at);
  }

  lemma AuditIDIsPlain(raw: string)
    requires ValidAuditID(raw)
    ensures Plain(raw) && |raw| <= 19
  {
    AuditIDsExactly(raw);
    var n: nat :| 1 <= n <= MAX_INT64 && raw == Decimal(n);
    DigitsArePlain(raw);
    NineteenDigits();
    DecimalLength(n, 19, Power10(19));
  }

  lemma NineteenDigits()
    ensures Power10(19) > MAX_INT64
  {
    assert Power10(2) == 100 && Power10(4) == 10_000 && Power10(6) == 1_000_000 && Power10(8) == 100_000_000;
    assert Power10(10) == 10_000_000_000 && Power10(12) == 1_000_000_000_000;
    assert Power10(14) == 100_000_000_000_000 && Power10(16) == 10_000_000_000_000_000;
    assert Power10(18) == 1_000_000_000_000_000_000;
  }

  lemma UUIDIsPlain(raw: string)
    requires ValidUUID(raw)
    ensures Plain(raw)
  {
    forall i | 0 <= i < |raw| ensures PlainChar(raw[i]) { }
  }

  /** Every audit record can be a cursor. */
  lemma AuditCursorRoundTrip(reader: Reader, at: Timestamps.Stamp, id: string)
    requires ReadsDocuments(reader) && StoredTime(at) && ValidAuditID(id)
    ensures Plain(Timestamps.Format(at)) && Plain(id)
    ensures DecodeCursor(reader, EncodeCursor(at, id), ValidAuditID) == Some(At(at, id))
  {
    AuditIDIsPlain(id);
    CursorRoundTrip(reader, at, id, ValidAuditID);
  }

  /** Every visit can be a cursor. */
  lemma VisitCursorRoundTrip(reader: Reader, at: Timestamps.Stamp, id: string)
    requires ReadsDocuments(reader) && StoredTime(at) && ValidUUID(id)
    ensures Plain(Timestamps.Format(at)) && Plain(id)
    ensures DecodeCursor(reader, EncodeCursor(at, id), ValidUUID) == Some(At(at, id))
  {
    UUIDIsPlain(id);
    CursorRoundTrip(reader, at, id, ValidUUID);
  }

  /**
   What is accepted is the empty text, for the first page, and otherwise exactly the encodings of
   up to 512 characters of an object with the two known members, in either order.
   */
  lemma AcceptedCursorsAreCanonical(reader: Reader, raw: string, validId: string -> bool, at: Timestamps.Stamp,
                                    id: string)
    ensures DecodeCursor(reader, raw, validId) == Some(Start) <==> raw == ""
    ensures DecodeCursor(reader, raw, validId) == Some(At(at, id)) <==>
            && raw != "" && |raw| <= 512 && Timestamps.Instant(at) > 0 && validId(id)
            && exists data, text, decoded, rawId ::
                 && raw == Base64.Encode(data) && Timestamps.Parse(text) == Some(at)
                 && TwoMembers(reader(data), Text(text, decoded), Text(rawId, id))
  {
    if DecodeCursor(reader, raw, validId) == Some(At(at, id)) {
      var data := Base64.Decode(raw).value;
      FieldsOfTwo(reader(data).value);
      var fields := Fields(reader(data).value).value;
      assert TwoMembers(reader(data), Text(fields.0.raw, fields.0.decoded), Text(fields.1.raw, id));
    }
    if raw != "" && |raw| <= 512 && Timestamps.Instant(at) > 0 && validId(id) {
      forall data, text, decoded, rawId |
        raw == Base64.Encode(data) && Timestamps.Parse(text) == Some(at)
        && TwoMembers(reader(data), Text(text, decoded), Text(rawId, id))
        ensures DecodeCursor(reader, raw, validId) == Some(At(at, id))
      {
        Base64.AcceptsExactlyEncodings(raw);
        FieldsOfTwo(reader(data).value);
      }
    }
  }

  lemma FieldsOfTwo(members: seq<Member>)
    ensures forall createdAt, id :: Fields(members) == Some((createdAt, id)) <==>
              TwoMembers(Some(members), createdAt, id)
  {
    if |members| == 2 { assert members == [members[0], members[1]]; }
  }

  predicate TwoMembers(members: Option<seq<Member>>, createdAt: Json, id: Json) {
    members == Some([Field("createdAt", createdAt), Field("id", id)])
    || members == Some([Field("id", id), Field("createdAt", createdAt)])
  }
}
