/**
 The three index-stepping scanners that reject lone surrogate escapes in JSON text.

 JSON is needed only down to its lexical layer (section 7 of RFC 8259): strings are
 delimited by unescaped quotes, escapes are complete, and a backslash occurs only in a
 string. Every valid JSON text has this form. A `\u` escape decodes to one UTF-16 code
 unit; every other character, the quotes and the bytes outside strings decode to
 something that is never half of a surrogate pair.
 */
module SurrogateScanners {
  import opened Common

  const QUOTE: byte := 0x22
  const BACKSLASH: byte := 0x5c
  const LOWER_U: byte := 0x75

  // ---------------------------------------------------------------- decoding

  datatype Item = Plain | Unit(code: int)

  predicate IsHex(b: byte) { 0x30 <= b <= 0x39 || 0x41 <= b <= 0x46 || 0x61 <= b <= 0x66 }

  function HexDigit(b: byte): (d: int)
    requires IsHex(b)
    ensures 0 <= d < 16
  {
    if b <= 0x39 then b - 0x30 else if b <= 0x46 then b - 0x41 + 10 else b - 0x61 + 10
  }

  predicate FourHex(raw: seq<byte>, i: nat) {
    i + 4 <= |raw| && IsHex(raw[i]) && IsHex(raw[i + 1]) && IsHex(raw[i + 2]) && IsHex(raw[i + 3])
  }

  function HexValue(raw: seq<byte>, i: nat): (v: int)
    requires FourHex(raw, i)
    ensures 0 <= v < 0x10000
  {
    ((HexDigit(raw[i]) * 16 + HexDigit(raw[i + 1])) * 16 + HexDigit(raw[i + 2])) * 16 + HexDigit(raw[i + 3])
  }

  /** The characters that may follow a backslash, apart from `u`: quote, backslash, slash, b, f, n, r, t. */
  predicate ShortEscape(b: byte) { b in [0x22, 0x5c, 0x2f, 0x62, 0x66, 0x6e, 0x72, 0x74] }

  function Then(item: Item, rest: Option<seq<Item>>): Option<seq<Item>> {
    if rest.None? then None else Some([item] + rest.value)
  }

  /** Decodes the text from position `i`, inside or outside a string; None when it is not well formed. */
  function Decode(raw: seq<byte>, i: nat, inString: bool): Option<seq<Item>>
    decreases |raw| - i
  {
    if i >= |raw| then if inString then None else Some([])
    else if raw[i] == QUOTE then Then(Plain, Decode(raw, i + 1, !inString))
    else if raw[i] != BACKSLASH then
      if inString && raw[i] < 0x20 then None else Then(Plain, Decode(raw, i + 1, inString))
    else if !inString || i + 1 >= |raw| then None
    else if raw[i + 1] == LOWER_U then
      if !FourHex(raw, i + 2) then None
      else Then(Unit(HexValue(raw, i + 2)), Decode(raw, i + 6, true))
    else if !ShortEscape(raw[i + 1]) then None
    else Then(Plain, Decode(raw, i + 2, true))
  }

  predicate JsonText(raw: seq<byte>) { Decode(raw, 0, false).Some? }

  /** The closing quote of the string that position `i` is in. */
  function ClosingQuote(raw: seq<byte>, i: nat): Option<nat>
    decreases |raw| - i
  {
    if i >= |raw| then None
    else if raw[i] == QUOTE then Some(i)
    else if raw[i] != BACKSLASH then ClosingQuote(raw, i + 1)
    else if i + 1 >= |raw| then None
    else ClosingQuote(raw, if raw[i + 1] == LOWER_U then i + 6 else i + 2)
  }

  /** One JSON value that is a string: its closing quote ends the text. */
  predicate StringLiteral(raw: seq<byte>) {
    JsonText(raw) && raw != [] && raw[0] == QUOTE && ClosingQuote(raw, 1) == Some(|raw| - 1)
  }

  predicate HighUnit(item: Item) { item.Unit? && 0xD800 <= item.code <= 0xDBFF }

  predicate LowUnit(item: Item) { item.Unit? && 0xDC00 <= item.code <= 0xDFFF }

  /** No lone surrogate: a high half is followed at once by a low half, and a low half follows a high one. */
  predicate Paired(items: seq<Item>) {
    forall i :: 0 <= i < |items| ==> PairedAt(items, i)
  }

  predicate PairedAt(items: seq<Item>, i: nat)
    requires i < |items|
  {
    && (HighUnit(items[i]) ==> i + 1 < |items| && LowUnit(items[i + 1]))
    && (LowUnit(items[i]) ==> i > 0 && HighUnit(items[i - 1]))
  }

  /** What the scanners decide: the text is well formed and decodes to UTF-16 without lone surrogates. */
  predicate NoLoneSurrogate(raw: seq<byte>) { PairedFrom(raw, 0, false) }

  predicate PairedFrom(raw: seq<byte>, i: nat, inString: bool) {
    Decode(raw, i, inString).Some? && Paired(Decode(raw, i, inString).value)
  }

  // ---------------------------------------------------------------- what remains to be read

  /** Dropping a prefix that is paired by itself does not change the verdict. */
  lemma PairedAfter(prefix: seq<Item>, rest: seq<Item>)
    requires Paired(prefix)
    ensures Paired(prefix + rest) <==> Paired(rest)
  {
    var all, n := prefix + rest, |prefix|;
    forall i | 0 <= i < |rest| ensures all[n + i] == rest[i] { }
    if Paired(rest) {
      forall i | 0 <= i < |all| ensures PairedAt(all, i) {
        if i < n { assert PairedAt(prefix, i); } else { assert PairedAt(rest, i - n); }
      }
    }
    if Paired(all) {
      forall i | 0 <= i < |rest| ensures PairedAt(rest, i) {
        assert PairedAt(all, n + i);
        if i == 0 && n > 0 { assert PairedAt(prefix, n - 1); }
      }
    }
  }

  lemma LoneSurrogate(first: Item, rest: seq<Item>)
    requires LowUnit(first) || (HighUnit(first) && !(rest != [] && LowUnit(rest[0])))
    ensures !Paired([first] + rest)
  {
    assert !PairedAt([first] + rest, 0);
  }

  lemma PlainFirst(rest: Option<seq<Item>>, item: Item)
    requires rest.Some? && !HighUnit(item) && !LowUnit(item)
    ensures Paired([item] + rest.value) <==> Paired(rest.value)
  {
    PairedAfter([item], rest.value);
  }

  /** A byte that starts no escape. */
  lemma ByteStep(raw: seq<byte>, i: nat, inString: bool)
    requires i < |raw| && Decode(raw, i, inString).Some?
    ensures !inString ==> raw[i] != BACKSLASH
    ensures raw[i] == QUOTE ==> Decode(raw, i + 1, !inString).Some?
    ensures raw[i] == QUOTE ==> (PairedFrom(raw, i, inString) <==> PairedFrom(raw, i + 1, !inString))
    ensures raw[i] != QUOTE && raw[i] != BACKSLASH ==> Decode(raw, i + 1, inString).Some?
    ensures raw[i] != QUOTE && raw[i] != BACKSLASH ==>
              (PairedFrom(raw, i, inString) <==> PairedFrom(raw, i + 1, inString))
  {
    if raw[i] == QUOTE {
      PlainFirst(Decode(raw, i + 1, !inString), Plain);
    } else if raw[i] != BACKSLASH {
      PlainFirst(Decode(raw, i + 1, inString), Plain);
    }
  }

  lemma ShortEscapeStep(raw: seq<byte>, i: nat)
    requires i < |raw| && Decode(raw, i, true).Some? && raw[i] == BACKSLASH
    ensures i + 1 < |raw|
    ensures raw[i + 1] != LOWER_U ==> Decode(raw, i + 2, true).Some?
    ensures raw[i + 1] != LOWER_U ==> (PairedFrom(raw, i, true) <==> PairedFrom(raw, i + 2, true))
  {
    if raw[i + 1] != LOWER_U {
      PlainFirst(Decode(raw, i + 2, true), Plain);
    }
  }

  predicate UnicodeEscape(raw: seq<byte>, i: nat) {
    i + 6 <= |raw| && raw[i] == BACKSLASH && raw[i + 1] == LOWER_U && FourHex(raw, i + 2)
  }

  lemma UnicodeEscapeReads(raw: seq<byte>, i: nat)
    requires i + 1 < |raw| && Decode(raw, i, true).Some? && raw[i] == BACKSLASH && raw[i + 1] == LOWER_U
    ensures UnicodeEscape(raw, i) && i + 6 < |raw|
    ensures Decode(raw, i + 6, true).Some?
    ensures Decode(raw, i, true).value == [Unit(HexValue(raw, i + 2))] + Decode(raw, i + 6, true).value
  {
  }

  /** A single `\u` escape that is not a high half decides at once. */
  lemma SingleUnitStep(raw: seq<byte>, i: nat)
    requires UnicodeEscape(raw, i) && Decode(raw, i, true).Some?
    requires !HighUnit(Unit(HexValue(raw, i + 2)))
    ensures LowUnit(Unit(HexValue(raw, i + 2))) ==> !PairedFrom(raw, i, true)
    ensures !LowUnit(Unit(HexValue(raw, i + 2))) ==> (PairedFrom(raw, i, true) <==> PairedFrom(raw, i + 6, true))
  {
    UnicodeEscapeReads(raw, i);
    var unit := Unit(HexValue(raw, i + 2));
    if LowUnit(unit) {
      LoneSurrogate(unit, Decode(raw, i + 6, true).value);
    } else {
      PlainFirst(Decode(raw, i + 6, true), unit);
    }
  }

  predicate LowEscape(raw: seq<byte>, i: nat) {
    UnicodeEscape(raw, i) && LowUnit(Unit(HexValue(raw, i + 2)))
  }

  /** A high half needs an escaped low half right behind it. */
  lemma HighUnitStep(raw: seq<byte>, i: nat)
    requires UnicodeEscape(raw, i) && Decode(raw, i, true).Some?
    requires HighUnit(Unit(HexValue(raw, i + 2)))
    ensures !LowEscape(raw, i + 6) ==> !PairedFrom(raw, i, true)
    ensures LowEscape(raw, i + 6) ==> i + 12 < |raw| && Decode(raw, i + 12, true).Some?
    ensures LowEscape(raw, i + 6) ==> (PairedFrom(raw, i, true) <==> PairedFrom(raw, i + 12, true))
  {
    UnicodeEscapeReads(raw, i);
    var high := Unit(HexValue(raw, i + 2));
    var rest := Decode(raw, i + 6, true).value;
    if LowEscape(raw, i + 6) {
      UnicodeEscapeReads(raw, i + 6);
      var low := Unit(HexValue(raw, i + 8));
      var after := Decode(raw, i + 12, true).value;
      assert [high] + rest == [high, low] + after;
      assert PairedAt([high, low], 0) && PairedAt([high, low], 1);
      PairedAfter([high, low], after);
    } else {
      FirstUnit(raw, i + 6);
      LoneSurrogate(high, rest);
    }
  }

  /** What one escape decides, by its code unit. */
  lemma UnitStep(raw: seq<byte>, i: nat)
    requires UnicodeEscape(raw, i) && Decode(raw, i, true).Some?
    ensures i + 6 < |raw| && Decode(raw, i + 6, true).Some?
    ensures LowEscape(raw, i + 6) ==> i + 12 < |raw| && Decode(raw, i + 12, true).Some?
    ensures var v := HexValue(raw, i + 2);
            && (0xDC00 <= v <= 0xDFFF ==> !PairedFrom(raw, i, true))
            && (v < 0xD800 || v > 0xDFFF ==> (PairedFrom(raw, i, true) <==> PairedFrom(raw, i + 6, true)))
            && (0xD800 <= v <= 0xDBFF ==>
                (PairedFrom(raw, i, true) <==> LowEscape(raw, i + 6) && PairedFrom(raw, i + 12, true)))
  {
    UnicodeEscapeReads(raw, i);
    if LowEscape(raw, i + 6) { UnicodeEscapeReads(raw, i + 6); }
    if HighUnit(Unit(HexValue(raw, i + 2))) { HighUnitStep(raw, i); } else { SingleUnitStep(raw, i); }
  }

  lemma FirstUnit(raw: seq<byte>, i: nat)
    requires Decode(raw, i, true).Some? && !LowEscape(raw, i)
    ensures Decode(raw, i, true).value == [] || !LowUnit(Decode(raw, i, true).value[0])
  {
  }

  // ---------------------------------------------------------------- the scanners

  /** Tracks strings by toggling at quotes; `jsonValid` guarantees complete escapes. */
  method FooterJSONScalars(raw: seq<byte>, utf8Valid: bool, jsonValid: bool) returns (ok: bool)
    requires jsonValid ==> JsonText(raw)
    ensures ok <==> utf8Valid && jsonValid && NoLoneSurrogate(raw)
  {
    if !utf8Valid || !jsonValid { return false; }
    var inString := false;
    var i := 0;
    while i < |raw|
      invariant 0 <= i <= |raw|
      invariant Decode(raw, i, inString).Some?
      invariant NoLoneSurrogate(raw) <==> PairedFrom(raw, i, inString)
      decreases |raw| - i
    {
      ByteStep(raw, i, inString);
      if raw[i] == QUOTE {
        inString := !inString;
        i := i + 1;
        continue;
      }
      if !inString || raw[i] != BACKSLASH {
        i := i + 1;
        continue;
      }
      ShortEscapeStep(raw, i);
      ghost var start := i;
      i := i + 1;
      if raw[i] != LOWER_U {
        i := i + 1;
        continue;
      }
      UnicodeEscapeReads(raw, start);
      var code := HexValue(raw, i + 1);
      i := i + 4;
      UnitStep(raw, start);
      if code >= 0xDC00 && code <= 0xDFFF { return false; }
      if code < 0xD800 || code > 0xDBFF {
        i := i + 1;
        continue;
      }
      if i + 6 >= |raw| || raw[i + 1] != BACKSLASH || raw[i + 2] != LOWER_U { return false; }
      UnicodeEscapeReads(raw, start + 6);
      var low := HexValue(raw, i + 3);
      if low < 0xDC00 || low > 0xDFFF { return false; }
      i := i + 7;
    }
    return true;
  }

  /** Ignores quotes, and reads in bounds whatever the bytes are. */
  method ValidPasswordJSONUnicode(body: seq<byte>, utf8Valid: bool) returns (ok: bool)
    ensures ok ==> utf8Valid
    ensures JsonText(body) ==> (ok <==> utf8Valid && NoLoneSurrogate(body))
  {
    if !utf8Valid { return false; }
    ghost var json := JsonText(body);
    ghost var inString := false;
    var i := 0;
    while i < |body|
      invariant 0 <= i <= |body|
      invariant json ==> Decode(body, i, inString).Some?
      invariant json ==> (NoLoneSurrogate(body) <==> PairedFrom(body, i, inString))
      decreases |body| - i
    {
      if json { ByteStep(body, i, inString); }
      if body[i] != BACKSLASH {
        if body[i] == QUOTE { inString := !inString; }
        i := i + 1;
        continue;
      }
      if json { ShortEscapeStep(body, i); }
      ghost var start := i;
      i := i + 1;
      if i >= |body| { return false; }
      if body[i] != LOWER_U {
        i := i + 1;
        continue;
      }
      if json { UnicodeEscapeReads(body, start); }
      if i + 4 >= |body| { return false; }
      if !FourHex(body, i + 1) { return false; }
      var value := HexValue(body, i + 1);
      i := i + 4;
      if json { UnitStep(body, start); }
      if value >= 0xDC00 && value <= 0xDFFF { return false; }
      if value >= 0xD800 && value <= 0xDBFF {
        if i + 6 >= |body| || body[i + 1] != BACKSLASH || body[i + 2] != LOWER_U { return false; }
        if !FourHex(body, i + 3) || HexValue(body, i + 3) < 0xDC00 || HexValue(body, i + 3) > 0xDFFF { return false; }
        i := i + 6;
      }
      i := i + 1;
    }
    return true;
  }

  /** Runs on one JSON value between its outer quotes; a value that starts with a quote is a string literal. */
  method ValidNoteJSONString(raw: seq<byte>) returns (ok: bool)
    requires raw != [] && raw[0] == QUOTE ==> StringLiteral(raw)
    ensures ok <==> raw != [] && raw[0] == QUOTE && NoLoneSurrogate(raw)
  {
    if raw != [] && raw[0] == QUOTE { ClosesInBounds(raw, 1); }
    if |raw| < 2 || raw[0] != QUOTE || raw[|raw| - 1] != QUOTE { return false; }
    ByteStep(raw, 0, false);
    var i := 1;
    while i < |raw| - 1
      invariant 1 <= i <= |raw| - 1
      invariant Decode(raw, i, true).Some? && ClosingQuote(raw, i) == Some(|raw| - 1)
      invariant NoLoneSurrogate(raw) <==> PairedFrom(raw, i, true)
      decreases |raw| - i
    {
      ByteStep(raw, i, true);
      if raw[i] != BACKSLASH {
        i := i + 1;
        continue;
      }
      ShortEscapeStep(raw, i);
      ghost var start := i;
      i := i + 1;
      ClosesLater(raw, start);
      if raw[i] != LOWER_U {
        i := i + 1;
        continue;
      }
      UnicodeEscapeReads(raw, start);
      var v := HexValue(raw, i + 1);
      i := i + 4;
      UnitStep(raw, start);
      if v >= 0xDC00 && v <= 0xDFFF { return false; }
      if v >= 0xD800 && v <= 0xDBFF {
        if i + 6 >= |raw| || raw[i + 1] != BACKSLASH || raw[i + 2] != LOWER_U { return false; }
        UnicodeEscapeReads(raw, start + 6);
        ClosesLater(raw, start + 6);
        var low := HexValue(raw, i + 3);
        if low < 0xDC00 || low > 0xDFFF { return false; }
        i := i + 6;
      }
      i := i + 1;
    }
    ByteStep(raw, |raw| - 1, true);
    return true;
  }

  /** An escape does not hold the closing quote. */
  lemma ClosesLater(raw: seq<byte>, i: nat)
    requires i + 1 < |raw| && raw[i] == BACKSLASH && ClosingQuote(raw, i).Some?
    ensures var next := if raw[i + 1] == LOWER_U then i + 6 else i + 2;
            ClosingQuote(raw, next) == ClosingQuote(raw, i) && next <= ClosingQuote(raw, i).value < |raw|
  {
    ClosesInBounds(raw, if raw[i + 1] == LOWER_U then i + 6 else i + 2);
  }

  lemma {:induction false} ClosesInBounds(raw: seq<byte>, i: nat)
    requires ClosingQuote(raw, i).Some?
    ensures i <= ClosingQuote(raw, i).value < |raw| && raw[ClosingQuote(raw, i).value] == QUOTE
    decreases |raw| - i
  {
    if raw[i] == QUOTE {
    } else if raw[i] != BACKSLASH {
      ClosesInBounds(raw, i + 1);
    } else {
      ClosesInBounds(raw, if raw[i + 1] == LOWER_U then i + 6 else i + 2);
    }
  }

  // ---------------------------------------------------------------- the verdict in bytes

  /** A hexadecimal digit, by its bytes: 0 to 9, A to F, a to f. */
  predicate DigitByte(b: byte) {
    b in [0x30, 0x31, 0x32, 0x33, 0x34, 0x35, 0x36, 0x37, 0x38, 0x39,
          0x41, 0x42, 0x43, 0x44, 0x45, 0x46, 0x61, 0x62, 0x63, 0x64, 0x65, 0x66]
  }

  /** Digits mean what they are written for. */
  lemma HexDigitMeans(b: byte, k: nat)
    ensures IsHex(b) <==> DigitByte(b)
    ensures k < 10 ==> IsHex(0x30 + k) && HexDigit(0x30 + k) == k
    ensures k < 6 ==> IsHex(0x41 + k) && IsHex(0x61 + k) && HexDigit(0x41 + k) == HexDigit(0x61 + k) == 10 + k
  {
  }

  /** D8 to DB in the first two of four digits: the code units D800 to DBFF. */
  predicate HighDigits(raw: seq<byte>, i: nat) {
    FourHex(raw, i) && raw[i] in [0x44, 0x64] && raw[i + 1] in [0x38, 0x39, 0x41, 0x42, 0x61, 0x62]
  }

  /** DC to DF in the first two of four digits: the code units DC00 to DFFF. */
  predicate LowDigits(raw: seq<byte>, i: nat) {
    FourHex(raw, i) && raw[i] in [0x44, 0x64] && raw[i + 1] in [0x43, 0x44, 0x45, 0x46, 0x63, 0x64, 0x65, 0x66]
  }

  lemma DigitRanges(b: byte)
    requires IsHex(b)
    ensures HexDigit(b) == 13 <==> b in [0x44, 0x64]
    ensures 8 <= HexDigit(b) <= 11 <==> b in [0x38, 0x39, 0x41, 0x42, 0x61, 0x62]
    ensures 12 <= HexDigit(b) <= 15 <==> b in [0x43, 0x44, 0x45, 0x46, 0x63, 0x64, 0x65, 0x66]
  {
  }

  lemma FirstTwoDigits(raw: seq<byte>, i: nat)
    requires FourHex(raw, i)
    ensures HighUnit(Unit(HexValue(raw, i))) <==> HexDigit(raw[i]) == 13 && 8 <= HexDigit(raw[i + 1]) <= 11
    ensures LowUnit(Unit(HexValue(raw, i))) <==> HexDigit(raw[i]) == 13 && 12 <= HexDigit(raw[i + 1]) <= 15
  {
  }

  /** The code unit of four digits is half of a pair exactly if its first two digits say so. */
  lemma HalvesByDigits(raw: seq<byte>, i: nat)
    ensures HighDigits(raw, i) <==> FourHex(raw, i) && HighUnit(Unit(HexValue(raw, i)))
    ensures LowDigits(raw, i) <==> FourHex(raw, i) && LowUnit(Unit(HexValue(raw, i)))
  {
    if FourHex(raw, i) {
      FirstTwoDigits(raw, i);
      DigitRanges(raw[i]);
      DigitRanges(raw[i + 1]);
    }
  }

  /** An escape `\u` at position `i`. */
  predicate EscapeAt(raw: seq<byte>, i: nat) { i + 6 <= |raw| && raw[i] == 0x5c && raw[i + 1] == 0x75 }

  predicate HighAt(raw: seq<byte>, i: nat) { EscapeAt(raw, i) && HighDigits(raw, i + 2) }

  predicate LowAt(raw: seq<byte>, i: nat) { EscapeAt(raw, i) && LowDigits(raw, i + 2) }

  /** Reading on from `from`, a character or an escape at a time, comes to position `i` in a string. */
  predicate Reaches(raw: seq<byte>, from: nat, inString: bool, i: nat)
    decreases |raw| - from
  {
    if from >= i || from >= |raw| then from == i && inString
    else if raw[from] == 0x22 then Reaches(raw, from + 1, !inString, i)
    else if raw[from] != 0x5c || from + 1 >= |raw| then Reaches(raw, from + 1, inString, i)
    else Reaches(raw, if raw[from + 1] == 0x75 then from + 6 else from + 2, inString, i)
  }

  /** A high half read there is followed by an escaped low half, and a low half follows a high one. */
  predicate HalfMatches(raw: seq<byte>, from: nat, inString: bool, i: nat) {
    Reaches(raw, from, inString, i) ==>
      && (HighAt(raw, i) ==> LowAt(raw, i + 6))
      && (LowAt(raw, i) ==> FollowsHigh(raw, from, inString, i))
  }

  predicate FollowsHigh(raw: seq<byte>, from: nat, inString: bool, i: nat) {
    i >= 6 && Reaches(raw, from, inString, i - 6) && HighAt(raw, i - 6)
  }

  ghost predicate HalvesMatch(raw: seq<byte>, from: nat, inString: bool) {
    forall i: nat :: HalfMatches(raw, from, inString, i)
  }

  lemma {:induction false} ReachesForward(raw: seq<byte>, from: nat, inString: bool, i: nat)
    ensures Reaches(raw, from, inString, i) ==> from <= i
  {
  }

  /** Reading on changes nothing if the positions passed hold no half, or a low half behind its high one. */
  lemma HalvesMatchLater(raw: seq<byte>, from: nat, inString: bool, next: nat, nextIn: bool)
    requires from <= next
    requires forall i: nat :: i >= next ==> (Reaches(raw, from, inString, i) <==> Reaches(raw, next, nextIn, i))
    requires forall i: nat :: i < next ==> HalfMatches(raw, from, inString, i)
    requires forall i: nat :: from <= i < next && Reaches(raw, from, inString, i) ==> HighAt(raw, i) ==> i + 6 < next
    ensures HalvesMatch(raw, from, inString) <==> HalvesMatch(raw, next, nextIn)
  {
    forall i: nat ensures FollowsHigh(raw, next, nextIn, i) <==> i >= next + 6 && FollowsHigh(raw, from, inString, i) {
      if i >= 6 { ReachesForward(raw, next, nextIn, i - 6); }
    }
    forall i: nat | i >= next ensures FollowsHigh(raw, from, inString, i) ==> i >= next + 6 {
      if i >= 6 { ReachesForward(raw, from, inString, i - 6); }
    }
    forall i: nat ensures HalfMatches(raw, from, inString, i) <==> HalfMatches(raw, next, nextIn, i) {
      ReachesForward(raw, next, nextIn, i);
    }
  }

  /** Passing one character or escape. */
  lemma HalvesMatchStep(raw: seq<byte>, from: nat, inString: bool, next: nat, nextIn: bool)
    requires from < next && from < |raw|
    requires forall i: nat :: i > from ==> (Reaches(raw, from, inString, i) <==> Reaches(raw, next, nextIn, i))
    requires inString ==> !HighAt(raw, from) && !LowAt(raw, from)
    ensures HalvesMatch(raw, from, inString) <==> HalvesMatch(raw, next, nextIn)
  {
    forall i: nat | i < next ensures HalfMatches(raw, from, inString, i) {
      ReachesForward(raw, from, inString, i);
      ReachesForward(raw, next, nextIn, i);
    }
    forall i: nat | from <= i < next && Reaches(raw, from, inString, i) ensures !HighAt(raw, i) {
      ReachesForward(raw, next, nextIn, i);
    }
    HalvesMatchLater(raw, from, inString, next, nextIn);
  }

  lemma EscapeReaches(raw: seq<byte>, from: nat, i: nat)
    requires EscapeAt(raw, from) && i > from
    ensures Reaches(raw, from, true, i) <==> Reaches(raw, from + 6, true, i)
    ensures Reaches(raw, from, true, i) ==> i >= from + 6
  {
    ReachesForward(raw, from + 6, true, i);
  }

  /** Passing a high half, which ends the match unless a low half follows. */
  lemma HalvesMatchPair(raw: seq<byte>, from: nat)
    requires HighAt(raw, from)
    ensures !LowAt(raw, from + 6) ==> !HalvesMatch(raw, from, true)
    ensures LowAt(raw, from + 6) ==> (HalvesMatch(raw, from, true) <==> HalvesMatch(raw, from + 12, true))
  {
    assert Reaches(raw, from, true, from);
    if LowAt(raw, from + 6) {
      forall i: nat {:trigger Reaches(raw, from, true, i)}
        ensures Reaches(raw, from, true, i) && i < from + 12 ==> i == from || i == from + 6
        ensures i >= from + 12 ==> (Reaches(raw, from, true, i) <==> Reaches(raw, from + 12, true, i))
      {
        ReachesForward(raw, from, true, i);
        if i > from { EscapeReaches(raw, from, i); }
        if i > from + 6 { EscapeReaches(raw, from + 6, i); }
      }
      HalvesMatchLater(raw, from, true, from + 12, true);
    } else {
      assert !HalfMatches(raw, from, true, from);
    }
  }

  lemma LoneLowHalf(raw: seq<byte>, from: nat)
    requires LowAt(raw, from)
    ensures !HalvesMatch(raw, from, true)
  {
    assert Reaches(raw, from, true, from);
    if from >= 6 { ReachesForward(raw, from, true, from - 6); }
    assert !HalfMatches(raw, from, true, from);
  }

  /** What is left to read decodes without lone surrogates exactly if its escaped halves match. */
  lemma {:induction false} PairedByBytes(raw: seq<byte>, from: nat, inString: bool)
    requires Decode(raw, from, inString).Some?
    ensures PairedFrom(raw, from, inString) <==> HalvesMatch(raw, from, inString)
    decreases |raw| - from
  {
    if from >= |raw| {
      assert Decode(raw, from, inString).value == [];
    } else if raw[from] != BACKSLASH {
      ByteStep(raw, from, inString);
      var nextIn := if raw[from] == QUOTE then !inString else inString;
      PairedByBytes(raw, from + 1, nextIn);
      HalvesMatchStep(raw, from, inString, from + 1, nextIn);
    } else if raw[from + 1] != LOWER_U {
      ShortEscapeStep(raw, from);
      PairedByBytes(raw, from + 2, true);
      HalvesMatchStep(raw, from, inString, from + 2, true);
    } else {
      UnicodeEscapeReads(raw, from);
      HalvesByDigits(raw, from + 2);
      HalvesByDigits(raw, from + 8);
      if HighAt(raw, from) {
        HighUnitStep(raw, from);
        HalvesMatchPair(raw, from);
        if LowAt(raw, from + 6) { PairedByBytes(raw, from + 12, true); }
      } else {
        SingleUnitStep(raw, from);
        if LowAt(raw, from) {
          LoneLowHalf(raw, from);
        } else {
          PairedByBytes(raw, from + 6, true);
          HalvesMatchStep(raw, from, inString, from + 6, true);
        }
      }
    }
  }

  /**
   The verdict of the scanners in bytes: in the strings of a JSON text every escaped high
   half is followed by an escaped low half, and no other low half occurs.
   */
  lemma LoneSurrogatesByBytes(raw: seq<byte>)
    ensures NoLoneSurrogate(raw) <==> JsonText(raw) && HalvesMatch(raw, 0, false)
  {
    if JsonText(raw) { PairedByBytes(raw, 0, false); }
  }

  /** One escape, by its digits. */
  lemma EscapeVerdict(raw: seq<byte>, i: nat)
    requires UnicodeEscape(raw, i) && Decode(raw, i, true).Some?
    ensures HighDigits(raw, i + 2) ==>
              (PairedFrom(raw, i, true) <==> LowEscape(raw, i + 6) && PairedFrom(raw, i + 12, true))
    ensures LowDigits(raw, i + 2) ==> !PairedFrom(raw, i, true)
    ensures !HighDigits(raw, i + 2) && !LowDigits(raw, i + 2) ==>
              (PairedFrom(raw, i, true) <==> PairedFrom(raw, i + 6, true))
  {
    HalvesByDigits(raw, i + 2);
    UnitStep(raw, i);
  }

  /** One escape alone in a literal: refused exactly if its digits are a half's. */
  lemma OneEscape(a: byte, b: byte, c: byte, d: byte)
    requires DigitByte(a) && DigitByte(b) && DigitByte(c) && DigitByte(d)
    ensures var raw := [0x22, 0x5c, 0x75, a, b, c, d, 0x22];
            && StringLiteral(raw)
            && (NoLoneSurrogate(raw) <==>
                !(a in [0x44, 0x64] &&
                  b in [0x38, 0x39, 0x41, 0x42, 0x43, 0x44, 0x45, 0x46, 0x61, 0x62, 0x63, 0x64, 0x65, 0x66]))
  {
    var raw := [0x22, 0x5c, 0x75, a, b, c, d, 0x22];
    HalvesByDigits(raw, 3);
    HexDigitMeans(a, 0);
    HexDigitMeans(b, 0);
    HexDigitMeans(c, 0);
    HexDigitMeans(d, 0);
    assert FourHex(raw, 3);
    LiteralEnds(raw, 7);
    LiteralVerdict(raw);
    EscapeVerdict(raw, 1);
  }

  /** Two escapes in a literal: accepted exactly as a high half before a low one, or when neither is a half. */
  lemma PairIsAccepted(raw: seq<byte>)
    requires |raw| == 14 && raw[0] == 0x22 == raw[13] && EscapeAt(raw, 1) && EscapeAt(raw, 7)
    requires forall i :: 3 <= i < 7 || 9 <= i < 13 ==> DigitByte(raw[i])
    ensures StringLiteral(raw)
    ensures NoLoneSurrogate(raw) <==>
            || (HighDigits(raw, 3) && LowDigits(raw, 9))
            || (!HighDigits(raw, 3) && !LowDigits(raw, 3) && !HighDigits(raw, 9) && !LowDigits(raw, 9))
  {
    PairReads(raw);
    LiteralVerdict(raw);
    PairVerdicts(raw);
  }

  lemma PairVerdicts(raw: seq<byte>)
    requires |raw| == 14 && UnicodeEscape(raw, 1) && UnicodeEscape(raw, 7)
    requires Decode(raw, 1, true).Some? && Decode(raw, 7, true).Some? && PairedFrom(raw, 13, true)
    ensures PairedFrom(raw, 1, true) <==>
            || (HighDigits(raw, 3) && LowDigits(raw, 9))
            || (!HighDigits(raw, 3) && !LowDigits(raw, 3) && !HighDigits(raw, 9) && !LowDigits(raw, 9))
  {
    EscapeVerdict(raw, 1);
    if HighDigits(raw, 3) {
      HalvesByDigits(raw, 9);
    } else if !LowDigits(raw, 3) {
      EscapeVerdict(raw, 7);
    }
  }

  lemma PairReads(raw: seq<byte>)
    requires |raw| == 14 && raw[0] == 0x22 == raw[13] && EscapeAt(raw, 1) && EscapeAt(raw, 7)
    requires forall i :: 3 <= i < 7 || 9 <= i < 13 ==> DigitByte(raw[i])
    ensures StringLiteral(raw) && Decode(raw, 1, true).Some? && Decode(raw, 7, true).Some?
    ensures UnicodeEscape(raw, 1) && UnicodeEscape(raw, 7) && PairedFrom(raw, 13, true)
  {
    forall i | 3 <= i < 7 || 9 <= i < 13 ensures IsHex(raw[i]) { HexDigitMeans(raw[i], 0); }
    assert FourHex(raw, 3) && FourHex(raw, 9);
    LiteralEnds(raw, 13);
    assert Decode(raw, 7, true).Some? && ClosingQuote(raw, 7) == Some(13);
    assert Decode(raw, 1, true).Some? && ClosingQuote(raw, 1) == Some(13);
  }

  lemma LiteralVerdict(raw: seq<byte>)
    requires StringLiteral(raw)
    ensures NoLoneSurrogate(raw) <==> PairedFrom(raw, 1, true)
  {
    ByteStep(raw, 0, false);
  }

  lemma LiteralEnds(raw: seq<byte>, last: nat)
    requires last + 1 == |raw| && raw[last] == QUOTE
    ensures Decode(raw, last, true) == Some([Plain]) && PairedFrom(raw, last, true)
    ensures ClosingQuote(raw, last) == Some(last)
    ensures Decode(raw, last + 1, false).Some?
  {
    var nothing: seq<Item> := [];
    assert Decode(raw, last + 1, false) == Some(nothing);
    assert [Plain] + nothing == [Plain];
    assert PairedAt([Plain], 0);
  }

  /** One byte in a literal, bare or behind a backslash. */
  lemma OneByteLiteral(b: byte)
    ensures JsonText([0x22, b, 0x22]) <==> b >= 0x20 && b != 0x22 && b != 0x5c
    ensures JsonText([0x22, 0x5c, b, 0x22]) <==> b in [0x22, 0x5c, 0x2f, 0x62, 0x66, 0x6e, 0x72, 0x74]
  {
    var bare, escaped := [0x22, b, 0x22], [0x22, 0x5c, b, 0x22];
    assert Decode(bare, 3, false).Some? && Decode(bare, 3, true).None?;
    assert Decode(bare, 2, true).Some? && Decode(bare, 2, false).None?;
    assert Decode(bare, 0, false).Some? <==> Decode(bare, 1, true).Some?;
    assert Decode(escaped, 4, false).Some?;
    assert Decode(escaped, 3, true).Some?;
    assert Decode(escaped, 0, false).Some? <==> Decode(escaped, 1, true).Some?;
  }
}
