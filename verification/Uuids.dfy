/** Canonical UUID texts and the 128-bit numbers they stand for, which the database compares. */
module Uuids {
  import opened Cursors

  predicate Hex(s: string) { forall i :: 0 <= i < |s| ==> LowerHex(s[i]) }

  function HexValue(c: char): (v: nat)
    requires LowerHex(c)
    ensures v < 16
  {
    if '0' <= c <= '9' then c as int - '0' as int else c as int - 'a' as int + 10
  }

  function HexChar(v: nat): (c: char)
    requires v < 16
    ensures LowerHex(c) && HexValue(c) == v
  {
    if v < 10 then '0' + v as char else 'a' + (v - 10) as char
  }

  lemma HexMeans(c: char, v: nat)
    ensures v < 16 ==> "0123456789abcdef"[v] == HexChar(v)
    ensures LowerHex(c) <==> exists d: nat :: d < 16 && c == HexChar(d)
  {
    if LowerHex(c) { assert HexChar(HexValue(c)) == c; }
  }

  function Power16(n: nat): (p: nat)
    ensures p >= 1
  {
    if n == 0 then 1 else 16 * Power16(n - 1)
  }

  /** Exactly `width` hexadecimal digits. */
  function HexDigits(n: nat, width: nat): (s: string)
    ensures |s| == width && Hex(s)
    decreases width
  {
    if width == 0 then [] else HexDigits(n / 16, width - 1) + [HexChar(n % 16)]
  }

  function HexNumber(s: string): nat
    requires Hex(s)
  {
    if s == [] then 0 else HexNumber(s[..|s| - 1]) * 16 + HexValue(s[|s| - 1])
  }

  lemma {:induction false} NumberOfDigits(n: nat, width: nat)
    requires n < Power16(width)
    ensures HexNumber(HexDigits(n, width)) == n
    decreases width
  {
    if width > 0 {
      NumberOfDigits(n / 16, width - 1);
      assert HexDigits(n, width)[..width - 1] == HexDigits(n / 16, width - 1);
    }
  }

  lemma {:induction false} DigitsOfNumber(s: string)
    requires Hex(s)
    ensures HexNumber(s) < Power16(|s|) && HexDigits(HexNumber(s), |s|) == s
  {
    if s != [] {
      var init, last := s[..|s| - 1], HexValue(s[|s| - 1]);
      DigitsOfNumber(init);
      assert HexNumber(s) / 16 == HexNumber(init) && HexNumber(s) % 16 == last;
      assert HexDigits(HexNumber(s), |s|) == HexDigits(HexNumber(init), |init|) + [HexChar(last)];
      assert s == init + [s[|s| - 1]];
    }
  }

  /** `a` comes before `b` in the order of their characters. */
  predicate Before(a: string, b: string) {
    exists i :: 0 <= i < |a| && i < |b| && a[..i] == b[..i] && a[i] < b[i]
  }

  lemma BeforeByInit(a: string, b: string)
    requires |a| == |b| > 0
    ensures var n := |a| - 1;
            Before(a, b) <==> Before(a[..n], b[..n]) || (a[..n] == b[..n] && a[n] < b[n])
  {
    var n := |a| - 1;
    if Before(a, b) {
      var i :| 0 <= i < |a| && a[..i] == b[..i] && a[i] < b[i];
      if i < n { assert a[..n][..i] == a[..i] && b[..n][..i] == b[..i] && a[..n][i] < b[..n][i]; }
    }
    if Before(a[..n], b[..n]) {
      var i :| 0 <= i < n && a[..n][..i] == b[..n][..i] && a[..n][i] < b[..n][i];
      assert a[..n][..i] == a[..i] && b[..n][..i] == b[..i];
    }
  }

  lemma EqualNumbers(a: string, b: string)
    requires |a| == |b| && Hex(a) && Hex(b)
    ensures HexNumber(a) == HexNumber(b) <==> a == b
  {
    DigitsOfNumber(a);
    DigitsOfNumber(b);
  }

  /** Numbers compare as their digits do. */
  lemma {:induction false} OrderOfDigits(a: string, b: string)
    requires |a| == |b| && Hex(a) && Hex(b)
    ensures HexNumber(a) < HexNumber(b) <==> Before(a, b)
  {
    if a != [] {
      var n := |a| - 1;
      OrderOfDigits(a[..n], b[..n]);
      BeforeByInit(a, b);
      EqualNumbers(a[..n], b[..n]);
      assert a[n] < b[n] <==> HexValue(a[n]) < HexValue(b[n]);
    }
  }

  // ---------------------------------------------------------------- with hyphens

  function Hyphenated(h: string): (raw: string)
    requires |h| == 32
    ensures |raw| == 36
  {
    h[..8] + "-" + h[8..12] + "-" + h[12..16] + "-" + h[16..20] + "-" + h[20..]
  }

  function Compact(raw: string): (h: string)
    requires |raw| == 36
    ensures |h| == 32
  {
    raw[..8] + raw[9..13] + raw[14..18] + raw[19..23] + raw[24..]
  }

  function Uuid(n: int): string { if 0 < n < Power16(32) then Hyphenated(HexDigits(n, 32)) else "" }

  function Number(raw: string): int { if ValidUUID(raw) && Hex(Compact(raw)) then HexNumber(Compact(raw)) else 0 }

  lemma CompactOfHyphenated(h: string)
    requires |h| == 32
    ensures Compact(Hyphenated(h)) == h
    ensures var raw := Hyphenated(h);
            && raw[8] == raw[13] == raw[18] == raw[23] == '-'
            && forall i :: 0 <= i < 36 && i !in {8, 13, 18, 23} ==> raw[i] in h
  {
    var raw := Hyphenated(h);
    assert raw[..8] == h[..8] && raw[9..13] == h[8..12] && raw[14..18] == h[12..16];
    assert raw[19..23] == h[16..20] && raw[24..] == h[20..];
  }

  lemma HyphenatedIsUUID(h: string)
    requires |h| == 32 && Hex(h) && exists i :: 0 <= i < 32 && h[i] != '0'
    ensures ValidUUID(Hyphenated(h))
  {
    CompactOfHyphenated(h);
    var raw := Hyphenated(h);
    var i :| 0 <= i < 32 && h[i] != '0';
    var k := if i < 8 then i else if i < 12 then i + 1 else if i < 16 then i + 2 else if i < 20 then i + 3 else i + 4;
    assert raw[k] == h[i];
    forall j | 0 <= j < 36 && j !in {8, 13, 18, 23} ensures LowerHex(raw[j]) {
      var m :| 0 <= m < 32 && h[m] == raw[j];
    }
  }

  lemma CompactIsHex(raw: string)
    requires ValidUUID(raw)
    ensures Hex(Compact(raw))
  {
    var h := Compact(raw);
    forall i | 0 <= i < 32 ensures LowerHex(h[i]) {
      var k := if i < 8 then i else if i < 12 then i + 1 else if i < 16 then i + 2 else if i < 20 then i + 3 else i + 4;
      assert h[i] == raw[k];
    }
  }

  lemma HyphenatedOfCompact(raw: string)
    requires ValidUUID(raw)
    ensures Hyphenated(Compact(raw)) == raw && Hex(Compact(raw))
  {
    CompactIsHex(raw);
    var h := Compact(raw);
    assert raw == raw[..8] + "-" + raw[9..13] + "-" + raw[14..18] + "-" + raw[19..23] + "-" + raw[24..];
    assert h[..8] == raw[..8] && h[8..12] == raw[9..13] && h[12..16] == raw[14..18];
    assert h[16..20] == raw[19..23] && h[20..] == raw[24..];
  }

  lemma {:induction false} ZeroOnlyForZeros(h: string)
    requires Hex(h)
    ensures HexNumber(h) == 0 <==> forall i :: 0 <= i < |h| ==> h[i] == '0'
  {
    if h != [] { ZeroOnlyForZeros(h[..|h| - 1]); }
  }

  /** Every number but zero has a UUID text that is read back as it. */
  lemma NumberOfUuid(n: int)
    requires 0 < n < Power16(32)
    ensures ValidUUID(Uuid(n)) && Number(Uuid(n)) == n
  {
    var h := HexDigits(n, 32);
    NumberOfDigits(n, 32);
    ZeroOnlyForZeros(h);
    HyphenatedIsUUID(h);
    CompactOfHyphenated(h);
  }

  lemma CompactIsNotZero(raw: string)
    requires ValidUUID(raw) && Hex(Compact(raw))
    ensures HexNumber(Compact(raw)) > 0
  {
    var h := Compact(raw);
    ZeroOnlyForZeros(h);
    var k :| 0 <= k < 36 && raw[k] != '-' && raw[k] != '0';
    var i := if k < 8 then k else if k < 13 then k - 1 else if k < 18 then k - 2 else if k < 23 then k - 3 else k - 4;
    assert h[i] == raw[k];
  }

  /** And every accepted UUID text is that of its number. */
  lemma UuidOfNumber(raw: string)
    requires ValidUUID(raw)
    ensures 0 < Number(raw) < Power16(32) && Uuid(Number(raw)) == raw
  {
    HyphenatedOfCompact(raw);
    DigitsOfNumber(Compact(raw));
    CompactIsNotZero(raw);
  }

  /** UUIDs compare as the digits of their texts do. */
  lemma OrderOfUuids(a: string, b: string)
    requires ValidUUID(a) && ValidUUID(b)
    ensures Number(a) < Number(b) <==> Before(Compact(a), Compact(b))
  {
    HyphenatedOfCompact(a);
    HyphenatedOfCompact(b);
    OrderOfDigits(Compact(a), Compact(b));
  }
}
