/**
 Timestamps as cursors carry them (RFC 3339): written in UTC with the fraction's trailing
 zeros dropped, read with any fraction and any numeric offset.
 */
module Timestamps {
  import opened Common
  import opened Numerals

  /** A civil time; `offset` is minutes east of UTC. */
  datatype Stamp = Stamp(year: nat, month: nat, day: nat, hour: nat, minute: nat, second: nat, nanos: nat, offset: int)

  predicate Leap(y: nat) { y % 4 == 0 && (y % 100 != 0 || y % 400 == 0) }

  function DaysIn(y: nat, m: nat): nat {
    if m == 2 then if Leap(y) then 29 else 28 else if m in {4, 6, 9, 11} then 30 else 31
  }

  predicate ValidDate(s: Stamp) { s.year <= 9999 && 1 <= s.month <= 12 && 1 <= s.day <= DaysIn(s.year, s.month) }

  predicate ValidTime(s: Stamp) { s.hour <= 23 && s.minute <= 59 && s.second <= 59 && s.nanos < 1_000_000_000 }

  /** Days from the first day of year 1, negative before it. */
  function DaysBeforeYear(y: nat): int { 365 * (y - 1) + (y - 1) / 4 - (y - 1) / 100 + (y - 1) / 400 }

  function DaysBeforeMonth(y: nat, m: nat): nat {
    if m <= 1 then 0 else DaysBeforeMonth(y, m - 1) + DaysIn(y, m - 1)
  }

  /** Days since the start of year 1. */
  function Days(s: Stamp): int { DaysBeforeYear(s.year) + DaysBeforeMonth(s.year, s.month) + s.day - 1 }

  /** Nanoseconds since the start of year 1 in UTC. */
  function Instant(s: Stamp): int {
    (((Days(s) * 24 + s.hour) * 60 + s.minute - s.offset) * 60 + s.second) * 1_000_000_000 + s.nanos
  }

  /** The lengths of the twelve months; February has 29 days in every fourth year but three centuries of four. */
  lemma DaysInMeans(y: nat, m: nat)
    ensures m in [1, 3, 5, 7, 8, 10, 12] ==> DaysIn(y, m) == 31
    ensures m in [4, 6, 9, 11] ==> DaysIn(y, m) == 30
    ensures DaysIn(y, 2) == 28 <==> y % 4 > 0 || (y % 100 < 1 && y % 400 > 0)
    ensures DaysIn(y, 2) == 28 || DaysIn(y, 2) == 29
  {
  }

  /** The civil date that follows. */
  predicate NextDay(a: Stamp, b: Stamp) {
    if a.day < DaysIn(a.year, a.month) then b.day == a.day + 1 && b.month == a.month && b.year == a.year
    else b.day == 1 && if a.month < 12 then b.month == a.month + 1 && b.year == a.year
                       else b.month == 1 && b.year == a.year + 1
  }

  lemma MonthsOfYear(y: nat)
    ensures DaysBeforeMonth(y, 12) + 31 == if Leap(y) then 366 else 365
  {
    assert DaysBeforeMonth(y, 2) == 31;
    assert DaysBeforeMonth(y, 3) == 31 + DaysIn(y, 2);
    assert DaysBeforeMonth(y, 4) == 62 + DaysIn(y, 2);
    assert DaysBeforeMonth(y, 5) == 92 + DaysIn(y, 2);
    assert DaysBeforeMonth(y, 6) == 123 + DaysIn(y, 2);
    assert DaysBeforeMonth(y, 7) == 153 + DaysIn(y, 2);
    assert DaysBeforeMonth(y, 8) == 184 + DaysIn(y, 2);
    assert DaysBeforeMonth(y, 9) == 215 + DaysIn(y, 2);
    assert DaysBeforeMonth(y, 10) == 245 + DaysIn(y, 2);
    assert DaysBeforeMonth(y, 11) == 276 + DaysIn(y, 2);
  }

  lemma FourthYears(y: nat)
    requires y >= 1
    ensures y / 4 == (y - 1) / 4 + if y % 4 == 0 then 1 else 0
    ensures y / 100 == (y - 1) / 100 + if y % 100 == 0 then 1 else 0
    ensures y / 400 == (y - 1) / 400 + if y % 400 == 0 then 1 else 0
  {
  }

  /** A year is 365 days long, or 366 in a leap year. */
  lemma YearLength(y: nat)
    requires y >= 1
    ensures DaysBeforeYear(y + 1) == DaysBeforeYear(y) + if Leap(y) then 366 else 365
  {
    FourthYears(y);
    LeapCentury(y);
  }

  lemma LeapCentury(y: nat)
    ensures (y % 400 == 0 ==> y % 100 == 0) && (y % 100 == 0 ==> y % 4 == 0)
  {
    if y % 400 == 0 { assert y == 100 * (4 * (y / 400)); }
    if y % 100 == 0 { assert y == 4 * (25 * (y / 100)); }
  }

  lemma NextDayIsOneMore(a: Stamp, b: Stamp)
    requires a.year >= 1 && ValidDate(a) && NextDay(a, b)
    ensures Days(b) == Days(a) + 1
  {
    if a.month == 12 {
      YearLength(a.year);
      MonthsOfYear(a.year);
    }
  }

  lemma InstantOfDays(s: Stamp)
    ensures Instant(s) == Days(s) * 86_400_000_000_000 + s.hour * 3_600_000_000_000
                          + (s.minute - s.offset) * 60_000_000_000 + s.second * 1_000_000_000 + s.nanos
  {
  }

  lemma YearOneStartsAtZero()
    ensures Instant(Stamp(1, 1, 1, 0, 0, 0, 0, 0)) == 0
  {
  }

  /** The same time of the next day is twenty-four hours later. */
  lemma DaysFollow(a: Stamp, b: Stamp)
    requires a.year >= 1 && ValidDate(a) && NextDay(a, b)
    requires b.hour == a.hour && b.minute == a.minute && b.second == a.second
    requires b.nanos == a.nanos && b.offset == a.offset
    ensures Instant(b) == Instant(a) + 86_400_000_000_000
  {
    NextDayIsOneMore(a, b);
    InstantOfDays(a);
    InstantOfDays(b);
  }

  /** Within a day the clock counts from the midnight of the stamp's own offset. */
  lemma TimeOfDay(a: Stamp)
    ensures Instant(a) == Instant(a.(hour := 0, minute := 0, second := 0, nanos := 0, offset := 0))
                          + a.hour * 3_600_000_000_000 + (a.minute - a.offset) * 60_000_000_000
                          + a.second * 1_000_000_000 + a.nanos
  {
    InstantOfDays(a);
    InstantOfDays(a.(hour := 0, minute := 0, second := 0, nanos := 0, offset := 0));
  }

  // ---------------------------------------------------------------- fractions

  function Zeros(n: nat): (s: string)
    ensures |s| == n && Digits(s)
  {
    if n == 0 then [] else Zeros(n - 1) + "0"
  }

  function TrimZeros(s: string): (t: string)
    ensures t <= s
  {
    if s != [] && s[|s| - 1] == '0' then TrimZeros(s[..|s| - 1]) else s
  }

  lemma {:induction false} TrimThenPad(s: string)
    ensures TrimZeros(s) + Zeros(|s| - |TrimZeros(s)|) == s
  {
    if s != [] && s[|s| - 1] == '0' {
      var init := s[..|s| - 1];
      TrimThenPad(init);
      assert s == init + "0";
    }
  }

  lemma {:induction false} ValueOfZeros(n: nat)
    ensures Value(Zeros(n)) == 0
  {
    if n > 0 {
      ValueOfZeros(n - 1);
      assert Zeros(n)[..n - 1] == Zeros(n - 1);
    }
  }

  /** Nothing for a whole second; otherwise a point and up to nine digits. */
  function Fraction(nanos: nat): string { if nanos == 0 then [] else "." + TrimZeros(Padded(nanos, 9)) }

  /** Digits past the ninth are cut off, missing ones are zero. */
  function FractionValue(d: string): nat
    requires Digits(d)
  {
    if |d| > 9 then Value(d[..9]) else Value(d + Zeros(9 - |d|))
  }

  lemma NanosAreNineDigits()
    ensures Power10(9) == 1_000_000_000
  {
    assert Power10(2) == 100 && Power10(4) == 10_000 && Power10(6) == 1_000_000 && Power10(8) == 100_000_000;
  }

  lemma TrimmedIsNotEmpty(s: string)
    requires Digits(s) && Value(s) > 0
    ensures TrimZeros(s) != [] && Digits(TrimZeros(s))
  {
    TrimThenPad(s);
    if TrimZeros(s) == [] {
      assert s == Zeros(|s|);
      ValueOfZeros(|s|);
    }
  }

  lemma FractionSurvives(nanos: nat)
    requires 0 < nanos < 1_000_000_000
    ensures var d := TrimZeros(Padded(nanos, 9)); d != [] && Digits(d) && FractionValue(d) == nanos
  {
    NanosAreNineDigits();
    ValueOfPadded(nanos, 9);
    TrimmedIsNotEmpty(Padded(nanos, 9));
    TrimThenPad(Padded(nanos, 9));
  }

  // ---------------------------------------------------------------- writing and reading

  function Assemble(year: string, month: string, day: string, hour: string, minute: string, second: string): string {
    year + "-" + month + "-" + day + "T" + hour + ":" + minute + ":" + second
  }

  function Head(s: Stamp): (h: string)
    ensures |h| == 19
  {
    Assemble(Padded(s.year, 4), Padded(s.month, 2), Padded(s.day, 2),
             Padded(s.hour, 2), Padded(s.minute, 2), Padded(s.second, 2))
  }

  function Format(s: Stamp): string { Head(s) + (Fraction(s.nanos) + "Z") }

  /** A number of fixed width, within bounds. */
  function Field(t: string, from: nat, to: nat, low: nat, high: nat): Option<nat>
    requires from <= to <= |t|
  {
    if Digits(t[from..to]) && low <= Value(t[from..to]) <= high then Some(Value(t[from..to])) else None
  }

  function ParseHead(t: string): Option<Stamp>
    requires |t| >= 19
  {
    var year, month := Field(t, 0, 4, 0, 9999), Field(t, 5, 7, 1, 12);
    if year.None? || month.None? then None
    else
      var day := Field(t, 8, 10, 1, DaysIn(year.value, month.value));
      var hour, minute, second := Field(t, 11, 13, 0, 23), Field(t, 14, 16, 0, 59), Field(t, 17, 19, 0, 59);
      if day.None? || hour.None? || minute.None? || second.None? then None
      else if t[4] != '-' || t[7] != '-' || t[10] != 'T' || t[13] != ':' || t[16] != ':' then None
      else Some(Stamp(year.value, month.value, day.value, hour.value, minute.value, second.value, 0, 0))
  }

  function Zone(s: string): Option<int> {
    if s == "Z" then Some(0)
    else if |s| != 6 || (s[0] != '+' && s[0] != '-') || s[3] != ':' then None
    else
      var hours, minutes := Field(s, 1, 3, 0, 23), Field(s, 4, 6, 0, 59);
      if hours.None? || minutes.None? then None
      else Some((hours.value * 60 + minutes.value) * if s[0] == '-' then -1 else 1)
  }

  function LeadingDigits(s: string): (n: nat)
    ensures n <= |s| && Digits(s[..n]) && (n < |s| ==> !IsDigit(s[n]))
  {
    if s == [] || !IsDigit(s[0]) then 0 else LeadingDigits(s[1..]) + 1
  }

  /** The fraction, if there is one, and the zone. */
  function ParseTail(s: string): Option<(nat, int)> {
    if |s| >= 2 && s[0] == '.' && IsDigit(s[1]) then
      var n := LeadingDigits(s[1..]);
      var zone := Zone(s[1..][n..]);
      if zone.None? then None else Some((FractionValue(s[1..][..n]), zone.value))
    else
      var zone := Zone(s);
      if zone.None? then None else Some((0, zone.value))
  }

  function Parse(t: string): Option<Stamp> {
    if |t| < 19 then None
    else
      var head, tail := ParseHead(t[..19]), ParseTail(t[19..]);
      if head.None? || tail.None? then None
      else Some(head.value.(nanos := tail.value.0, offset := tail.value.1))
  }

  predicate Spells(t: string, from: nat, to: nat, n: nat)
    requires from <= to <= |t|
  {
    (forall i :: from <= i < to ==> '0' <= t[i] <= '9') && Digits(t[from..to]) && Value(t[from..to]) == n
  }

  lemma SpellsField(t: string, from: nat, to: nat, low: nat, high: nat, n: nat)
    requires from <= to <= |t|
    ensures Field(t, from, to, low, high) == Some(n) <==> Spells(t, from, to, n) && low <= n <= high
  {
    if Digits(t[from..to]) {
      forall i | from <= i < to ensures '0' <= t[i] <= '9' { assert t[from..to][i - from] == t[i]; }
    }
  }

  /** Where each number of a date and time stands, what separates them, and which numbers there are. */
  lemma ParseHeadMeans(t: string, s: Stamp)
    requires |t| >= 19
    ensures ParseHead(t) == Some(s) <==>
            && Spells(t, 0, 4, s.year) && t[4] == '-' && Spells(t, 5, 7, s.month) && t[7] == '-'
            && Spells(t, 8, 10, s.day) && t[10] == 'T' && Spells(t, 11, 13, s.hour) && t[13] == ':'
            && Spells(t, 14, 16, s.minute) && t[16] == ':' && Spells(t, 17, 19, s.second)
            && s.year < 10_000 && 0 < s.month < 13 && 0 < s.day <= DaysIn(s.year, s.month)
            && s.hour < 24 && s.minute < 60 && s.second < 60 && s.nanos == 0 && s.offset == 0
  {
    SpellsField(t, 0, 4, 0, 9999, s.year);
    SpellsField(t, 5, 7, 1, 12, s.month);
    SpellsField(t, 8, 10, 1, DaysIn(s.year, s.month), s.day);
    SpellsField(t, 11, 13, 0, 23, s.hour);
    SpellsField(t, 14, 16, 0, 59, s.minute);
    SpellsField(t, 17, 19, 0, 59, s.second);
  }

  /** Z for no offset, or a sign, hours and minutes. */
  lemma ZoneMeans(s: string, h: nat, m: nat)
    ensures Zone("Z") == Some(0)
    ensures |s| == 6 && s[3] == ':' && Spells(s, 1, 3, h) && Spells(s, 4, 6, m) && h < 24 && m < 60 ==>
              && (s[0] == '+' ==> Zone(s) == Some(60 * h + m))
              && (s[0] == '-' ==> Zone(s) == Some(-60 * h - m))
    ensures Zone(s).Some? && s != "Z" ==>
              |s| == 6 && s[3] == ':' && s[0] in "+-" && -1440 < Zone(s).value < 1440
  {
    if |s| == 6 {
      SpellsField(s, 1, 3, 0, 23, h);
      SpellsField(s, 4, 6, 0, 59, m);
    }
  }

  lemma FieldOfPadded(t: string, from: nat, width: nat, n: nat, low: nat, high: nat)
    requires from + width <= |t| && t[from..from + width] == Padded(n, width)
    requires n < Power10(width) && low <= n <= high
    ensures Field(t, from, from + width, low, high) == Some(n)
  {
    ValueOfPadded(n, width);
  }

  lemma Slices(year: string, month: string, day: string, hour: string, minute: string, second: string)
    requires |year| == 4 && |month| == |day| == |hour| == |minute| == |second| == 2
    ensures var t := Assemble(year, month, day, hour, minute, second);
            && |t| == 19 && t[4] == '-' && t[7] == '-' && t[10] == 'T' && t[13] == ':' && t[16] == ':'
            && t[0..4] == year && t[5..7] == month && t[8..10] == day
            && t[11..13] == hour && t[14..16] == minute && t[17..19] == second
  {
    var date, time := year + "-" + month + "-" + day, hour + ":" + minute + ":" + second;
    assert date[0..4] == year && date[5..7] == month && date[8..10] == day;
    assert time[0..2] == hour && time[3..5] == minute && time[6..8] == second;
    var t := Assemble(year, month, day, hour, minute, second);
    assert t == date + "T" + time;
    assert t[11..13] == time[0..2] && t[14..16] == time[3..5] && t[17..19] == time[6..8];
    assert t[0..4] == date[0..4] && t[5..7] == date[5..7] && t[8..10] == date[8..10];
  }

  /** A fraction, if any, comes between the seconds and the closing Z, and does not end in a zero. */
  lemma FormatMeans(s: Stamp)
    requires ValidDate(s) && ValidTime(s)
    ensures var t := Format(s);
            && |t| >= 20 && t[..19] == Head(s) && t[|t| - 1] == 'Z'
            && (s.nanos == 0 <==> |t| == 20) && (s.nanos > 0 ==> t[19] == '.' && t[|t| - 2] != '0')
  {
    if s.nanos > 0 { FractionMeans(s.nanos); }
  }

  lemma FractionMeans(nanos: nat)
    requires 0 < nanos < 1_000_000_000
    ensures var f := Fraction(nanos); |f| >= 2 && f[0] == '.' && f[|f| - 1] != '0'
  {
    FractionSurvives(nanos);
    NoTrailingZero(Padded(nanos, 9));
  }

  lemma {:induction false} NoTrailingZero(s: string)
    ensures TrimZeros(s) != [] ==> TrimZeros(s)[|TrimZeros(s)| - 1] != '0'
  {
    if s != [] && s[|s| - 1] == '0' { NoTrailingZero(s[..|s| - 1]); }
  }

  lemma ParseHeadOfHead(s: Stamp)
    requires ValidDate(s) && ValidTime(s)
    ensures ParseHead(Head(s)) == Some(s.(nanos := 0, offset := 0))
  {
    var t := Head(s);
    assert Power10(2) == 100;
    assert Power10(4) == 10_000 by { assert Power10(3) == 1000; }
    Slices(Padded(s.year, 4), Padded(s.month, 2), Padded(s.day, 2),
           Padded(s.hour, 2), Padded(s.minute, 2), Padded(s.second, 2));
    FieldOfPadded(t, 0, 4, s.year, 0, 9999);
    FieldOfPadded(t, 5, 2, s.month, 1, 12);
    FieldOfPadded(t, 8, 2, s.day, 1, DaysIn(s.year, s.month));
    FieldOfPadded(t, 11, 2, s.hour, 0, 23);
    FieldOfPadded(t, 14, 2, s.minute, 0, 59);
    FieldOfPadded(t, 17, 2, s.second, 0, 59);
  }

  lemma {:induction false} DigitsLead(d: string, rest: string)
    requires Digits(d) && rest != [] && !IsDigit(rest[0])
    ensures LeadingDigits(d + rest) == |d|
  {
    if d == [] {
      assert d + rest == rest;
    } else {
      assert (d + rest)[1..] == d[1..] + rest;
      DigitsLead(d[1..], rest);
    }
  }

  lemma ParseTailOfFraction(nanos: nat)
    requires nanos < 1_000_000_000
    ensures ParseTail(Fraction(nanos) + "Z") == Some((nanos, 0))
  {
    var tail := Fraction(nanos) + "Z";
    if nanos == 0 {
      assert tail == "Z";
    } else {
      var d := TrimZeros(Padded(nanos, 9));
      FractionSurvives(nanos);
      assert tail[1..] == d + "Z";
      DigitsLead(d, "Z");
      assert tail[1..][..|d|] == d && tail[1..][|d|..] == "Z";
    }
  }

  /** Every UTC time of the years 0 to 9999 is read back from its text. */
  lemma ParseOfFormat(s: Stamp)
    requires ValidDate(s) && ValidTime(s) && s.offset == 0
    ensures Parse(Format(s)) == Some(s)
  {
    ParseHeadOfHead(s);
    ParseTailOfFraction(s.nanos);
    assert Format(s)[..19] == Head(s) && Format(s)[19..] == Fraction(s.nanos) + "Z";
  }
}
