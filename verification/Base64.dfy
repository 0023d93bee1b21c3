/** Unpadded URL-safe base64 (section 5 of RFC 4648), strict about trailing bits. */
module Base64 {
  import opened Common

  type sextet = n: int | 0 <= n < 64

  function Char(v: sextet): char {
    if v < 26 then 'A' + v as char
    else if v < 52 then 'a' + (v - 26) as char
    else if v < 62 then '0' + (v - 52) as char
    else if v == 62 then '-' else '_'
  }

  function Sextet(c: char): Option<sextet> {
    if 'A' <= c <= 'Z' then Some(c as int - 'A' as int)
    else if 'a' <= c <= 'z' then Some(c as int - 'a' as int + 26)
    else if '0' <= c <= '9' then Some(c as int - '0' as int + 52)
    else if c == '-' then Some(62)
    else if c == '_' then Some(63)
    else None
  }

  /** Capitals, small letters, digits, hyphen and underscore, by their codes. */
  lemma CharMeans(v: sextet)
    ensures Char(v) as int ==
            if v <= 25 then 65 + v else if v <= 51 then 71 + v else if v <= 61 then v - 4
            else if v == 62 then 45 else 95
  {
  }

  lemma SextetOfChar(v: sextet)
    ensures Sextet(Char(v)) == Some(v)
  {
  }

  lemma CharOfSextet(c: char)
    requires Sextet(c).Some?
    ensures Char(Sextet(c).value) == c
  {
  }

  // ---------------------------------------------------------------- three bytes, four sextets

  datatype Quad = Quad(v0: sextet, v1: sextet, v2: sextet, v3: sextet)

  datatype Triple = Triple(b0: byte, b1: byte, b2: byte)

  function Split(t: Triple): Quad {
    Quad(t.b0 / 4, t.b0 % 4 * 16 + t.b1 / 16, t.b1 % 16 * 4 + t.b2 / 64, t.b2 % 64)
  }

  function Join(q: Quad): Triple {
    Triple(q.v0 * 4 + q.v1 / 16, q.v1 % 16 * 16 + q.v2 / 4, q.v2 % 4 * 64 + q.v3)
  }

  lemma HighAndLow(high: nat, low: nat)
    ensures low < 4 ==> (high * 4 + low) / 4 == high && (high * 4 + low) % 4 == low
    ensures low < 16 ==> (high * 16 + low) / 16 == high && (high * 16 + low) % 16 == low
    ensures low < 64 ==> (high * 64 + low) / 64 == high && (high * 64 + low) % 64 == low
  {
  }

  lemma JoinOfSplit(t: Triple)
    ensures Join(Split(t)) == t
  {
    HighAndLow(t.b0 % 4, t.b1 / 16);
    HighAndLow(t.b1 % 16, t.b2 / 64);
  }

  lemma SplitOfJoin(q: Quad)
    ensures Split(Join(q)) == q
  {
    HighAndLow(q.v0, q.v1 / 16);
    HighAndLow(q.v1 % 16, q.v2 / 4);
    HighAndLow(q.v2 % 4, q.v3);
  }

  /** The same twenty-four bits, most significant first. */
  lemma SplitMeans(t: Triple)
    ensures var q := Split(t); ((q.v0 * 64 + q.v1) * 64 + q.v2) * 64 + q.v3 == (t.b0 * 256 + t.b1) * 256 + t.b2
  {
  }

  function Chars(q: Quad): string { [Char(q.v0), Char(q.v1), Char(q.v2), Char(q.v3)] }

  function Bytes(t: Triple): seq<byte> { [t.b0, t.b1, t.b2] }

  /** A short last group is a full one padded with zero bytes, cut to the sextets that matter. */
  function Encode(b: seq<byte>): string {
    if |b| == 0 then []
    else if |b| == 1 then Chars(Split(Triple(b[0], 0, 0)))[..2]
    else if |b| == 2 then Chars(Split(Triple(b[0], b[1], 0)))[..3]
    else Chars(Split(Triple(b[0], b[1], b[2]))) + Encode(b[3..])
  }

  /** The text of the first three bytes is followed by that of the rest. */
  lemma EncodeMeans(b: seq<byte>)
    ensures |b| >= 3 ==> |Encode(b[..3])| == 4 && Encode(b) == Encode(b[..3]) + Encode(b[3..])
  {
    if |b| >= 3 {
      assert b[..3][3..] == [] && Encode(b[..3][3..]) == [];
      assert Encode(b[..3]) == Chars(Split(Triple(b[0], b[1], b[2])));
    }
  }

  /** The shortest texts, as in section 10 of RFC 4648. */
  lemma ShortTexts()
    ensures Encode([0x66]) == "Zg" && Encode([0x66, 0x6f]) == "Zm8" && Encode([0x66, 0x6f, 0x6f]) == "Zm9v"
  {
    assert Split(Triple(0x66, 0, 0)) == Quad(25, 32, 0, 0);
    assert Split(Triple(0x66, 0x6f, 0)) == Quad(25, 38, 60, 0);
    assert Split(Triple(0x66, 0x6f, 0x6f)) == Quad(25, 38, 61, 47);
    var foo: seq<byte> := [0x66, 0x6f, 0x6f];
    assert foo[3..] == [] && Encode(foo[3..]) == [];
    assert Encode(foo) == Chars(Quad(25, 38, 61, 47));
  }

  predicate Sextets(s: string) { forall i :: 0 <= i < |s| ==> Sextet(s[i]).Some? }

  /** Bits that belong to no byte must be zero. */
  function DecodeSextets(s: string): Option<seq<byte>>
    requires Sextets(s)
  {
    if |s| == 0 then Some([])
    else if |s| == 1 then None
    else if |s| == 2 then
      var t := Join(Quad(Sextet(s[0]).value, Sextet(s[1]).value, 0, 0));
      if t.b1 != 0 then None else Some([t.b0])
    else if |s| == 3 then
      var t := Join(Quad(Sextet(s[0]).value, Sextet(s[1]).value, Sextet(s[2]).value, 0));
      if t.b2 != 0 then None else Some([t.b0, t.b1])
    else
      var t := Join(Quad(Sextet(s[0]).value, Sextet(s[1]).value, Sextet(s[2]).value, Sextet(s[3]).value));
      var rest := DecodeSextets(s[4..]);
      if rest.None? then None else Some(Bytes(t) + rest.value)
  }

  function DecodeStrict(s: string): Option<seq<byte>> {
    if Sextets(s) then DecodeSextets(s) else None
  }

  /** The decoder passes over line breaks. */
  function WithoutLineBreaks(s: string): string {
    if s == [] then [] else (if s[0] in "\r\n" then [] else [s[0]]) + WithoutLineBreaks(s[1..])
  }

  function Decode(s: string): Option<seq<byte>> { DecodeStrict(WithoutLineBreaks(s)) }

  lemma CharsAreSextets(q: Quad)
    ensures Sextets(Chars(q))
    ensures forall i :: 0 <= i < 4 ==> Sextet(Chars(q)[i]) == Some([q.v0, q.v1, q.v2, q.v3][i])
  {
    SextetOfChar(q.v0);
    SextetOfChar(q.v1);
    SextetOfChar(q.v2);
    SextetOfChar(q.v3);
  }

  lemma {:induction false} EncodedIsSextets(b: seq<byte>)
    ensures Sextets(Encode(b))
  {
    if |b| == 1 {
      CharsAreSextets(Split(Triple(b[0], 0, 0)));
    } else if |b| == 2 {
      CharsAreSextets(Split(Triple(b[0], b[1], 0)));
    } else if |b| >= 3 {
      CharsAreSextets(Split(Triple(b[0], b[1], b[2])));
      EncodedIsSextets(b[3..]);
    }
  }

  lemma DecodeOfQuad(q: Quad, rest: string)
    requires Sextets(rest)
    ensures var s := Chars(q) + rest;
            Sextets(s) && DecodeSextets(s) ==
            if DecodeSextets(rest).None? then None else Some(Bytes(Join(q)) + DecodeSextets(rest).value)
  {
    var s := Chars(q) + rest;
    CharsAreSextets(q);
    assert s[4..] == rest;
    assert forall i :: 0 <= i < 4 ==> s[i] == Chars(q)[i];
  }

  lemma DecodeOfShort(q: Quad)
    requires q.v3 == 0
    ensures var s := Chars(q)[..3]; var t := Join(q);
            Sextets(s) && DecodeSextets(s) == if t.b2 != 0 then None else Some([t.b0, t.b1])
    ensures q.v2 == 0 ==>
              var s := Chars(q)[..2]; var t := Join(q);
              Sextets(s) && DecodeSextets(s) == if t.b1 != 0 then None else Some([t.b0])
  {
    CharsAreSextets(q);
    var s, u := Chars(q)[..3], Chars(q)[..2];
    assert forall i :: 0 <= i < 3 ==> s[i] == Chars(q)[i];
    assert forall i :: 0 <= i < 2 ==> u[i] == Chars(q)[i];
  }

  lemma DecodeOfOne(b: byte)
    ensures DecodeStrict(Encode([b])) == Some([b])
  {
    JoinOfSplit(Triple(b, 0, 0));
    DecodeOfShort(Split(Triple(b, 0, 0)));
  }

  lemma DecodeOfTwo(b: byte, c: byte)
    ensures DecodeStrict(Encode([b, c])) == Some([b, c])
  {
    JoinOfSplit(Triple(b, c, 0));
    DecodeOfShort(Split(Triple(b, c, 0)));
  }

  lemma {:induction false} DecodeOfEncode(b: seq<byte>)
    ensures DecodeStrict(Encode(b)) == Some(b)
  {
    if |b| == 1 {
      assert b == [b[0]];
      DecodeOfOne(b[0]);
    } else if |b| == 2 {
      assert b == [b[0], b[1]];
      DecodeOfTwo(b[0], b[1]);
    } else if |b| >= 3 {
      var t := Triple(b[0], b[1], b[2]);
      DecodeOfEncode(b[3..]);
      EncodedIsSextets(b[3..]);
      DecodeOfQuad(Split(t), Encode(b[3..]));
      JoinOfSplit(t);
      assert b == Bytes(t) + b[3..];
    }
  }

  function QuadOf(s: string): Quad
    requires Sextets(s) && |s| >= 2
  {
    Quad(Sextet(s[0]).value, Sextet(s[1]).value, if |s| > 2 then Sextet(s[2]).value else 0,
         if |s| > 3 then Sextet(s[3]).value else 0)
  }

  lemma CharsOfQuadOf(s: string)
    requires Sextets(s) && |s| >= 2
    ensures var c := Chars(QuadOf(s)); var n := if |s| < 4 then |s| else 4; c[..n] == s[..n]
  {
    var n := if |s| < 4 then |s| else 4;
    forall i | 0 <= i < n ensures Chars(QuadOf(s))[i] == s[i] { CharOfSextet(s[i]); }
  }

  lemma {:induction false} EncodeOfDecode(s: string)
    requires DecodeStrict(s).Some?
    ensures Encode(DecodeStrict(s).value) == s
  {
    if |s| >= 2 {
      CharsOfQuadOf(s);
      SplitOfJoin(QuadOf(s));
      if |s| >= 4 {
        EncodeOfDecode(s[4..]);
        EncodeOfGroup(Join(QuadOf(s)), DecodeSextets(s[4..]).value);
        assert s == s[..4] + s[4..];
      }
    }
  }

  lemma EncodeOfGroup(t: Triple, rest: seq<byte>)
    ensures Encode(Bytes(t) + rest) == Chars(Split(t)) + Encode(rest)
  {
    assert (Bytes(t) + rest)[3..] == rest;
  }

  lemma {:induction false} NothingToSkip(s: string)
    requires Sextets(s)
    ensures WithoutLineBreaks(s) == s
  {
    if s != [] { NothingToSkip(s[1..]); }
  }

  /** Decoding and comparing with the re-encoding accepts exactly the encodings, line breaks excluded. */
  lemma AcceptsExactlyEncodings(s: string)
    ensures Decode(s).Some? && Encode(Decode(s).value) == s <==> exists b :: s == Encode(b)
    ensures forall b :: s == Encode(b) ==> Decode(s) == Some(b)
  {
    forall b | s == Encode(b) ensures Decode(s) == Some(b) {
      EncodedIsSextets(b);
      NothingToSkip(s);
      DecodeOfEncode(b);
    }
  }

  lemma {:induction false} EncodedLength(b: seq<byte>)
    ensures |Encode(b)| * 3 <= |b| * 4 + 4
  {
    if |b| >= 3 { EncodedLength(b[3..]); }
  }
}
