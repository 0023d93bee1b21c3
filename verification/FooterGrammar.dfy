/**
 What the footer normalizer accepts and what it writes, said in the pieces of the target's
 own text: scheme, host, port and suffix.
 */
module FooterGrammar {
  import opened Common
  import opened Numerals
  import opened FooterUrl

  // ---------------------------------------------------------------- characters

  /** Digits, capitals and small letters, by their codes. */
  lemma LettersMean(c: char)
    ensures IsAlphanumeric(c) <==> 48 <= c as int <= 57 || 65 <= c as int <= 90 || 97 <= c as int <= 122
    ensures LowerChar(c) as int == if 65 <= c as int <= 90 then c as int + 32 else c as int
  {
  }

  lemma AllowedMeans(c: char)
    ensures Allowed(c) <==> IsAlphanumeric(c) || c in ":/?#[]@!$&'()*+,;=-._~%"
  {
  }

  lemma HexMeans(c: char)
    ensures IsHex(c) <==> c in "0123456789abcdefABCDEF"
  {
  }

  /** An escape is refused when it stands for a control character: a first digit 0 or 1, or 7F. */
  lemma EscapeMeans(s: string, i: nat)
    ensures i < |s| && s[i] == '%' ==>
              (ByteValid(s, i) <==>
                && i + 2 < |s| && IsHex(s[i + 1]) && IsHex(s[i + 2])
                && s[i + 1] != '0' && s[i + 1] != '1'
                && !(s[i + 1] == '7' && (s[i + 2] == 'f' || s[i + 2] == 'F')))
    ensures i < |s| && s[i] != '%' ==> (ByteValid(s, i) <==> Allowed(s[i]))
  {
  }

  /** The first 32 codes, 127, and the 32 codes from 128 on. */
  lemma ControlMeans(c: char)
    ensures IsControl(c) <==> c as int / 32 == 0 || c as int == 127 || c as int / 32 == 4
  {
  }

  lemma SpaceMeans(c: char)
    ensures IsSpace(c) <==>
            c as int in [9, 10, 11, 12, 13, 32, 133, 160, 5760, 8192, 8193, 8194, 8195, 8196, 8197, 8198, 8199,
                         8200, 8201, 8202, 8232, 8233, 8239, 8287, 12288]
  {
  }

  /** Trimming cuts white space off both ends and nothing else. */
  lemma TrimMeans(s: string) returns (i: nat, j: nat)
    ensures i <= j <= |s| && Trim(s) == s[i..j]
    ensures forall k :: 0 <= k < i || j <= k < |s| ==> IsSpace(s[k])
    ensures i < j ==> !IsSpace(s[i]) && !IsSpace(s[j - 1])
  {
    i := LeftEnd(s);
    var n := RightEnd(s[i..]);
    j := i + n;
    assert s[i..][..n] == s[i..j];
    forall k | j <= k < |s| ensures IsSpace(s[k]) { assert s[i..][k - i] == s[k]; }
  }

  lemma {:induction false} LeftEnd(s: string) returns (i: nat)
    ensures i <= |s| && TrimLeft(s) == s[i..] && (forall k :: 0 <= k < i ==> IsSpace(s[k]))
    ensures i < |s| ==> !IsSpace(s[i])
  {
    if s != [] && IsSpace(s[0]) {
      var rest := LeftEnd(s[1..]);
      i := rest + 1;
      assert s[1..][rest..] == s[i..];
      forall k | 1 <= k < i ensures IsSpace(s[k]) { assert s[1..][k - 1] == s[k]; }
    } else {
      i := 0;
    }
  }

  lemma {:induction false} RightEnd(s: string) returns (n: nat)
    ensures n <= |s| && TrimRight(s) == s[..n] && (forall k :: n <= k < |s| ==> IsSpace(s[k]))
    ensures n > 0 ==> !IsSpace(s[n - 1])
  {
    if s != [] && IsSpace(s[|s| - 1]) {
      n := RightEnd(s[..|s| - 1]);
      assert s[..|s| - 1][..n] == s[..n];
    } else {
      n := |s|;
    }
  }

  // ---------------------------------------------------------------- host names

  /** The stretch from `i` to `j` lies between two dots, or a dot and an end. */
  predicate SegmentAt(s: string, i: nat, j: nat) {
    && i <= j <= |s| && (i > 0 ==> s[i - 1] == '.') && (j < |s| ==> s[j] == '.')
    && NoDot(s, i, j)
  }

  predicate NoDot(s: string, i: nat, j: nat)
    requires i <= j <= |s|
  {
    forall k :: i <= k < j ==> s[k] != '.'
  }

  predicate PlainSegment(net: Net, l: string) {
    && 1 <= |l| <= 63 && l[0] != '-' && l[|l| - 1] != '-'
    && (forall k :: 0 <= k < |l| ==> 'a' <= l[k] <= 'z' || 'A' <= l[k] <= 'Z' || '0' <= l[k] <= '9' || l[k] == '-')
    && (|l| >= 4 && l[..4] == "xn--" ==> net.ace(l))
  }

  /** A name of up to 253 characters whose last segment is not a number in decimal or hexadecimal. */
  ghost predicate DomainName(net: Net, host: string) {
    && 1 <= |host| <= 253
    && (forall i: nat, j: nat :: SegmentAt(host, i, j) ==> PlainSegment(net, host[i..j]))
    && (forall i: nat :: SegmentAt(host, i, |host|) ==> !Number(host[i..]))
  }

  /** Decimal digits only, or `0x` before hexadecimal digits only. */
  predicate Number(l: string) {
    || (forall k :: 0 <= k < |l| ==> l[k] in "0123456789")
    || (|l| >= 2 && l[0] == '0' && l[1] == 'x' && forall k :: 2 <= k < |l| ==> l[k] in "0123456789abcdefABCDEF")
  }

  lemma SegmentShift(s: string, k: nat, i: nat, j: nat)
    requires k < |s| && s[k] == '.'
    ensures SegmentAt(s[k + 1..], i, j) <==> SegmentAt(s, i + k + 1, j + k + 1)
    ensures SegmentAt(s[k + 1..], i, j) ==> s[k + 1..][i..j] == s[i + k + 1..j + k + 1]
  {
    var rest := s[k + 1..];
    forall m: nat | m < |rest| ensures rest[m] == s[m + k + 1] { }
    if i <= j <= |rest| {
      if NoDot(s, i + k + 1, j + k + 1) {
        forall m | i <= m < j ensures rest[m] != '.' { }
      }
      if NoDot(rest, i, j) {
        forall m | i + k + 1 <= m < j + k + 1 ensures s[m] != '.' { assert rest[m - k - 1] != '.'; }
      }
      assert rest[i..j] == s[i + k + 1..j + k + 1];
    }
  }

  /** The host is its labels, separated by dots. */
  ghost predicate Joins(host: string, labels: seq<string>)
    decreases |labels|, 0
  {
    && labels != [] && |labels[0]| <= |host|
    && NoDot(host, 0, |labels[0]|) && host[..|labels[0]|] == labels[0]
    && if |labels| == 1 then |labels[0]| == |host| else JoinsRest(host, |labels[0]|, labels[1..])
  }

  ghost predicate JoinsRest(host: string, k: nat, labels: seq<string>)
    decreases |labels|, 1
  {
    k < |host| && host[k] == '.' && Joins(host[k + 1..], labels)
  }

  lemma {:induction false} LabelsJoin(host: string)
    ensures Joins(host, Labels(host))
    decreases |host|
  {
    var k := FirstOf(host, ".");
    BeforeStop(host, k);
    if k < |host| {
      var first, rest := host[..k], Labels(host[k + 1..]);
      LabelsJoin(host[k + 1..]);
      assert Labels(host) == [first] + rest && ([first] + rest)[1..] == rest;
      assert JoinsRest(host, k, rest);
    }
  }

  lemma BeforeStop(host: string, k: nat)
    requires k == FirstOf(host, ".")
    ensures NoDot(host, 0, k) && (k < |host| ==> host[k] == '.')
  {
    forall m | 0 <= m < k ensures host[m] != '.' { assert host[m] !in "."; }
  }

  /** Every stretch between dots is a label; the last one is the last label. */
  lemma {:induction false} LabelOf(host: string, labels: seq<string>, i: nat, j: nat) returns (n: nat)
    requires Joins(host, labels) && SegmentAt(host, i, j)
    ensures n < |labels| && labels[n] == host[i..j]
    ensures j == |host| ==> n == |labels| - 1
    decreases |labels|
  {
    var k := |labels[0]|;
    if |labels| > 1 { assert JoinsRest(host, k, labels[1..]); }
    FirstSegment(host, i, j, k);
    if i == 0 {
      n := 0;
    } else {
      var a, b := i - k - 1, j - k - 1;
      SegmentShift(host, k, a, b);
      var m := LabelOf(host[k + 1..], labels[1..], a, b);
      n := m + 1;
    }
  }

  lemma FirstSegment(host: string, i: nat, j: nat, k: nat)
    requires SegmentAt(host, i, j) && k <= |host| && NoDot(host, 0, k) && (k < |host| ==> host[k] == '.')
    ensures i == 0 ==> j == k && host[i..j] == host[..k]
    ensures i > 0 ==> i > k && k < |host|
    ensures k == |host| ==> i == 0 && host[i..j] == host
  {
    if i > 0 { assert host[i - 1] == '.'; }
  }

  lemma {:induction false} SegmentOf(host: string, labels: seq<string>, n: nat) returns (i: nat, j: nat)
    requires Joins(host, labels) && n < |labels|
    ensures SegmentAt(host, i, j) && host[i..j] == labels[n] && (n == |labels| - 1 ==> j == |host|)
    decreases |labels|
  {
    var k := |labels[0]|;
    if n == 0 {
      i, j := 0, k;
      assert host[0..k] == host[..k];
    } else {
      var a, b := SegmentOf(host[k + 1..], labels[1..], n - 1);
      SegmentShift(host, k, a, b);
      i, j := a + k + 1, b + k + 1;
    }
  }

  lemma PlainSegmentIs(net: Net, l: string)
    ensures PlainSegment(net, l) <==> LabelValid(net, l)
  {
    assert "xn--" <= l <==> |l| >= 4 && l[..4] == "xn--";
  }

  lemma NumberIs(l: string)
    ensures Number(l) <==> NumericLabel(l)
  {
    forall c: char ensures c in "0123456789" <==> IsDigit(c) { }
    forall c: char ensures c in "0123456789abcdefABCDEF" <==> IsHex(c) { HexMeans(c); }
    assert "0x" <= l <==> |l| >= 2 && l[0] == '0' && l[1] == 'x';
  }

  /** The labels of an accepted domain, place by place. */
  lemma DomainMeans(net: Net, host: string)
    ensures DomainValid(net, host) <==> DomainName(net, host)
  {
    LabelsJoin(host);
    if DomainValid(net, host) { DomainNameFrom(net, host, Labels(host)); }
    if DomainName(net, host) { DomainNameTo(net, host, Labels(host)); }
  }

  lemma DomainNameFrom(net: Net, host: string, labels: seq<string>)
    requires Joins(host, labels) && 1 <= |host| <= 253
    requires (forall l :: l in labels ==> LabelValid(net, l)) && !NumericLabel(labels[|labels| - 1])
    ensures DomainName(net, host)
  {
    forall i: nat, j: nat | SegmentAt(host, i, j) ensures PlainSegment(net, host[i..j]) {
      var n := LabelOf(host, labels, i, j);
      PlainSegmentIs(net, labels[n]);
    }
    forall i: nat | SegmentAt(host, i, |host|) ensures !Number(host[i..]) {
      var n := LabelOf(host, labels, i, |host|);
      assert host[i..|host|] == host[i..];
      NumberIs(labels[n]);
    }
  }

  lemma DomainNameTo(net: Net, host: string, labels: seq<string>)
    requires Joins(host, labels) && DomainName(net, host)
    ensures (forall l :: l in labels ==> LabelValid(net, l)) && !NumericLabel(labels[|labels| - 1])
  {
    forall n | 0 <= n < |labels| ensures LabelValid(net, labels[n]) {
      var i, j := SegmentOf(host, labels, n);
      PlainSegmentIs(net, labels[n]);
    }
    var i, j := SegmentOf(host, labels, |labels| - 1);
    assert host[i..|host|] == host[i..];
    NumberIs(host[i..]);
  }

  // ---------------------------------------------------------------- the pieces of a target

  datatype Pieces = Pieces(scheme: string, host: string, port: Option<string>, suffix: string)

  function PortSpelled(port: Option<string>): string { if port.None? then "" else ":" + port.value }

  function Spelled(p: Pieces): string { p.scheme + ("://" + ((p.host + PortSpelled(p.port)) + p.suffix)) }

  /** Nothing in it ends the authority, or is refused in one. */
  predicate Inside(s: string) { forall i :: 0 <= i < |s| ==> s[i] !in "/?#@%" }

  predicate AddressHost(net: Net, h: string) {
    && |h| >= 2 && h[0] == '[' && h[|h| - 1] == ']' && Inside(h)
    && (forall i :: 0 <= i < |h| - 1 ==> h[i] != ']') && net.ipv6(h[1..|h| - 1]).Some?
  }

  ghost predicate NameHost(net: Net, h: string) {
    && h != "" && h[0] != '[' && Inside(h) && (forall i :: 0 <= i < |h| ==> h[i] != ':')
    && (net.ipv4(h) || DomainName(net, Lower(h)))
  }

  /** A port is digits that spell 1 to 65535. */
  predicate PortSpelling(port: string) {
    && port != "" && (forall i :: 0 <= i < |port| ==> '0' <= port[i] <= '9') && 1 <= Value(port) <= 65535
  }

  ghost predicate Acceptable(net: Net, p: Pieces) {
    && (Lower(p.scheme) == "http" || Lower(p.scheme) == "https")
    && (AddressHost(net, p.host) || NameHost(net, p.host))
    && (p.port.Some? ==> PortSpelling(p.port.value))
    && (p.suffix == "" || p.suffix[0] in "/?#")
    && net.hostParses(p.host + PortSpelled(p.port)) && net.suffixParses(p.suffix)
  }

  /** The host written: an address in its canonical text, an IPv4 address as it is, a name in lower case. */
  function HostWritten(net: Net, h: string): string {
    if |h| >= 2 && h[0] == '[' && net.ipv6(h[1..|h| - 1]).Some? then "[" + net.ipv6(h[1..|h| - 1]).value + "]"
    else if net.ipv4(h) then h
    else Lower(h)
  }

  lemma HostPortOfPieces(net: Net, h: string, port: Option<string>)
    requires AddressHost(net, h) || NameHost(net, h)
    requires port.Some? ==> PortSpelling(port.value)
    ensures var hp := HostPort(net, h + PortSpelled(port));
            hp.Some? && HostText(hp.value.0) == HostWritten(net, h) && hp.value.1 == port
  {
    var tail := PortSpelled(port);
    assert port.Some? ==> tail[1..] == port.value;
    if AddressHost(net, h) {
      var head := h[..|h| - 1];
      assert head + ("]" + tail) == h + tail;
      SplitsAt(head, "]" + tail, "]");
      assert (h + tail)[1..|h| - 1] == h[1..|h| - 1] && (h + tail)[|h|..] == tail;
    } else {
      SplitsAt(h, tail, ":");
      DomainMeans(net, Lower(h));
      if port.Some? {
        assert (h + tail)[|h| + 1..] == port.value;
        forall i | 0 <= i < |port.value| ensures port.value[i] != ':' { }
      }
    }
  }

  /** What is written for the port: nothing for the scheme's own, which is 80 or 443. */
  function PortWritten(scheme: string, port: Option<string>): string {
    if port.None? || !Digits(port.value) then ""
    else if scheme == "http" && Value(port.value) == 80 then ""
    else if scheme == "https" && Value(port.value) == 443 then ""
    else ":" + Decimal(Value(port.value))
  }

  lemma ReadSchemeOfPieces(scheme: string, rest: string)
    requires Lower(scheme) == "http" || Lower(scheme) == "https"
    ensures var s := scheme + ("://" + rest);
            var r := ReadScheme(s);
            r.Some? && SchemeText(r.value) == Lower(scheme) && s[|scheme| + 3..] == rest
  {
    var s := scheme + ("://" + rest);
    var n := |scheme|;
    assert s[..n] == scheme && SeparatorAt(s, n);
    if n == 5 {
      assert LowerChar(s[4]) == Lower(scheme)[4] == 's';
    }
  }

  lemma ParseRestOfPieces(net: Net, scheme: Scheme, p: Pieces)
    requires Acceptable(net, p) && Lower(p.scheme) == SchemeText(scheme)
    ensures var r := ParseRest(net, scheme, p.host + PortSpelled(p.port), p.suffix);
            && r.Some? && r.value.scheme == scheme && r.value.suffix == p.suffix
            && HostText(r.value.host) == HostWritten(net, p.host)
            && PortText(r.value.port) == PortWritten(Lower(p.scheme), p.port)
  {
    HostPortOfPieces(net, p.host, p.port);
    AuthorityInside(p.host, p.port);
  }

  lemma AuthorityInside(h: string, port: Option<string>)
    requires Inside(h) && (port.Some? ==> PortSpelling(port.value))
    ensures Inside(h + PortSpelled(port))
  {
    var a := h + PortSpelled(port);
    forall i | 0 <= i < |a| ensures a[i] !in "/?#@%" {
      if i < |h| { assert a[i] == h[i]; } else if i > |h| { assert a[i] == port.value[i - |h| - 1]; }
    }
  }

  function TextWritten(net: Net, p: Pieces): string {
    Lower(p.scheme) + ("://" + ((HostWritten(net, p.host) + PortWritten(Lower(p.scheme), p.port)) + p.suffix))
  }

  lemma ParseAfterSchemeOfPieces(net: Net, scheme: Scheme, p: Pieces)
    requires Acceptable(net, p) && Lower(p.scheme) == SchemeText(scheme)
    ensures var r := ParseAfterScheme(net, scheme, (p.host + PortSpelled(p.port)) + p.suffix);
            && r.Some? && r.value.scheme == scheme && r.value.suffix == p.suffix
            && HostText(r.value.host) == HostWritten(net, p.host)
            && PortText(r.value.port) == PortWritten(Lower(p.scheme), p.port)
  {
    var authority := p.host + PortSpelled(p.port);
    AuthorityInside(p.host, p.port);
    assert forall j :: 0 <= j < |authority| ==> authority[j] !in "/?#";
    SplitsAt(authority, p.suffix, "/?#");
    ParseRestOfPieces(net, scheme, p);
  }

  lemma PiecesAreRead(net: Net, s: string, p: Pieces)
    requires s == Spelled(p) && Acceptable(net, p) && |s| <= 2048 && BytesValid(s)
    ensures Written(ParseTrimmed(net, s)) == Some(TextWritten(net, p))
  {
    var rest := (p.host + PortSpelled(p.port)) + p.suffix;
    ReadSchemeOfPieces(p.scheme, rest);
    var scheme := ReadScheme(s).value;
    ParseTrimmedIs(net, s, scheme, rest);
    ParseAfterSchemeOfPieces(net, scheme, p);
    WriteIs(ParseAfterScheme(net, scheme, rest).value);
  }

  lemma WriteIs(r: Parts)
    ensures Write(r) == SchemeText(r.scheme) + ("://" + ((HostText(r.host) + PortText(r.port)) + r.suffix))
  {
  }

  lemma PiecesOfAuthority(net: Net, authority: string) returns (h: string, port: Option<string>)
    requires LawfulAddresses(net) && HostPort(net, authority).Some?
    requires Inside(authority)
    ensures authority == h + PortSpelled(port) && port == HostPort(net, authority).value.1
    ensures AddressHost(net, h) || NameHost(net, h)
  {
    port := HostPort(net, authority).value.1;
    if authority[0] == '[' {
      h := PiecesOfAddress(net, authority);
    } else {
      h := PiecesOfName(net, authority);
    }
  }

  lemma PiecesOfAddress(net: Net, authority: string) returns (h: string)
    requires HostPort(net, authority).Some? && Inside(authority) && authority[0] == '['
    ensures authority == h + PortSpelled(HostPort(net, authority).value.1) && AddressHost(net, h)
  {
    var end := FirstOf(authority, "]");
    h := authority[..end + 1];
    assert h[1..|h| - 1] == authority[1..end];
    forall i | 0 <= i < |h| - 1 ensures h[i] != ']' { assert authority[i] !in "]"; }
    assert authority[end] in "]";
    assert authority == h + authority[end + 1..];
  }

  lemma PiecesOfName(net: Net, authority: string) returns (h: string)
    requires LawfulAddresses(net) && HostPort(net, authority).Some? && Inside(authority) && authority[0] != '['
    ensures authority == h + PortSpelled(HostPort(net, authority).value.1) && NameHost(net, h)
  {
    var k := FirstOf(authority, ":");
    h := authority[..k];
    forall i | 0 <= i < |h| ensures h[i] != ':' { assert authority[i] !in ":"; }
    DomainMeans(net, Lower(h));
    if k < |authority| {
      assert authority[k] in ":";
      assert authority == h + (":" + authority[k + 1..]);
    } else {
      assert authority == h;
    }
  }

  lemma ReadIsPieces(net: Net, s: string) returns (p: Pieces)
    requires LawfulAddresses(net) && ParseTrimmed(net, s).Some?
    ensures s == Spelled(p) && Acceptable(net, p)
  {
    var scheme := ReadScheme(s).value;
    var n := |SchemeText(scheme)|;
    var rest := s[n + 3..];
    SchemeSplits(s, n);
    ParseTrimmedIs(net, s, scheme, rest);
    var h, port, suffix := RestIsPieces(net, scheme, rest);
    p := Pieces(s[..n], h, port, suffix);
  }

  lemma SchemeSplits(s: string, n: nat)
    requires SeparatorAt(s, n)
    ensures s == s[..n] + ("://" + s[n + 3..])
  {
    assert s[n..n + 3] == "://";
  }

  lemma RestIsPieces(net: Net, scheme: Scheme, rest: string) returns (h: string, port: Option<string>, suffix: string)
    requires LawfulAddresses(net) && ParseAfterScheme(net, scheme, rest).Some?
    ensures rest == (h + PortSpelled(port)) + suffix && (AddressHost(net, h) || NameHost(net, h))
    ensures (port.Some? ==> PortSpelling(port.value)) && (suffix == "" || suffix[0] in "/?#")
    ensures net.hostParses(h + PortSpelled(port)) && net.suffixParses(suffix)
  {
    var k := FirstOf(rest, "/?#");
    var authority := rest[..k];
    suffix := rest[k..];
    forall i | 0 <= i < |authority| ensures authority[i] !in "/?#@%" {
      assert rest[i] !in "/?#" && authority[i] in authority;
    }
    h, port := PiecesOfAuthority(net, authority);
    assert rest == authority + suffix;
    if suffix != "" { assert rest[k] in "/?#"; }
  }

  /**
   What the normalizer does, in the target's own text. A target is accepted exactly if it is
   text of at most 2048 valid bytes in the pieces described, and then the result is those
   pieces with the scheme in lower case, the host canonical and a default port left out.
   */
  lemma NormalizedMeans(net: Net, raw: string, u: string)
    requires LawfulAddresses(net)
    ensures Normalized(net, raw) == Some(u) <==>
            && TextValid(raw) && |Trim(raw)| <= 2048 && BytesValid(Trim(raw))
            && exists p :: Trim(raw) == Spelled(p) && Acceptable(net, p) && u == TextWritten(net, p)
  {
    if Normalized(net, raw).Some? {
      var p := ReadIsPieces(net, Trim(raw));
      PiecesAreRead(net, Trim(raw), p);
    }
    if TextValid(raw) && |Trim(raw)| <= 2048 && BytesValid(Trim(raw)) {
      forall p | Trim(raw) == Spelled(p) && Acceptable(net, p)
        ensures Normalized(net, raw) == Some(TextWritten(net, p))
      {
        PiecesAreRead(net, Trim(raw), p);
      }
    }
  }
}
