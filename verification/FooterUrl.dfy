/**
 Footer link targets: the normalizer that rewrites scheme and authority and keeps the rest.

 A URL is read into `Parts` and written back from them (components as in section 3 of
 RFC 3986). IPv4, IPv6 and IDNA parsing and the platform's own URL parser are the fields of
 `Net`; `Lawful` says what is relied on.
 */
module FooterUrl {
  import opened Common
  import opened Numerals

  // ---------------------------------------------------------------- text

  predicate IsLower(c: char) { 'a' <= c <= 'z' }

  predicate IsAlphanumeric(c: char) { IsLower(c) || 'A' <= c <= 'Z' || IsDigit(c) }

  predicate IsHex(c: char) { IsDigit(c) || 'a' <= c <= 'f' || 'A' <= c <= 'F' }

  /** Unicode category Cc. */
  predicate IsControl(c: char) { c as int < 0x20 || 0x7f <= c as int < 0xa0 }

  /** Unicode white space. */
  predicate IsSpace(c: char) {
    || c as int in {0x20, 0x85, 0xa0, 0x1680, 0x2028, 0x2029, 0x202f, 0x205f, 0x3000}
    || 0x09 <= c as int <= 0x0d || 0x2000 <= c as int <= 0x200a
  }

  predicate TextValid(s: string) { forall c :: c in s ==> !IsControl(c) }

  function TrimLeft(s: string): string {
    if s != [] && IsSpace(s[0]) then TrimLeft(s[1..]) else s
  }

  function TrimRight(s: string): string {
    if s != [] && IsSpace(s[|s| - 1]) then TrimRight(s[..|s| - 1]) else s
  }

  function Trim(s: string): string { TrimRight(TrimLeft(s)) }

  predicate Trimmed(s: string) { s != [] ==> !IsSpace(s[0]) && !IsSpace(s[|s| - 1]) }

  lemma {:induction false} TrimLeftDone(s: string)
    ensures TrimLeft(s) != [] ==> !IsSpace(TrimLeft(s)[0])
    ensures forall c :: c in TrimLeft(s) ==> c in s
  {
    if s != [] && IsSpace(s[0]) { TrimLeftDone(s[1..]); }
  }

  lemma {:induction false} TrimRightDone(s: string)
    ensures TrimRight(s) != [] ==> !IsSpace(TrimRight(s)[|TrimRight(s)| - 1]) && TrimRight(s)[0] == s[0]
    ensures forall c :: c in TrimRight(s) ==> c in s
  {
    if s != [] && IsSpace(s[|s| - 1]) { TrimRightDone(s[..|s| - 1]); }
  }

  lemma TrimDone(s: string)
    ensures Trimmed(Trim(s))
    ensures forall c :: c in Trim(s) ==> c in s
  {
    TrimLeftDone(s);
    TrimRightDone(TrimLeft(s));
  }

  lemma TrimKeeps(s: string)
    requires Trimmed(s)
    ensures Trim(s) == s
  {
  }

  lemma LowerTwice(s: string)
    ensures Lower(Lower(s)) == Lower(s)
  {
  }

  /** The position of the first of `stops`, or the length. */
  function FirstOf(s: string, stops: string): (k: nat)
    ensures k <= |s| && forall j :: 0 <= j < k ==> s[j] !in stops
    ensures k < |s| ==> s[k] in stops
  {
    if s == [] || s[0] in stops then 0 else FirstOf(s[1..], stops) + 1
  }

  lemma FirstOfIs(s: string, stops: string, k: nat)
    requires k <= |s| && (forall j :: 0 <= j < k ==> s[j] !in stops) && (k < |s| ==> s[k] in stops)
    ensures FirstOf(s, stops) == k
  {
  }

  // ---------------------------------------------------------------- what other libraries decide

  /** `ipv6` gives the canonical text of an address that is IPv6 proper and has no zone. */
  datatype Net = Net(ipv6: string -> Option<string>, ipv4: string -> bool, ace: string -> bool,
                     hostParses: string -> bool, suffixParses: string -> bool)

  predicate NameChar(c: char) { IsLower(c) || IsDigit(c) || c == '.' || c == '-' }

  predicate NameChars(s: string) { s != [] && forall i :: 0 <= i < |s| ==> NameChar(s[i]) }

  predicate AddressChars(s: string) { forall i :: 0 <= i < |s| ==> IsDigit(s[i]) || 'a' <= s[i] <= 'f' || s[i] == ':' }

  predicate PortSuffix(s: string) { s == [] || (s[0] == ':' && Digits(s[1..])) }

  /** Canonical IPv6 text reparses to itself and is at most one longer (section 4.2.2 of RFC 5952). */
  ghost predicate LawfulAddresses(net: Net) {
    && (forall t :: net.ipv6(t).Some? ==>
          var c := net.ipv6(t).value; net.ipv6(c) == Some(c) && AddressChars(c) && |c| <= |t| + 1)
    && (forall t :: net.ipv4(t) ==> NameChars(t))
  }

  /** The platform's parser accepts every authority of the shapes the normalizer writes. */
  ghost predicate LawfulHosts(net: Net) {
    && (forall name, port :: NameChars(name) && PortSuffix(port) ==> net.hostParses(name + port))
    && (forall c, port :: net.ipv6(c) == Some(c) && PortSuffix(port) ==> net.hostParses("[" + c + "]" + port))
  }

  // ---------------------------------------------------------------- bytes and host names

  predicate Allowed(c: char) { IsAlphanumeric(c) || c in ":/?#[]@!$&'()*+,;=-._~%" }

  function HexValue(c: char): (v: nat)
    requires IsHex(c)
    ensures v < 16
  {
    if IsDigit(c) then c as int - '0' as int
    else if 'a' <= c then c as int - 'a' as int + 10 else c as int - 'A' as int + 10
  }

  predicate ByteValid(s: string, i: nat)
    requires i < |s|
  {
    && Allowed(s[i])
    && (s[i] == '%' ==>
          && i + 2 < |s| && IsHex(s[i + 1]) && IsHex(s[i + 2])
          && var v := HexValue(s[i + 1]) * 16 + HexValue(s[i + 2]); v >= 32 && v != 127)
  }

  predicate BytesValid(s: string) { forall i :: 0 <= i < |s| ==> ByteValid(s, i) }

  /** Steps over each escape it has checked. */
  method FooterURLBytesValid(raw: string) returns (ok: bool)
    ensures ok <==> BytesValid(raw)
  {
    var i := 0;
    while i < |raw|
      invariant 0 <= i <= |raw|
      invariant forall j :: 0 <= j < i ==> ByteValid(raw, j)
      decreases |raw| - i
    {
      var c := raw[i];
      if !IsAlphanumeric(c) && c !in ":/?#[]@!$&'()*+,;=-._~%" {
        assert !ByteValid(raw, i);
        return false;
      }
      if c == '%' {
        if i + 2 >= |raw| || !IsHex(raw[i + 1]) || !IsHex(raw[i + 2]) {
          assert !ByteValid(raw, i);
          return false;
        }
        var value := HexValue(raw[i + 1]) * 16 + HexValue(raw[i + 2]);
        if value < 32 || value == 127 {
          assert !ByteValid(raw, i);
          return false;
        }
        assert ByteValid(raw, i) && ByteValid(raw, i + 1) && ByteValid(raw, i + 2);
        i := i + 2;
      }
      i := i + 1;
    }
    return true;
  }

  function Labels(host: string): (labels: seq<string>)
    ensures labels != []
    decreases |host|
  {
    var k := FirstOf(host, ".");
    if k == |host| then [host] else [host[..k]] + Labels(host[k + 1..])
  }

  predicate LabelValid(net: Net, l: string) {
    && 0 < |l| <= 63 && l[0] != '-' && l[|l| - 1] != '-'
    && (forall i :: 0 <= i < |l| ==> IsAlphanumeric(l[i]) || l[i] == '-')
    && ("xn--" <= l ==> net.ace(l))
  }

  /** Would be read as a number by lenient resolvers. */
  predicate NumericLabel(l: string) {
    Digits(l) || ("0x" <= l && forall i :: 2 <= i < |l| ==> IsHex(l[i]))
  }

  predicate DomainValid(net: Net, host: string) {
    && 0 < |host| <= 253
    && (forall l :: l in Labels(host) ==> LabelValid(net, l))
    && !NumericLabel(Labels(host)[|Labels(host)| - 1])
  }

  /** A literal IPv4 address verbatim, otherwise a lower-cased domain name. */
  function HostName(net: Net, raw: string): Option<string> {
    if net.ipv4(raw) then Some(raw)
    else if DomainValid(net, Lower(raw)) then Some(Lower(raw))
    else None
  }

  method FooterDNSOrIPv4(net: Net, raw: string) returns (r: Option<string>)
    ensures r == HostName(net, raw)
  {
    if net.ipv4(raw) { return Some(raw); }
    var host := Lower(raw);
    if |host| == 0 || |host| > 253 { return None; }
    var labels := Labels(host);
    for n := 0 to |labels|
      invariant forall j :: 0 <= j < n ==> LabelValid(net, labels[j])
    {
      var part := labels[n];
      if |part| == 0 || |part| > 63 || part[0] == '-' || part[|part| - 1] == '-' {
        assert !LabelValid(net, labels[n]);
        return None;
      }
      for i := 0 to |part|
        invariant forall j :: 0 <= j < i ==> IsAlphanumeric(part[j]) || part[j] == '-'
      {
        if !IsAlphanumeric(part[i]) && part[i] != '-' {
          assert !LabelValid(net, labels[n]);
          return None;
        }
      }
      if "xn--" <= part && !net.ace(part) {
        assert !LabelValid(net, labels[n]);
        return None;
      }
    }
    if NumericLabel(labels[|labels| - 1]) { return None; }
    return Some(host);
  }

  lemma {:induction false} DomainChars(host: string, i: nat)
    requires i < |host|
    requires forall l, j :: l in Labels(host) && 0 <= j < |l| ==> IsAlphanumeric(l[j]) || l[j] == '-'
    ensures IsAlphanumeric(host[i]) || host[i] == '-' || host[i] == '.'
    decreases |host|
  {
    var k := FirstOf(host, ".");
    if k == |host| {
      assert host in Labels(host);
    } else if i < k {
      assert host[..k] in Labels(host) && host[..k][i] == host[i];
    } else if i > k {
      var rest := host[k + 1..];
      assert forall l :: l in Labels(rest) ==> l in Labels(host);
      DomainChars(rest, i - k - 1);
    }
  }

  /** The normalized host is a fixed point, and needs no brackets, escapes or colons. */
  lemma HostNameIsFixed(net: Net, raw: string)
    requires LawfulAddresses(net) && HostName(net, raw).Some?
    ensures var h := HostName(net, raw).value; HostName(net, h) == Some(h) && NameChars(h) && |h| == |raw|
  {
    var h := HostName(net, raw).value;
    LowerTwice(raw);
    if !net.ipv4(raw) {
      forall i | 0 <= i < |h| ensures NameChar(h[i]) {
        assert forall l :: l in Labels(h) ==> LabelValid(net, l);
        DomainChars(h, i);
        assert h[i] == LowerChar(raw[i]);
      }
    }
  }

  // ---------------------------------------------------------------- reading a URL

  datatype Scheme = Http | Https

  datatype Host = Name(name: string) | Address(address: string)

  /** A port is kept only when it is not the scheme's own. */
  datatype Parts = Parts(scheme: Scheme, host: Host, port: Option<nat>, suffix: string)

  function SchemeText(s: Scheme): string { if s.Http? then "http" else "https" }

  function DefaultPort(s: Scheme): nat { if s.Http? then 80 else 443 }

  predicate SeparatorAt(s: string, i: nat) {
    i + 3 <= |s| && s[i] == ':' && s[i + 1] == '/' && s[i + 2] == '/'
  }

  predicate StartsWith(s: string, scheme: Scheme) {
    var n := |SchemeText(scheme)|;
    SeparatorAt(s, n) && Lower(s[..n]) == SchemeText(scheme)
  }

  function HostPort(net: Net, authority: string): Option<(Host, Option<string>)> {
    if authority == [] then None
    else if authority[0] == '[' then
      var end := FirstOf(authority, "]");
      if end == |authority| || net.ipv6(authority[1..end]).None? then None
      else
        var host := Address(net.ipv6(authority[1..end]).value);
        var rest := authority[end + 1..];
        if rest == [] then Some((host, None)) else if rest[0] == ':' then Some((host, Some(rest[1..]))) else None
    else
      var k := FirstOf(authority, ":");
      var host := HostName(net, authority[..k]);
      if host.None? then None
      else if k == |authority| then Some((Name(host.value), None))
      else if ':' in authority[k + 1..] then None
      else Some((Name(host.value), Some(authority[k + 1..])))
  }

  /** None for a port that is not 1..65535; the default port is dropped. */
  function PortNumber(scheme: Scheme, port: Option<string>): Option<Option<nat>> {
    if port.None? then Some(None)
    else if port.value == [] || !Digits(port.value) || !(1 <= Value(port.value) <= 65535) then None
    else if Value(port.value) == DefaultPort(scheme) then Some(None)
    else Some(Some(Value(port.value)))
  }

  function ParseRest(net: Net, scheme: Scheme, authority: string, suffix: string): Option<Parts> {
    var hp := HostPort(net, authority);
    if '@' in authority || '%' in authority || hp.None? then None
    else if !net.hostParses(authority) || !net.suffixParses(suffix) then None
    else
      var port := PortNumber(scheme, hp.value.1);
      if port.None? then None else Some(Parts(scheme, hp.value.0, port.value, suffix))
  }

  function ParseAfterScheme(net: Net, scheme: Scheme, rest: string): Option<Parts> {
    var k := FirstOf(rest, "/?#");
    ParseRest(net, scheme, rest[..k], rest[k..])
  }

  function ReadScheme(s: string): Option<Scheme> {
    if StartsWith(s, Http) then Some(Http) else if StartsWith(s, Https) then Some(Https) else None
  }

  function ParseTrimmed(net: Net, s: string): Option<Parts> {
    if s == [] || |s| > 2048 || !BytesValid(s) then None
    else match ReadScheme(s)
      case None => None
      case Some(scheme) => ParseAfterScheme(net, scheme, s[|SchemeText(scheme)| + 3..])
  }

  function Parse(net: Net, raw: string): Option<Parts> {
    if !TextValid(raw) then None else ParseTrimmed(net, Trim(raw))
  }

  function HostText(h: Host): string { if h.Name? then h.name else "[" + h.address + "]" }

  function PortText(p: Option<nat>): string { if p.None? then "" else ":" + Decimal(p.value) }

  function Authority(p: Parts): string { HostText(p.host) + PortText(p.port) }

  function SchemeHead(s: Scheme): string { SchemeText(s) + "://" }

  function Write(p: Parts): string { SchemeHead(p.scheme) + (Authority(p) + p.suffix) }

  // ---------------------------------------------------------------- canonical parts

  predicate SuffixShape(s: string) { s == [] || s[0] in "/?#" }

  predicate CanonicalHost(net: Net, h: Host) {
    match h
    case Name(n) => HostName(net, n) == Some(n) && NameChars(n)
    case Address(a) => net.ipv6(a) == Some(a) && AddressChars(a)
  }

  predicate Canonical(net: Net, p: Parts) {
    && CanonicalHost(net, p.host)
    && (p.port.Some? ==> 1 <= p.port.value <= 65535 && p.port.value != DefaultPort(p.scheme))
    && SuffixShape(p.suffix) && BytesValid(p.suffix) && net.suffixParses(p.suffix)
  }

  lemma SuffixBytes(s: string, k: nat)
    requires BytesValid(s) && k <= |s|
    ensures BytesValid(s[k..])
  {
    forall i | 0 <= i < |s[k..]| ensures ByteValid(s[k..], i) { assert ByteValid(s, k + i); }
  }

  lemma HostPortIsCanonical(net: Net, authority: string)
    requires LawfulAddresses(net) && HostPort(net, authority).Some?
    ensures CanonicalHost(net, HostPort(net, authority).value.0)
  {
    if authority[0] != '[' { HostNameIsFixed(net, authority[..FirstOf(authority, ":")]); }
  }

  lemma ParsedAfterScheme(net: Net, scheme: Scheme, rest: string)
    requires LawfulAddresses(net) && BytesValid(rest) && ParseAfterScheme(net, scheme, rest).Some?
    ensures var p := ParseAfterScheme(net, scheme, rest).value;
            Canonical(net, p) && p.scheme == scheme && p.suffix == rest[FirstOf(rest, "/?#")..]
  {
    var k := FirstOf(rest, "/?#");
    SuffixBytes(rest, k);
    HostPortIsCanonical(net, rest[..k]);
  }

  /** The part of the input that is kept: everything from the end of the authority on. */
  function Suffix(s: string): string
    requires ReadScheme(s).Some?
  {
    var rest := s[|SchemeText(ReadScheme(s).value)| + 3..];
    rest[FirstOf(rest, "/?#")..]
  }

  /** Whatever is read is canonical, and its suffix is the input's own, byte for byte. */
  lemma ParsedIsCanonical(net: Net, raw: string)
    requires LawfulAddresses(net) && Parse(net, raw).Some?
    ensures var p := Parse(net, raw).value;
            Canonical(net, p) && ReadScheme(Trim(raw)) == Some(p.scheme) && p.suffix == Suffix(Trim(raw))
  {
    var s := Trim(raw);
    var n := |SchemeText(ReadScheme(s).value)| + 3;
    SuffixBytes(s, n);
    ParsedAfterScheme(net, ReadScheme(s).value, s[n..]);
  }

  // ---------------------------------------------------------------- writing and reading back

  /** A search stops where the first stop character was put. */
  lemma SplitsAt(head: string, tail: string, stops: string)
    requires (forall j :: 0 <= j < |head| ==> head[j] !in stops) && (tail == [] || tail[0] in stops)
    ensures var text := head + tail;
            FirstOf(text, stops) == |head| && text[..|head|] == head && text[|head|..] == tail
  {
    FirstOfIs(head + tail, stops, |head|);
  }

  lemma HostPortOfAddress(net: Net, a: string, port: string)
    requires net.ipv6(a) == Some(a) && AddressChars(a) && PortSuffix(port)
    ensures HostPort(net, "[" + a + "]" + port) == Some((Address(a), if port == [] then None else Some(port[1..])))
  {
    var head, tail := "[" + a, "]" + port;
    assert head + tail == "[" + a + "]" + port;
    assert forall j :: 1 <= j < |head| ==> head[j] == a[j - 1];
    SplitsAt(head, tail, "]");
    assert head[1..] == a && (head + tail)[1..|head|] == head[1..];
    assert (head + tail)[|head| + 1..] == tail[1..] == port;
  }

  lemma HostPortOfName(net: Net, name: string, port: string)
    requires HostName(net, name) == Some(name) && NameChars(name) && PortSuffix(port)
    ensures HostPort(net, name + port) == Some((Name(name), if port == [] then None else Some(port[1..])))
  {
    assert NameChar(name[0]) && (name + port)[0] == name[0];
    SplitsAt(name, port, ":");
    assert port != [] ==> (name + port)[|name| + 1..] == port[1..];
    if port != [] { DigitsHaveNoColon(port); }
  }

  lemma DigitsHaveNoColon(port: string)
    requires PortSuffix(port) && port != []
    ensures ':' !in port[1..]
  {
    forall i | 0 <= i < |port[1..]| ensures port[1..][i] != ':' { assert IsDigit(port[1..][i]); }
  }

  predicate AuthorityChar(c: char) { NameChar(c) || c in "[]:" }

  lemma AuthorityChars(net: Net, p: Parts)
    requires Canonical(net, p)
    ensures forall c :: c in Authority(p) ==> AuthorityChar(c)
  {
    forall c | c in HostText(p.host) ensures AuthorityChar(c) {
      if p.host.Address? && c != '[' && c != ']' { assert c in p.host.address; }
    }
    forall c | c in PortText(p.port) ensures AuthorityChar(c) {
      if c != ':' { assert c in Decimal(p.port.value); }
    }
  }

  lemma AuthorityParses(net: Net, p: Parts)
    requires LawfulHosts(net) && Canonical(net, p)
    ensures net.hostParses(Authority(p))
    ensures HostPort(net, Authority(p)) == Some((p.host, if p.port.None? then None else Some(Decimal(p.port.value))))
  {
    var port := PortText(p.port);
    assert p.port.Some? ==> port[1..] == Decimal(p.port.value);
    assert PortSuffix(port);
    if p.host.Name? { HostPortOfName(net, p.host.name, port); } else { HostPortOfAddress(net, p.host.address, port); }
  }

  lemma PortOfDecimal(scheme: Scheme, v: nat)
    requires 1 <= v <= 65535 && v != DefaultPort(scheme)
    ensures PortNumber(scheme, Some(Decimal(v))) == Some(Some(v))
  {
    ValueOfDecimal(v);
  }

  lemma AuthorityIsPlain(net: Net, p: Parts)
    requires Canonical(net, p)
    ensures Authority(p) != [] && '@' !in Authority(p) && '%' !in Authority(p)
  {
    AuthorityChars(net, p);
  }

  /** Reading the authority and suffix just written. */
  lemma ParseRestOfWrite(net: Net, p: Parts)
    requires LawfulHosts(net) && Canonical(net, p)
    ensures ParseRest(net, p.scheme, Authority(p), p.suffix) == Some(p)
  {
    var port := if p.port.None? then None else Some(Decimal(p.port.value));
    assert PortNumber(p.scheme, port) == Some(p.port) by {
      if p.port.Some? { PortOfDecimal(p.scheme, p.port.value); }
    }
    AuthorityParses(net, p);
    AuthorityIsPlain(net, p);
  }

  predicate PlainBytes(s: string) { forall i :: 0 <= i < |s| ==> Allowed(s[i]) && s[i] != '%' }

  lemma PlainThenValid(head: string, tail: string)
    requires PlainBytes(head) && BytesValid(tail)
    ensures BytesValid(head + tail)
  {
    var s := head + tail;
    forall i | 0 <= i < |s| ensures ByteValid(s, i) {
      if i >= |head| { assert ByteValid(tail, i - |head|); }
    }
  }

  lemma ValidBytesAreText(s: string)
    requires BytesValid(s)
    ensures TextValid(s) && Trimmed(s)
  {
    forall i | 0 <= i < |s| ensures !IsControl(s[i]) && !IsSpace(s[i]) { assert ByteValid(s, i); }
  }

  lemma WrittenBytes(net: Net, p: Parts)
    requires Canonical(net, p)
    ensures BytesValid(Write(p)) && TextValid(Write(p)) && Trimmed(Write(p))
  {
    var authority := Authority(p);
    assert PlainBytes(authority) by {
      AuthorityChars(net, p);
      forall i | 0 <= i < |authority| ensures Allowed(authority[i]) && authority[i] != '%' {
        assert authority[i] in authority;
      }
    }
    PlainThenValid(authority, p.suffix);
    PlainThenValid(SchemeHead(p.scheme), authority + p.suffix);
    ValidBytesAreText(Write(p));
  }

  lemma AuthorityEnds(net: Net, p: Parts)
    requires Canonical(net, p)
    ensures forall j :: 0 <= j < |Authority(p)| ==> Authority(p)[j] !in "/?#"
  {
    AuthorityChars(net, p);
    forall j | 0 <= j < |Authority(p)| ensures Authority(p)[j] !in "/?#" {
      assert Authority(p)[j] in Authority(p);
    }
  }

  lemma ParseAfterSchemeOfWrite(net: Net, p: Parts)
    requires LawfulHosts(net) && Canonical(net, p)
    ensures ParseAfterScheme(net, p.scheme, Authority(p) + p.suffix) == Some(p)
  {
    ParseRestOfWrite(net, p);
    AuthorityEnds(net, p);
    SplitsAt(Authority(p), p.suffix, "/?#");
  }

  lemma ParseTrimmedIs(net: Net, s: string, scheme: Scheme, rest: string)
    requires BytesValid(s) && ReadScheme(s) == Some(scheme) && s[|SchemeText(scheme)| + 3..] == rest
    ensures ParseTrimmed(net, s) == if |s| <= 2048 then ParseAfterScheme(net, scheme, rest) else None
  {
  }

  lemma SchemeOf(scheme: Scheme, rest: string)
    ensures ReadScheme(SchemeHead(scheme) + rest) == Some(scheme)
    ensures (SchemeHead(scheme) + rest)[|SchemeText(scheme)| + 3..] == rest
  {
    var s, n := SchemeHead(scheme) + rest, |SchemeText(scheme)|;
    assert s[..n] == SchemeText(scheme);
    assert SeparatorAt(s, n);
    assert Lower("http") == "http" && Lower("https") == "https";
    assert scheme.Https? ==> s[4] == 's';
  }

  lemma ParseTrimmedOfWrite(net: Net, p: Parts)
    requires LawfulHosts(net) && Canonical(net, p)
    ensures ParseTrimmed(net, Write(p)) == if |Write(p)| <= 2048 then Some(p) else None
  {
    ParseAfterSchemeOfWrite(net, p);
    assert BytesValid(Write(p)) by { WrittenBytes(net, p); }
    SchemeOf(p.scheme, Authority(p) + p.suffix);
    ParseTrimmedIs(net, Write(p), p.scheme, Authority(p) + p.suffix);
  }

  /** Canonical parts survive being written and read, exactly when the text is not too long. */
  lemma ParseOfWrite(net: Net, p: Parts)
    requires LawfulHosts(net) && Canonical(net, p)
    ensures Parse(net, Write(p)) == if |Write(p)| <= 2048 then Some(p) else None
  {
    assert TextValid(Write(p)) && Trimmed(Write(p)) by { WrittenBytes(net, p); }
    TrimKeeps(Write(p));
    ParseTrimmedOfWrite(net, p);
  }

  // ---------------------------------------------------------------- the normalizer

  function Written(p: Option<Parts>): Option<string> { if p.None? then None else Some(Write(p.value)) }

  function Normalized(net: Net, raw: string): Option<string> { Written(Parse(net, raw)) }

  /** Normalizing is idempotent, except when canonical text has grown past the limit. */
  lemma NormalizeTwice(net: Net, raw: string)
    requires LawfulAddresses(net) && LawfulHosts(net)
    ensures Normalized(net, raw).Some? ==>
              var u := Normalized(net, raw).value;
              && (Normalized(net, u) == Some(u) <==> |u| <= 2048)
              && (Normalized(net, u) == None <==> |u| > 2048)
  {
    if Parse(net, raw).Some? {
      ParsedIsCanonical(net, raw);
      ParseOfWrite(net, Parse(net, raw).value);
    }
  }

  lemma AuthorityGrows(net: Net, scheme: Scheme, authority: string, suffix: string)
    requires LawfulAddresses(net) && ParseRest(net, scheme, authority, suffix).Some?
    ensures var p := ParseRest(net, scheme, authority, suffix).value;
            |Authority(p)| <= |authority| + (if p.host.Name? then 0 else 1)
  {
    var p, hp := ParseRest(net, scheme, authority, suffix).value, HostPort(net, authority).value;
    if p.port.Some? { DecimalIsShortest(hp.1.value); }
    if authority[0] != '[' { HostNameIsFixed(net, authority[..FirstOf(authority, ":")]); }
  }

  /** A domain name or IPv4 target never grows; an IPv6 one grows by at most one byte. */
  lemma GrowsByAtMostOne(net: Net, raw: string)
    requires LawfulAddresses(net) && Parse(net, raw).Some?
    ensures var p := Parse(net, raw).value;
            |Write(p)| <= |Trim(raw)| + (if p.host.Name? then 0 else 1) <= 2049
  {
    var s, p := Trim(raw), Parse(net, raw).value;
    var rest := s[|SchemeText(p.scheme)| + 3..];
    var k := FirstOf(rest, "/?#");
    AuthorityGrows(net, p.scheme, rest[..k], rest[k..]);
  }

  // ---------------------------------------------------------------- a target that outgrows the limit

  /** What an IPv6 address may be spelled with: digits, letters a to f of either case, colons and dots. */
  predicate Spelling(t: string) { forall i :: 0 <= i < |t| ==> IsHex(t[i]) || t[i] == ':' || t[i] == '.' }

  function Bracketed(t: string): string { "[" + t + "]" }

  lemma BracketedChars(t: string)
    requires Spelling(t)
    ensures PlainBytes(Bracketed(t)) && '@' !in Bracketed(t) && '%' !in Bracketed(t)
    ensures forall j :: 0 <= j < |Bracketed(t)| ==> Bracketed(t)[j] !in "/?#"
  {
    var a := Bracketed(t);
    forall j | 0 <= j < |a| ensures Allowed(a[j]) && a[j] !in "@%/?#" {
      if 0 < j < |a| - 1 { assert a[j] == t[j - 1]; }
    }
  }

  lemma HostPortOfSpelling(net: Net, t: string)
    requires Spelling(t) && net.ipv6(t).Some?
    ensures HostPort(net, Bracketed(t)) == Some((Address(net.ipv6(t).value), None))
  {
    var head := "[" + t;
    assert forall j :: 1 <= j < |head| ==> head[j] == t[j - 1];
    SplitsAt(head, "]", "]");
    assert head + "]" == Bracketed(t) && Bracketed(t)[1..|head|] == t;
  }

  lemma AddressTargetIsText(t: string, suffix: string)
    requires Spelling(t) && SuffixShape(suffix) && BytesValid(suffix)
    ensures var s := SchemeHead(Http) + (Bracketed(t) + suffix);
            BytesValid(s) && TextValid(s) && Trim(s) == s
  {
    var s := SchemeHead(Http) + (Bracketed(t) + suffix);
    BracketedChars(t);
    PlainThenValid(Bracketed(t), suffix);
    PlainThenValid(SchemeHead(Http), Bracketed(t) + suffix);
    ValidBytesAreText(s);
    TrimKeeps(s);
  }

  lemma ParseAddressRest(net: Net, t: string, suffix: string)
    requires Spelling(t) && net.ipv6(t).Some? && net.hostParses(Bracketed(t))
    requires SuffixShape(suffix) && net.suffixParses(suffix)
    ensures ParseAfterScheme(net, Http, Bracketed(t) + suffix)
            == Some(Parts(Http, Address(net.ipv6(t).value), None, suffix))
  {
    BracketedChars(t);
    SplitsAt(Bracketed(t), suffix, "/?#");
    HostPortOfSpelling(net, t);
  }

  /** An address target without a port is read as its canonical address. */
  lemma ParseOfAddress(net: Net, t: string, suffix: string)
    requires Spelling(t) && net.ipv6(t).Some? && net.hostParses(Bracketed(t))
    requires SuffixShape(suffix) && BytesValid(suffix) && net.suffixParses(suffix)
    requires |SchemeHead(Http) + (Bracketed(t) + suffix)| <= 2048
    ensures Parse(net, SchemeHead(Http) + (Bracketed(t) + suffix))
            == Some(Parts(Http, Address(net.ipv6(t).value), None, suffix))
  {
    AddressTargetIsText(t, suffix);
    SchemeOf(Http, Bracketed(t) + suffix);
    ParseTrimmedIs(net, SchemeHead(Http) + (Bracketed(t) + suffix), Http, Bracketed(t) + suffix);
    ParseAddressRest(net, t, suffix);
  }

  /** An address that grows takes a target of 2048 bytes to 2049, and that normal form is refused. */
  lemma OutgrowsTheLimit(net: Net, t: string, suffix: string)
    requires LawfulAddresses(net) && LawfulHosts(net)
    requires Spelling(t) && net.ipv6(t).Some? && |net.ipv6(t).value| == |t| + 1 && net.hostParses(Bracketed(t))
    requires SuffixShape(suffix) && BytesValid(suffix) && net.suffixParses(suffix)
    requires |SchemeHead(Http) + (Bracketed(t) + suffix)| == 2048
    ensures var u := Normalized(net, SchemeHead(Http) + (Bracketed(t) + suffix));
            u.Some? && |u.value| == 2049 && Normalized(net, u.value) == None
  {
    ParseOfAddress(net, t, suffix);
    NormalizeTwice(net, SchemeHead(Http) + (Bracketed(t) + suffix));
  }

  function Path(n: nat): (s: string)
    ensures |s| == n + 1 && s[0] == '/' && forall i :: 1 <= i <= n ==> s[i] == 'a'
  {
    if n == 0 then "/" else Path(n - 1) + "a"
  }

  lemma PathIsValid(n: nat)
    ensures SuffixShape(Path(n)) && BytesValid(Path(n))
  {
    forall i | 0 <= i < |Path(n)| ensures ByteValid(Path(n), i) { }
  }

  const SHORT := "1::2:3:4:5:6:7"
  const CANONICAL := "1:0:2:3:4:5:6:7"

  /** Knows one address: 1::2:3:4:5:6:7 leaves out a single group, which canonical text writes as 0. */
  function OneAddress(): Net {
    Net(s => if s == SHORT || s == CANONICAL then Some(CANONICAL) else None,
        s => false, s => true, s => true, s => true)
  }

  lemma OneAddressIsLawful()
    ensures LawfulAddresses(OneAddress()) && LawfulHosts(OneAddress())
    ensures Spelling(SHORT) && |SHORT| == 14 && |CANONICAL| == 15 && OneAddress().ipv6(SHORT) == Some(CANONICAL)
  {
  }

  /** Such a target exists. */
  lemma GrowthHappens() returns (net: Net, raw: string)
    ensures LawfulAddresses(net) && LawfulHosts(net) && |raw| == 2048
    ensures var u := Normalized(net, raw); u.Some? && |u.value| == 2049 && Normalized(net, u.value) == None
  {
    net := OneAddress();
    OneAddressIsLawful();
    PathIsValid(2024);
    raw := SchemeHead(Http) + (Bracketed(SHORT) + Path(2024));
    OutgrowsTheLimit(net, SHORT, Path(2024));
  }

  // ---------------------------------------------------------------- the normalizer, step by step

  /** The first `://`. */
  function Separator(s: string): (r: Option<nat>)
    ensures r.Some? ==> SeparatorAt(s, r.value)
    ensures forall j :: 0 <= j < |s| && SeparatorAt(s, j) ==> r.Some? && r.value <= j
    decreases |s|
  {
    if s == [] then None
    else if SeparatorAt(s, 0) then Some(0)
    else
      var rest := Separator(s[1..]);
      assert forall j :: 1 <= j < |s| && SeparatorAt(s, j) ==> SeparatorAt(s[1..], j - 1);
      if rest.None? then None else Some(rest.value + 1)
  }

  function SchemeNamed(text: string): Option<Scheme> {
    if Lower(text) == "http" then Some(Http) else if Lower(text) == "https" then Some(Https) else None
  }

  lemma SeparatorOf(s: string, scheme: Scheme)
    requires StartsWith(s, scheme)
    ensures Separator(s) == Some(|SchemeText(scheme)|)
  {
    var n := |SchemeText(scheme)|;
    forall j | 0 <= j < n ensures !SeparatorAt(s, j) {
      assert Lower(s[..n])[j] == LowerChar(s[j]);
      assert IsLower(SchemeText(scheme)[j]);
    }
  }

  /** Searching for the separator finds the same scheme as looking at the start. */
  lemma SchemeBySeparator(s: string)
    ensures ReadScheme(s) == if Separator(s).None? then None else SchemeNamed(s[..Separator(s).value])
  {
    if StartsWith(s, Http) {
      SeparatorOf(s, Http);
    } else if StartsWith(s, Https) {
      SeparatorOf(s, Https);
    }
  }

  /** Splits an authority into the host to write and the port as given. */
  method SplitAuthority(net: Net, authority: string) returns (r: Option<(string, Option<string>)>)
    requires authority != ""
    ensures var hp := HostPort(net, authority);
            r == if hp.None? then None else Some((HostText(hp.value.0), hp.value.1))
  {
    var host, port, hasPort := authority, "", false;
    if authority[0] == '[' {
      var end := FirstOf(authority, "]");
      if end == |authority| { return None; }
      var address := net.ipv6(authority[1..end]);
      if address.None? { return None; }
      host := "[" + address.value + "]";
      var rest := authority[end + 1..];
      if rest != "" {
        if rest[0] != ':' { return None; }
        port, hasPort := rest[1..], true;
      }
    } else {
      var index := FirstOf(authority, ":");
      assert index == |authority| ==> authority[..index] == authority;
      if index < |authority| {
        if ':' in authority[index + 1..] { return None; }
        host, port, hasPort := authority[..index], authority[index + 1..], true;
      }
      var name := FooterDNSOrIPv4(net, host);
      if name.None? { return None; }
      host := name.value;
    }
    return Some((host, if hasPort then Some(port) else None));
  }

  /** Checks and rewrites an authority, dropping a default port. */
  method NormalizeAuthority(net: Net, scheme: Scheme, authority: string, suffix: string) returns (r: Option<string>)
    ensures var p := ParseRest(net, scheme, authority, suffix);
            r == if p.None? then None else Some(Authority(p.value))
  {
    if authority == "" || '@' in authority || '%' in authority { return None; }
    var split := SplitAuthority(net, authority);
    if split.None? || !net.hostParses(authority) || !net.suffixParses(suffix) { return None; }
    var host, port := split.value.0, split.value.1;
    assert host + "" == host;
    if port.Some? {
      if port.value == "" || !Digits(port.value) { return None; }
      var value := Value(port.value);
      if value > 65535 || value == 0 { return None; }
      if !(scheme == Http && value == 80) && !(scheme == Https && value == 443) {
        host := host + (":" + Decimal(value));
      }
    }
    return Some(host);
  }

  method NormalizeTrimmed(net: Net, raw: string) returns (r: Option<string>)
    ensures r == Written(ParseTrimmed(net, raw))
  {
    var bytesValid := FooterURLBytesValid(raw);
    if raw == "" || |raw| > 2048 || !bytesValid { return None; }
    SchemeBySeparator(raw);
    var separator := Separator(raw);
    if separator.None? { return None; }
    var scheme := SchemeNamed(raw[..separator.value]);
    if scheme.None? { return None; }
    assert separator.value == |SchemeText(scheme.value)|;
    var remainder := raw[separator.value + 3..];
    ParseTrimmedIs(net, raw, scheme.value, remainder);
    var index := FirstOf(remainder, "/?#");
    var authority, suffix := remainder[..index], remainder[index..];
    var text := NormalizeAuthority(net, scheme.value, authority, suffix);
    if text.None? { return None; }
    return Some(SchemeText(scheme.value) + "://" + (text.value + suffix));
  }

  method NormalizeFooterLinkURL(net: Net, raw: string) returns (r: Option<string>)
    ensures r == Normalized(net, raw)
  {
    if !TextValid(raw) { return None; }
    r := NormalizeTrimmed(net, Trim(raw));
  }
}
