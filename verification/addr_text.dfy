/**
  The text form of a SOCKS address and back, with the parts of Go's net and strconv packages it goes
  through. The text form of IPv6 is a parameter.
 */
module AddrText {
  import opened Bytes
  import opened Socks5

  const ZERO: byte := 48
  const DOT: byte := 46
  const COLON: byte := 58
  const OPEN_BRACKET: byte := 91
  const CLOSE_BRACKET: byte := 93

  /** How IPv6 is printed and parsed, and whether IPv4 fields may have leading zeros. */
  datatype Net = Net(print6: bytes -> bytes, parse6: bytes -> Option<bytes>, leadingZeros: bool)

  // ----- Decimal numbers -----

  predicate IsDigit(c: byte) {
    ZERO <= c <= 57
  }

  predicate AllDigits(s: bytes) {
    forall i :: 0 <= i < |s| ==> IsDigit(s[i])
  }

  /** strconv.Itoa of a number that is not negative. */
  function Itoa(n: nat): (s: bytes)
    ensures s != [] && AllDigits(s)
  {
    if n < 10 then [ZERO + n] else Itoa(n / 10) + [ZERO + n % 10]
  }

  function Number(s: bytes): nat
    requires AllDigits(s)
  {
    if s == [] then 0 else 10 * Number(s[..|s| - 1]) + (s[|s| - 1] - ZERO) as int
  }

  lemma {:induction false} NumberItoa(n: nat)
    ensures Number(Itoa(n)) == n
  {
    var s := Itoa(n);
    if n >= 10 {
      assert s[..|s| - 1] == Itoa(n / 10);
      NumberItoa(n / 10);
    }
  }

  lemma {:induction false} NoLeadingZero(n: nat)
    ensures n > 0 ==> Itoa(n)[0] != ZERO
    ensures |Itoa(n)| > 1 ==> n > 0
  {
    if n >= 10 {
      NoLeadingZero(n / 10);
    }
  }

  /** strconv.ParseUint(s, 10, 16) */
  function ParseUint16(s: bytes): Option<nat> {
    if s == [] || !AllDigits(s) || Number(s) > 0xFFFF then None else Some(Number(s))
  }

  // ----- IPv4 -----

  /** Length of the run of digits at the front. */
  function DigitRun(s: bytes): (n: nat)
    ensures n <= |s| && AllDigits(s[..n])
  {
    if s == [] || !IsDigit(s[0]) then 0
    else
      assert s[..1 + DigitRun(s[1..])] == [s[0]] + s[1..][..DigitRun(s[1..])];
      1 + DigitRun(s[1..])
  }

  lemma {:induction false} DigitRunIs(digits: bytes, rest: bytes)
    requires AllDigits(digits) && (rest == [] || !IsDigit(rest[0]))
    ensures DigitRun(digits + rest) == |digits|
  {
    if digits == [] {
      assert digits + rest == rest;
    } else {
      assert (digits + rest)[1..] == digits[1..] + rest;
      DigitRunIs(digits[1..], rest);
    }
  }

  function Dotted(ip: bytes): bytes
    requires ip != []
  {
    if |ip| == 1 then Itoa(ip[0]) else Itoa(ip[0]) + ([DOT] + Dotted(ip[1..]))
  }

  /** Length of a valid field at the front, or 0. */
  function FieldLength(s: bytes, leadingZeros: bool): (c: nat)
    ensures c <= |s| && AllDigits(s[..c]) && (c > 0 ==> Number(s[..c]) <= 0xFF)
  {
    var c := DigitRun(s);
    if c == 0 || Number(s[..c]) > 0xFF || (!leadingZeros && c > 1 && s[0] == ZERO) then 0 else c
  }

  lemma FieldPrinted(b: byte, rest: bytes, leadingZeros: bool)
    requires rest == [] || !IsDigit(rest[0])
    ensures var s, field := Itoa(b) + rest, Itoa(b);
            FieldLength(s, leadingZeros) == |field| && s[..|field|] == field && Number(field) == b
  {
    var s, field := Itoa(b) + rest, Itoa(b);
    NumberItoa(b);
    NoLeadingZero(b);
    DigitRunIs(field, rest);
    assert s[..|field|] == field && s[0] == field[0];
  }

  /** The loop of net's parseIPv4, for the given number of fields. */
  function ParseFields(s: bytes, fields: nat, leadingZeros: bool): (ip: Option<bytes>)
    requires fields > 0
    ensures ip.Some? ==> |ip.value| == fields
  {
    var c := FieldLength(s, leadingZeros);
    if c == 0 then None
    else if fields == 1 then if c == |s| then Some([Number(s[..c])]) else None
    else if c == |s| || s[c] != DOT then None
    else
      var more := ParseFields(s[c + 1..], fields - 1, leadingZeros);
      if more.None? then None else Some([Number(s[..c])] + more.value)
  }

  lemma ParseStep(s: bytes, c: nat, fields: nat, more: Option<bytes>, leadingZeros: bool)
    requires fields > 1 && FieldLength(s, leadingZeros) == c && 0 < c < |s| && s[c] == DOT
    requires more == ParseFields(s[c + 1..], fields - 1, leadingZeros) && more.Some?
    ensures ParseFields(s, fields, leadingZeros) == Some([Number(s[..c])] + more.value)
  {
  }

  lemma ParseOneMore(s: bytes, ip: bytes, rest: bytes, leadingZeros: bool)
    requires |ip| > 1 && s == Itoa(ip[0]) + ([DOT] + rest)
    requires ParseFields(rest, |ip| - 1, leadingZeros) == Some(ip[1..])
    ensures ParseFields(s, |ip|, leadingZeros) == Some(ip)
  {
    var c, more := |Itoa(ip[0])|, ip[1..];
    FieldPrinted(ip[0], [DOT] + rest, leadingZeros);
    assert s[c] == DOT && s[c + 1..] == rest && ip == [ip[0]] + more;
    ParseStep(s, c, |ip|, Some(more), leadingZeros);
  }

  lemma ParseLast(s: bytes, ip: bytes, leadingZeros: bool)
    requires |ip| == 1 && s == Itoa(ip[0])
    ensures ParseFields(s, 1, leadingZeros) == Some(ip)
  {
    FieldPrinted(ip[0], [], leadingZeros);
    assert s + [] == s && ip == [ip[0]];
  }

  lemma {:induction false} ParseDotted(ip: bytes, leadingZeros: bool)
    requires ip != []
    ensures ParseFields(Dotted(ip), |ip|, leadingZeros) == Some(ip)
    decreases |ip|
  {
    var s := Dotted(ip);
    if |ip| == 1 {
      ParseLast(s, ip, leadingZeros);
    } else {
      var rest := Dotted(ip[1..]);
      ParseDotted(ip[1..], leadingZeros);
      ParseOneMore(s, ip, rest, leadingZeros);
    }
  }

  /** net.ParseIP: the first '.' or ':' decides which form is meant. */
  function ParseIP(s: bytes, net: Net): Option<bytes> {
    var dot, colon := IndexByte(s, DOT), IndexByte(s, COLON);
    if dot >= 0 && (colon < 0 || dot < colon) then ParseFields(s, IPV4_LEN, net.leadingZeros)
    else if colon >= 0 then
      var ip := net.parse6(s);
      if ip.Some? && |ip.value| == IPV6_LEN then ip else None
    else None
  }

  /** IP.To4: an IPv4 address, also in its IPv6-mapped form. */
  function To4(ip: bytes): Option<bytes> {
    if |ip| == IPV4_LEN then Some(ip)
    else if |ip| == IPV6_LEN && ip[..12] == [0, 0, 0, 0, 0, 0, 0, 0, 0, 0, 255, 255] then Some(ip[12..])
    else None
  }

  // ----- Host and port -----

  function LastIndex(s: bytes, d: byte): (i: int)
    ensures -1 <= i < |s|
    ensures i < 0 ==> d !in s
    ensures 0 <= i ==> s[i] == d && d !in s[i + 1..]
  {
    if s == [] then -1
    else if s[|s| - 1] == d then |s| - 1
    else
      var i := LastIndex(s[..|s| - 1], d);
      assert i >= 0 ==> s[i + 1..] == s[..|s| - 1][i + 1..] + [s[|s| - 1]];
      i
  }

  function JoinHostPort(host: bytes, port: bytes): bytes {
    if COLON in host then [OPEN_BRACKET] + host + [CLOSE_BRACKET, COLON] + port
    else host + [COLON] + port
  }

  datatype HostPort = HostPort(host: bytes, port: bytes)

  /** net.SplitHostPort */
  function SplitHostPort(s: bytes): Option<HostPort> {
    var i := LastIndex(s, COLON);
    if i < 0 then None
    else if s[0] == OPEN_BRACKET then
      var end := IndexByte(s, CLOSE_BRACKET);
      if end < 0 || end + 1 != i || OPEN_BRACKET in s[1..] || CLOSE_BRACKET in s[end + 1..] then None
      else Some(HostPort(s[1..end], s[i + 1..]))
    else if COLON in s[..i] || OPEN_BRACKET in s || CLOSE_BRACKET in s then None
    else Some(HostPort(s[..i], s[i + 1..]))
  }

  predicate Bracketed(host: bytes) {
    OPEN_BRACKET in host || CLOSE_BRACKET in host
  }

  lemma {:induction false} LastColon(front: bytes, port: bytes)
    requires COLON !in port
    ensures LastIndex(front + [COLON] + port, COLON) == |front|
    decreases |port|
  {
    var s := front + [COLON] + port;
    if port != [] {
      assert s[..|s| - 1] == front + [COLON] + port[..|port| - 1];
      LastColon(front, port[..|port| - 1]);
    }
  }

  /** No colon and no bracket. */
  predicate Clean(port: bytes) {
    COLON !in port && !Bracketed(port)
  }

  lemma DigitsAreClean(port: bytes)
    requires AllDigits(port)
    ensures Clean(port)
  {
  }

  lemma SplitPlain(host: bytes, port: bytes)
    requires Clean(port) && COLON !in host
    ensures !Bracketed(host) ==> SplitHostPort(host + [COLON] + port) == Some(HostPort(host, port))
    ensures Bracketed(host) && SplitHostPort(host + [COLON] + port).Some? ==>
              SplitHostPort(host + [COLON] + port).value.host != host
  {
    var s := host + [COLON] + port;
    LastColon(host, port);
    assert s[..|host|] == host && s[|host| + 1..] == port;
    assert Bracketed(host) <==> Bracketed(s);
    assert host != [] ==> s[0] == host[0];
    if Bracketed(host) && s[0] == OPEN_BRACKET && SplitHostPort(s).Some? {
      assert |SplitHostPort(s).value.host| < |host|;
    }
  }

  /** The first closing bracket is the one in front of the port. */
  lemma BracketAt(host: bytes, behind: bytes)
    requires !Bracketed(host)
    ensures IndexByte([OPEN_BRACKET] + host + [CLOSE_BRACKET] + behind, CLOSE_BRACKET) == |host| + 1
  {
    var front := [OPEN_BRACKET] + host + [CLOSE_BRACKET];
    assert front[..|front| - 1] == [OPEN_BRACKET] + host;
    UptoIs(front, behind, CLOSE_BRACKET);
    var i := IndexByte(front + behind, CLOSE_BRACKET);
    assert (front + behind)[|host| + 1] == CLOSE_BRACKET;
    assert |Upto(front + behind, CLOSE_BRACKET)| == |front|;
  }

  lemma Between(host: bytes, port: bytes)
    requires Clean(port) && !Bracketed(host)
    ensures var s := [OPEN_BRACKET] + host + [CLOSE_BRACKET, COLON] + port;
            && s[1..|host| + 1] == host && s[|host| + 3..] == port
            && OPEN_BRACKET !in s[1..] && CLOSE_BRACKET !in s[|host| + 2..]
  {
    var s := [OPEN_BRACKET] + host + [CLOSE_BRACKET, COLON] + port;
    assert s[1..] == host + [CLOSE_BRACKET, COLON] + port && s[|host| + 2..] == [COLON] + port;
  }

  lemma SplitInBrackets(host: bytes, port: bytes)
    requires Clean(port) && !Bracketed(host)
    ensures SplitHostPort([OPEN_BRACKET] + host + [CLOSE_BRACKET, COLON] + port) ==
            Some(HostPort(host, port))
  {
    var front := [OPEN_BRACKET] + host + [CLOSE_BRACKET];
    var s := [OPEN_BRACKET] + host + [CLOSE_BRACKET, COLON] + port;
    assert s == front + [COLON] + port == front + ([COLON] + port);
    LastColon(front, port);
    BracketAt(host, [COLON] + port);
    Between(host, port);
  }

  lemma NestedBrackets(host: bytes, port: bytes)
    requires Clean(port) && Bracketed(host)
    ensures SplitHostPort([OPEN_BRACKET] + host + [CLOSE_BRACKET, COLON] + port) == None
  {
    var front := [OPEN_BRACKET] + host + [CLOSE_BRACKET];
    var s := [OPEN_BRACKET] + host + [CLOSE_BRACKET, COLON] + port;
    assert s == front + [COLON] + port;
    LastColon(front, port);
    if CLOSE_BRACKET in host {
      var k :| 0 <= k < |host| && host[k] == CLOSE_BRACKET;
      IndexAtMost(s, CLOSE_BRACKET, 1 + k);
    } else {
      assert s[1..] == host + [CLOSE_BRACKET, COLON] + port;
    }
  }

  /** Host and port come back exactly if the host has no brackets in it. */
  lemma SplitJoined(host: bytes, port: bytes)
    requires AllDigits(port)
    ensures !Bracketed(host) ==> SplitHostPort(JoinHostPort(host, port)) == Some(HostPort(host, port))
    ensures Bracketed(host) && SplitHostPort(JoinHostPort(host, port)).Some? ==>
              SplitHostPort(JoinHostPort(host, port)).value.host != host
  {
    DigitsAreClean(port);
    if COLON in host {
      if Bracketed(host) {
        NestedBrackets(host, port);
      } else {
        SplitInBrackets(host, port);
      }
    } else {
      SplitPlain(host, port);
    }
  }

  /** A text splits into host and port in just two forms: "host:port" and "[host]:port". */
  lemma SplitForms(s: bytes, host: bytes, port: bytes)
    ensures SplitHostPort(s) == Some(HostPort(host, port)) <==>
            && 58 !in port && 91 !in port && 93 !in port && 91 !in host && 93 !in host
            && ((58 !in host && s == host + [58] + port) || s == [91] + host + [93, 58] + port)
  {
    if Clean(port) && !Bracketed(host) {
      if COLON !in host {
        SplitPlain(host, port);
      }
      SplitInBrackets(host, port);
    }
    if SplitHostPort(s) == Some(HostPort(host, port)) {
      SplitOnly(s, host, port);
    }
  }

  lemma SplitOnly(s: bytes, host: bytes, port: bytes)
    requires SplitHostPort(s) == Some(HostPort(host, port))
    ensures Clean(port) && !Bracketed(host)
    ensures (COLON !in host && s == host + [COLON] + port) ||
            s == [OPEN_BRACKET] + host + [CLOSE_BRACKET, COLON] + port
  {
    if s[0] == OPEN_BRACKET {
      OnlyInBrackets(s, host, port);
    } else {
      var i := LastIndex(s, COLON);
      assert s == s[..i] + [COLON] + s[i + 1..];
      assert forall x :: x in host || x in port ==> x in s;
    }
  }

  lemma OnlyInBrackets(s: bytes, host: bytes, port: bytes)
    requires SplitHostPort(s) == Some(HostPort(host, port)) && s[0] == OPEN_BRACKET
    ensures Clean(port) && !Bracketed(host) && s == [OPEN_BRACKET] + host + [CLOSE_BRACKET, COLON] + port
  {
    var end := IndexByte(s, CLOSE_BRACKET);
    assert host == s[1..end] && port == s[end + 2..];
    InParts(s, end);
  }

  lemma InParts(s: bytes, end: nat)
    requires 0 < end && end + 1 < |s|
    ensures var host, port := s[1..end], s[end + 2..];
            && s == [s[0]] + host + [s[end], s[end + 1]] + port
            && s[..end] == [s[0]] + host && s[end + 1..] == [s[end + 1]] + port
            && s[1..] == host + [s[end], s[end + 1]] + port
  {
  }

  // ----- Addresses -----

  function PortNumber(port: bytes): nat
    requires |port| == 2
  {
    port[0] as int * 256 + port[1] as int
  }

  function PortBytes(n: nat): bytes {
    [n / 256 % 256, n % 256]
  }

  function HostText(d: Destination, net: Net): bytes
    requires d.Valid()
  {
    match d
    case IPv4(ip, _) => Dotted(ip)
    case Domain(name, _) => name
    case IPv6(ip, _) => net.print6(ip)
  }

  /** Addr.String */
  function Text(d: Destination, net: Net): bytes
    requires d.Valid()
  {
    JoinHostPort(HostText(d, net), Itoa(PortNumber(d.port)))
  }

  /** The destination a host and a port stand for. */
  function Meant(host: bytes, port: bytes, net: Net): (d: Destination)
    requires |host| <= 255 || ParseIP(host, net).Some?
    requires |port| == 2
    ensures d.Valid()
  {
    match ParseIP(host, net)
    case None => Domain(host, port)
    case Some(ip) =>
      match To4(ip)
      case Some(ip4) => IPv4(ip4, port)
      case None => IPv6(ip, port)
  }

  /** What ParseAddr makes of a text; None is its nil. */
  function Parse(s: bytes, net: Net): Option<Destination> {
    match SplitHostPort(s)
    case None => None
    case Some(HostPort(host, port)) =>
      if ParseIP(host, net).None? && |host| > 255 then None
      else
        match ParseUint16(port)
        case None => None
        case Some(n) => Some(Meant(host, PortBytes(n), net))
  }

  /** A fresh slice for type, host and port, with the port still missing. */
  method NewAddr(kind: bytes, host: bytes) returns (a: array<byte>)
    ensures fresh(a) && a.Length == |kind| + |host| + 2 && a[..a.Length - 2] == kind + host
  {
    a := new byte[|kind| + |host| + 2](_ => 0);
    forall i | 0 <= i < |kind| {
      a[i] := kind[i];
    }
    forall i | 0 <= i < |host| {
      a[|kind| + i] := host[i];
    }
  }

  method SetPort(a: array<byte>, portnum: nat)
    requires a.Length >= 2
    modifies a
    ensures a[..] == old(a[..a.Length - 2]) + PortBytes(portnum)
  {
    a[a.Length - 2], a[a.Length - 1] := portnum / 256 % 256, portnum % 256;
  }

  /** The fresh slice for a host, or null when the host is too long. */
  method HostAddr(host: bytes, net: Net) returns (a: array?<byte>)
    ensures a == null <==> ParseIP(host, net).None? && |host| > 255
    ensures a != null ==>
              && fresh(a) && a.Length >= 2
              && forall port :: |port| == 2 ==>
                   a[..a.Length - 2] + port == Meant(host, port, net).Encode()
  {
    var ip := ParseIP(host, net);
    if ip.Some? {
      var ip4 := To4(ip.value);
      if ip4.Some? {
        a := NewAddr([ATYP_IPV4], ip4.value);
      } else {
        a := NewAddr([ATYP_IPV6], ip.value);
      }
    } else if |host| > 255 {
      a := null;
    } else {
      a := NewAddr([ATYP_DOMAIN, |host|], host);
    }
  }

  /** ParseAddr: what it returns is the encoding of what Parse says. */
  method ParseAddr(s: bytes, net: Net) returns (addr: Option<bytes>)
    ensures addr == match Parse(s, net) case None => None case Some(d) => Some(d.Encode())
  {
    var split := SplitHostPort(s);
    if split == None {
      return None;
    }
    var a := HostAddr(split.value.host, net);
    if a == null {
      return None;
    }
    var portnum := ParseUint16(split.value.port);
    if portnum == None {
      return None;
    }
    SetPort(a, portnum.value);
    addr := Some(a[..]);
  }

  lemma PortRoundTrip(port: bytes)
    requires |port| == 2
    ensures ParseUint16(Itoa(PortNumber(port))) == Some(PortNumber(port))
    ensures PortBytes(PortNumber(port)) == port
  {
    NumberItoa(PortNumber(port));
  }

  lemma {:induction false} DottedCharacters(ip: bytes)
    requires ip != []
    ensures forall c :: c in Dotted(ip) ==> IsDigit(c) || c == DOT
    ensures |ip| > 1 ==> DOT in Dotted(ip)
  {
    if |ip| > 1 {
      DottedCharacters(ip[1..]);
    }
  }

  /** ParseAddr(a.String()) = a for every IPv4 address and port. */
  lemma IPv4RoundTrip(d: Destination, net: Net)
    requires d.Valid() && d.IPv4?
    ensures Parse(Text(d, net), net) == Some(d)
  {
    var host := Dotted(d.ip);
    DottedCharacters(d.ip);
    assert COLON !in host && !Bracketed(host);
    SplitJoined(host, Itoa(PortNumber(d.port)));
    ParseDotted(d.ip, net.leadingZeros);
    assert IndexByte(host, DOT) >= 0 && IndexByte(host, COLON) < 0;
    ParseSplit(Text(d, net), host, d.port, net);
  }

  /** What a split text parses to. */
  lemma ParseSplit(s: bytes, host: bytes, port: bytes, net: Net)
    requires |port| == 2 && (|host| <= 255 || ParseIP(host, net).Some?)
    requires SplitHostPort(s) == Some(HostPort(host, Itoa(PortNumber(port))))
    ensures Parse(s, net) == Some(Meant(host, port, net))
  {
    PortRoundTrip(port);
  }

  /** A domain can only come from a split with its name as the host. */
  lemma ParseDomain(s: bytes, d: Destination, net: Net)
    requires d.Domain? && Parse(s, net) == Some(d)
    ensures SplitHostPort(s).Some? && SplitHostPort(s).value.host == d.name
    ensures ParseIP(d.name, net).None?
  {
  }

  /**
    For a domain the text form leads back exactly if the name has no brackets in it and is not
    itself the text of an IP address.
   */
  lemma DomainRoundTrip(d: Destination, net: Net)
    requires d.Valid() && d.Domain?
    ensures Parse(Text(d, net), net) == Some(d) <==> !Bracketed(d.name) && ParseIP(d.name, net).None?
  {
    var s := Text(d, net);
    SplitJoined(d.name, Itoa(PortNumber(d.port)));
    if !Bracketed(d.name) {
      ParseSplit(s, d.name, d.port, net);
    }
    if Parse(s, net) == Some(d) {
      ParseDomain(s, d, net);
    }
  }

  /** Whatever is parsed is a well-formed address. */
  lemma ParsedIsValid(s: bytes, net: Net)
    requires Parse(s, net).Some?
    ensures Parse(s, net).value.Valid()
    ensures var a := Parse(s, net).value.Encode(); SplitAddr(a) == Some(a)
  {
    DecodeEncoded(Parse(s, net).value);
  }

  // ----- The text character by character -----

  /** The IPv4 address in an address of either length. */
  lemma MappedForm(ip: bytes, ip4: bytes)
    ensures To4(ip) == Some(ip4) <==>
            |ip4| == 4 && (ip == ip4 || ip == [0, 0, 0, 0, 0, 0, 0, 0, 0, 0, 255, 255] + ip4)
  {
    if |ip| == 16 && To4(ip).Some? {
      assert ip == ip[..12] + ip[12..];
    }
  }

  /** A dot before any colon means the dotted form, a colon before any dot the other one. */
  lemma FormMeant(front: bytes, behind: bytes, net: Net)
    requires 46 !in front && 58 !in front
    ensures ParseIP(front, net) == None
    ensures ParseIP(front + [46] + behind, net) == ParseFields(front + [46] + behind, 4, net.leadingZeros)
    ensures var ip := net.parse6(front + [58] + behind);
            ParseIP(front + [58] + behind, net) == if ip.Some? && |ip.value| == 16 then ip else None
  {
    FirstOf(front, 46, behind, 58);
    FirstOf(front, 58, behind, 46);
  }

  lemma FirstOf(front: bytes, d: byte, behind: bytes, other: byte)
    requires d !in front && other !in front && d != other
    ensures IndexByte(front + [d] + behind, d) == |front|
    ensures IndexByte(front + [d] + behind, other) < 0 || IndexByte(front + [d] + behind, other) > |front|
  {
    var s := front + [d] + behind;
    assert s[|front|] == d;
    IndexAtMost(s, d, |front|);
    assert forall i :: 0 <= i < |front| ==> s[i] == front[i];
  }

  /** A decimal number as people write it, and its value. */
  predicate IsDecimal(s: bytes) {
    && s != [] && (forall i :: 0 <= i < |s| ==> 48 <= s[i] <= 57)
    && (|s| > 1 ==> s[0] != 48)
  }

  function Decimal(s: bytes): int {
    if s == [] then 0 else 10 * Decimal(s[..|s| - 1]) + (s[|s| - 1] as int - 48)
  }

  lemma {:induction false} ItoaIsDecimal(n: nat)
    ensures IsDecimal(Itoa(n)) && Decimal(Itoa(n)) == n
  {
    NoLeadingZero(n);
    var s := Itoa(n);
    if n >= 10 {
      assert s[..|s| - 1] == Itoa(n / 10);
      ItoaIsDecimal(n / 10);
    }
  }

  /** An address in text: its four numbers between dots, a colon, and the port, high byte first. */
  lemma IPv4Text(a: byte, b: byte, c: byte, d: byte, p: byte, q: byte, net: Net)
    returns (fa: bytes, fb: bytes, fc: bytes, fd: bytes, port: bytes)
    ensures IsDecimal(fa) && IsDecimal(fb) && IsDecimal(fc) && IsDecimal(fd) && IsDecimal(port)
    ensures Decimal(fa) == a as int && Decimal(fb) == b as int && Decimal(fc) == c as int && Decimal(fd) == d as int
    ensures Decimal(port) == 256 * p as int + q as int
    ensures Text(IPv4([a, b, c, d], [p, q]), net) == QuadText(fa, fb, fc, fd, port)
  {
    fa, fb, fc, fd, port := Itoa(a), Itoa(b), Itoa(c), Itoa(d), Itoa(256 * p as int + q as int);
    ItoaIsDecimal(a);
    ItoaIsDecimal(b);
    ItoaIsDecimal(c);
    ItoaIsDecimal(d);
    ItoaIsDecimal(256 * p as int + q as int);
    DottedQuad(a, b, c, d);
    DottedCharacters([a, b, c, d]);
  }

  function QuadText(fa: bytes, fb: bytes, fc: bytes, fd: bytes, port: bytes): bytes {
    fa + [46] + fb + [46] + fc + [46] + fd + [58] + port
  }

  lemma DottedMore(x: byte, rest: bytes)
    requires rest != []
    ensures Dotted([x] + rest) == Itoa(x) + ([46] + Dotted(rest))
  {
    assert ([x] + rest)[1..] == rest;
  }

  lemma QuadRegrouped(fa: bytes, fb: bytes, fc: bytes, fd: bytes)
    ensures fa + ([46] + (fb + ([46] + (fc + ([46] + fd))))) == fa + [46] + fb + [46] + fc + [46] + fd
  {
  }

  lemma DottedQuad(a: byte, b: byte, c: byte, d: byte)
    ensures Dotted([a, b, c, d]) == Itoa(a) + [46] + Itoa(b) + [46] + Itoa(c) + [46] + Itoa(d)
  {
    DottedMore(c, [d]);
    DottedMore(b, [c, d]);
    DottedMore(a, [b, c, d]);
    assert [c] + [d] == [c, d] && [b] + [c, d] == [b, c, d] && [a] + [b, c, d] == [a, b, c, d];
    QuadRegrouped(Itoa(a), Itoa(b), Itoa(c), Itoa(d));
  }

  /** A domain stands as it is, in brackets if it has a colon in it; so does the text of an IPv6 address. */
  lemma HostPortText(d: Destination, p: byte, q: byte, net: Net) returns (port: bytes)
    requires d.Valid() && !d.IPv4? && d.port == [p, q]
    ensures IsDecimal(port) && Decimal(port) == 256 * p as int + q as int
    ensures var host := if d.Domain? then d.name else net.print6(d.ip);
            Text(d, net) == if 58 in host then [91] + host + [93, 58] + port else host + [58] + port
  {
    port := Itoa(256 * p as int + q as int);
    ItoaIsDecimal(256 * p as int + q as int);
  }

  lemma {:induction false} NumberIsDecimal(s: bytes)
    requires AllDigits(s)
    ensures Number(s) as int == Decimal(s)
  {
    if s != [] {
      NumberIsDecimal(s[..|s| - 1]);
    }
  }

  /** What is taken for a port: digits of a value up to 65535, and nothing else. */
  lemma PortForms(s: bytes, n: nat)
    ensures ParseUint16(s) == Some(n) <==>
            s != [] && (forall i :: 0 <= i < |s| ==> 48 <= s[i] <= 57) && Decimal(s) == n <= 65535
  {
    if AllDigits(s) {
      NumberIsDecimal(s);
    }
  }

  /** The first field of an accepted text, and what is behind it. */
  lemma FirstField(s: bytes, b: byte, more: bytes, leadingZeros: bool) returns (field: bytes, rest: bytes)
    requires more != [] && ParseFields(s, |more| + 1, leadingZeros) == Some([b] + more)
    ensures s == field + [46] + rest && FieldForm(field, b, leadingZeros)
    ensures ParseFields(rest, |more|, leadingZeros) == Some(more)
  {
    var c := FieldLength(s, leadingZeros);
    field, rest := s[..c], s[c + 1..];
    NumberIsDecimal(field);
    var parsed := ParseFields(rest, |more|, leadingZeros).value;
    assert [Number(field)] + parsed == [b] + more;
    assert ([Number(field)] + parsed)[1..] == parsed && ([b] + more)[1..] == more;
    assert ([Number(field)] + parsed)[0] == b;
  }

  lemma LastField(s: bytes, b: byte, leadingZeros: bool)
    requires ParseFields(s, 1, leadingZeros) == Some([b])
    ensures FieldForm(s, b, leadingZeros)
  {
    assert s[..|s|] == s;
    NumberIsDecimal(s);
  }

  /** Numbers between dots. */
  ghost predicate DottedForm(s: bytes, ip: bytes, leadingZeros: bool)
    requires ip != []
    decreases |ip|
  {
    if |ip| == 1 then FieldForm(s, ip[0], leadingZeros)
    else
      exists field, rest :: s == field + [46] + rest && FieldForm(field, ip[0], leadingZeros)
                            && DottedForm(rest, ip[1..], leadingZeros)
  }

  /** What is taken for the dotted form: as many numbers up to 255 between dots as asked for. */
  lemma {:induction false} OnlyDotted(s: bytes, ip: bytes, leadingZeros: bool)
    requires ip != [] && ParseFields(s, |ip|, leadingZeros) == Some(ip)
    ensures DottedForm(s, ip, leadingZeros)
    decreases |ip|
  {
    if |ip| == 1 {
      assert ip == [ip[0]];
      LastField(s, ip[0], leadingZeros);
    } else {
      assert ip == [ip[0]] + ip[1..];
      var field, rest := FirstField(s, ip[0], ip[1..], leadingZeros);
      OnlyDotted(rest, ip[1..], leadingZeros);
    }
  }

  /** A field that stands for `b`. */
  predicate FieldForm(part: bytes, b: byte, leadingZeros: bool) {
    && part != [] && (forall i :: 0 <= i < |part| ==> 48 <= part[i] <= 57)
    && Decimal(part) == b as int && (leadingZeros || IsDecimal(part))
  }
}
