/** SOCKS5 addresses and the server side of the negotiation (RFC 1928, sections 3 to 6). */
module Socks5 {
  import opened Bytes
  import opened Io
  import opened Records
  import opened ReadEnd

  const CMD_CONNECT: byte := 1
  const CMD_UDP: byte := 3
  const ATYP_IPV4: byte := 1
  const ATYP_DOMAIN: byte := 3
  const ATYP_IPV6: byte := 4
  const IPV4_LEN := 4
  const IPV6_LEN := 16
  const MAX_ADDR_LEN := 1 + 1 + 255 + 2

  const METHOD_REPLY: bytes := [5, 0]
  const CONNECT_REPLY: bytes := [5, 0, 0, 1, 0, 0, 0, 0, 0, 0]

  /** A destination as section 5 of RFC 1928 has it. */
  datatype Destination =
    | IPv4(ip: bytes, port: bytes)
    | Domain(name: bytes, port: bytes)
    | IPv6(ip: bytes, port: bytes)
  {
    predicate Valid() {
      && |port| == 2
      && match this
         case IPv4(ip, _) => |ip| == IPV4_LEN
         case Domain(name, _) => |name| <= 255
         case IPv6(ip, _) => |ip| == IPV6_LEN
    }

    function Encode(): bytes
      requires Valid()
    {
      match this
      case IPv4(ip, port) => [ATYP_IPV4] + ip + port
      case Domain(name, port) => [ATYP_DOMAIN, |name|] + name + port
      case IPv6(ip, port) => [ATYP_IPV6] + ip + port
    }
  }

  /** The address at the front of b, by the lengths in it. */
  function SplitAddr(b: bytes): (a: Option<bytes>)
    ensures a.Some? ==> a.value <= b
  {
    if |b| < 1 then None
    else if b[0] == ATYP_DOMAIN then
      if |b| < 2 || |b| < 1 + 1 + b[1] as int + 2 then None else Some(b[..1 + 1 + b[1] as int + 2])
    else if b[0] == ATYP_IPV4 then
      if |b| < 1 + IPV4_LEN + 2 then None else Some(b[..1 + IPV4_LEN + 2])
    else if b[0] == ATYP_IPV6 then
      if |b| < 1 + IPV6_LEN + 2 then None else Some(b[..1 + IPV6_LEN + 2])
    else None
  }

  /** A destination is recovered from its encoding and whatever follows. */
  lemma SplitEncoded(d: Destination, rest: bytes)
    requires d.Valid()
    ensures SplitAddr(d.Encode() + rest) == Some(d.Encode())
  {
    var b := d.Encode() + rest;
    match d
    case IPv4(ip, port) => assert b[..7] == d.Encode();
    case Domain(name, port) => assert b[..|name| + 4] == d.Encode();
    case IPv6(ip, port) => assert b[..19] == d.Encode();
  }

  function DecodeAddr(a: bytes): (d: Destination)
    requires SplitAddr(a) == Some(a)
  {
    var n := |a|;
    if a[0] == ATYP_DOMAIN then Domain(a[2..n - 2], a[n - 2..])
    else if a[0] == ATYP_IPV4 then IPv4(a[1..5], a[5..])
    else IPv6(a[1..17], a[17..])
  }

  lemma DecodeEncoded(d: Destination)
    requires d.Valid()
    ensures SplitAddr(d.Encode()) == Some(d.Encode()) && DecodeAddr(d.Encode()) == d
  {
    SplitEncoded(d, []);
    assert d.Encode() + [] == d.Encode();
  }

  /** What SplitAddr accepts is exactly the encodings of destinations. */
  lemma SplitDecodes(b: bytes)
    requires SplitAddr(b).Some?
    ensures var a := SplitAddr(b).value;
            SplitAddr(a) == Some(a) && DecodeAddr(a).Valid() && DecodeAddr(a).Encode() == a
  {
    var a := SplitAddr(b).value;
    var n := |a|;
    assert a[..n] == a;
    if b[0] == ATYP_DOMAIN {
      assert a == [a[0], a[1]] + a[2..n - 2] + a[n - 2..];
    } else if b[0] == ATYP_IPV4 {
      assert a == [a[0]] + a[1..5] + a[5..];
    } else {
      assert a == [a[0]] + a[1..17] + a[17..];
    }
  }

  lemma SplitStable(b: bytes, rest: bytes)
    requires SplitAddr(b).Some?
    ensures SplitAddr(SplitAddr(b).value + rest) == SplitAddr(b)
  {
    SplitDecodes(b);
    SplitEncoded(DecodeAddr(SplitAddr(b).value), rest);
  }

  /** No encoding is the beginning of another. */
  lemma PrefixFree(c: Destination, d: Destination)
    requires c.Valid() && d.Valid() && c.Encode() <= d.Encode()
    ensures c == d
  {
    var rest := d.Encode()[|c.Encode()|..];
    assert d.Encode() == c.Encode() + rest;
    SplitEncoded(c, rest);
    DecodeEncoded(c);
    DecodeEncoded(d);
  }

  /** io.ReadFull(r, b[from:to]), where b[:from] is what has been read of `all` so far. */
  method ReadOn(re: ReadEnd, b: array<byte>, from: nat, to: nat, ghost all: Outcome) returns (e: Error)
    requires re.Valid() && b !in re.Repr() && from <= to <= b.Length
    requires all == Before(b[..from], re.Incoming())
    modifies re.Repr(), b
    ensures re.Valid()
    ensures e == Nil <==> to <= |all.text|
    ensures e == Nil ==> all == Before(b[..to], re.Incoming()) && b[..from] == old(b[..from])
    ensures e != Nil ==> from <= |all.text| && e == Cut(Outcome(all.text[from..], all.err))
  {
    ghost var front, behind, got := b[..from], re.Incoming(), [];
    assert all.text[from..] == behind.text;
    e, got := re.ReadFull(b, from, to);
    if e == Nil {
      BeforeBefore(front, got, re.Incoming());
      assert b[..from] == b[..to][..from];
    }
  }

  /** The error of a stream that does not start with an address. */
  ghost function AddrError(all: Outcome): Error {
    if all.text == [] then all.err
    else if all.text[0] == ATYP_DOMAIN then
      if |all.text| < 2 then all.err else Cut(Outcome(all.text[2..], all.err))
    else if all.text[0] == ATYP_IPV4 || all.text[0] == ATYP_IPV6 then Cut(Outcome(all.text[1..], all.err))
    else AddressNotSupported
  }

  /** The bytes of an address behind its type; b[..n] is then the address. */
  method ReadBody(re: ReadEnd, b: array<byte>, ghost all: Outcome) returns (n: nat, e: Error)
    requires re.Valid() && b !in re.Repr() && MAX_ADDR_LEN <= b.Length
    requires all == Before(b[..1], re.Incoming())
    modifies re.Repr(), b
    ensures re.Valid()
    ensures e == Nil <==> SplitAddr(all.text).Some?
    ensures e == Nil ==>
              n <= b.Length && all == Before(b[..n], re.Incoming()) && SplitAddr(all.text) == Some(all.text[..n])
    ensures e != Nil ==> e == AddrError(all)
  {
    assert b[..1][0] == b[0] == all.text[0];
    n, e := 0, AddressNotSupported;
    if b[0] == ATYP_DOMAIN {
      e := ReadOn(re, b, 1, 2, all);
      if e != Nil {
        return;
      }
      assert b[..2][1] == b[1] == all.text[1];
      n := 1 + 1 + b[1] as int + 2;
      e := ReadOn(re, b, 2, n, all);
    } else if b[0] == ATYP_IPV4 {
      n := 1 + IPV4_LEN + 2;
      e := ReadOn(re, b, 1, n, all);
    } else if b[0] == ATYP_IPV6 {
      n := 1 + IPV6_LEN + 2;
      e := ReadOn(re, b, 1, n, all);
    }
  }

  /** Reads just the bytes of one address; `addr` is the front of b. */
  method ReadAddrInto(re: ReadEnd, b: array<byte>) returns (addr: bytes, e: Error)
    requires re.Valid() && b !in re.Repr()
    modifies re.Repr(), b
    ensures re.Valid()
    ensures b.Length < 259 ==> e == ShortBuffer && re.Incoming() == old(re.Incoming())
    ensures b.Length >= 259 ==> (e == Nil <==> SplitAddr(old(re.Incoming()).text).Some?)
    ensures b.Length >= 259 && e == Nil ==>
              && SplitAddr(old(re.Incoming()).text) == Some(addr) && addr <= b[..]
              && old(re.Incoming()) == Before(addr, re.Incoming())
    ensures b.Length >= 259 && e != Nil ==> e == AddrError(old(re.Incoming()))
  {
    if b.Length < MAX_ADDR_LEN {
      return [], ShortBuffer;
    }
    ghost var all := re.Incoming();
    assert b[..0] + all.text == all.text;
    e := ReadOn(re, b, 0, 1, all);
    if e != Nil {
      return [], e;
    }
    var n;
    n, e := ReadBody(re, b, all);
    if e != Nil {
      return [], e;
    }
    addr := b[..n];
  }

  method ReadAddr(re: ReadEnd) returns (addr: bytes, e: Error)
    requires re.Valid()
    modifies re.Repr()
    ensures re.Valid()
    ensures e == Nil <==> SplitAddr(old(re.Incoming()).text).Some?
    ensures e == Nil ==>
              && SplitAddr(old(re.Incoming()).text) == Some(addr)
              && old(re.Incoming()) == Before(addr, re.Incoming())
    ensures e != Nil ==> e == AddrError(old(re.Incoming()))
  {
    var b := new byte[MAX_ADDR_LEN](_ => 0);
    addr, e := ReadAddrInto(re, b);
  }

  /** How a negotiation ends: agreed on an address, with an error value for the caller, or not. */
  datatype Negotiation =
    | Agreed(addr: bytes, info: Error, rest: bytes, replies: bytes)
    | Refused(replies: bytes)

  /**
    The negotiation as a parser of the client's whole stream. `udp` is the reply address of a server
    with UDP enabled. Version, reserved byte and the offered methods are not looked at.
   */
  function Negotiate(input: bytes, udp: Option<bytes>): Negotiation {
    if |input| < 2 || |input| < 2 + input[1] as int then Refused([])
    else
      var request := input[2 + input[1] as int..];
      if |request| < 3 || SplitAddr(request[3..]).None? then Refused(METHOD_REPLY)
      else
        var cmd, addr := request[1], SplitAddr(request[3..]).value;
        var rest := request[3 + |addr|..];
        if cmd == CMD_CONNECT then Agreed(addr, Nil, rest, METHOD_REPLY + CONNECT_REPLY)
        else if cmd == CMD_UDP && udp.Some? then
          Agreed(addr, InfoUDPAssociate, rest, METHOD_REPLY + ([5, 0, 0] + udp.value))
        else Refused(METHOD_REPLY)
  }

  /** A CONNECT negotiation with whatever follows. */
  function ConnectStream(
      ver: byte, methods: bytes, ver2: byte, rsv: byte, d: Destination, payload: bytes): bytes
    requires |methods| <= 255 && d.Valid()
  {
    [ver, |methods|] + methods + ([ver2, CMD_CONNECT, rsv] + (d.Encode() + payload))
  }

  /** The parts read off a stream, as Negotiate sees them. */
  lemma NegotiateParts(greeting: bytes, head: bytes, addr: bytes, rest: bytes, udp: Option<bytes>)
    requires |greeting| >= 2 && |greeting| == 2 + greeting[1] as int && |head| == 3
    requires SplitAddr(addr + rest) == Some(addr)
    ensures Negotiate(greeting + (head + (addr + rest)), udp) ==
            if head[1] == CMD_CONNECT then Agreed(addr, Nil, rest, METHOD_REPLY + CONNECT_REPLY)
            else if head[1] == CMD_UDP && udp.Some? then
              Agreed(addr, InfoUDPAssociate, rest, METHOD_REPLY + ([5, 0, 0] + udp.value))
            else Refused(METHOD_REPLY)
  {
    var request := head + (addr + rest);
    assert (greeting + request)[2 + greeting[1] as int..] == request;
    assert request[3..] == addr + rest && request[3 + |addr|..] == rest;
  }

  /** On a CONNECT exactly the negotiation is taken and the address is the one sent. */
  lemma NegotiateConnect(
      ver: byte, methods: bytes, ver2: byte, rsv: byte, d: Destination, payload: bytes,
      udp: Option<bytes>)
    requires |methods| <= 255 && d.Valid()
    ensures Negotiate(ConnectStream(ver, methods, ver2, rsv, d, payload), udp) ==
            Agreed(d.Encode(), Nil, payload, METHOD_REPLY + CONNECT_REPLY)
  {
    SplitEncoded(d, payload);
    NegotiateParts([ver, |methods|] + methods, [ver2, CMD_CONNECT, rsv], d.Encode(), payload, udp);
  }

  /** What is agreed on is the address in front of the rest. */
  lemma AgreedAddr(input: bytes, udp: Option<bytes>)
    requires Negotiate(input, udp).Agreed?
    ensures var agreed := Negotiate(input, udp);
            SplitAddr(agreed.addr + agreed.rest) == Some(agreed.addr)
  {
    var agreed := Negotiate(input, udp);
    var request := input[2 + input[1] as int..];
    assert request[3..] == agreed.addr + agreed.rest;
  }

  /** A request that holds an address, in its parts. */
  lemma RequestParts(request: bytes) returns (d: Destination)
    requires |request| >= 3 && SplitAddr(request[3..]).Some?
    ensures var addr := SplitAddr(request[3..]).value;
            && d.Valid() && d.Encode() == addr
            && request == [request[0], request[1], request[2]] + (addr + request[3 + |addr|..])
  {
    SplitDecodes(request[3..]);
    var addr := SplitAddr(request[3..]).value;
    d := DecodeAddr(addr);
    assert request[3..] == addr + request[3 + |addr|..];
  }

  /** Only such streams are agreed to as CONNECT. */
  lemma NegotiateOnlyConnect(input: bytes, udp: Option<bytes>)
    returns (ver: byte, methods: bytes, ver2: byte, rsv: byte, d: Destination)
    requires Negotiate(input, udp).Agreed? && Negotiate(input, udp).info == Nil
    ensures |methods| <= 255 && d.Valid() && d.Encode() == Negotiate(input, udp).addr
    ensures input == ConnectStream(ver, methods, ver2, rsv, d, Negotiate(input, udp).rest)
  {
    hide SplitAddr, Destination.Encode, Destination.Valid;
    var k: int := input[1];
    var request := input[2 + k..];
    ver, methods, ver2, rsv := input[0], input[2..2 + k], request[0], request[2];
    d := RequestParts(request);
    assert input == [ver, |methods|] + methods + request;
  }

  // ----- The negotiation byte by byte, as RFC 1928 gives it -----

  /** What follows the greeting of a client that offers any methods. */
  lemma Greeted(methods: bytes, request: bytes, udp: Option<bytes>)
    requires |methods| <= 255 && |request| >= 3 && SplitAddr(request[3..]).Some?
    ensures var addr := SplitAddr(request[3..]).value;
            var rest := request[3 + |addr|..];
            Negotiate([5, |methods|] + methods + request, udp) ==
            if request[1] == 1 then Agreed(addr, Nil, rest, [5, 0] + [5, 0, 0, 1, 0, 0, 0, 0, 0, 0])
            else if request[1] == 3 && udp.Some? then
              Agreed(addr, InfoUDPAssociate, rest, [5, 0] + ([5, 0, 0] + udp.value))
            else Refused([5, 0])
  {
    var greeting := [5, |methods|] + methods;
    assert (greeting + request)[2 + greeting[1] as int..] == request;
  }

  /** An address of each type, in front of anything. */
  lemma AddrBytes(ip4: bytes, ip6: bytes, name: bytes, port: bytes, rest: bytes)
    requires |ip4| == 4 && |ip6| == 16 && |name| <= 255 && |port| == 2
    ensures SplitAddr([1] + ip4 + port + rest) == Some([1] + ip4 + port)
    ensures SplitAddr([3, |name|] + name + port + rest) == Some([3, |name|] + name + port)
    ensures SplitAddr([4] + ip6 + port + rest) == Some([4] + ip6 + port)
  {
    SplitEncoded(IPv4(ip4, port), rest);
    SplitEncoded(Domain(name, port), rest);
    SplitEncoded(IPv6(ip6, port), rest);
  }

  /** No other type is an address, and none is cut short. */
  lemma NoAddrBytes(b: bytes)
    ensures b != [] && b[0] != 1 && b[0] != 3 && b[0] != 4 ==> SplitAddr(b) == None
    ensures b != [] && b[0] == 1 && |b| < 7 ==> SplitAddr(b) == None
    ensures b != [] && b[0] == 4 && |b| < 19 ==> SplitAddr(b) == None
    ensures |b| >= 2 && b[0] == 3 && |b| < 4 + b[1] as int ==> SplitAddr(b) == None
    ensures |b| < 2 ==> SplitAddr(b) == None
  {
  }

  /**
    A CONNECT is agreed to with the address as it came and the two replies of sections 3 and 6; so is,
    where it is enabled, a UDP ASSOCIATE with another reply; every other command is refused behind the
    method reply, BIND included.
   */
  lemma NegotiateBytes(methods: bytes, ver: byte, cmd: byte, rsv: byte, addr: bytes, payload: bytes, udp: Option<bytes>)
    requires |methods| <= 255 && SplitAddr(addr + payload) == Some(addr)
    ensures Negotiate([5, |methods|] + methods + ([ver, cmd, rsv] + (addr + payload)), udp) ==
            if cmd == 1 then Agreed(addr, Nil, payload, [5, 0] + [5, 0, 0, 1, 0, 0, 0, 0, 0, 0])
            else if cmd == 3 && udp.Some? then
              Agreed(addr, InfoUDPAssociate, payload, [5, 0] + ([5, 0, 0] + udp.value))
            else Refused([5, 0])
  {
    var request := [ver, cmd, rsv] + (addr + payload);
    assert request[3..] == addr + payload && request[3 + |addr|..] == payload;
    Greeted(methods, request, udp);
  }

  /** CONNECT to an address of each type. */
  lemma ConnectBytes(
      methods: bytes, rsv: byte, ip4: bytes, ip6: bytes, name: bytes, port: bytes, payload: bytes,
      udp: Option<bytes>)
    requires |methods| <= 255 && |ip4| == 4 && |ip6| == 16 && |name| <= 255 && |port| == 2
    ensures Negotiate([5, |methods|] + methods + ([5, 1, rsv] + (([1] + ip4 + port) + payload)), udp) ==
            Agreed([1] + ip4 + port, Nil, payload, [5, 0] + [5, 0, 0, 1, 0, 0, 0, 0, 0, 0])
    ensures Negotiate([5, |methods|] + methods + ([5, 1, rsv] + (([3, |name|] + name + port) + payload)), udp) ==
            Agreed([3, |name|] + name + port, Nil, payload, [5, 0] + [5, 0, 0, 1, 0, 0, 0, 0, 0, 0])
    ensures Negotiate([5, |methods|] + methods + ([5, 1, rsv] + (([4] + ip6 + port) + payload)), udp) ==
            Agreed([4] + ip6 + port, Nil, payload, [5, 0] + [5, 0, 0, 1, 0, 0, 0, 0, 0, 0])
  {
    AddrBytes(ip4, ip6, name, port, payload);
    NegotiateBytes(methods, 5, 1, rsv, [1] + ip4 + port, payload, udp);
    NegotiateBytes(methods, 5, 1, rsv, [3, |name|] + name + port, payload, udp);
    NegotiateBytes(methods, 5, 1, rsv, [4] + ip6 + port, payload, udp);
  }

  /** A greeting, and whether a stream starts with a whole one. */
  predicate HasGreeting(text: bytes) {
    |text| >= 2 && |text| >= 2 + text[1] as int
  }

  predicate HasRequest(text: bytes) {
    |text| >= 3 && SplitAddr(text[3..]).Some?
  }

  /** The error of a stream without a whole greeting, and of what follows a greeting but is no request. */
  ghost function GreetingError(o: Outcome): Error {
    if |o.text| < 2 then Cut(o) else Cut(Outcome(o.text[2..], o.err))
  }

  ghost function RequestError(o: Outcome): Error {
    if |o.text| < 3 then Cut(o) else AddrError(Outcome(o.text[3..], o.err))
  }

  /** The error a client is refused with. */
  ghost function RefusalError(start: Outcome): Error {
    if !HasGreeting(start.text) then GreetingError(start)
    else
      var request := Outcome(start.text[2 + start.text[1] as int..], start.err);
      if !HasRequest(request.text) then RequestError(request) else CommandNotSupported
  }

  /** The errors of a client that sends a whole greeting, and then a command or an address nobody knows. */
  lemma RefusedBytes(
      methods: bytes, ver: byte, cmd: byte, rsv: byte, addr: bytes, payload: bytes, end: Error)
    requires |methods| <= 255
    ensures var start := Outcome([5, |methods|] + methods + ([ver, cmd, rsv] + (addr + payload)), end);
            && (SplitAddr(addr + payload) == Some(addr) ==> RefusalError(start) == CommandNotSupported)
            && (addr != [] && addr[0] != 1 && addr[0] != 3 && addr[0] != 4 ==>
                  RefusalError(start) == AddressNotSupported)
  {
    var greeting, request := [5, |methods|] + methods, [ver, cmd, rsv] + (addr + payload);
    assert (greeting + request)[2 + greeting[1] as int..] == request;
    assert request[3..] == addr + payload;
  }

  /** Version, number of methods, methods: each part is read over the one before. */
  method ReadGreeting(re: ReadEnd, buf: array<byte>) returns (e: Error, ghost got: bytes)
    requires re.Valid() && buf !in re.Repr() && buf.Length == MAX_ADDR_LEN
    modifies re.Repr(), buf
    ensures re.Valid()
    ensures e == Nil <==> HasGreeting(old(re.Incoming()).text)
    ensures e != Nil ==> e == GreetingError(old(re.Incoming()))
    ensures e == Nil ==>
              |got| >= 2 && |got| == 2 + got[1] as int && old(re.Incoming()) == Before(got, re.Incoming())
  {
    ghost var all := re.Incoming();
    assert buf[..0] + all.text == all.text && all.text[0..] == all.text;
    e := ReadOn(re, buf, 0, 2, all);
    got := buf[..2];
    if e != Nil {
      return;
    }
    assert got[1] == buf[1] == all.text[1];
    var nmethods: int := buf[1];
    ghost var behind := re.Incoming();
    assert behind.text == all.text[2..] && behind.text[0..] == behind.text;
    assert buf[..0] + behind.text == behind.text;
    e := ReadOn(re, buf, 0, nmethods, behind);
    if e == Nil {
      BeforeBefore(got, buf[..nmethods], re.Incoming());
      got := got + buf[..nmethods];
    }
  }

  /** Version, command, reserved byte and the address, which is the front of the buffer. */
  method ReadRequest(re: ReadEnd, buf: array<byte>)
    returns (cmd: byte, addr: bytes, e: Error, ghost head: bytes)
    requires re.Valid() && buf !in re.Repr() && buf.Length == MAX_ADDR_LEN
    modifies re.Repr(), buf
    ensures re.Valid()
    ensures e == Nil <==> HasRequest(old(re.Incoming()).text)
    ensures e != Nil ==> e == RequestError(old(re.Incoming()))
    ensures e == Nil ==>
              && |head| == 3 && cmd == head[1]
              && SplitAddr(addr + re.Incoming().text) == Some(addr)
              && old(re.Incoming()) == Before(head, Before(addr, re.Incoming()))
  {
    ghost var all := re.Incoming();
    assert buf[..0] + all.text == all.text && all.text[0..] == all.text;
    e := ReadOn(re, buf, 0, 3, all);
    head := buf[..3];
    if e != Nil {
      return 0, [], e, head;
    }
    assert head[1] == buf[1];
    cmd := buf[1];
    assert re.Incoming().text == all.text[3..];
    addr, e := ReadAddrInto(re, buf);
  }

  /** Answers a request. */
  method Reply(wr: Sink, cmd: byte, a: bytes, udp: Option<bytes>) returns (addr: bytes, e: Error)
    modifies wr
    ensures wr.reliable ==> Answered(cmd, a, udp, addr, e, old(wr.data), wr.data)
    ensures e == Nil ==> addr == a && cmd == CMD_CONNECT
    ensures e == Nil && wr.strict ==> wr.data == old(wr.data) + CONNECT_REPLY
    ensures old(wr.data) <= wr.data
  {
    var n;
    if cmd == CMD_CONNECT {
      n, e := wr.Write(CONNECT_REPLY);
      assert CONNECT_REPLY[..|CONNECT_REPLY|] == CONNECT_REPLY;
    } else if cmd == CMD_UDP {
      if udp == None {
        return [], CommandNotSupported;
      }
      var reply := [5, 0, 0] + udp.value;
      n, e := wr.Write(reply);
      if e != Nil {
        return [], CommandNotSupported;
      }
      assert reply[..|reply|] == reply;
      e := InfoUDPAssociate;
    } else {
      return [], CommandNotSupported;
    }
    addr := a;
  }

  ghost predicate Answered(
    cmd: byte, a: bytes, udp: Option<bytes>, addr: bytes, e: Error, before: bytes, after: bytes)
  {
    if cmd == CMD_CONNECT then addr == a && e == Nil && after == before + CONNECT_REPLY
    else if cmd == CMD_UDP && udp.Some? then
      addr == a && e == InfoUDPAssociate && after == before + ([5, 0, 0] + udp.value)
    else e == CommandNotSupported && after == before
  }

  /** The first round: greeting and method reply. */
  method Greet(re: ReadEnd, wr: Sink, buf: array<byte>) returns (e: Error, ghost got: bytes)
    requires re.Valid() && wr !in re.Repr()
    requires buf !in re.Repr() && buf.Length == MAX_ADDR_LEN
    modifies re.Repr(), buf, wr
    ensures re.Valid() && old(wr.data) <= wr.data
    ensures wr.reliable ==> (e == Nil <==> HasGreeting(old(re.Incoming()).text))
    ensures wr.reliable && e != Nil ==> e == GreetingError(old(re.Incoming()))
    ensures wr.reliable ==> wr.data == if e == Nil then old(wr.data) + METHOD_REPLY else old(wr.data)
    ensures wr.strict && e == Nil ==> wr.data == old(wr.data) + METHOD_REPLY
    ensures e == Nil ==>
              |got| >= 2 && |got| == 2 + got[1] as int && old(re.Incoming()) == Before(got, re.Incoming())
  {
    e, got := ReadGreeting(re, buf);
    if e == Nil {
      var n;
      n, e := wr.Write(METHOD_REPLY);
      assert METHOD_REPLY[..2] == METHOD_REPLY;
    }
  }

  /** The second round: request and answer. */
  method Serve(re: ReadEnd, wr: Sink, buf: array<byte>, udp: Option<bytes>)
    returns (addr: bytes, e: Error, ghost head: bytes, ghost a: bytes)
    requires re.Valid() && wr !in re.Repr()
    requires buf !in re.Repr() && buf.Length == MAX_ADDR_LEN
    modifies re.Repr(), buf, wr
    ensures re.Valid() && old(wr.data) <= wr.data
    ensures !HasRequest(old(re.Incoming()).text) ==>
              e == RequestError(old(re.Incoming())) && e != Nil && wr.data == old(wr.data)
    ensures HasRequest(old(re.Incoming()).text) ==>
              && |head| == 3 && SplitAddr(a + re.Incoming().text) == Some(a)
              && old(re.Incoming()) == Before(head, Before(a, re.Incoming()))
              && (wr.reliable ==> Answered(head[1], a, udp, addr, e, old(wr.data), wr.data))
              && (e == Nil ==> addr == a && head[1] == CMD_CONNECT)
    ensures e == Nil && wr.strict ==> wr.data == old(wr.data) + CONNECT_REPLY
  {
    var cmd;
    cmd, addr, e, head := ReadRequest(re, buf);
    a := addr;
    if e == Nil {
      addr, e := Reply(wr, cmd, addr, udp);
    }
  }

  /** What the caller of HandShake sees, in terms of the whole stream. */
  ghost predicate AsNegotiated(
    start: Outcome, udp: Option<bytes>, addr: bytes, e: Error, end: Outcome, before: bytes, after: bytes)
  {
    match Negotiate(start.text, udp)
    case Agreed(a, info, rest, replies) =>
      addr == a && e == info && end == Outcome(rest, start.err) && after == before + replies
    case Refused(replies) => e == RefusalError(start) && e != Nil && after == before + replies
  }

  /** What the caller can rely on without an error, whatever happens to the replies. */
  ghost predicate Agrees(start: Outcome, udp: Option<bytes>, addr: bytes, end: Outcome) {
    match Negotiate(start.text, udp)
    case Agreed(a, info, rest, replies) =>
      addr == a && info == Nil && end == Outcome(rest, start.err) && replies == METHOD_REPLY + CONNECT_REPLY
    case Refused(_) => false
  }

  lemma BothRounds(
      start: Outcome, greeting: bytes, head: bytes, a: bytes, end: Outcome, udp: Option<bytes>,
      addr: bytes, e: Error, before: bytes, after: bytes)
    requires start == Before(greeting, Before(head, Before(a, end)))
    requires |greeting| >= 2 && |greeting| == 2 + greeting[1] as int && |head| == 3
    requires SplitAddr(a + end.text) == Some(a)
    ensures Answered(head[1], a, udp, addr, e, before + METHOD_REPLY, after) ==>
              AsNegotiated(start, udp, addr, e, end, before, after)
    ensures addr == a && head[1] == CMD_CONNECT ==> Agrees(start, udp, addr, end)
  {
    NegotiateParts(greeting, head, a, end.text, udp);
    RequestOf(start.text, greeting, head, a + end.text);
    Assoc(before, METHOD_REPLY, CONNECT_REPLY);
    if udp.Some? {
      Assoc(before, METHOD_REPLY, [5, 0, 0] + udp.value);
    }
  }

  lemma RequestOf(text: bytes, greeting: bytes, head: bytes, behind: bytes)
    requires |greeting| >= 2 && |greeting| == 2 + greeting[1] as int && |head| == 3
    requires text == greeting + (head + behind) && SplitAddr(behind).Some?
    ensures HasGreeting(text) && HasRequest(text[2 + text[1] as int..])
  {
    assert text[2 + text[1] as int..] == head + behind;
    assert (head + behind)[3..] == behind;
  }

  lemma NoGreeting(
      start: Outcome, udp: Option<bytes>, addr: bytes, e: Error, end: Outcome, before: bytes)
    requires !HasGreeting(start.text) && e != Nil && e == GreetingError(start)
    ensures AsNegotiated(start, udp, addr, e, end, before, before)
  {
    assert before + [] == before;
  }

  lemma NoRequest(
      start: Outcome, greeting: bytes, middle: Outcome, udp: Option<bytes>,
      addr: bytes, e: Error, end: Outcome, before: bytes)
    requires start == Before(greeting, middle) && !HasRequest(middle.text)
    requires e != Nil && e == RequestError(middle)
    requires |greeting| >= 2 && |greeting| == 2 + greeting[1] as int
    ensures AsNegotiated(start, udp, addr, e, end, before, before + METHOD_REPLY)
  {
    assert (greeting + middle.text)[2 + greeting[1] as int..] == middle.text;
    assert start.text[2 + start.text[1] as int..] == middle.text;
  }

  /**
    The server side of a negotiation. On any client stream it does what Negotiate says: it takes
    exactly the negotiation off the stream, sends exactly the replies and returns the address as it
    was sent, or the error of the part that is missing, all in one buffer of MAX_ADDR_LEN bytes.
    Where a reply can fail, no error still means that all of this was done.
   */
  method HandShake(re: ReadEnd, wr: Sink, udp: Option<bytes>) returns (addr: bytes, e: Error)
    requires re.Valid() && wr !in re.Repr()
    modifies re.Repr(), wr
    ensures re.Valid() && old(wr.data) <= wr.data
    ensures wr.reliable ==>
              AsNegotiated(old(re.Incoming()), udp, addr, e, re.Incoming(), old(wr.data), wr.data)
    ensures e == Nil ==> Agrees(old(re.Incoming()), udp, addr, re.Incoming())
    ensures e == Nil && wr.strict ==> wr.data == old(wr.data) + (METHOD_REPLY + CONNECT_REPLY)
  {
    var buf := new byte[MAX_ADDR_LEN](_ => 0);
    ghost var greeting, head, a;
    ghost var start, before := re.Incoming(), wr.data;
    e, greeting := Greet(re, wr, buf);
    if e != Nil {
      if wr.reliable {
        NoGreeting(start, udp, [], e, re.Incoming(), before);
      }
      return [], e;
    }
    ghost var middle := re.Incoming();
    addr, e, head, a := Serve(re, wr, buf, udp);
    if HasRequest(middle.text) {
      BothRounds(start, greeting, head, a, re.Incoming(), udp, addr, e, before, wr.data);
    } else {
      NoRequest(start, greeting, middle, udp, addr, e, re.Incoming(), before);
    }
    Assoc(before, METHOD_REPLY, CONNECT_REPLY);
  }
}
