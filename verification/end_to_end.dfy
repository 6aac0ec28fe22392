/**
  The proxy as a whole: a client negotiates with the local server, which forwards address and
  payload through the corked, encrypted connection to the remote server, which recovers both.
 */
module EndToEnd {
  import opened Bytes
  import opened Io
  import opened Nonce
  import opened Aead
  import opened Records
  import opened BloomRing
  import opened Cork
  import opened ShadowConn
  import opened ReadEnd
  import opened Socks5
  import RecordReader

  const CORK_BUF_SIZE := 1280

  /** Every salt gives a key, and every key is a lawful AEAD. */
  ghost predicate Works(cipher: Cipher) {
    forall s :: |s| == cipher.saltSize ==>
      cipher.subkey(s).Some? && RoundTrips(cipher.subkey(s).value)
  }

  /** `wire` is an honest stream: a salt and the records of `payloads` under its key. */
  ghost predicate Honest(cipher: Cipher, wire: bytes, salt: bytes, payloads: seq<bytes>) {
    && |salt| == cipher.saltSize && cipher.subkey(salt).Some? && AllFit(payloads)
    && var key := cipher.subkey(salt).value;
       wire == salt + Wire(key, Zeros(key.nonceSize), payloads)
  }

  /**
    The receiver can read an honest stream: its key opens every seal made for it. That is so with the
    round-trip law, and also with an ideal AEAD that opens what was sealed for this stream.
   */
  ghost predicate Readable(cipher: Cipher, salt: bytes, payloads: seq<bytes>) {
    && cipher.subkey(salt).Some?
    && var key := cipher.subkey(salt).value; OpensAll(key, Zeros(key.nonceSize), payloads)
  }

  lemma WorksReadable(cipher: Cipher, salt: bytes, payloads: seq<bytes>)
    requires Works(cipher) && |salt| == cipher.saltSize
    ensures Readable(cipher, salt, payloads)
  {
    var key := cipher.subkey(salt).value;
    RoundTripsOpen(key, Zeros(key.nonceSize), payloads);
  }

  /** The key of this salt is ideal for the seals of a stream with these payloads. */
  ghost predicate IdealFor(cipher: Cipher, salt: bytes, payloads: seq<bytes>) {
    && |salt| == cipher.saltSize && cipher.subkey(salt).Some? && AllFit(payloads)
    && var key := cipher.subkey(salt).value;
       Ideal(key, Seals(key.nonceSize, payloads)) && 2 * |payloads| < Pow256(key.nonceSize)
  }

  lemma OpensLogReadable(cipher: Cipher, salt: bytes, payloads: seq<bytes>)
    requires cipher.subkey(salt).Some?
    requires var key := cipher.subkey(salt).value; OpensLog(key, Seals(key.nonceSize, payloads))
    ensures Readable(cipher, salt, payloads)
  {
    LogOpensAll(cipher.subkey(salt).value, payloads);
  }

  // ----- What a receiver makes of an honest stream -----

  /** Behind its salt a stream is decoded from the zero nonce on. */
  lemma OpenSalted(cipher: Cipher, salt: bytes, records: bytes, end: Failure)
    requires |salt| == cipher.saltSize && cipher.subkey(salt).Some?
    ensures var key := cipher.subkey(salt).value;
            Open(cipher, salt + records, end, false) == Decode(key, Zeros(key.nonceSize), records, end)
  {
    assert (salt + records)[..cipher.saltSize] == salt;
    assert (salt + records)[cipher.saltSize..] == records;
  }

  /** The whole stream: exactly what was sent. */
  lemma OpenHonest(cipher: Cipher, wire: bytes, salt: bytes, payloads: seq<bytes>, end: Failure)
    requires Readable(cipher, salt, payloads) && Honest(cipher, wire, salt, payloads)
    ensures Open(cipher, wire, end, false) == Outcome(Concat(payloads), end)
  {
    var key := cipher.subkey(salt).value;
    OpenSalted(cipher, salt, Wire(key, Zeros(key.nonceSize), payloads), end);
    Delivered(key, Zeros(key.nonceSize), payloads, end);
  }

  lemma CutRecords(key: AEAD, payloads: seq<bytes>, cut: nat)
    requires OpensAll(key, Zeros(key.nonceSize), payloads) && AllFit(payloads)
    requires cut <= |Wire(key, Zeros(key.nonceSize), payloads)|
    ensures var start := Zeros(key.nonceSize);
            Decode(key, start, Wire(key, start, payloads)[..cut], EOF).text <= Concat(payloads)
  {
    Truncated(key, Zeros(key.nonceSize), payloads, cut, EOF);
    ConcatFront(payloads, WholeBefore(key, payloads, cut));
  }

  lemma CutBehindSalt(cipher: Cipher, salt: bytes, payloads: seq<bytes>, records: bytes, cut: nat)
    requires Readable(cipher, salt, payloads) && Honest(cipher, salt + records, salt, payloads) && cut <= |records|
    ensures Open(cipher, salt + records[..cut], EOF, false).text <= Concat(payloads)
  {
    var key := cipher.subkey(salt).value;
    assert (salt + records)[|salt|..] == records;
    CutRecords(key, payloads, cut);
    OpenSalted(cipher, salt, records[..cut], EOF);
  }

  lemma CutAt(salt: bytes, records: bytes, cut: nat)
    requires |salt| <= cut <= |salt + records|
    ensures (salt + records)[..cut] == salt + records[..cut - |salt|]
  {
  }

  /** The stream cut anywhere: a prefix of what was sent. */
  lemma OpenCut(cipher: Cipher, wire: bytes, salt: bytes, payloads: seq<bytes>, cut: nat)
    requires Readable(cipher, salt, payloads) && Honest(cipher, wire, salt, payloads) && cut <= |wire|
    ensures Open(cipher, wire[..cut], EOF, false).text <= Concat(payloads)
  {
    var n := cipher.saltSize;
    if n <= cut {
      var key := cipher.subkey(salt).value;
      var records := Wire(key, Zeros(key.nonceSize), payloads);
      CutAt(salt, records, cut);
      CutBehindSalt(cipher, salt, payloads, records, cut - n);
    }
  }

  /** If the front of a stream of address and payload holds an address, it is that one. */
  lemma SameAddr(front: bytes, addr: bytes, payload: bytes)
    requires front <= addr + payload && SplitAddr(addr + payload) == Some(addr)
    requires SplitAddr(front).Some?
    ensures SplitAddr(front) == Some(addr) && front[|addr|..] <= payload
  {
    var a := SplitAddr(front).value;
    var rest := (addr + payload)[|a|..];
    assert addr + payload == a + rest;
    SplitStable(front, rest);
    assert a == addr;
    assert front == addr + front[|addr|..];
    assert addr + payload == addr + front[|addr|..] + (addr + payload)[|front|..];
    assert payload == front[|addr|..] + (addr + payload)[|front|..];
  }

  /** What the remote server does with the text of a stream: address to itself, the rest to the target. */
  ghost predicate Served(text: bytes, tgt: bytes, e: Error, data: bytes) {
    match SplitAddr(text)
    case Some(addr) => e == Nil && tgt == addr && data == text[|addr|..]
    case None => e != Nil && data == []
  }

  lemma ServedWhole(
      cipher: Cipher, wire: bytes, salt: bytes, payloads: seq<bytes>, addr: bytes, payload: bytes,
      end: Failure, tgt: bytes, e: Error, data: bytes)
    requires Readable(cipher, salt, payloads) && Honest(cipher, wire, salt, payloads)
    requires Concat(payloads) == addr + payload && SplitAddr(addr + payload) == Some(addr)
    requires Served(Open(cipher, wire, end, false).text, tgt, e, data)
    ensures e == Nil && tgt == addr && data == payload
  {
    OpenHonest(cipher, wire, salt, payloads, end);
    assert (addr + payload)[|addr|..] == payload;
  }

  /** What is served of the front of a stream of address and payload. */
  lemma ServedFront(front: bytes, addr: bytes, payload: bytes, tgt: bytes, e: Error, data: bytes)
    requires front <= addr + payload && SplitAddr(addr + payload) == Some(addr)
    requires Served(front, tgt, e, data)
    ensures if e == Nil then tgt == addr && data <= payload else data == []
  {
    if SplitAddr(front).Some? {
      SameAddr(front, addr, payload);
    }
  }

  /** Whatever a filter says, a stream that was cut opens to a prefix. */
  lemma OpenFront(
      cipher: Cipher, arriving: bytes, wire: bytes, salt: bytes, payloads: seq<bytes>, repeated: bool)
    requires Readable(cipher, salt, payloads) && Honest(cipher, wire, salt, payloads) && arriving <= wire
    ensures Open(cipher, arriving, EOF, repeated).text <= Concat(payloads)
  {
    OpenCut(cipher, wire, salt, payloads, |arriving|);
    assert wire[..|arriving|] == arriving;
  }

  // ----- The two servers -----

  /**
    The servers' cork: whatever is written, up to 1280 bytes are held back until the timer goes off,
    so that salt, address and first bytes leave together.
   */
  method HeldUntilTimer(conn: Sink, events: seq<Event>) returns (fired: bool)
    modifies conn
    ensures Size(events) <= 1280 && !fired ==> conn.data == old(conn.data)
    ensures (forall i :: 0 <= i < |events| ==> events[i].WriteEvent?) ==> !fired
  {
    var c := new CorkedConn(conn, CORK_BUF_SIZE);
    ghost var start, u := c.Now(), Cork.World(conn.strict, conn.reliable, 1280);
    var results;
    ghost var log;
    results, log := Cork.Run(c, events);
    fired := c.fired;
    if !fired && Size(events) <= 1280 {
      HeldBack(log, u);
    }
    if forall i :: 0 <= i < |events| ==> events[i].WriteEvent? {
      NoTimer(log, u);
    }
  }

  method SendAddr(rc: StreamConn, tgt: bytes)
    requires rc.WriteValid() && rc.Ready() && rc.w == null
    modifies rc`w, rc`base, rc`salt, rc.out, rc.out.bufw, rc.out.bufw.buf, rc.out.conn
    modifies rc.filter, Slots(rc.filter)
    ensures rc.WriteValid() && rc.Ready()
    ensures rc.w != null && fresh(rc.w) && fresh(rc.w.nonce) && fresh(rc.w.buf)
    ensures rc.Sent() == tgt && rc.base == old(rc.out.Accepted())
  {
    var n, e := rc.Write(tgt);
    assert tgt[..n] == tgt && [] + tgt == tgt;
  }

  method SendPayload(rc: StreamConn, client: Source)
    requires rc.WriteValid() && rc.Ready() && rc.w != null
    modifies rc.w, rc.w.nonce, rc.w.buf, rc.out, rc.out.bufw, rc.out.bufw.buf, rc.out.conn, client
    ensures rc.WriteValid() && rc.Ready() && rc.w == old(rc.w) && rc.base == old(rc.base)
    ensures rc.Sent() == old(rc.Sent()) + old(client.rest)
  {
    ghost var all := client.rest;
    var n, e, got := rc.Forward(client);
    assert got + [] == got == all;
  }

  /** The address, then the client's bytes through cork and encryption. */
  method Send(rc: StreamConn, tgt: bytes, client: Source)
    requires rc.WriteValid() && rc.Ready() && rc.w == null
    modifies rc`w, rc`base, rc`salt, rc.out, rc.out.bufw, rc.out.bufw.buf, rc.out.conn
    modifies rc.filter, Slots(rc.filter), client
    ensures rc.WriteValid() && rc.Ready() && rc.w != null
    ensures rc.Sent() == tgt + old(client.rest) && rc.base == old(rc.out.Accepted())
  {
    SendAddr(rc, tgt);
    SendPayload(rc, client);
  }

  /** In the end the cork's timer has gone off and everything is on the connection. */
  method Finish(rc: StreamConn)
    requires rc.WriteValid() && rc.Ready() && rc.w != null && rc.base == [] && Works(rc.cipher)
    modifies rc.out, rc.out.bufw, rc.out.bufw.buf, rc.out.conn
    ensures rc.w != null && Honest(rc.cipher, rc.out.conn.data, rc.salt, rc.w.records)
    ensures rc.w == old(rc.w) && rc.w.records == old(rc.w.records)
  {
    rc.OnTheWire();
    Settle(rc.out);
    ghost var wire := rc.salt + Wire(rc.w.aead, Zeros(rc.w.aead.nonceSize), rc.w.records);
    assert [] + wire == wire;
  }

  /** The part of ServeLocal behind the handshake. */
  method ForwardConn(client: Source, tgt: bytes, remote: Sink, cipher: Cipher, filter: BloomRing?)
    returns (ghost salt: bytes, ghost payloads: seq<bytes>)
    requires remote.reliable && remote.data == [] && Works(cipher) && ValidFilter(filter)
    modifies client, remote, filter, Slots(filter)
    ensures Honest(cipher, remote.data, salt, payloads)
    ensures Concat(payloads) == tgt + old(client.rest)
  {
    var cork := new CorkedConn(remote, CORK_BUF_SIZE);
    var unread := new Source([], EOF, 0);
    var rc := new StreamConn(unread, cork, cipher, filter);
    Send(rc, tgt, client);
    Finish(rc);
    salt, payloads := rc.salt, rc.w.records;
  }

  /**
    The local server's side of one connection (ServeLocal): handshake, then the address and the
    client's bytes through cork and encryption. The cork's timer goes off at some point, at the
    latest after the last write.
   */
  method ServeLocalConn(
      client: Source, replies: Sink, remote: Sink, cipher: Cipher, filter: BloomRing?,
      udp: Option<bytes>)
    returns (e: Error, ghost salt: bytes, ghost payloads: seq<bytes>)
    requires replies.reliable && remote.reliable && replies != remote && remote.data == []
    requires Works(cipher) && ValidFilter(filter)
    modifies client, replies, remote, filter, Slots(filter)
    ensures match Negotiate(old(client.rest), udp)
            case Agreed(addr, info, rest, answer) =>
              && e == info && replies.data == old(replies.data) + answer
              && (info == Nil ==>
                    && Honest(cipher, remote.data, salt, payloads)
                    && Concat(payloads) == addr + rest)
              && (info != Nil ==> remote.data == [])
            case Refused(answer) =>
              e != Nil && replies.data == old(replies.data) + answer && remote.data == []
  {
    salt, payloads := [], [];
    var tgt;
    tgt, e := HandShake(Plain(client), replies, udp);
    if e != Nil {
      return;
    }
    salt, payloads := ForwardConn(client, tgt, remote, cipher, filter);
  }

  /** Hands everything that comes in to a sink. */
  method HandOn(sc: StreamConn, sink: Sink)
    requires sc.ReadValid() && sink.reliable
    modifies sc`r, sc.ReadRepr(), sink
    ensures sink.data == old(sink.data) + old(sc.Incoming().text)
  {
    var n, e := sc.WriteTo(sink);
  }

  lemma ServedIs(text: bytes, tgt: bytes, rest: bytes, e: Error, data: bytes)
    requires if SplitAddr(text).Some? then
               e == Nil && SplitAddr(text) == Some(tgt) && text == tgt + rest && data == rest
             else e != Nil && data == []
    ensures Served(text, tgt, e, data)
  {
  }

  method ReadAddrFrom(rd: RecordReader.Reader) returns (tgt: bytes, e: Error)
    requires rd.Valid()
    modifies rd, rd.nonce, rd.buf, rd.conn
    ensures rd.Valid()
    ensures e == Nil <==> SplitAddr(old(rd.Ahead())).Some?
    ensures e == Nil ==> SplitAddr(old(rd.Ahead())) == Some(tgt) && old(rd.Ahead()) == tgt + rd.Ahead()
  {
    tgt, e := ReadAddr(Shadow(rd));
  }

  method ReadAddrOf(sc: StreamConn) returns (tgt: bytes, e: Error)
    requires sc.ReadValid() && sc.r != null
    modifies sc.r, sc.r.nonce, sc.r.buf, sc.conn
    ensures sc.ReadValid()
    ensures e == Nil <==> SplitAddr(old(sc.Incoming().text)).Some?
    ensures e == Nil ==> SplitAddr(old(sc.Incoming().text)) == Some(tgt)
    ensures e == Nil ==> old(sc.Incoming().text) == tgt + sc.Incoming().text
  {
    tgt, e := ReadAddrFrom(sc.r);
  }

  /** Behind the salt: the address to the caller, everything else to the target. */
  method ServeStream(sc: StreamConn, target: Sink) returns (tgt: bytes, e: Error)
    requires sc.ReadValid() && sc.r != null && target.reliable && target.data == []
    modifies sc`r, sc.ReadRepr(), target
    ensures Served(old(sc.Incoming().text), tgt, e, target.data)
  {
    ghost var text, rest := sc.Incoming().text, [];
    tgt, e := ReadAddrOf(sc);
    if e == Nil {
      rest := sc.Incoming().text;
      HandOn(sc, target);
      assert [] + rest == rest;
    }
    ServedIs(text, tgt, rest, e, target.data);
  }

  method ServeShadow(sc: StreamConn, target: Sink) returns (tgt: bytes, e: Error)
    requires sc.ReadValid() && sc.r == null && target.reliable && target.data == []
    modifies sc`r, sc.conn, target
    ensures Served(old(sc.Incoming().text), tgt, e, target.data)
  {
    ghost var text := sc.Incoming().text;
    e := sc.InitReader();
    if e != Nil {
      assert text == [];
      return [], e;
    }
    assert text == sc.Incoming().text;
    tgt, e := ServeStream(sc, target);
  }

  /**
    The remote server's side (ServeServer): the address, and everything behind it to the target.
   */
  method ServeServerConn(conn: Source, target: Sink, cipher: Cipher, filter: BloomRing?)
    returns (tgt: bytes, e: Error)
    requires target.reliable && target.data == [] && ValidFilter(filter)
    modifies conn, target
    ensures var repeated := |old(conn.rest)| >= cipher.saltSize
                            && Repeated(filter, old(conn.rest)[..cipher.saltSize]);
            Served(Open(cipher, old(conn.rest), conn.end, repeated).text, tgt, e, target.data)
  {
    var out := new Sink(true, true, 0);
    var cork := new CorkedConn(out, CORK_BUF_SIZE);
    var sc := new StreamConn(conn, cork, cipher, filter);
    tgt, e := ServeShadow(sc, target);
  }

  /** The remote server on the front of an honest stream. */
  method ServeFront(
      arriving: bytes, stalls: nat, target: Sink, cipher: Cipher, filter: BloomRing?, ghost wire: bytes,
      ghost salt: bytes, ghost payloads: seq<bytes>, ghost addr: bytes, ghost payload: bytes)
    returns (tgt: bytes, e: Error)
    requires target.reliable && target.data == [] && ValidFilter(filter)
    requires Readable(cipher, salt, payloads) && Honest(cipher, wire, salt, payloads) && arriving <= wire
    requires Concat(payloads) <= addr + payload && SplitAddr(addr + payload) == Some(addr)
    modifies target
    ensures if e == Nil then tgt == addr && target.data <= payload else target.data == []
    ensures arriving == wire && Concat(payloads) == addr + payload && !Repeated(filter, salt) ==>
              e == Nil && target.data == payload
  {
    assert |arriving| >= cipher.saltSize ==> arriving[..cipher.saltSize] == salt;
    var conn := new Source(arriving, EOF, stalls);
    ghost var repeated := |arriving| >= cipher.saltSize && Repeated(filter, salt);
    tgt, e := ServeServerConn(conn, target, cipher, filter);
    OpenFront(cipher, arriving, wire, salt, payloads, repeated);
    ServedFront(Open(cipher, arriving, EOF, repeated).text, addr, payload, tgt, e, target.data);
    if arriving == wire && Concat(payloads) == addr + payload && !repeated {
      ServedWhole(cipher, wire, salt, payloads, addr, payload, EOF, tgt, e, target.data);
    }
  }

  /**
    End to end, for every fragmentation of every stream, every split into records and every point
    at which the cork's timer goes off, and with the connection between the two servers cut anywhere:
    if the remote server finds an address, it is the client's, and the target gets a prefix of the
    client's payload, which is all of it when nothing is cut off. A client that is refused gets
    nothing forwarded. `salt` is what the stream between the servers starts with.
   */
  method EndToEnd(
      client: Source, replies: Sink, remote: Sink, target: Sink, cipher: Cipher,
      localFilter: BloomRing?, serverFilter: BloomRing?, udp: Option<bytes>, cut: nat, stalls: nat)
    returns (tgt: bytes, e: Error, ghost salt: bytes)
    requires replies.reliable && remote.reliable && target.reliable
    requires replies != remote && replies != target && remote != target
    requires remote.data == [] && target.data == [] && Works(cipher)
    requires ValidFilter(localFilter) && ValidFilter(serverFilter)
    requires localFilter != null && serverFilter != null ==>
               localFilter != serverFilter && forall f :: f in localFilter.slots ==> f !in serverFilter.slots
    modifies client, replies, remote, target, localFilter, Slots(localFilter)
    ensures match Negotiate(old(client.rest), udp)
            case Agreed(addr, info, payload, answer) =>
              && replies.data == old(replies.data) + answer
              && (info == Nil ==> |salt| == cipher.saltSize && salt <= remote.data)
              && (info == Nil && !Repeated(serverFilter, salt) ==>
                    && (e == Nil ==> tgt == addr && target.data <= payload)
                    && (cut >= |remote.data| ==> e == Nil && target.data == payload))
              && (info != Nil ==> e == info && remote.data == [] == target.data)
            case Refused(answer) =>
              && e != Nil && replies.data == old(replies.data) + answer
              && remote.data == [] == target.data
    ensures e != Nil ==> target.data == []
  {
    ghost var agreed, payloads := Negotiate(client.rest, udp), [];
    e, salt, payloads := ServeLocalConn(client, replies, remote, cipher, localFilter, udp);
    if e != Nil {
      return [], e, salt;
    }
    AgreedAddr(old(client.rest), udp);
    WorksReadable(cipher, salt, payloads);
    var arriving := if cut < |remote.data| then remote.data[..cut] else remote.data;
    tgt, e := ServeFront(arriving, stalls, target, cipher, serverFilter, remote.data,
                         salt, payloads, agreed.addr, agreed.rest);
  }

  // ----- Tampering and replay -----

  lemma OpenTampered(
      cipher: Cipher, wire: bytes, salt: bytes, payloads: seq<bytes>, end: Failure, repeated: bool)
    requires IdealFor(cipher, salt, payloads) && salt <= wire
    ensures Open(cipher, wire, end, repeated).text <= Concat(payloads)
  {
    assert wire[..cipher.saltSize] == salt;
    Integrity(cipher.subkey(salt).value, payloads, wire[cipher.saltSize..], end);
  }

  /**
    Integrity of the relay: whatever bytes come in behind the salt of an honest stream, under an AEAD
    that is ideal for that stream's seals, the remote server finds the client's address or none, and
    the target gets a prefix of the client's payload. If what comes in is the honest stream, the AEAD
    opens its seals, and the filter does not take the salt for seen, the payload arrives whole.
   */
  method ServeTampered(
      conn: Source, target: Sink, cipher: Cipher, filter: BloomRing?,
      ghost salt: bytes, ghost payloads: seq<bytes>, ghost addr: bytes, ghost payload: bytes)
    returns (tgt: bytes, e: Error)
    requires target.reliable && target.data == [] && ValidFilter(filter)
    requires IdealFor(cipher, salt, payloads) && salt <= conn.rest
    requires Concat(payloads) == addr + payload && SplitAddr(addr + payload) == Some(addr)
    modifies conn, target
    ensures if e == Nil then tgt == addr && target.data <= payload else target.data == []
    ensures Readable(cipher, salt, payloads) && Honest(cipher, old(conn.rest), salt, payloads)
            && !Repeated(filter, salt) ==>
              e == Nil && target.data == payload
  {
    ghost var wire, end := conn.rest, conn.end;
    assert wire[..cipher.saltSize] == salt;
    ghost var repeated := Repeated(filter, salt);
    tgt, e := ServeServerConn(conn, target, cipher, filter);
    OpenTampered(cipher, wire, salt, payloads, end, repeated);
    ServedFront(Open(cipher, wire, end, repeated).text, addr, payload, tgt, e, target.data);
    if Readable(cipher, salt, payloads) && Honest(cipher, wire, salt, payloads) && !repeated {
      ServedWhole(cipher, wire, salt, payloads, addr, payload, end, tgt, e, target.data);
    }
  }

  /**
    There are such AEADs for any stream: a key that opens the seals of the stream and nothing else
    meets both halves of ServeTampered.
   */
  lemma IdealKey(salt: bytes, size: nat, payloads: seq<bytes>) returns (cipher: Cipher)
    requires AllFit(payloads) && 2 * |payloads| < Pow256(size)
    ensures cipher.saltSize == |salt| && IdealFor(cipher, salt, payloads) && Readable(cipher, salt, payloads)
  {
    IdeallyIdeal(size, Seals(size, payloads));
    var key: AEAD := Ideally(size, Seals(size, payloads));
    cipher := Cipher(|salt|, _ => Some(key));
    OpensLogReadable(cipher, salt, payloads);
  }

  /**
    The salt filter does not keep replays out: an honest stream of another process, received twice by
    one server with one filter, is served twice, to the same address and with the same payload.
   */
  method ServeReplayed(
      wire: bytes, stalls: nat, stalls2: nat, target: Sink, target2: Sink, cipher: Cipher, filter: BloomRing?,
      ghost salt: bytes, ghost payloads: seq<bytes>, ghost addr: bytes, ghost payload: bytes)
    returns (tgt: bytes, e: Error, tgt2: bytes, e2: Error)
    requires target.reliable && target2.reliable && target != target2 && target.data == [] == target2.data
    requires ValidFilter(filter) && !Repeated(filter, salt)
    requires Readable(cipher, salt, payloads) && Honest(cipher, wire, salt, payloads)
    requires Concat(payloads) == addr + payload && SplitAddr(addr + payload) == Some(addr)
    modifies target, target2
    ensures e == Nil == e2 && tgt == addr == tgt2 && target.data == payload == target2.data
    ensures !Repeated(filter, salt)
  {
    tgt, e := ServeFront(wire, stalls, target, cipher, filter, wire, salt, payloads, addr, payload);
    tgt2, e2 := ServeFront(wire, stalls2, target2, cipher, filter, wire, salt, payloads, addr, payload);
  }

  // ----- Connections that break -----

  method SendFirst(rc: StreamConn, tgt: bytes) returns (e: Error)
    requires rc.WriteValid() && rc.Keyed() && rc.out.conn.strict && rc.w == null
    modifies rc`w, rc`base, rc`salt, rc.out, rc.out.bufw, rc.out.bufw.buf, rc.out.conn
    modifies rc.filter, Slots(rc.filter)
    ensures rc.WriteValid() && rc.Begun() && rc.base == old(rc.out.Accepted())
    ensures rc.w != null ==> fresh(rc.w) && fresh(rc.w.nonce) && fresh(rc.w.buf)
    ensures rc.Sent() <= tgt && (e == Nil ==> rc.w != null && rc.Sound() && rc.Sent() == tgt)
  {
    var n;
    n, e := rc.Write(tgt);
    assert [] + tgt[..n] == tgt[..n];
  }

  method SendMore(rc: StreamConn, client: Source)
    requires rc.WriteValid() && rc.w != null && rc.Sound() && rc.out.conn.strict
    modifies rc.w, rc.w.nonce, rc.w.buf, rc.out, rc.out.bufw, rc.out.bufw.buf, rc.out.conn, client
    ensures rc.WriteValid() && rc.Begun() && rc.base == old(rc.base)
    ensures rc.Sent() <= old(rc.Sent()) + old(client.rest)
  {
    ghost var sent, all := rc.Sent(), client.rest;
    var n, e, got := rc.Forward(client);
    assert sent + got <= sent + all;
  }

  /** Sends address and payload as far as it goes: any write may fail. */
  method SendSome(rc: StreamConn, tgt: bytes, client: Source)
    requires rc.WriteValid() && rc.Keyed() && rc.out.conn.strict && rc.w == null
    modifies rc`w, rc`base, rc`salt, rc.out, rc.out.bufw, rc.out.bufw.buf, rc.out.conn
    modifies rc.filter, Slots(rc.filter), client
    ensures rc.WriteValid() && rc.Begun() && rc.base == old(rc.out.Accepted())
    ensures rc.Sent() <= tgt + old(client.rest)
  {
    ghost var all := client.rest;
    var e := SendFirst(rc, tgt);
    if e == Nil {
      SendMore(rc, client);
    }
    assert tgt <= tgt + all;
  }

  /** The stream that was meant, of which the connection has accepted the front. */
  lemma MeantStream(rc: StreamConn) returns (wire: bytes, payloads: seq<bytes>)
    requires rc.WriteValid() && rc.Begun() && rc.base == []
    ensures Honest(rc.cipher, wire, rc.salt, payloads) && Concat(payloads) == rc.Sent()
    ensures rc.out.Accepted() <= wire
  {
    payloads := if rc.w == null then [] else rc.w.records;
    var key := rc.cipher.subkey(rc.salt).value;
    wire := rc.salt + Wire(key, Zeros(key.nonceSize), payloads);
    assert [] + rc.salt == rc.salt == rc.salt + [];
  }

  /** The timer may go off. What is on the connection is the front of the stream that was meant. */
  method BreakOff(rc: StreamConn) returns (ghost wire: bytes, ghost payloads: seq<bytes>)
    requires rc.WriteValid() && rc.Begun() && rc.base == []
    modifies rc.out, rc.out.bufw, rc.out.bufw.buf, rc.out.conn
    ensures Honest(rc.cipher, wire, rc.salt, payloads) && Concat(payloads) == old(rc.Sent())
    ensures rc.out.conn.data <= wire
  {
    wire, payloads := MeantStream(rc);
    rc.out.MayFire();
    assert rc.out.conn.data <= rc.out.Accepted();
  }

  /** As ForwardConn, to a remote server whose connection may break at any write. */
  method ForwardSome(client: Source, tgt: bytes, remote: Sink, cipher: Cipher, filter: BloomRing?)
    returns (ghost wire: bytes, ghost salt: bytes, ghost payloads: seq<bytes>)
    requires remote.strict && remote.data == [] && Works(cipher) && ValidFilter(filter)
    modifies client, remote, filter, Slots(filter)
    ensures Honest(cipher, wire, salt, payloads) && remote.data <= wire
    ensures Concat(payloads) <= tgt + old(client.rest)
  {
    var cork := new CorkedConn(remote, CORK_BUF_SIZE);
    var unread := new Source([], EOF, 0);
    var rc := new StreamConn(unread, cork, cipher, filter);
    SendSome(rc, tgt, client);
    wire, payloads := BreakOff(rc);
    salt := rc.salt;
  }

  /** As ServeLocalConn, where replies and forwarding may fail at any write. */
  method ServeLocalSome(
      client: Source, replies: Sink, remote: Sink, cipher: Cipher, filter: BloomRing?, udp: Option<bytes>)
    returns (e: Error, ghost wire: bytes, ghost salt: bytes, ghost payloads: seq<bytes>)
    requires remote.strict && replies != remote && remote.data == [] && Works(cipher) && ValidFilter(filter)
    modifies client, replies, remote, filter, Slots(filter)
    ensures e == Nil ==>
              match Negotiate(old(client.rest), udp)
              case Agreed(addr, info, rest, _) =>
                && info == Nil && Honest(cipher, wire, salt, payloads) && remote.data <= wire
                && Concat(payloads) <= addr + rest
              case Refused(_) => false
  {
    wire, salt, payloads := [], [], [];
    var tgt;
    tgt, e := HandShake(Plain(client), replies, udp);
    if e == Nil {
      wire, salt, payloads := ForwardSome(client, tgt, remote, cipher, filter);
    }
  }

  /**
    End to end with connections that break: wherever the connection to the remote server, or the one
    for the replies, fails, and whatever the filters say, the remote server finds the address the
    client sent or none, and the target gets a prefix of what the client sent behind it.
   */
  method EndToEndBroken(
      client: Source, replies: Sink, remote: Sink, target: Sink, cipher: Cipher,
      localFilter: BloomRing?, serverFilter: BloomRing?, udp: Option<bytes>, stalls: nat)
    returns (tgt: bytes, e: Error)
    requires remote.strict && target.reliable && replies != remote && replies != target && remote != target
    requires remote.data == [] && target.data == [] && Works(cipher)
    requires ValidFilter(localFilter) && ValidFilter(serverFilter)
    requires localFilter != null && serverFilter != null ==>
               localFilter != serverFilter && forall f :: f in localFilter.slots ==> f !in serverFilter.slots
    modifies client, replies, remote, target, localFilter, Slots(localFilter)
    ensures match Negotiate(old(client.rest), udp)
            case Agreed(addr, info, payload, _) =>
              if e == Nil then info == Nil && tgt == addr && target.data <= payload else target.data == []
            case Refused(_) => e != Nil && target.data == []
  {
    ghost var agreed, wire, salt, payloads := Negotiate(client.rest, udp), [], [], [];
    e, wire, salt, payloads := ServeLocalSome(client, replies, remote, cipher, localFilter, udp);
    if e != Nil {
      return [], e;
    }
    AgreedAddr(old(client.rest), udp);
    WorksReadable(cipher, salt, payloads);
    tgt, e := ServeFront(remote.data, stalls, target, cipher, serverFilter, wire,
                         salt, payloads, agreed.addr, agreed.rest);
  }

  // ----- The way back -----

  method SendAnswer(sc: StreamConn, answer: Source)
    requires sc.WriteValid() && sc.Ready() && sc.w == null
    modifies sc, sc.WriteRepr(), sc.filter, Slots(sc.filter), answer
    ensures sc.WriteValid() && sc.Ready() && sc.w != null
    ensures sc.Sent() == old(answer.rest) && sc.base == old(sc.out.Accepted())
  {
    ghost var all := answer.rest;
    var n, e, got := sc.ReadFrom(answer);
    assert got + [] == got == all && [] + got == got;
  }

  /** What the remote server makes of the target's answer: salt and records, through its own cork. */
  method AnswerConn(answer: Source, back: Sink, cipher: Cipher, filter: BloomRing?)
    returns (ghost salt: bytes, ghost payloads: seq<bytes>)
    requires back.reliable && back.data == [] && Works(cipher) && ValidFilter(filter)
    modifies answer, back, filter, Slots(filter)
    ensures Honest(cipher, back.data, salt, payloads)
    ensures Concat(payloads) == old(answer.rest)
  {
    var cork := new CorkedConn(back, CORK_BUF_SIZE);
    var unread := new Source([], EOF, 0);
    var sc := new StreamConn(unread, cork, cipher, filter);
    SendAnswer(sc, answer);
    Finish(sc);
    salt, payloads := sc.salt, sc.w.records;
  }

  method DeliverShadow(rc: StreamConn, client: Sink)
    requires rc.ReadValid() && rc.r == null && client.reliable
    modifies rc`r, rc.conn, client
    ensures client.data == old(client.data) + old(rc.Incoming().text)
  {
    var n, e := rc.WriteTo(client);
  }

  /** What the local server hands to the client of a stream that comes back. */
  method DeliverConn(conn: Source, client: Sink, cipher: Cipher, filter: BloomRing?)
    returns (ghost got: bytes)
    requires client.reliable && ValidFilter(filter)
    modifies conn, client
    ensures client.data == old(client.data) + got
    ensures var repeated := |old(conn.rest)| >= cipher.saltSize
                            && Repeated(filter, old(conn.rest)[..cipher.saltSize]);
            got == Open(cipher, old(conn.rest), conn.end, repeated).text
  {
    var out := new Sink(true, true, 0);
    var cork := new CorkedConn(out, CORK_BUF_SIZE);
    var rc := new StreamConn(conn, cork, cipher, filter);
    got := rc.Incoming().text;
    DeliverShadow(rc, client);
  }

  /** The local server on an honest stream that may have been cut. */
  method DeliverHonest(
      wire: bytes, cut: nat, stalls: nat, client: Sink, cipher: Cipher, filter: BloomRing?,
      ghost salt: bytes, ghost payloads: seq<bytes>) returns (ghost got: bytes)
    requires client.reliable && ValidFilter(filter) && Readable(cipher, salt, payloads)
    requires Honest(cipher, wire, salt, payloads)
    modifies client
    ensures client.data == old(client.data) + got
    ensures !Repeated(filter, salt) ==>
              got <= Concat(payloads) && (cut >= |wire| ==> got == Concat(payloads))
  {
    var arriving := if cut < |wire| then wire[..cut] else wire;
    assert |arriving| >= cipher.saltSize ==> arriving[..cipher.saltSize] == salt;
    var conn := new Source(arriving, EOF, stalls);
    got := DeliverConn(conn, client, cipher, filter);
    if cut < |wire| {
      OpenCut(cipher, wire, salt, payloads, cut);
    } else {
      OpenHonest(cipher, wire, salt, payloads, EOF);
    }
  }

  /**
    The way back: whatever the target answers, in whatever pieces, the client gets exactly that, or
    a prefix of it when the connection between the servers is cut.
   */
  method WayBack(
      answer: Source, back: Sink, client: Sink, cipher: Cipher,
      serverFilter: BloomRing?, localFilter: BloomRing?, cut: nat, stalls: nat)
    returns (ghost salt: bytes, ghost got: bytes)
    requires back.reliable && client.reliable && back != client && back.data == []
    requires Works(cipher) && ValidFilter(localFilter) && ValidFilter(serverFilter)
    requires localFilter != null && serverFilter != null ==>
               localFilter != serverFilter && forall f :: f in serverFilter.slots ==> f !in localFilter.slots
    modifies answer, back, client, serverFilter, Slots(serverFilter)
    ensures |salt| == cipher.saltSize && salt <= back.data
    ensures client.data == old(client.data) + got
    ensures !Repeated(localFilter, salt) ==>
              got <= old(answer.rest) && (cut >= |back.data| ==> got == old(answer.rest))
  {
    ghost var payloads;
    salt, payloads := AnswerConn(answer, back, cipher, serverFilter);
    WorksReadable(cipher, salt, payloads);
    got := DeliverHonest(back.data, cut, stalls, client, cipher, localFilter, salt, payloads);
  }
}
