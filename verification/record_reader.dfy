/** The opening side of an encrypted stream. */
module RecordReader {
  import opened Bytes
  import opened Io
  import opened Nonce
  import opened Aead
  import opened Records

  class Reader {
    const aead: AEAD
    const conn: Source
    const nonce: array<byte>
    const buf: array<byte>
    /** The undelivered tail of the last record is buf[lo..hi]: it shares the decryption buffer. */
    var lo: nat
    var hi: nat

    ghost predicate Valid()
      reads this
    {
      && nonce.Length == aead.nonceSize && buf.Length == PAYLOAD_SIZE_MASK + aead.overhead
      && nonce != buf && lo <= hi <= buf.Length
    }

    ghost function Leftover(): bytes
      requires Valid()
      reads this, buf
    {
      buf[lo..hi]
    }

    /** What the records still on the wire deliver, up to the first error. */
    ghost function OnWire(): bytes
      requires Valid()
      reads this, nonce, conn
    {
      Decode(aead, nonce[..], conn.rest, conn.end).text
    }

    /** Everything still to be delivered before the first error, and that error. */
    ghost function Ahead(): bytes
      requires Valid()
      reads this, nonce, buf, conn
    {
      Leftover() + OnWire()
    }

    ghost function EndError(): Error
      requires Valid()
      reads this, nonce, conn
    {
      Decode(aead, nonce[..], conn.rest, conn.end).err
    }

    constructor (conn: Source, aead: AEAD)
      ensures Valid() && fresh(nonce) && fresh(buf) && this.conn == conn && this.aead == aead
      ensures lo == hi && nonce[..] == Zeros(aead.nonceSize)
      ensures Ahead() == Decode(aead, Zeros(aead.nonceSize), conn.rest, conn.end).text
      ensures EndError() == Decode(aead, Zeros(aead.nonceSize), conn.rest, conn.end).err
    {
      this.conn, this.aead, lo, hi := conn, aead, 0, 0;
      buf := new byte[PAYLOAD_SIZE_MASK + aead.overhead](_ => 0);
      nonce := new byte[aead.nonceSize](_ => 0);
      new;
      assert nonce[..] == Zeros(aead.nonceSize);
      assert buf[lo..hi] == [];
    }

    /** Reads one block of n bytes and opens it in the buffer, which must hold nothing undelivered. */
    method OpenBlock(n: nat) returns (e: Error, ghost text: bytes)
      requires Valid() && lo == hi && n <= buf.Length
      modifies nonce, buf, conn
      ensures Valid()
      ensures if |old(conn.rest)| < n then
                e == FullReadError(|old(conn.rest)|, n, conn.end) != Nil && conn.rest == []
              else
                && conn.rest == old(conn.rest)[n..] && nonce[..] == Inc(old(nonce[..]))
                && (e == Nil || e == AuthFailed)
                && aead.open(old(nonce[..]), old(conn.rest)[..n]) == (if e == Nil then Some(text) else None)
      ensures e == Nil ==> |text| + aead.overhead == n && buf[..|text|] == text
      ensures |conn.rest| <= |old(conn.rest)|
    {
      text := [];
      ghost var got;
      var k;
      k, e, got := ReadFull(conn, buf, 0, n);
      if e != Nil {
        return;
      }
      assert buf[..0] == [] && [] + got == got;
      assert buf[0..n] == got;
      var opening := OpenInPlace(aead, nonce[..], buf, 0, n);
      Increment(nonce);
      if opening == None {
        e := AuthFailed;
      } else {
        text := opening.value;
      }
    }

    /** Reads and opens one record into the buffer. */
    method ReadNext() returns (n: nat, e: Error)
      requires Valid() && lo == hi
      modifies nonce, buf, conn
      ensures Valid()
      ensures match ReadRecord(aead, old(nonce[..]), old(conn.rest), conn.end)
              case Payload(text, rest) =>
                && e == Nil && n == |text| <= PAYLOAD_SIZE_MASK && buf[..n] == text
                && conn.rest == rest && nonce[..] == Inc(Inc(old(nonce[..])))
              case Stop(err) => n == 0 && e == err != Nil
      ensures e != Nil && e != AuthFailed ==> conn.rest == []
      ensures |conn.rest| <= |old(conn.rest)|
    {
      ghost var head, text;
      e, head := OpenBlock(2 + aead.overhead);
      if e != Nil {
        return 0, e;
      }
      assert buf[..2][0] == buf[0] && buf[..2][1] == buf[1];
      var size := (256 * (buf[0] as int) + buf[1] as int) % 0x4000;
      assert size == HeaderValue(head);
      e, text := OpenBlock(size + aead.overhead);
      if e != Nil {
        return 0, e;
      }
      return size, Nil;
    }

    /** ReadNext in terms of the stream. */
    method NextRecord() returns (n: nat, e: Error)
      requires Valid() && lo == hi
      modifies nonce, buf, conn
      ensures Valid()
      ensures e == Nil ==>
                && n <= PAYLOAD_SIZE_MASK && old(OnWire()) == buf[..n] + OnWire()
                && EndError() == old(EndError()) && |conn.rest| < |old(conn.rest)|
      ensures e != Nil ==> n == 0 && old(OnWire()) == [] && e == old(EndError())
      ensures e != Nil && e != AuthFailed ==> OnWire() == []
      ensures |conn.rest| <= |old(conn.rest)|
    {
      n, e := ReadNext();
    }

    /** copy(p[plo:phi], buf[from:to]) */
    method CopyOut(p: array<byte>, plo: nat, phi: nat, from: nat, to: nat) returns (m: nat)
      requires plo <= phi <= p.Length && from <= to <= buf.Length && p != buf
      modifies p
      ensures m == Min(phi - plo, to - from)
      ensures p[..plo + m] == old(p[..plo]) + buf[from..from + m] && p[phi..] == old(p[phi..])
    {
      m := Min(phi - plo, to - from);
      forall i | 0 <= i < m {
        p[plo + i] := buf[from + i];
      }
    }

    /** The leftover serves a read first. */
    method ReadLeftover(p: array<byte>, plo: nat, phi: nat) returns (m: nat, ghost got: bytes)
      requires Valid() && lo < hi && plo <= phi <= p.Length && p != buf && p != nonce
      modifies this`lo, p
      ensures Valid() && m == |got| == Min(phi - plo, |old(Leftover())|)
      ensures p[..plo + m] == old(p[..plo]) + got && p[phi..] == old(p[phi..])
      ensures old(Ahead()) == got + Ahead()
    {
      m := CopyOut(p, plo, phi, lo, hi);
      got := buf[lo..lo + m];
      lo := lo + m;
      assert old(Leftover()) == got + Leftover();
      Assoc(got, Leftover(), OnWire());
    }

    /** Hands out the front of the record of n bytes in the buffer and keeps the rest of it. */
    method Deliver(p: array<byte>, plo: nat, phi: nat, n: nat) returns (m: nat, ghost got: bytes)
      requires Valid() && lo == hi && plo <= phi <= p.Length && p != buf && p != nonce
      requires n <= buf.Length
      modifies this`lo, this`hi, p
      ensures Valid() && m == |got| == Min(phi - plo, n)
      ensures p[..plo + m] == old(p[..plo]) + got && p[phi..] == old(p[phi..])
      ensures buf[..n] == got + Leftover()
    {
      m := CopyOut(p, plo, phi, 0, n);
      got := buf[0..m];
      lo, hi := m, m;
      if m < n {
        hi := n;
      }
    }

    /** Reads into p[plo..phi]; what does not fit of a record waits in the buffer. */
    method Read(p: array<byte>, plo: nat, phi: nat) returns (m: nat, e: Error, ghost got: bytes)
      requires Valid() && plo <= phi <= p.Length && p != buf && p != nonce
      modifies this`lo, this`hi, nonce, buf, conn, p
      ensures Valid() && m == |got| <= phi - plo
      ensures e == Nil ==> m == phi - plo || Leftover() == []
      ensures |old(Leftover())| > 0 ==> m == Min(phi - plo, |old(Leftover())|)
      ensures p[..plo + m] == old(p[..plo]) + got && p[phi..] == old(p[phi..])
      ensures e == Nil ==> old(Ahead()) == got + Ahead() && EndError() == old(EndError())
      ensures e != Nil ==> got == [] && old(Ahead()) == [] && e == old(EndError())
      ensures |conn.rest| <= |old(conn.rest)|
      ensures m == 0 && e == Nil && plo < phi ==> |conn.rest| < |old(conn.rest)|
    {
      if lo < hi {
        m, got := ReadLeftover(p, plo, phi);
        return m, Nil, got;
      }
      assert Leftover() == [];
      var n;
      n, e := NextRecord();
      m, got := Deliver(p, plo, phi, n);
      Assoc(got, Leftover(), OnWire());
    }

    /** Hands the leftover to a sink. */
    method WriteLeftover(sink: Sink) returns (n: nat, e: Error)
      requires Valid()
      modifies this`lo, sink
      ensures Valid() && |sink.data| == |old(sink.data)| + n && old(sink.data) <= sink.data
      ensures sink.data + Leftover() == old(sink.data) + old(Leftover())
      ensures e == Nil ==> lo == hi
      ensures sink.reliable ==> e == Nil
    {
      n, e := 0, Nil;
      while lo < hi
        invariant Valid() && |sink.data| == |old(sink.data)| + n && old(sink.data) <= sink.data
        invariant sink.data + Leftover() == old(sink.data) + old(Leftover())
        invariant e == Nil
        decreases hi - lo, sink.stalls
      {
        ghost var before, held := sink.data, Leftover();
        var nw;
        nw, e := sink.Write(buf[lo..hi]);
        lo := lo + nw;
        n := n + nw;
        assert Leftover() == held[nw..];
        Moved(before, held, nw, []);
        assert held[nw..] + [] == held[nw..] && held + [] == held;
        if e != Nil {
          return;
        }
      }
    }

    /** Writes the record of n bytes in the buffer; `rest` is what the sink did not take of it. */
    method WriteRecord(sink: Sink, n: nat) returns (nw: nat, e: Error, ghost rest: bytes)
      requires Valid() && n <= buf.Length
      modifies sink
      ensures old(sink.data) <= sink.data && |sink.data| == |old(sink.data)| + nw
      ensures sink.data + rest == old(sink.data) + buf[..n] && |rest| <= n
      ensures sink.strict && e == Nil ==> rest == []
      ensures sink.reliable ==> e == Nil && rest == []
    {
      ghost var before, record := sink.data, buf[..n];
      nw, e := sink.Write(buf[..n]);
      rest := record[nw..];
      assert record == record[..nw] + rest;
      Assoc(before, record[..nw], rest);
    }

    /** One record from the wire to a sink, or the error that ends the writing. */
    method Pass(sink: Sink) returns (n: nat, er: Error, ew: Error, ghost lost: bytes)
      requires Valid() && lo == hi
      modifies nonce, buf, conn, sink
      ensures Valid() && old(sink.data) <= sink.data && |sink.data| == |old(sink.data)| + n
      ensures er != Nil ==> er == old(EndError()) && old(OnWire()) == [] && sink.data == old(sink.data) && ew == Nil
      ensures er != Nil && er != AuthFailed ==> OnWire() == []
      ensures er == Nil ==> EndError() == old(EndError()) && |conn.rest| < |old(conn.rest)|
      ensures er == Nil ==> sink.data + (lost + OnWire()) == old(sink.data) + old(OnWire())
      ensures er != Nil ==> lost == []
      ensures |lost| <= PAYLOAD_SIZE_MASK && (sink.strict && ew == Nil ==> lost == [])
      ensures sink.reliable ==> ew == Nil && lost == []
    {
      ghost var before := sink.data;
      lost, ew, n := [], Nil, 0;
      var nr;
      nr, er := NextRecord();
      if nr > 0 {
        n, ew, lost := WriteRecord(sink, nr);
        Assoc(before, buf[..nr], OnWire());
        Assoc(sink.data, lost, OnWire());
      } else {
        assert buf[..0] + OnWire() == OnWire() == [] + OnWire();
      }
    }

    /** Record by record from the wire to a sink. */
    method WriteRecords(sink: Sink) returns (n: nat, e: Error, ghost lost: bytes, ghost left: bytes)
      requires Valid() && lo == hi
      modifies nonce, buf, conn, sink
      ensures Valid() && |sink.data| == |old(sink.data)| + n && old(sink.data) <= sink.data
      ensures sink.strict || sink.reliable ==>
                sink.data + (lost + left) == old(sink.data) + old(OnWire())
      ensures |lost| <= PAYLOAD_SIZE_MASK && (lost != [] && sink.strict ==> e != Nil)
      ensures left == OnWire() || (left == [] == lost && e == AuthFailed == old(EndError()))
      ensures sink.reliable ==>
                lost == [] == left && e == if old(EndError()) == EOF then Nil else old(EndError())
    {
      n, e, lost, left := 0, Nil, [], [];
      ghost var start, stream, end := sink.data, OnWire(), EndError();
      while true
        invariant Valid() && |sink.data| == |start| + n && start <= sink.data
        invariant sink.strict || sink.reliable ==> sink.data + OnWire() == start + stream
        invariant EndError() == end && e == Nil && lost == [] && left == []
        decreases |conn.rest|
      {
        ghost var ahead, before := OnWire(), sink.data;
        var m, er, ew;
        m, er, ew, lost := Pass(sink);
        n := n + m;
        if ew != Nil {
          e := ew;
          left := OnWire();
          return;
        }
        if er != Nil {
          assert before + (lost + left) == before;
          if er != EOF {
            e := er;
          }
          return;
        }
        assert sink.strict || sink.reliable ==> lost == [] && [] + OnWire() == OnWire();
        lost := [];
      }
    }

    /**
      Delivers everything to a sink. What does not arrive on a sink that keeps io.Writer's rule is
      `lost`, at most the rest of one record whose write failed, and what is still ahead; a record
      that does not open ends the delivery.
     */
    method WriteTo(sink: Sink) returns (n: nat, e: Error, ghost lost: bytes, ghost left: bytes)
      requires Valid()
      modifies this`lo, nonce, buf, conn, sink
      ensures Valid() && |sink.data| == |old(sink.data)| + n && old(sink.data) <= sink.data
      ensures sink.strict || sink.reliable ==>
                sink.data + (lost + left) == old(sink.data) + old(Ahead())
      ensures |lost| <= PAYLOAD_SIZE_MASK && (lost != [] && sink.strict ==> e != Nil)
      ensures left == Ahead() || (left == [] == lost && e == AuthFailed == old(EndError()))
      ensures sink.reliable ==>
                && lost == [] == left && sink.data == old(sink.data) + old(Ahead())
                && e == if old(EndError()) == EOF then Nil else old(EndError())
    {
      ghost var start, ahead := sink.data, Ahead();
      Assoc(start, Leftover(), OnWire());
      n, e := WriteLeftover(sink);
      Assoc(sink.data, Leftover(), OnWire());
      lost, left := [], Ahead();
      assert sink.data + (lost + left) == start + ahead by {
        assert [] + left == left;
      }
      if e != Nil {
        return;
      }
      assert Leftover() == [] && [] + OnWire() == OnWire();
      var m;
      m, e, lost, left := WriteRecords(sink);
      n := n + m;
      assert lost == [] && left == [] ==> sink.data + (lost + left) == sink.data;
    }
  }
}
