/**
  An encrypted connection: each direction opens with a salt, from which the key of its records is
  derived.
 */
module ShadowConn {
  import opened Bytes
  import opened Io
  import opened Nonce
  import opened Aead
  import opened Records
  import opened BloomRing
  import opened Cork
  import RecordReader
  import RecordWriter

  /** Encrypter and Decrypter derive the same key from a salt; some salts may give none. */
  datatype Cipher = Cipher(saltSize: nat, subkey: bytes -> Option<AEAD>)

  method RandomSalt(size: nat) returns (salt: bytes)
    ensures |salt| == size
  {
    var a := new byte[size];
    for i := 0 to size {
      a[i] := *;
    }
    salt := a[..];
  }

  /** What the receiving side makes of a stream from its first byte. */
  function Open(cipher: Cipher, wire: bytes, end: Failure, repeated: bool): Outcome {
    if |wire| < cipher.saltSize then Outcome([], FullReadError(|wire|, cipher.saltSize, end))
    else
      var key := cipher.subkey(wire[..cipher.saltSize]);
      if key.None? then Outcome([], BadKey)
      else if repeated then Outcome([], RepeatedSalt)
      else Decode(key.value, Zeros(key.value.nonceSize), wire[cipher.saltSize..], end)
  }

  class StreamConn {
    const conn: Source
    const out: CorkedConn
    const cipher: Cipher
    const filter: BloomRing?
    var r: RecordReader.Reader?
    var w: RecordWriter.Writer?
    /** What the connection had accepted before the salt, and the salt. */
    ghost var base: bytes
    ghost var salt: bytes

    ghost predicate ReadValid()
      reads this, ReadRepr(), filter, Slots(filter)
    {
      ValidFilter(filter) && (r != null ==> r.conn == conn && r.Valid())
    }

    ghost function ReadRepr(): set<object>
      reads this
    {
      {conn} + if r == null then {} else {r, r.nonce, r.buf}
    }

    ghost function FirstSaltRepeated(): bool
      reads this, conn, filter, Slots(filter)
    {
      |conn.rest| >= cipher.saltSize && Repeated(filter, conn.rest[..cipher.saltSize])
    }

    /** Reading has started, or can: there is a whole salt, with a key, that is not taken for seen. */
    ghost predicate Starts()
      reads this, conn, filter, Slots(filter)
    {
      r != null || (|conn.rest| >= cipher.saltSize && cipher.subkey(conn.rest[..cipher.saltSize]).Some?
                    && !FirstSaltRepeated())
    }

    /** What reading from here delivers before the first error, and that error. */
    ghost function Incoming(): Outcome
      requires ReadValid()
      reads this, ReadRepr(), filter, Slots(filter)
    {
      if r != null then Outcome(r.Ahead(), r.EndError())
      else Open(cipher, conn.rest, conn.end, FirstSaltRepeated())
    }

    constructor (conn: Source, out: CorkedConn, cipher: Cipher, filter: BloomRing?)
      requires ValidFilter(filter)
      ensures ReadValid() && r == null && w == null
      ensures this.conn == conn && this.out == out && this.cipher == cipher && this.filter == filter
    {
      this.conn, this.out, this.cipher, this.filter, r, w := conn, out, cipher, filter, null, null;
      base, salt := [], [];
    }

    method ReadSalt() returns (e: Error, salt: bytes)
      requires ReadValid() && r == null
      modifies conn
      ensures if |old(conn.rest)| < cipher.saltSize
              then e == FullReadError(|old(conn.rest)|, cipher.saltSize, conn.end) != Nil
              else
                && e == Nil && salt == old(conn.rest)[..cipher.saltSize]
                && conn.rest == old(conn.rest)[cipher.saltSize..]
      ensures |conn.rest| <= |old(conn.rest)|
    {
      var a := new byte[cipher.saltSize];
      ghost var got;
      var n;
      n, e, got := ReadFull(conn, a, 0, cipher.saltSize);
      assert a[..0] == [];
      assert e == Nil ==> a[..] == a[..0 + n] == got;
      salt := a[..];
    }

    method InitReader() returns (e: Error)
      requires ReadValid() && r == null
      modifies this`r, conn
      ensures ReadValid() && fresh(ReadRepr() - {conn})
      ensures e == Nil ==> r != null && Incoming() == old(Incoming())
      ensures e != Nil ==> old(Incoming()) == Outcome([], e)
      ensures e == Nil <==> old(Starts())
      ensures |old(conn.rest)| >= cipher.saltSize && cipher.subkey(old(conn.rest)[..cipher.saltSize]).Some? ==>
                e == if old(FirstSaltRepeated()) then RepeatedSalt else Nil
      ensures |conn.rest| <= |old(conn.rest)|
    {
      var salt;
      e, salt := ReadSalt();
      if e != Nil {
        return;
      }
      var key := cipher.subkey(salt);
      if key == None {
        return BadKey;
      }
      var repeated := CheckSalt(filter, salt);
      if repeated {
        return RepeatedSalt;
      }
      r := new RecordReader.Reader(conn, key.value);
    }

    method Read(p: array<byte>, lo: nat, hi: nat) returns (n: nat, e: Error, ghost got: bytes)
      requires ReadValid() && lo <= hi <= p.Length && p !in ReadRepr()
      modifies this`r, ReadRepr(), p
      ensures ReadValid() && fresh(ReadRepr() - old(ReadRepr()))
      ensures n == |got| <= hi - lo
      ensures p[..lo + n] == old(p[..lo]) + got && p[hi..] == old(p[hi..])
      ensures e == Nil ==> old(Incoming()) == Outcome(got + Incoming().text, Incoming().err)
      ensures e != Nil ==> got == [] && old(Incoming()) == Outcome([], e)
      ensures |conn.rest| <= |old(conn.rest)|
      ensures n == 0 && e == Nil && lo < hi ==> |conn.rest| < |old(conn.rest)|
    {
      if r == null {
        e := InitReader();
        if e != Nil {
          return 0, e, [];
        }
      }
      n, e, got := r.Read(p, lo, hi);
    }

    method WriteTo(sink: Sink) returns (n: nat, e: Error)
      requires ReadValid()
      modifies this`r, ReadRepr(), sink
      ensures ReadValid() && fresh(ReadRepr() - old(ReadRepr()))
      ensures |sink.data| == |old(sink.data)| + n
      ensures sink.strict ==> old(sink.data) <= sink.data <= old(sink.data) + old(Incoming()).text
      ensures sink.reliable ==>
                && sink.data == old(sink.data) + old(Incoming()).text
                && e == if old(Incoming()).err == EOF && old(Starts()) then Nil else old(Incoming()).err
    {
      ghost var start, text := sink.data, Incoming().text;
      if r == null {
        e := InitReader();
        if e != Nil {
          assert start + text == start;
          return 0, e;
        }
      }
      ghost var lost, left;
      n, e, lost, left := r.WriteTo(sink);
      assert sink.strict ==> sink.data + (lost + left) == start + text;
    }

    ghost predicate WriteValid()
      reads this, WriteRepr(), filter, Slots(filter)
    {
      && ValidFilter(filter) && out.Valid()
      && (w != null ==> w.out == out && w.Valid())
    }

    ghost function WriteRepr(): set<object>
      reads this
    {
      {out, out.bufw, out.bufw.buf, out.conn} + if w == null then {} else {w, w.nonce, w.buf}
    }

    /** The plaintext sent so far. */
    ghost function Sent(): bytes
      reads this, w
    {
      if w == null then [] else Concat(w.records)
    }

    /** Nothing has gone wrong: the connection has accepted the salt and every record. */
    ghost predicate Sound()
      reads this, w
    {
      w != null ==>
        && w.intact && |salt| == cipher.saltSize
        && cipher.subkey(salt) == Some(w.aead) && w.base == base + salt
    }

    /** Every salt gives a key. */
    ghost predicate Keyed() {
      forall s :: |s| == cipher.saltSize ==> cipher.subkey(s).Some?
    }

    /** What the connection has accepted is the beginning of the salt and the records made. */
    ghost predicate Begun()
      requires out.Valid()
      reads this, w, out, out.bufw, out.bufw.buf, out.conn
    {
      && |salt| == cipher.saltSize && cipher.subkey(salt).Some?
      && (w != null ==> cipher.subkey(salt) == Some(w.aead))
      && out.Accepted() <= if w == null then base + salt
                           else base + salt + Wire(w.aead, Zeros(w.aead.nonceSize), w.records)
    }

    /** Nothing can go wrong in the sending direction. */
    ghost predicate Ready()
      reads this, w, out, out.bufw
    {
      out.conn.reliable && out.Healthy() && Sound() && Keyed()
    }

    method SendSalt(s: bytes) returns (e: Error)
      requires WriteValid()
      modifies out, out.bufw, out.bufw.buf, out.conn, filter, Slots(filter)
      ensures out.Valid() && ValidFilter(filter)
      ensures out.conn.reliable && old(out.Healthy()) ==>
                out.Healthy() && e == Nil && out.Accepted() == old(out.Accepted()) + s
      ensures out.Accepted() <= old(out.Accepted()) + s
      ensures out.conn.strict && e == Nil ==> out.Accepted() == old(out.Accepted()) + s
      ensures e == Nil && filter != null ==> filter.history == old(filter.history) + [s]
    {
      out.MayFire();
      var n;
      n, e := out.Write(s);
      assert n == |s| ==> s[..n] == s;
      if e == Nil {
        AddSalt(filter, s);
      }
    }

    /** Sends the salt and starts with its key. */
    method StartWith(s: bytes, key: AEAD) returns (e: Error)
      requires WriteValid() && w == null && |s| == cipher.saltSize && cipher.subkey(s) == Some(key)
      modifies this`w, this`base, this`salt, out, out.bufw, out.bufw.buf, out.conn, filter, Slots(filter)
      ensures WriteValid() && (w != null ==> fresh(w) && fresh(w.nonce) && fresh(w.buf))
      ensures e == Nil <==> w != null
      ensures base == old(out.Accepted()) && salt == s && Begun()
      ensures e == Nil ==> w.records == [] && (out.conn.strict ==> Sound())
      ensures e == Nil && filter != null ==> filter.history == old(filter.history) + [s]
      ensures old(Ready()) ==> Ready() && e == Nil
    {
      base, salt := out.Accepted(), s;
      e := SendSalt(s);
      assert base + salt + [] == base + salt;
      if e == Nil {
        w := new RecordWriter.Writer(out, key);
      }
    }

    /** Starts the sending direction with a fresh salt. */
    method InitWriter() returns (e: Error)
      requires WriteValid() && w == null
      modifies this`w, this`base, this`salt, out, out.bufw, out.bufw.buf, out.conn, filter, Slots(filter)
      ensures WriteValid() && (w != null ==> fresh(w) && fresh(w.nonce) && fresh(w.buf))
      ensures e == Nil <==> w != null
      ensures e == Nil ==> w.records == [] && base == old(out.Accepted()) && (out.conn.strict ==> Sound())
      ensures Keyed() ==> Begun() && base == old(out.Accepted())
      ensures e == Nil && filter != null ==> filter.history == old(filter.history) + [salt]
      ensures old(Ready()) ==> Ready() && e == Nil
    {
      var s := RandomSalt(cipher.saltSize);
      var key := cipher.subkey(s);
      if key == None {
        return BadKey;
      }
      e := StartWith(s, key.value);
    }

    /** Makes sure that the sending direction has started. */
    method Start() returns (e: Error)
      requires WriteValid()
      modifies this`w, this`base, this`salt, WriteRepr(), filter, Slots(filter)
      ensures WriteValid() && (old(w) != null ==> w == old(w))
      ensures old(w) == null && w != null ==> fresh(w) && fresh(w.nonce) && fresh(w.buf)
      ensures Sent() == old(Sent()) && (e == Nil <==> w != null)
      ensures w != null ==> base == if old(w) == null then old(out.Accepted()) else old(base)
      ensures old(w) == null && Keyed() ==> Begun() && base == old(out.Accepted())
      ensures old(w) == null && out.conn.strict && e == Nil ==> Sound()
      ensures old(Ready()) ==> Ready() && e == Nil
    {
      e := Nil;
      if w == null {
        e := InitWriter();
      }
    }

    method Write(b: bytes) returns (n: nat, e: Error)
      requires WriteValid()
      modifies this`w, this`base, this`salt, WriteRepr(), filter, Slots(filter)
      ensures WriteValid() && (old(w) != null ==> w == old(w))
      ensures old(w) == null && w != null ==> fresh(w) && fresh(w.nonce) && fresh(w.buf)
      ensures n <= |b| && Sent() == old(Sent()) + b[..n] && (e == Nil ==> n == |b| && w != null)
      ensures w != null ==> base == if old(w) == null then old(out.Accepted()) else old(base)
      ensures old(w) == null && Keyed() && out.conn.strict ==>
                Begun() && base == old(out.Accepted()) && (e == Nil ==> Sound())
      ensures old(Ready()) ==> Ready() && e == Nil
    {
      n := 0;
      e := Start();
      assert Sent() + b[..n] == Sent();
      if e == Nil {
        n, e := w.Write(b);
      }
    }

    /** ReadFrom in a direction that has started. */
    method Forward(src: Source) returns (n: nat, e: Error, ghost got: bytes)
      requires WriteValid() && w != null
      modifies w, w.nonce, w.buf, out, out.bufw, out.bufw.buf, out.conn, src
      ensures WriteValid() && w == old(w) && base == old(base)
      ensures n == |got| && old(src.rest) == got + src.rest && Sent() == old(Sent()) + got
      ensures e == Nil ==> src.rest == []
      ensures old(Sound()) && out.conn.strict ==> Begun()
      ensures old(Ready()) ==> Ready() && src.rest == [] && e == if src.end == EOF then Nil else src.end
    {
      n, e, got := w.ReadFrom(src);
    }

    method ReadFrom(src: Source) returns (n: nat, e: Error, ghost got: bytes)
      requires WriteValid()
      modifies this`w, this`base, this`salt, WriteRepr(), filter, Slots(filter), src
      ensures WriteValid() && (old(w) != null ==> w == old(w))
      ensures old(w) == null && w != null ==> fresh(w) && fresh(w.nonce) && fresh(w.buf)
      ensures n == |got| && old(src.rest) == got + src.rest && Sent() == old(Sent()) + got
      ensures w != null ==> base == if old(w) == null then old(out.Accepted()) else old(base)
      ensures e == Nil ==> src.rest == [] && w != null
      ensures old(w) == null && Keyed() && out.conn.strict ==> Begun() && base == old(out.Accepted())
      ensures old(Ready()) ==>
                Ready() && w != null && src.rest == [] && e == if src.end == EOF then Nil else src.end
    {
      e := Start();
      if e != Nil {
        return 0, e, [];
      }
      n, e, got := Forward(src);
    }

    /** What the connection has accepted, when nothing has gone wrong. */
    lemma OnTheWire()
      requires WriteValid() && Sound() && w != null
      ensures out.Accepted() == base + (salt + Wire(w.aead, Zeros(w.aead.nonceSize), w.records))
      ensures |salt| == cipher.saltSize && cipher.subkey(salt) == Some(w.aead) && AllFit(w.records)
    {
      Assoc(base, salt, Wire(w.aead, Zeros(w.aead.nonceSize), w.records));
    }
  }

  /**
    The salt filter is there to refuse repeated salts. With exact slots, and a salt that has a key, a
    stream is refused if and only if its salt is among the last ones this process has sent itself:
    what it receives does not enter the filter.
   */
  method RefusedExactly(sc: StreamConn) returns (e: Error)
    requires sc.ReadValid() && sc.r == null && sc.filter != null && sc.filter.Exact()
    requires |sc.conn.rest| >= sc.cipher.saltSize
    requires sc.cipher.subkey(sc.conn.rest[..sc.cipher.saltSize]).Some?
    modifies sc`r, sc.conn
    ensures var salt := old(sc.conn.rest)[..sc.cipher.saltSize];
            && (e == RepeatedSalt <==> salt in LastItems(sc.filter.history, sc.filter.Retained()))
            && (e == RepeatedSalt || e == Nil)
    ensures sc.filter.history == old(sc.filter.history) && sc.filter.Retained() == old(sc.filter.Retained())
  {
    sc.filter.Window(sc.conn.rest[..sc.cipher.saltSize]);
    e := sc.InitReader();
  }
}
