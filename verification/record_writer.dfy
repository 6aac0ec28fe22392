/** The sealing side of an encrypted stream. */
module RecordWriter {
  import opened Bytes
  import opened Io
  import opened Nonce
  import opened Aead
  import opened Records
  import opened Cork

  /** Records as few as can be: all of 0x3FFF bytes but the last, for n bytes in all. */
  ghost predicate Cut(made: seq<bytes>, n: nat) {
    && (forall i :: 0 <= i < |made| - 1 ==> |made[i]| == 0x3FFF)
    && (made == [] <==> n == 0)
    && (made != [] ==> n == 0x3FFF * (|made| - 1) + |made[|made| - 1]| && 0 < |made[|made| - 1]| <= 0x3FFF)
  }

  /** Up to here every record is full, if the source fills every read. */
  ghost predicate Full(src: Source, made: seq<bytes>, n: nat)
    reads src
  {
    src.eager ==> Cut(made, n) && (src.rest == [] || n == 0x3FFF * |made|)
  }

  lemma NoneYet(src: Source)
    ensures Full(src, [], 0)
  {
  }

  /** One more read of a source that fills every read. */
  lemma CutOn(made: seq<bytes>, n: nat, more: bytes)
    requires Cut(made, n) && n == 0x3FFF * |made| && |more| <= 0x3FFF
    ensures Cut(made + if more == [] then [] else [more], n + |more|)
  {
    if more == [] {
      assert made + [] == made;
    }
  }

  /** So up to 0x3FFF bytes are one record. */
  lemma OneRecord(made: seq<bytes>, b: bytes)
    requires Cut(made, |b|) && Concat(made) == b && 0 < |b| <= 0x3FFF
    ensures made == [b]
  {
    assert |made| == 1 && made[1..] == [];
    assert Concat(made) == made[0] + [] == made[0];
    assert made == [made[0]];
  }

  class Writer {
    const aead: AEAD
    const out: CorkedConn
    const nonce: array<byte>
    const buf: array<byte>
    /** The payloads of all records made, whether their write went through or not. */
    ghost var records: seq<bytes>
    /** Every seal made. */
    ghost var seals: seq<Seal>
    /** Every record made has been accepted by the connection, behind what was there before. */
    ghost var intact: bool
    ghost const base: bytes

    ghost predicate Valid()
      reads this, nonce, buf, out, out.bufw, out.bufw.buf, out.conn
    {
      && nonce.Length == aead.nonceSize
      && buf.Length == 2 + aead.overhead + PAYLOAD_SIZE_MASK + aead.overhead
      && nonce != buf && out.bufw.buf != nonce && out.bufw.buf != buf
      && out.Valid() && AllFit(records)
      && nonce[..] == NonceAfter(Zeros(aead.nonceSize), |records|)
      && seals == Seals(aead.nonceSize, records)
      && (intact ==> out.Accepted() == base + Wire(aead, Zeros(aead.nonceSize), records))
    }

    /** What the connection has accepted is the beginning of the wire form of all records made. */
    ghost predicate Begun()
      requires out.Valid()
      reads this, out, out.bufw, out.bufw.buf, out.conn
    {
      out.Accepted() <= base + Wire(aead, Zeros(aead.nonceSize), records)
    }

    constructor (out: CorkedConn, aead: AEAD)
      requires out.Valid()
      ensures Valid() && fresh(nonce) && fresh(buf)
      ensures this.out == out && this.aead == aead && base == out.Accepted()
      ensures records == [] && seals == [] && intact
    {
      this.out, this.aead, base := out, aead, out.Accepted();
      buf := new byte[2 + aead.overhead + PAYLOAD_SIZE_MASK + aead.overhead](_ => 0);
      nonce := new byte[aead.nonceSize](_ => 0);
      records, seals, intact := [], [], true;
      new;
      assert nonce[..] == Zeros(aead.nonceSize);
    }

    /** Seals buf[lo..lo+n] where it is, under the next nonce. */
    method SealBlock(lo: nat, n: nat)
      requires nonce != buf && lo + n + aead.overhead <= buf.Length
      modifies nonce, buf, this`seals
      ensures var p := old(buf[lo..lo + n]);
              && nonce[..] == Inc(old(nonce[..]))
              && buf[..lo + n + aead.overhead] == old(buf[..lo]) + aead.seal(old(nonce[..]), p)
              && seals == old(seals) + [Seal(old(nonce[..]), p)]
      ensures buf[lo + n + aead.overhead..] == old(buf[lo + n + aead.overhead..])
    {
      seals := seals + [Seal(nonce[..], buf[lo..lo + n])];
      SealInPlace(aead, nonce[..], buf, lo, n);
      Increment(nonce);
    }

    /** The length block, in front of the room for its tag. */
    method PutLength(nr: nat)
      requires nr <= PAYLOAD_SIZE_MASK && buf.Length >= 2
      modifies buf
      ensures buf[0..2] == Header(nr) && buf[2..] == old(buf[2..])
    {
      buf[0], buf[1] := nr / 256 % 256, nr % 256;
    }

    /** Puts the length block in front and seals both blocks where they are. */
    method SealRecord(nr: nat)
      requires nonce != buf && 0 < nr <= PAYLOAD_SIZE_MASK
      requires buf.Length == 2 + aead.overhead + PAYLOAD_SIZE_MASK + aead.overhead
      modifies nonce, buf, this`seals
      ensures var p := old(buf[2 + aead.overhead..2 + aead.overhead + nr]);
              && nonce[..] == Inc(Inc(old(nonce[..])))
              && buf[..2 + aead.overhead + nr + aead.overhead] == Record(aead, old(nonce[..]), p)
              && seals == old(seals) + [Seal(old(nonce[..]), Header(nr)), Seal(Inc(old(nonce[..])), p)]
    {
      var h := 2 + aead.overhead;
      ghost var front := buf[2..];
      assert buf[h..h + nr] == front[aead.overhead..][..nr];
      PutLength(nr);
      assert buf[..0] == [];
      ghost var behind := buf[h..];
      assert behind == front[aead.overhead..];
      SealBlock(0, 2);
      assert buf[h..h + nr] == behind[..nr];
      SealBlock(h, nr);
    }

    /** What the two seals of one more record do to the ghost state. */
    lemma OneMore(p: bytes)
      requires AllFit(records) && Fits(p)
      requires seals == Seals(aead.nonceSize, records)
      ensures var start, k := Zeros(aead.nonceSize), |records|;
              var n := NonceAfter(start, k);
              && AllFit(records + [p])
              && Inc(Inc(n)) == NonceAfter(start, k + 1)
              && Wire(aead, start, records + [p]) == Wire(aead, start, records) + Record(aead, n, p)
              && seals + [Seal(n, Header(|p|)), Seal(Inc(n), p)] == Seals(aead.nonceSize, records + [p])
    {
      var k := |records|;
      WireSnoc(aead, Zeros(aead.nonceSize), records, p);
      FirstNonce(aead.nonceSize);
      NonceAfterAt(aead.nonceSize, 0, k);
      IncAt(aead.nonceSize, 2 * k);
      assert (records + [p])[..k] == records;
    }

    /** Writes to the connection; the cork's timer may go off before. */
    method Put(record: bytes) returns (k: nat, e: Error, ghost taken: bytes)
      requires out.Valid()
      modifies out, out.bufw, out.bufw.buf, out.conn
      ensures out.Valid() && k == |taken| && taken <= record && out.Accepted() == old(out.Accepted()) + taken
      ensures k == |record| ==> taken == record
      ensures out.conn.strict && e == Nil ==> k == |record|
      ensures out.conn.reliable && old(out.Healthy()) ==> out.Healthy() && e == Nil && k == |record|
    {
      out.MayFire();
      k, e := out.Write(record);
      taken := record[..k];
    }

    /** Seals the payload at its place in the buffer and writes the record. */
    method SendRecord(nr: nat) returns (e: Error)
      requires Valid() && 0 < nr <= PAYLOAD_SIZE_MASK
      modifies nonce, buf, this`seals, this`records, this`intact, out, out.bufw, out.bufw.buf, out.conn
      ensures Valid()
      ensures records == old(records) + [old(buf[2 + aead.overhead..2 + aead.overhead + nr])]
      ensures out.conn.strict && e == Nil ==> intact == old(intact)
      ensures intact ==> old(intact)
      ensures old(intact) ==> Begun()
      ensures out.conn.reliable && old(out.Healthy()) ==>
                out.Healthy() && e == Nil && intact == old(intact)
    {
      ghost var p := buf[2 + aead.overhead..2 + aead.overhead + nr];
      OneMore(p);
      SealRecord(nr);
      ghost var taken, sent := [], Wire(aead, Zeros(aead.nonceSize), records);
      var record := buf[..2 + aead.overhead + nr + aead.overhead];
      var k;
      k, e, taken := Put(record);
      Assoc(base, sent, record);
      assert base + sent + taken <= base + sent + record;
      intact := intact && k == |record|;
      records := records + [p];
    }

    /** One read of the source and the record made of it. */
    method Relay(src: Source) returns (nr: nat, er: Error, ew: Error, ghost got: bytes)
      requires Valid()
      modifies nonce, buf, this`seals, this`records, this`intact, out, out.bufw, out.bufw.buf, out.conn
      modifies src
      ensures Valid() && old(records) <= records && nr == |got|
      ensures old(src.rest) == got + src.rest && Concat(records) == old(Concat(records)) + got
      ensures records == old(records) + if nr > 0 then [got] else []
      ensures src.eager ==> nr == Min(0x3FFF, |old(src.rest)|)
      ensures er != Nil ==> er == src.end && src.rest == []
      ensures src.stalls <= old(src.stalls) && (nr == 0 && er == Nil ==> src.stalls < old(src.stalls))
      ensures intact ==> old(intact)
      ensures old(intact) ==> Begun()
      ensures out.conn.strict && ew == Nil ==> intact == old(intact)
      ensures out.conn.reliable && old(out.Healthy()) ==>
                out.Healthy() && intact == old(intact) && ew == Nil
    {
      var h := 2 + aead.overhead;
      nr, er, got := src.Read(buf, h, h + PAYLOAD_SIZE_MASK);
      ew := Nil;
      if nr > 0 {
        assert buf[h..h + nr] == buf[..h + nr][h..] == got;
        ConcatSnoc(records, got);
        ew := SendRecord(nr);
      }
    }

    /** One more read, `made` being the records of the reads before. */
    method RelayOn(src: Source, ghost before: seq<bytes>, ghost made: seq<bytes>, ghost n: nat)
      returns (nr: nat, er: Error, ew: Error, ghost got: bytes, ghost longer: seq<bytes>)
      requires Valid() && records == before + made && Full(src, made, n)
      modifies nonce, buf, this`seals, this`records, this`intact, out, out.bufw, out.bufw.buf, out.conn
      modifies src
      ensures Valid() && records == before + longer && Full(src, longer, n + nr) && nr == |got|
      ensures src.eager ==> nr == Min(0x3FFF, |old(src.rest)|)
      ensures old(src.rest) == got + src.rest && Concat(records) == old(Concat(records)) + got
      ensures er != Nil ==> er == src.end && src.rest == []
      ensures src.stalls <= old(src.stalls) && (nr == 0 && er == Nil ==> src.stalls < old(src.stalls))
      ensures intact ==> old(intact)
      ensures old(intact) ==> Begun()
      ensures out.conn.strict && ew == Nil ==> intact == old(intact)
      ensures out.conn.reliable && old(out.Healthy()) ==>
                out.Healthy() && intact == old(intact) && ew == Nil
    {
      nr, er, ew, got := Relay(src);
      longer := made + if nr > 0 then [got] else [];
      assert records == before + longer;
      if src.eager && n == 0x3FFF * |made| {
        CutOn(made, n, got);
      }
    }

    /** The loop of ReadFrom; `made` are the records made. */
    method RelayAll(src: Source) returns (n: nat, e: Error, ghost got: bytes, ghost made: seq<bytes>)
      requires Valid()
      modifies nonce, buf, this`seals, this`records, this`intact, out, out.bufw, out.bufw.buf, out.conn
      modifies src
      ensures Valid() && records == old(records) + made
      ensures n == |got| && old(src.rest) == got + src.rest
      ensures Concat(records) == old(Concat(records)) + got
      ensures src.eager ==> Cut(made, n) && n >= Min(0x3FFF, |old(src.rest)|)
      ensures e == Nil ==> src.rest == [] && src.end == EOF
      ensures intact ==> old(intact)
      ensures old(intact) && out.conn.strict ==> Begun()
      ensures out.conn.strict && e == Nil ==> intact == old(intact)
      ensures out.conn.reliable && old(out.Healthy()) ==>
                && out.Healthy() && intact == old(intact) && src.rest == []
                && e == if src.end == EOF then Nil else src.end
    {
      hide Full, Cut, Concat;
      n, e, got, made := 0, Nil, [], [];
      NoneYet(src);
      ghost var before, text, stream, sound := records, Concat(records), src.rest, intact;
      ghost var healthy := out.conn.reliable && out.Healthy();
      while true
        invariant Valid() && records == before + made && Full(src, made, n)
        invariant n == |got| && stream == got + src.rest
        invariant Concat(records) == text + got
        invariant e == Nil && (intact ==> sound)
        invariant out.conn.strict ==> intact == sound
        invariant intact ==> Begun()
        invariant healthy ==> out.Healthy() && intact == sound
        decreases |src.rest| + src.stalls
      {
        var nr, er, ew;
        ghost var more;
        nr, er, ew, more, made := RelayOn(src, before, made, n);
        Assoc(text, got, more);
        Assoc(got, more, src.rest);
        n, got := n + nr, got + more;
        if ew != Nil {
          e := ew;
          break;
        }
        if er != Nil {
          if er != EOF {
            e := er;
          }
          break;
        }
      }
    }

    /**
      Cuts what the source delivers into records of at most 0x3FFF bytes. Every byte read goes
      into a record, in order; the nonces move on also when a write fails. A source that fills every
      read makes as few records as can be.
     */
    method ReadFrom(src: Source) returns (n: nat, e: Error, ghost got: bytes)
      requires Valid()
      modifies nonce, buf, this`seals, this`records, this`intact, out, out.bufw, out.bufw.buf, out.conn
      modifies src
      ensures Valid() && old(records) <= records
      ensures n == |got| && old(src.rest) == got + src.rest
      ensures Concat(records) == old(Concat(records)) + got
      ensures src.eager ==> Cut(records[|old(records)|..], n) && n >= Min(0x3FFF, |old(src.rest)|)
      ensures e == Nil ==> src.rest == [] && src.end == EOF
      ensures intact ==> old(intact)
      ensures old(intact) && out.conn.strict ==> Begun()
      ensures out.conn.strict && e == Nil ==> intact == old(intact)
      ensures out.conn.reliable && old(out.Healthy()) ==>
                && out.Healthy() && intact == old(intact) && src.rest == []
                && e == if src.end == EOF then Nil else src.end
    {
      ghost var before, made := records, [];
      n, e, got, made := RelayAll(src);
      assert records[|before|..] == made;
    }

    method Write(b: bytes) returns (n: nat, e: Error)
      requires Valid()
      modifies nonce, buf, this`seals, this`records, this`intact, out, out.bufw, out.bufw.buf, out.conn
      ensures Valid() && n <= |b| && old(records) <= records
      ensures Concat(records) == old(Concat(records)) + b[..n]
      ensures Cut(records[|old(records)|..], n) && n >= Min(0x3FFF, |b|)
      ensures e == Nil ==> n == |b|
      ensures intact ==> old(intact)
      ensures old(intact) && out.conn.strict ==> Begun()
      ensures out.conn.strict && e == Nil ==> intact == old(intact)
      ensures out.conn.reliable && old(out.Healthy()) ==>
                out.Healthy() && intact == old(intact) && e == Nil
    {
      var src := new Source.Buffer(b);
      ghost var got;
      n, e, got := ReadFrom(src);
      assert b[..n] == got;
    }
  }
}
