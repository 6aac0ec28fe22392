/**
  What a SOCKS parser reads from: a plain connection, or an encrypted one whose salt has been read.
 */
module ReadEnd {
  import opened Bytes
  import opened Io
  import opened Records
  import RecordReader

  datatype ReadEnd = Plain(src: Source) | Shadow(rd: RecordReader.Reader) {

    /** What a read may change. */
    ghost function Repr(): set<object> {
      if Plain? then {src} else {rd, rd.nonce, rd.buf, rd.conn}
    }

    ghost predicate Valid()
      reads Repr()
    {
      Shadow? ==> rd.Valid()
    }

    /** The bytes still to come before the first error, and that error. */
    ghost function Incoming(): Outcome
      requires Valid()
      reads Repr()
    {
      if Plain? then Outcome(src.rest, src.end) else Outcome(rd.Ahead(), rd.EndError())
    }

    ghost function Fuel(): nat
      reads Repr()
    {
      if Plain? then src.stalls else |rd.conn.rest|
    }

    method Read(p: array<byte>, lo: nat, hi: nat) returns (n: nat, e: Error, ghost got: bytes)
      requires Valid() && lo <= hi <= p.Length && p !in Repr()
      modifies Repr(), p
      ensures Valid() && n == |got| <= hi - lo
      ensures p[..lo + n] == old(p[..lo]) + got && p[hi..] == old(p[hi..])
      ensures e == Nil || got != [] ==> old(Incoming()) == Before(got, Incoming())
      ensures e != Nil ==> old(Incoming()) == Outcome(got, e)
      ensures Fuel() <= old(Fuel())
      ensures n == 0 && e == Nil && lo < hi ==> Fuel() < old(Fuel())
    {
      match this
      case Plain(s) =>
        n, e, got := s.Read(p, lo, hi);
      case Shadow(r) =>
        n, e, got := r.Read(p, lo, hi);
    }

    /** One more read of a loop that has read `got` behind `front` so far. */
    method ReadOnce(p: array<byte>, at: nat, hi: nat, ghost front: bytes, ghost got: bytes)
      returns (m: nat, e: Error, ghost more: bytes)
      requires Valid() && at < hi <= p.Length && p !in Repr() && p[..at] == front + got
      modifies Repr(), p
      ensures Valid() && |more| == |got| + m && at + m <= hi
      ensures p[..at + m] == front + more && p[hi..] == old(p[hi..])
      ensures e == Nil || at + m == hi ==> Before(got, old(Incoming())) == Before(more, Incoming())
      ensures e != Nil ==> Before(got, old(Incoming())) == Outcome(more, e)
      ensures Fuel() <= old(Fuel())
      ensures m == 0 && e == Nil ==> Fuel() < old(Fuel())
    {
      ghost var next;
      m, e, next := Read(p, at, hi);
      Assoc(front, got, next);
      BeforeBefore(got, next, Incoming());
      more := got + next;
    }

    /** The loop of io.ReadFull. */
    method ReadLoop(p: array<byte>, lo: nat, hi: nat) returns (n: nat, e: Error, ghost got: bytes)
      requires Valid() && lo <= hi <= p.Length && p !in Repr()
      modifies Repr(), p
      ensures Valid() && n == |got| <= hi - lo && (e == Nil ==> n == hi - lo)
      ensures p[..lo + n] == old(p[..lo]) + got && p[hi..] == old(p[hi..])
      ensures n == hi - lo ==> old(Incoming()) == Before(got, Incoming())
      ensures e != Nil ==> old(Incoming()) == Outcome(got, e)
    {
      n, e, got := 0, Nil, [];
      ghost var all, front, back := Incoming(), p[..lo], p[hi..];
      while n < hi - lo && e == Nil
        invariant Valid() && n == |got| <= hi - lo
        invariant p[..lo + n] == front + got && p[hi..] == back
        invariant e == Nil || n == hi - lo ==> all == Before(got, Incoming())
        invariant e != Nil ==> all == Outcome(got, e)
        decreases hi - lo - n, Fuel(), e == Nil
      {
        var m;
        m, e, got := ReadOnce(p, lo + n, hi, front, got);
        n := n + m;
      }
    }

    /** io.ReadFull over either kind of connection. */
    method ReadFull(p: array<byte>, lo: nat, hi: nat) returns (e: Error, ghost got: bytes)
      requires Valid() && lo <= hi <= p.Length && p !in Repr()
      modifies Repr(), p
      ensures Valid() && p[hi..] == old(p[hi..])
      ensures e == Nil <==> hi - lo <= |old(Incoming()).text|
      ensures e == Nil ==>
                && |got| == hi - lo && p[..hi] == old(p[..lo]) + got
                && old(Incoming()) == Before(got, Incoming())
      ensures e != Nil ==> e == Cut(old(Incoming()))
    {
      var n;
      n, e, got := ReadLoop(p, lo, hi);
      if n >= hi - lo {
        e := Nil;
      } else if n > 0 && e == EOF {
        e := UnexpectedEOF;
      }
    }
  }

  ghost function Before(got: bytes, later: Outcome): Outcome {
    Outcome(got + later.text, later.err)
  }

  lemma BeforeBefore(got: bytes, more: bytes, later: Outcome)
    ensures Before(got, Before(more, later)) == Before(got + more, later)
  {
    Assoc(got, more, later.text);
  }

  /** What io.ReadFull reports of a stream that is too short. */
  ghost function Cut(o: Outcome): Error {
    if o.text != [] && o.err == EOF then UnexpectedEOF else o.err
  }
}
