/** Whole runs of an encrypted stream: any calls that send, any calls that receive. */
module StreamRun {
  import opened Bytes
  import opened Io
  import opened Nonce
  import opened Aead
  import opened Records
  import opened Cork
  import RecordReader
  import RecordWriter

  datatype Job =
    | WriteJob(b: bytes)
    | ReadFromJob(data: bytes, end: Failure, stalls: nat)

  function Offer(job: Job): bytes {
    if job.WriteJob? then job.b else job.data
  }

  function Offered(jobs: seq<Job>): bytes {
    if jobs == [] then [] else Offered(jobs[..|jobs| - 1]) + Offer(jobs[|jobs| - 1])
  }

  /** Nothing has gone wrong and nothing can. */
  ghost predicate Sending(w: RecordWriter.Writer)
    reads w, w.nonce, w.buf, w.out, w.out.bufw, w.out.bufw.buf, w.out.conn
  {
    w.Valid() && w.intact && w.out.conn.reliable && w.out.Healthy()
  }

  method SendOne(w: RecordWriter.Writer, job: Job)
    requires Sending(w)
    modifies w, w.nonce, w.buf, w.out, w.out.bufw, w.out.bufw.buf, w.out.conn
    ensures Sending(w) && Concat(w.records) == old(Concat(w.records)) + Offer(job)
  {
    if job.WriteJob? {
      var n, e := w.Write(job.b);
      assert job.b[..n] == job.b;
    } else {
      var src := new Source(job.data, job.end, job.stalls);
      var n, e, got := w.ReadFrom(src);
      assert got + [] == got;
    }
  }

  method SendAll(w: RecordWriter.Writer, jobs: seq<Job>)
    requires Sending(w)
    modifies w, w.nonce, w.buf, w.out, w.out.bufw, w.out.bufw.buf, w.out.conn
    ensures Sending(w) && Concat(w.records) == old(Concat(w.records)) + Offered(jobs)
  {
    ghost var before := Concat(w.records);
    for i := 0 to |jobs|
      invariant Sending(w) && Concat(w.records) == before + Offered(jobs[..i])
    {
      SendOne(w, jobs[i]);
      assert jobs[..i + 1][..i] == jobs[..i];
      Assoc(before, Offered(jobs[..i]), Offer(jobs[i]));
    }
    assert jobs[..|jobs|] == jobs;
  }

  /** One read; what it got is also what is in the slice. */
  method ReadSome(rd: RecordReader.Reader, size: nat) returns (part: bytes, e: Error)
    requires rd.Valid()
    modifies rd, rd.nonce, rd.buf, rd.conn
    ensures rd.Valid() && |part| <= size
    ensures e == Nil ==> old(rd.Ahead()) == part + rd.Ahead()
    ensures e != Nil ==> old(rd.Ahead()) == [] == part
  {
    var p := new byte[size](_ => 0);
    ghost var got;
    var n;
    n, e, got := rd.Read(p, 0, size);
    assert p[..0] == [];
    part := p[..0 + n];
  }

  /** Reads of the given sizes, and a WriteTo unless one of them fails. */
  method ReceiveAll(rd: RecordReader.Reader, sizes: seq<nat>, sink: Sink) returns (text: bytes)
    requires rd.Valid() && sink.reliable && sink.data == []
    modifies rd, rd.nonce, rd.buf, rd.conn, sink
    ensures text == old(rd.Ahead())
  {
    text := [];
    ghost var all := rd.Ahead();
    assert all == text + all;
    for i := 0 to |sizes|
      invariant rd.Valid() && all == text + rd.Ahead() && sink.data == []
    {
      var part, e := ReadSome(rd, sizes[i]);
      if e != Nil {
        assert text + [] == text;
        return;
      }
      Assoc(text, part, rd.Ahead());
      text := text + part;
    }
    ghost var rest := rd.Ahead();
    var n, e, lost, left := rd.WriteTo(sink);
    assert [] + rest == rest;
    text := text + sink.data;
  }

  /** Any calls that send, and the timer: what they put on a fresh connection. */
  method Transmit(aead: AEAD, jobs: seq<Job>, corked: bool, corkSize: int)
    returns (wire: bytes, ghost payloads: seq<bytes>)
    ensures AllFit(payloads) && Concat(payloads) == Offered(jobs)
    ensures wire == Wire(aead, Zeros(aead.nonceSize), payloads)
    ensures RoundTrips(aead) ==>
              Decode(aead, Zeros(aead.nonceSize), wire, EOF) == Outcome(Offered(jobs), EOF)
  {
    var conn := new Sink(true, true, 0);
    var out: CorkedConn;
    if corked {
      out := new CorkedConn(conn, corkSize);
    } else {
      out := new CorkedConn.Plain(conn);
    }
    var w := new RecordWriter.Writer(out, aead);
    SendAll(w, jobs);
    payloads := w.records;
    Settle(out);
    wire := conn.data;
    if RoundTrips(aead) {
      RoundTrip(aead, Zeros(aead.nonceSize), payloads, EOF);
    }
  }

  /**
    Stream round trip: whatever calls write the bytes and whatever calls read them, with whatever
    sizes, chunking, cork and timer, the reader delivers exactly what was written.
   */
  method StreamRoundTrip(
      aead: AEAD, jobs: seq<Job>, corked: bool, corkSize: int, stalls: nat, sizes: seq<nat>)
    returns (text: bytes)
    requires RoundTrips(aead)
    ensures text == Offered(jobs)
  {
    ghost var payloads;
    var wire;
    wire, payloads := Transmit(aead, jobs, corked, corkSize);
    var conn := new Source(wire, EOF, stalls);
    var rd := new RecordReader.Reader(conn, aead);
    var sink := new Sink(true, true, 0);
    text := ReceiveAll(rd, sizes, sink);
  }

  /**
    An honest stream cut at any byte: whatever calls read it, exactly the payloads of the records
    wholly before the cut are delivered.
   */
  method ReceiveCut(
      aead: AEAD, wire: bytes, cut: nat, stalls: nat, sizes: seq<nat>, ghost payloads: seq<bytes>)
    returns (text: bytes)
    requires OpensAll(aead, Zeros(aead.nonceSize), payloads) && AllFit(payloads)
    requires cut <= |wire| && wire == Wire(aead, Zeros(aead.nonceSize), payloads)
    ensures text == Concat(payloads[..WholeBefore(aead, payloads, cut)])
  {
    Truncated(aead, Zeros(aead.nonceSize), payloads, cut, EOF);
    var conn := new Source(wire[..cut], EOF, stalls);
    var rd := new RecordReader.Reader(conn, aead);
    var sink := new Sink(true, true, 0);
    text := ReceiveAll(rd, sizes, sink);
  }

  /**
    Integrity of whole runs: whatever bytes arrive, and whatever calls read them, what is delivered
    up to the first error is the first few records that were written.
   */
  method ReceiveAnything(
      aead: AEAD, wire: bytes, end: Failure, stalls: nat, sizes: seq<nat>, ghost payloads: seq<bytes>)
    returns (text: bytes)
    requires AllFit(payloads)
    requires Ideal(aead, Seals(aead.nonceSize, payloads)) && 2 * |payloads| < Pow256(aead.nonceSize)
    ensures text <= Concat(payloads)
    ensures exists j :: 0 <= j <= |payloads| && text == Concat(payloads[..j])
  {
    Integrity(aead, payloads, wire, end);
    var conn := new Source(wire, end, stalls);
    var rd := new RecordReader.Reader(conn, aead);
    var sink := new Sink(true, true, 0);
    text := ReceiveAll(rd, sizes, sink);
  }

  /**
    The reader's nonce keeps pace with the writer's: after k whole records of an honest stream it
    is the nonce of record k, and the rest of the stream is as the writer went on from there.
   */
  method Lockstep(rd: RecordReader.Reader, k: nat, ghost payloads: seq<bytes>, ghost tail: bytes)
    requires rd.Valid() && rd.lo == rd.hi && AllFit(payloads) && k <= |payloads|
    requires OpensAll(rd.aead, rd.nonce[..], payloads)
    requires rd.conn.rest == Wire(rd.aead, rd.nonce[..], payloads) + tail
    modifies rd.nonce, rd.buf, rd.conn
    ensures rd.Valid() && rd.nonce[..] == NonceAfter(old(rd.nonce[..]), k)
    ensures rd.conn.rest == Wire(rd.aead, rd.nonce[..], payloads[k..]) + tail
  {
    ghost var first := rd.nonce[..];
    for i := 0 to k
      invariant rd.Valid() && rd.nonce[..] == NonceAfter(first, i)
      invariant rd.conn.rest == Wire(rd.aead, rd.nonce[..], payloads[i..]) + tail
    {
      ghost var nonce, later := rd.nonce[..], payloads[i + 1..];
      ghost var rest := Wire(rd.aead, Inc(Inc(nonce)), later);
      assert payloads[i..][1..] == later;
      OpensRest(rd.aead, first, payloads, i);
      Assoc(Record(rd.aead, nonce, payloads[i]), rest, tail);
      ReadsBack(rd.aead, nonce, payloads[i], rest + tail, rd.conn.end);
      WireSnoc(rd.aead, first, payloads[..i], payloads[i]);
      var n, e := rd.ReadNext();
    }
  }

  /**
    Nonce discipline of a writer at any point of any run, failed writes included: record k was
    sealed under the nonces 2k and 2k+1, no nonce comes twice within 256^size seals, and the current
    nonce is the number of seals made.
   */
  lemma NonceDiscipline(w: RecordWriter.Writer)
    requires w.Valid()
    ensures var size := w.aead.nonceSize;
            && |w.seals| == 2 * |w.records|
            && (forall k :: 0 <= k < |w.records| ==>
                  && w.seals[2 * k] == Seal(At(size, 2 * k), Header(|w.records[k]|))
                  && w.seals[2 * k + 1] == Seal(At(size, 2 * k + 1), w.records[k]))
            && (forall i, j :: 0 <= i < j < |w.seals| && j - i < Pow256(size) ==>
                  w.seals[i].nonce != w.seals[j].nonce)
            && w.nonce[..] == At(size, |w.seals|)
  {
    var size, n := w.aead.nonceSize, |w.records|;
    forall k | 0 <= k < n
      ensures && w.seals[2 * k] == Seal(At(size, 2 * k), Header(|w.records[k]|))
              && w.seals[2 * k + 1] == Seal(At(size, 2 * k + 1), w.records[k])
    {
      SealsAt(size, w.records, k);
    }
    forall i, j | 0 <= i < j < |w.seals| && j - i < Pow256(size)
      ensures w.seals[i].nonce != w.seals[j].nonce
    {
      SealNonce(size, w.records, i);
      SealNonce(size, w.records, j);
      Distinct(size, i, j);
    }
    FirstNonce(size);
    NonceAfterAt(size, 0, n);
  }
}
