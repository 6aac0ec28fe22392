/**
  The record format of an encrypted stream: what a writer puts on the wire for a list of
  payloads, and what a reader makes of any wire bytes.
 */
module Records {
  import opened Bytes
  import opened Io
  import opened Nonce
  import opened Aead

  const PAYLOAD_SIZE_MASK := 0x3FFF

  /** A payload the writer can put in one record. */
  predicate Fits(p: bytes) {
    0 < |p| <= PAYLOAD_SIZE_MASK
  }

  predicate AllFit(payloads: seq<bytes>) {
    forall i :: 0 <= i < |payloads| ==> Fits(payloads[i])
  }

  /** The length block: two bytes, big-endian. */
  function Header(n: nat): bytes {
    [n / 256 % 256, n % 256]
  }

  function HeaderValue(h: bytes): nat
    requires |h| == 2
  {
    (256 * (h[0] as int) + h[1] as int) % 0x4000
  }

  function Record(a: AEAD, nonce: bytes, p: bytes): bytes {
    a.seal(nonce, Header(|p|)) + a.seal(Inc(nonce), p)
  }

  function Wire(a: AEAD, nonce: bytes, payloads: seq<bytes>): bytes
    decreases payloads
  {
    if payloads == [] then []
    else Record(a, nonce, payloads[0]) + Wire(a, Inc(Inc(nonce)), payloads[1..])
  }

  /** The nonce after k more whole records. */
  function NonceAfter(nonce: bytes, k: nat): bytes
    decreases k
  {
    if k == 0 then nonce else NonceAfter(Inc(Inc(nonce)), k - 1)
  }

  datatype Read =
    | Payload(text: bytes, rest: bytes)
    | Stop(err: Error)

  /** One record off the wire, or the error that ends the reading. */
  function ReadRecord(a: AEAD, nonce: bytes, wire: bytes, end: Failure): Read {
    var h := 2 + a.overhead;
    if |wire| < h then Stop(FullReadError(|wire|, h, end))
    else
      var head := a.open(nonce, wire[..h]);
      if head.None? then Stop(AuthFailed)
      else
        var b := HeaderValue(head.value) + a.overhead;
        var rest := wire[h..];
        if |rest| < b then Stop(FullReadError(|rest|, b, end))
        else
          var text := a.open(Inc(nonce), rest[..b]);
          if text.None? then Stop(AuthFailed) else Payload(text.value, rest[b..])
  }

  datatype Outcome = Outcome(text: bytes, err: Error)

  /** Everything a reader delivers from the wire, and the error it stops with. */
  function Decode(a: AEAD, nonce: bytes, wire: bytes, end: Failure): Outcome
    decreases |wire|
  {
    match ReadRecord(a, nonce, wire, end)
    case Payload(text, rest) =>
      var more := Decode(a, Inc(Inc(nonce)), rest, end);
      Outcome(text + more.text, more.err)
    case Stop(err) => Outcome([], err)
  }

  lemma HeaderRoundTrip(n: nat)
    requires n <= PAYLOAD_SIZE_MASK
    ensures HeaderValue(Header(n)) == n
  {
  }

  /** The length block is big-endian, and only its low 14 bits count. */
  lemma HeaderBytes(n: nat, hi: byte, lo: byte)
    ensures n <= 0x3FFF ==> |Header(n)| == 2 && 256 * Header(n)[0] as int + Header(n)[1] as int == n
    ensures HeaderValue([hi, lo]) == 256 * (hi as int % 64) + lo as int
  {
    assert 256 * hi as int + lo as int == 0x4000 * (hi as int / 64) + (256 * (hi as int % 64) + lo as int);
  }

  /**
    A record byte for byte: the length in two bytes, the high one first, sealed under the nonce of all
    zeros; then the payload, sealed under the nonce one.
   */
  lemma FirstRecord(a: AEAD, p: bytes)
    requires a.nonceSize > 0 && |p| <= 0x3FFF
    ensures Wire(a, seq(a.nonceSize, _ => 0), [p]) ==
            a.seal(seq(a.nonceSize, _ => 0), [|p| / 256, |p| % 256]) +
            a.seal([1] + seq(a.nonceSize - 1, _ => 0), p)
  {
    var zero: bytes := seq(a.nonceSize, _ => 0);
    assert Inc(zero) == [1] + seq(a.nonceSize - 1, _ => 0);
    assert [p][1..] == [];
    assert Wire(a, zero, [p]) == Record(a, zero, p) + [];
  }

  /** The two seals of a record open again. */
  ghost predicate OpensRecord(a: AEAD, nonce: bytes, p: bytes) {
    && a.open(nonce, a.seal(nonce, Header(|p|))) == Some(Header(|p|))
    && a.open(Inc(nonce), a.seal(Inc(nonce), p)) == Some(p)
  }

  /** What it takes for a stream to be read: every seal that was made for it opens again. */
  ghost predicate OpensAll(a: AEAD, nonce: bytes, payloads: seq<bytes>)
    decreases payloads
  {
    payloads == [] || (OpensRecord(a, nonce, payloads[0]) && OpensAll(a, Inc(Inc(nonce)), payloads[1..]))
  }

  lemma {:induction false} RoundTripsOpen(a: AEAD, nonce: bytes, payloads: seq<bytes>)
    requires RoundTrips(a)
    ensures OpensAll(a, nonce, payloads)
    decreases payloads
  {
    if payloads != [] {
      RoundTripsOpen(a, Inc(Inc(nonce)), payloads[1..]);
    }
  }

  lemma {:induction false} OpensFront(a: AEAD, nonce: bytes, payloads: seq<bytes>, j: nat)
    requires OpensAll(a, nonce, payloads) && j <= |payloads|
    ensures OpensAll(a, nonce, payloads[..j])
    decreases payloads
  {
    if j > 0 {
      OpensFront(a, Inc(Inc(nonce)), payloads[1..], j - 1);
      assert payloads[1..][..j - 1] == payloads[..j][1..];
    }
  }

  lemma {:induction false} OpensRest(a: AEAD, nonce: bytes, payloads: seq<bytes>, j: nat)
    requires OpensAll(a, nonce, payloads) && j <= |payloads|
    ensures OpensAll(a, NonceAfter(nonce, j), payloads[j..])
    decreases payloads
  {
    if j == 0 {
      assert payloads[j..] == payloads;
    } else {
      OpensRest(a, Inc(Inc(nonce)), payloads[1..], j - 1);
      assert payloads[1..][j - 1..] == payloads[j..];
    }
  }

  /** A record is self-delimiting: what follows it does not matter for reading it. */
  lemma ReadsBack(a: AEAD, nonce: bytes, p: bytes, tail: bytes, end: Failure)
    requires OpensRecord(a, nonce, p) && |p| <= PAYLOAD_SIZE_MASK
    ensures ReadRecord(a, nonce, Record(a, nonce, p) + tail, end) == Payload(p, tail)
  {
    var wire := Record(a, nonce, p) + tail;
    var h := 2 + a.overhead;
    assert wire[..h] == a.seal(nonce, Header(|p|));
    HeaderRoundTrip(|p|);
    assert wire[h..] == a.seal(Inc(nonce), p) + tail;
    assert wire[h..][..|p| + a.overhead] == a.seal(Inc(nonce), p);
    assert wire[h..][|p| + a.overhead..] == tail;
  }

  lemma DecodeRecord(a: AEAD, nonce: bytes, p: bytes, tail: bytes, end: Failure)
    requires OpensRecord(a, nonce, p) && |p| <= PAYLOAD_SIZE_MASK
    ensures var more := Decode(a, Inc(Inc(nonce)), tail, end);
            Decode(a, nonce, Record(a, nonce, p) + tail, end) == Outcome(p + more.text, more.err)
  {
    ReadsBack(a, nonce, p, tail, end);
  }

  /** Decoding a written stream followed by anything delivers the payloads and goes on from there. */
  lemma {:induction false} DecodeWire(a: AEAD, nonce: bytes, payloads: seq<bytes>, tail: bytes, end: Failure)
    requires OpensAll(a, nonce, payloads) && AllFit(payloads)
    ensures var more := Decode(a, NonceAfter(nonce, |payloads|), tail, end);
            Decode(a, nonce, Wire(a, nonce, payloads) + tail, end) ==
            Outcome(Concat(payloads) + more.text, more.err)
    decreases payloads
  {
    var more := Decode(a, NonceAfter(nonce, |payloads|), tail, end);
    if payloads == [] {
      assert Wire(a, nonce, payloads) + tail == tail;
      assert [] + more.text == more.text;
    } else {
      var p, rest, next := payloads[0], payloads[1..], Inc(Inc(nonce));
      var later := Wire(a, next, rest);
      assert Wire(a, nonce, payloads) == Record(a, nonce, p) + later;
      assert NonceAfter(nonce, |payloads|) == NonceAfter(next, |rest|);
      Assoc(Record(a, nonce, p), later, tail);
      DecodeRecord(a, nonce, p, later + tail, end);
      DecodeWire(a, next, rest, tail, end);
      Assoc(p, Concat(rest), more.text);
    }
  }

  /** When nothing can be read behind the records, they are all that is delivered. */
  lemma DecodeFront(a: AEAD, nonce: bytes, payloads: seq<bytes>, tail: bytes, end: Failure, err: Error)
    requires OpensAll(a, nonce, payloads) && AllFit(payloads)
    requires Decode(a, NonceAfter(nonce, |payloads|), tail, end) == Outcome([], err)
    ensures Decode(a, nonce, Wire(a, nonce, payloads) + tail, end) == Outcome(Concat(payloads), err)
  {
    DecodeWire(a, nonce, payloads, tail, end);
    assert Concat(payloads) + [] == Concat(payloads);
  }

  /** A whole stream is delivered exactly, followed by the stream's own end. */
  lemma Delivered(a: AEAD, nonce: bytes, payloads: seq<bytes>, end: Failure)
    requires OpensAll(a, nonce, payloads) && AllFit(payloads)
    ensures Decode(a, nonce, Wire(a, nonce, payloads), end) == Outcome(Concat(payloads), end)
  {
    DecodeFront(a, nonce, payloads, [], end, end);
    assert Wire(a, nonce, payloads) + [] == Wire(a, nonce, payloads);
  }

  /** Round trip: a reader delivers exactly what was written and stops with the stream's error. */
  lemma RoundTrip(a: AEAD, nonce: bytes, payloads: seq<bytes>, end: Failure)
    requires RoundTrips(a) && AllFit(payloads)
    ensures Decode(a, nonce, Wire(a, nonce, payloads), end) == Outcome(Concat(payloads), end)
  {
    RoundTripsOpen(a, nonce, payloads);
    Delivered(a, nonce, payloads, end);
  }

  lemma {:induction false} WireSnoc(a: AEAD, nonce: bytes, payloads: seq<bytes>, p: bytes)
    ensures Wire(a, nonce, payloads + [p]) ==
            Wire(a, nonce, payloads) + Record(a, NonceAfter(nonce, |payloads|), p)
    ensures NonceAfter(nonce, |payloads| + 1) == Inc(Inc(NonceAfter(nonce, |payloads|)))
    decreases payloads
  {
    if payloads == [] {
      assert (payloads + [p])[1..] == [];
      assert Wire(a, nonce, [p]) == Record(a, nonce, p) + [];
      assert NonceAfter(nonce, 1) == NonceAfter(Inc(Inc(nonce)), 0);
    } else {
      var next := Inc(Inc(nonce));
      assert (payloads + [p])[1..] == payloads[1..] + [p];
      WireSnoc(a, next, payloads[1..], p);
    }
  }

  /** Part of one record is not enough to read it. */
  lemma PartialRead(a: AEAD, nonce: bytes, p: bytes, cut: nat, end: Failure)
    requires OpensRecord(a, nonce, p) && |p| <= PAYLOAD_SIZE_MASK && cut < |Record(a, nonce, p)|
    ensures ReadRecord(a, nonce, Record(a, nonce, p)[..cut], end) ==
            Stop(if cut < 2 + a.overhead then FullReadError(cut, 2 + a.overhead, end)
                 else FullReadError(cut - 2 - a.overhead, |p| + a.overhead, end))
  {
    var h := 2 + a.overhead;
    if h <= cut {
      assert Record(a, nonce, p)[..cut][..h] == a.seal(nonce, Header(|p|));
      HeaderRoundTrip(|p|);
    }
  }

  /** The error of a stream that ends `beyond` bytes into a record. */
  function CutError(a: AEAD, beyond: int, end: Failure): Error {
    if end != EOF || beyond == 0 || beyond == 2 + a.overhead then end else UnexpectedEOF
  }

  lemma PartialRecord(a: AEAD, nonce: bytes, p: bytes, cut: nat, end: Failure)
    requires OpensRecord(a, nonce, p) && |p| <= PAYLOAD_SIZE_MASK && cut < |Record(a, nonce, p)|
    ensures Decode(a, nonce, Record(a, nonce, p)[..cut], end) ==
            Outcome([], CutError(a, cut, end))
  {
    PartialRead(a, nonce, p, cut, end);
  }

  lemma {:induction false} WireSplit(a: AEAD, nonce: bytes, payloads: seq<bytes>, j: nat)
    requires j <= |payloads|
    ensures Wire(a, nonce, payloads) ==
            Wire(a, nonce, payloads[..j]) + Wire(a, NonceAfter(nonce, j), payloads[j..])
    decreases payloads
  {
    if j == 0 {
      assert payloads[j..] == payloads && payloads[..j] == [];
    } else {
      var next := Inc(Inc(nonce));
      WireSplit(a, next, payloads[1..], j - 1);
      assert payloads[1..][..j - 1] == payloads[..j][1..];
      assert payloads[1..][j - 1..] == payloads[j..];
      Assoc(Record(a, nonce, payloads[0]), Wire(a, next, payloads[..j][1..]),
            Wire(a, NonceAfter(nonce, j), payloads[j..]));
    }
  }

  /** Number of records that lie wholly before a cut. */
  function WholeBefore(a: AEAD, payloads: seq<bytes>, cut: nat): (j: nat)
    ensures j <= |payloads|
  {
    if payloads == [] || cut < RecordLength(a, payloads[0]) then 0
    else 1 + WholeBefore(a, payloads[1..], cut - RecordLength(a, payloads[0]))
  }

  function RecordLength(a: AEAD, p: bytes): nat {
    2 + a.overhead + |p| + a.overhead
  }

  lemma {:induction false} WholeBeforeIs(a: AEAD, nonce: bytes, payloads: seq<bytes>, cut: nat)
    ensures var j := WholeBefore(a, payloads, cut);
            && |Wire(a, nonce, payloads[..j])| <= cut
            && (j < |payloads| ==> cut < |Wire(a, nonce, payloads[..j + 1])|)
    decreases payloads
  {
    var j := WholeBefore(a, payloads, cut);
    if payloads != [] {
      var p, rest, next := payloads[0], payloads[1..], Inc(Inc(nonce));
      if cut < RecordLength(a, p) {
        assert payloads[..1] == [p] && payloads[..1][1..] == [];
        assert Wire(a, nonce, [p]) == Record(a, nonce, p) + [];
      } else {
        WholeBeforeIs(a, next, rest, cut - RecordLength(a, p));
        assert payloads[..j][1..] == rest[..j - 1];
        if j < |payloads| {
          assert payloads[..j + 1][1..] == rest[..j];
        }
      }
    }
  }

  /** What is left of an honest stream at a cut: whole records, and a piece of the next. */
  lemma CutWire(a: AEAD, nonce: bytes, payloads: seq<bytes>, j: nat, beyond: nat)
    requires j < |payloads| && beyond < |Record(a, NonceAfter(nonce, j), payloads[j])|
    ensures var front := Wire(a, nonce, payloads[..j]);
            && |front| + beyond <= |Wire(a, nonce, payloads)|
            && Wire(a, nonce, payloads)[..|front| + beyond] ==
               front + Record(a, NonceAfter(nonce, j), payloads[j])[..beyond]
  {
    var front, next := Wire(a, nonce, payloads[..j]), NonceAfter(nonce, j);
    WireSplit(a, nonce, payloads, j);
    var record, later := Record(a, next, payloads[j]), Wire(a, Inc(Inc(next)), payloads[j..][1..]);
    assert Wire(a, nonce, payloads) == front + (record + later);
  }

  /** Whole records and the first `beyond` bytes of one more. */
  lemma PieceDecodes(a: AEAD, nonce: bytes, front: seq<bytes>, p: bytes, beyond: nat, end: Failure)
    requires OpensAll(a, nonce, front) && AllFit(front) && Fits(p)
    requires OpensRecord(a, NonceAfter(nonce, |front|), p)
    requires beyond < |Record(a, NonceAfter(nonce, |front|), p)|
    ensures var piece := Record(a, NonceAfter(nonce, |front|), p)[..beyond];
            Decode(a, nonce, Wire(a, nonce, front) + piece, end) ==
            Outcome(Concat(front), CutError(a, beyond, end))
  {
    var next := NonceAfter(nonce, |front|);
    PartialRecord(a, next, p, beyond, end);
    var piece := Record(a, next, p)[..beyond];
    DecodeFront(a, nonce, front, piece, end, CutError(a, beyond, end));
  }

  lemma TruncatedInside(a: AEAD, nonce: bytes, payloads: seq<bytes>, j: nat, beyond: nat, end: Failure)
    requires OpensAll(a, nonce, payloads) && AllFit(payloads)
    requires j < |payloads| && beyond < |Record(a, NonceAfter(nonce, j), payloads[j])|
    ensures var cut := |Wire(a, nonce, payloads[..j])| + beyond;
            && cut <= |Wire(a, nonce, payloads)|
            && Decode(a, nonce, Wire(a, nonce, payloads)[..cut], end) ==
               Outcome(Concat(payloads[..j]), CutError(a, beyond, end))
  {
    CutWire(a, nonce, payloads, j, beyond);
    OpensFront(a, nonce, payloads, j);
    OpensRest(a, nonce, payloads, j);
    PieceDecodes(a, nonce, payloads[..j], payloads[j], beyond, end);
  }

  /** The piece of record j that lies before a cut is not the whole record. */
  lemma Beyond(a: AEAD, nonce: bytes, payloads: seq<bytes>, cut: nat, j: nat)
    requires j < |payloads| && |Wire(a, nonce, payloads[..j])| <= cut < |Wire(a, nonce, payloads[..j + 1])|
    ensures cut - |Wire(a, nonce, payloads[..j])| < |Record(a, NonceAfter(nonce, j), payloads[j])|
  {
    WireSnoc(a, nonce, payloads[..j], payloads[j]);
    assert payloads[..j + 1] == payloads[..j] + [payloads[j]];
  }

  lemma TruncatedAt(
      a: AEAD, nonce: bytes, payloads: seq<bytes>, front: bytes, cut: nat, j: nat, end: Failure)
    requires OpensAll(a, nonce, payloads) && AllFit(payloads) && cut <= |Wire(a, nonce, payloads)|
    requires j <= |payloads| && front == Wire(a, nonce, payloads[..j]) && |front| <= cut
    requires j < |payloads| ==> cut < |Wire(a, nonce, payloads[..j + 1])|
    ensures Decode(a, nonce, Wire(a, nonce, payloads)[..cut], end) ==
            Outcome(Concat(payloads[..j]), CutError(a, cut - |front|, end))
  {
    hide Decode, Wire, Concat, OpensAll, AllFit;
    if j < |payloads| {
      Beyond(a, nonce, payloads, cut, j);
      TruncatedInside(a, nonce, payloads, j, cut - |front|, end);
    } else {
      assert payloads[..j] == payloads;
      assert front[..cut] == front;
      Delivered(a, nonce, payloads, end);
    }
  }

  /**
    Cut an honest stream at any byte: exactly the payloads of the records wholly before the cut
    are delivered. A clean end cannot be told from a cut by the error: EOF also comes from a cut
    between records and from one directly behind a length block, and from no other. A connection that
    breaks with another error ends in that error.
   */
  lemma Truncated(a: AEAD, nonce: bytes, payloads: seq<bytes>, cut: nat, end: Failure)
    requires OpensAll(a, nonce, payloads) && AllFit(payloads) && cut <= |Wire(a, nonce, payloads)|
    ensures var j := WholeBefore(a, payloads, cut);
            Decode(a, nonce, Wire(a, nonce, payloads)[..cut], end) ==
            Outcome(Concat(payloads[..j]), CutError(a, cut - |Wire(a, nonce, payloads[..j])|, end))
  {
    hide *;
    var j := WholeBefore(a, payloads, cut);
    WholeBeforeIs(a, nonce, payloads, cut);
    TruncatedAt(a, nonce, payloads, Wire(a, nonce, payloads[..j]), cut, j, end);
  }

  /** Every seal a writer makes for a list of payloads: record k under the nonces 2k and 2k+1. */
  function Seals(size: nat, payloads: seq<bytes>): (log: seq<Seal>)
    ensures |log| == 2 * |payloads|
  {
    if payloads == [] then []
    else
      var last := |payloads| - 1;
      Seals(size, payloads[..last]) + [
        Seal(At(size, 2 * last), Header(|payloads[last]|)),
        Seal(At(size, 2 * last + 1), payloads[last])]
  }

  lemma {:induction false} SealsAt(size: nat, payloads: seq<bytes>, k: nat)
    requires k < |payloads|
    ensures Seals(size, payloads)[2 * k] == Seal(At(size, 2 * k), Header(|payloads[k]|))
    ensures Seals(size, payloads)[2 * k + 1] == Seal(At(size, 2 * k + 1), payloads[k])
    decreases |payloads|
  {
    if k < |payloads| - 1 {
      SealsAt(size, payloads[..|payloads| - 1], k);
    }
  }

  lemma {:induction false} SealNonce(size: nat, payloads: seq<bytes>, i: nat)
    requires i < 2 * |payloads|
    ensures Seals(size, payloads)[i].nonce == At(size, i)
    decreases |payloads|
  {
    if i < 2 * (|payloads| - 1) {
      SealNonce(size, payloads[..|payloads| - 1], i);
    }
  }

  /** With fewer than 256^size seals a nonce belongs to one seal. */
  lemma SealNonceOnce(size: nat, payloads: seq<bytes>, i: nat, k: nat)
    requires 2 * |payloads| < Pow256(size) && i < 2 * |payloads| && k <= 2 * |payloads|
    requires Seals(size, payloads)[i].nonce == At(size, k)
    ensures i == k
  {
    SealNonce(size, payloads, i);
    if i < k {
      Distinct(size, i, k);
    } else if k < i {
      Distinct(size, k, i);
    }
  }

  /** Under an ideal AEAD a nonce of one seal opens that seal, and an unused one opens nothing. */
  lemma OpensOnly(a: AEAD, log: seq<Seal>, k: nat, n: bytes, c: bytes)
    requires Ideal(a, log) && a.open(n, c).Some?
    requires forall i :: 0 <= i < |log| && log[i].nonce == n ==> i == k
    ensures k < |log| && a.open(n, c) == Some(log[k].text)
  {
    var i := IdealOpens(a, log, n, c);
  }

  /** The log entry under the nonce of seal k is entry k. */
  lemma OnlyEntry(size: nat, payloads: seq<bytes>, log: seq<Seal>, k: nat, n: bytes)
    requires 2 * |payloads| < Pow256(size) && k <= 2 * |payloads|
    requires log == Seals(size, payloads) && n == At(size, k)
    ensures forall i :: 0 <= i < |log| && log[i].nonce == n ==> i == k
  {
    forall i | 0 <= i < |log| && log[i].nonce == n ensures i == k {
      SealNonceOnce(size, payloads, i, k);
    }
  }

  /** Nothing but `text` comes out under this nonce. */
  ghost predicate Pins(a: AEAD, nonce: bytes, text: bytes) {
    forall c :: a.open(nonce, c).Some? ==> a.open(nonce, c) == Some(text)
  }

  ghost predicate Shut(a: AEAD, nonce: bytes) {
    forall c :: a.open(nonce, c).None?
  }

  /** From this nonce on the payloads come out record by record, and then nothing. */
  ghost predicate PinsAll(a: AEAD, nonce: bytes, payloads: seq<bytes>)
    decreases payloads
  {
    if payloads == [] then Shut(a, nonce)
    else
      && Pins(a, nonce, Header(|payloads[0]|))
      && Pins(a, Inc(nonce), payloads[0])
      && PinsAll(a, Inc(Inc(nonce)), payloads[1..])
  }

  lemma EntryPins(a: AEAD, log: seq<Seal>, k: nat, n: bytes)
    requires Ideal(a, log) && k < |log|
    requires forall i :: 0 <= i < |log| && log[i].nonce == n ==> i == k
    ensures Pins(a, n, log[k].text)
  {
    forall c | a.open(n, c).Some? ensures a.open(n, c) == Some(log[k].text) {
      OpensOnly(a, log, k, n, c);
    }
  }

  lemma NoEntryShuts(a: AEAD, log: seq<Seal>, n: bytes, c: bytes)
    requires Ideal(a, log) && forall i :: 0 <= i < |log| ==> log[i].nonce != n
    ensures a.open(n, c).None?
  {
    if a.open(n, c).Some? {
      var i := IdealOpens(a, log, n, c);
      assert false;
    }
  }

  lemma RecordPins(a: AEAD, payloads: seq<bytes>, log: seq<Seal>, nonce: bytes, i: nat)
    requires log == Seals(a.nonceSize, payloads) && Ideal(a, log)
    requires 2 * |payloads| < Pow256(a.nonceSize)
    requires i < |payloads| && nonce == At(a.nonceSize, 2 * i)
    ensures Pins(a, nonce, Header(|payloads[i]|))
    ensures Pins(a, Inc(nonce), payloads[i])
    ensures Inc(Inc(nonce)) == At(a.nonceSize, 2 * (i + 1))
  {
    var n1 := Inc(nonce);
    IncAt(a.nonceSize, 2 * i);
    IncAt(a.nonceSize, 2 * i + 1);
    SealsAt(a.nonceSize, payloads, i);
    OnlyEntry(a.nonceSize, payloads, log, 2 * i, nonce);
    EntryPins(a, log, 2 * i, nonce);
    OnlyEntry(a.nonceSize, payloads, log, 2 * i + 1, n1);
    EntryPins(a, log, 2 * i + 1, n1);
  }

  lemma {:induction false} IdealPinsAll(
      a: AEAD, payloads: seq<bytes>, log: seq<Seal>, nonce: bytes, i: nat)
    requires log == Seals(a.nonceSize, payloads) && Ideal(a, log)
    requires 2 * |payloads| < Pow256(a.nonceSize)
    requires i <= |payloads| && nonce == At(a.nonceSize, 2 * i)
    ensures PinsAll(a, nonce, payloads[i..])
    decreases |payloads| - i
  {
    if i == |payloads| {
      OnlyEntry(a.nonceSize, payloads, log, 2 * i, nonce);
      forall c ensures a.open(nonce, c).None? {
        NoEntryShuts(a, log, nonce, c);
      }
    } else {
      RecordPins(a, payloads, log, nonce, i);
      IdealPinsAll(a, payloads, log, Inc(Inc(nonce)), i + 1);
      assert payloads[i..][1..] == payloads[i + 1..];
    }
  }

  /** Where only p's length block and then p can be opened, only p can be read. */
  lemma ReadsOnly(a: AEAD, nonce: bytes, p: bytes, wire: bytes, end: Failure)
    requires |p| <= PAYLOAD_SIZE_MASK && Pins(a, nonce, Header(|p|)) && Pins(a, Inc(nonce), p)
    ensures ReadRecord(a, nonce, wire, end).Payload? ==> ReadRecord(a, nonce, wire, end).text == p
  {
    var h := 2 + a.overhead;
    if ReadRecord(a, nonce, wire, end).Payload? {
      HeaderRoundTrip(|p|);
      assert a.open(nonce, wire[..h]).Some?;
      assert a.open(Inc(nonce), wire[h..][..|p| + a.overhead]).Some?;
    }
  }

  lemma {:induction false} DecodePinned(a: AEAD, nonce: bytes, payloads: seq<bytes>, wire: bytes, end: Failure)
    returns (j: nat)
    requires AllFit(payloads) && PinsAll(a, nonce, payloads)
    ensures j <= |payloads| && Decode(a, nonce, wire, end).text == Concat(payloads[..j])
    decreases payloads
  {
    j := 0;
    if payloads == [] {
      assert ReadRecord(a, nonce, wire, end).Stop?;
    } else {
      ReadsOnly(a, nonce, payloads[0], wire, end);
      match ReadRecord(a, nonce, wire, end)
      case Stop(_) =>
      case Payload(text, rest) =>
        j := DecodePinned(a, Inc(Inc(nonce)), payloads[1..], rest, end);
        j := j + 1;
        assert payloads[..j][1..] == payloads[1..][..j - 1];
    }
  }

  lemma DeliveredRecords(a: AEAD, payloads: seq<bytes>, wire: bytes, end: Failure) returns (j: nat)
    requires AllFit(payloads)
    requires Ideal(a, Seals(a.nonceSize, payloads)) && 2 * |payloads| < Pow256(a.nonceSize)
    ensures j <= |payloads| && Decode(a, Zeros(a.nonceSize), wire, end).text == Concat(payloads[..j])
  {
    FirstNonce(a.nonceSize);
    IdealPinsAll(a, payloads, Seals(a.nonceSize, payloads), Zeros(a.nonceSize), 0);
    assert payloads[0..] == payloads;
    j := DecodePinned(a, Zeros(a.nonceSize), payloads, wire, end);
  }

  lemma ConcatFront(payloads: seq<bytes>, j: nat)
    requires j <= |payloads|
    ensures Concat(payloads[..j]) <= Concat(payloads)
  {
    assert payloads == payloads[..j] + payloads[j..];
    ConcatAppend(payloads[..j], payloads[j..]);
  }

  /**
    Integrity: whatever bytes arrive, a reader delivers, up to its first error, the payloads of
    the first few records written, although length blocks and payloads share one nonce sequence.
   */
  lemma Integrity(a: AEAD, payloads: seq<bytes>, wire: bytes, end: Failure)
    requires AllFit(payloads)
    requires Ideal(a, Seals(a.nonceSize, payloads)) && 2 * |payloads| < Pow256(a.nonceSize)
    ensures var text := Decode(a, Zeros(a.nonceSize), wire, end).text;
            && text <= Concat(payloads)
            && exists j :: 0 <= j <= |payloads| && text == Concat(payloads[..j])
  {
    var j := DeliveredRecords(a, payloads, wire, end);
    ConcatFront(payloads, j);
  }

  /** Record k uses the nonces 2k and 2k+1. */
  lemma {:induction false} NonceAfterAt(size: nat, i: nat, k: nat)
    ensures NonceAfter(At(size, i), k) == At(size, i + 2 * k)
    decreases k
  {
    if k > 0 {
      IncAt(size, i);
      IncAt(size, i + 1);
      NonceAfterAt(size, i + 2, k - 1);
    }
  }

  lemma NoncesStartOver(size: nat, k: nat)
    requires 2 * k == Pow256(size)
    ensures NonceAfter(Zeros(size), k) == Zeros(size)
  {
    FirstNonce(size);
    NonceAfterAt(size, 0, k);
    Wraps(size, 0);
  }

  lemma EntryOpens(a: AEAD, log: seq<Seal>, s: Seal)
    requires OpensLog(a, log) && s in log
    ensures a.open(s.nonce, a.seal(s.nonce, s.text)) == Some(s.text)
  {
  }

  lemma RecordOpens(a: AEAD, payloads: seq<bytes>, log: seq<Seal>, nonce: bytes, i: nat)
    requires log == Seals(a.nonceSize, payloads) && OpensLog(a, log) && i < |payloads|
    requires nonce == At(a.nonceSize, 2 * i) && Inc(nonce) == At(a.nonceSize, 2 * i + 1)
    ensures OpensRecord(a, nonce, payloads[i])
  {
    SealsAt(a.nonceSize, payloads, i);
    assert log[2 * i] in log && log[2 * i + 1] in log;
    EntryOpens(a, log, Seal(nonce, Header(|payloads[i]|)));
    EntryOpens(a, log, Seal(Inc(nonce), payloads[i]));
  }

  /** An AEAD that opens what was sealed for a stream opens the stream record by record. */
  lemma {:induction false} LogOpens(a: AEAD, payloads: seq<bytes>, nonce: bytes, i: nat)
    requires OpensLog(a, Seals(a.nonceSize, payloads))
    requires i <= |payloads| && nonce == At(a.nonceSize, 2 * i)
    ensures OpensAll(a, nonce, payloads[i..])
    decreases |payloads| - i
  {
    if i < |payloads| {
      IncAt(a.nonceSize, 2 * i);
      IncAt(a.nonceSize, 2 * i + 1);
      RecordOpens(a, payloads, Seals(a.nonceSize, payloads), nonce, i);
      LogOpens(a, payloads, Inc(Inc(nonce)), i + 1);
      assert payloads[i..][1..] == payloads[i + 1..];
    }
  }

  /** From the zero nonce on. */
  lemma LogOpensAll(a: AEAD, payloads: seq<bytes>)
    requires OpensLog(a, Seals(a.nonceSize, payloads))
    ensures OpensAll(a, Zeros(a.nonceSize), payloads)
  {
    FirstNonce(a.nonceSize);
    LogOpens(a, payloads, Zeros(a.nonceSize), 0);
    assert payloads[0..] == payloads;
  }

  /**
    Under an ideal AEAD that opens what was sealed, a stream nobody has touched is delivered whole,
    and one that was cut is delivered up to the last whole record. This is one and the same kind of
    AEAD as in Integrity.
   */
  lemma IdealDelivers(a: AEAD, payloads: seq<bytes>, cut: nat)
    requires AllFit(payloads)
    requires Ideal(a, Seals(a.nonceSize, payloads)) && OpensLog(a, Seals(a.nonceSize, payloads))
    requires cut <= |Wire(a, Zeros(a.nonceSize), payloads)|
    ensures var start := Zeros(a.nonceSize);
            var wire := Wire(a, start, payloads);
            && Decode(a, start, wire, EOF) == Outcome(Concat(payloads), EOF)
            && Decode(a, start, wire[..cut], EOF).text == Concat(payloads[..WholeBefore(a, payloads, cut)])
  {
    LogOpensAll(a, payloads);
    Delivered(a, Zeros(a.nonceSize), payloads, EOF);
    Truncated(a, Zeros(a.nonceSize), payloads, cut, EOF);
  }

  /**
    The bound of Integrity is tight: with 256^size seals the nonces are back at the start, and even
    an ideal AEAD, which opens nothing but those seals, accepts the whole wire stream a second time.
    More is delivered than was written. There is such an AEAD for any payloads.
   */
  lemma ReplayAfterWrap(size: nat, payloads: seq<bytes>, end: Failure) returns (a: AEAD, wire: bytes)
    requires AllFit(payloads) && 2 * |payloads| == Pow256(size)
    ensures a.nonceSize == size && Ideal(a, Seals(size, payloads)) && OpensLog(a, Seals(size, payloads))
    ensures Decode(a, Zeros(size), wire, end).text == Concat(payloads) + Concat(payloads)
    ensures !(Decode(a, Zeros(size), wire, end).text <= Concat(payloads))
  {
    IdeallyIdeal(size, Seals(size, payloads));
    a := Ideally(size, Seals(size, payloads));
    wire := Wire(a, Zeros(size), payloads) + Wire(a, Zeros(size), payloads);
    TwiceDelivered(a, payloads, end);
    ValueBound(Zeros(size));
    assert Fits(payloads[0]);
  }

  lemma TwiceDelivered(a: AEAD, payloads: seq<bytes>, end: Failure)
    requires OpensLog(a, Seals(a.nonceSize, payloads))
    requires AllFit(payloads) && 2 * |payloads| == Pow256(a.nonceSize)
    ensures var start := Zeros(a.nonceSize);
            var wire := Wire(a, start, payloads);
            Decode(a, start, wire + wire, end).text == Concat(payloads) + Concat(payloads)
  {
    var start := Zeros(a.nonceSize);
    NoncesStartOver(a.nonceSize, |payloads|);
    LogOpensAll(a, payloads);
    Delivered(a, start, payloads, end);
    DecodeWire(a, start, payloads, Wire(a, start, payloads), end);
  }
}
