/**
  Authenticated encryption as the proxy uses it, by the laws of RFC 5116, sections 2.1 and 2.2:
  a fixed nonce size, a fixed overhead, and opening undoes sealing under the same nonce. The
  functions are total; what they do on nonces of another size is nobody's concern.
 */
module Aead {
  import opened Bytes
  import opened Nonce

  datatype Algorithm = Algorithm(
    nonceSize: nat,
    overhead: nat,
    seal: (bytes, bytes) -> bytes,
    open: (bytes, bytes) -> Option<bytes>)

  ghost predicate LengthLaws(a: Algorithm) {
    && (forall n: bytes, p: bytes :: |a.seal(n, p)| == |p| + a.overhead)
    && (forall n: bytes, c: bytes :: a.open(n, c).Some? ==> |c| == |a.open(n, c).value| + a.overhead)
  }

  type AEAD = a: Algorithm | LengthLaws(a) ghost witness NonceTag(12)

  ghost predicate RoundTrips(a: AEAD) {
    forall n: bytes, p: bytes :: a.open(n, a.seal(n, p)) == Some(p)
  }

  /** One use of the sealing side. */
  datatype Seal = Seal(nonce: bytes, text: bytes)

  /** Opening accepts nothing but what was sealed under the same nonce. */
  ghost predicate Ideal(a: AEAD, log: seq<Seal>) {
    forall n: bytes, c: bytes :: a.open(n, c).Some? ==> Seal(n, a.open(n, c).value) in log
  }

  /** Opening undoes every seal that was made. */
  ghost predicate OpensLog(a: AEAD, log: seq<Seal>) {
    forall s :: s in log ==> a.open(s.nonce, a.seal(s.nonce, s.text)) == Some(s.text)
  }

  /** The two forms exclude each other: a log is finite, and round trips are for all texts. */
  lemma RoundTripsNotIdeal(a: AEAD, log: seq<Seal>)
    requires RoundTrips(a)
    ensures !Ideal(a, log)
  {
    var n: bytes, p := [], LongerThanAll(log);
    assert a.open(n, a.seal(n, p)) == Some(p);
    assert Seal(n, p) !in log;
  }

  function LongerThanAll(log: seq<Seal>): (p: bytes)
    ensures forall s :: s in log ==> |s.text| < |p|
  {
    if log == [] then []
    else
      var p := LongerThanAll(log[1..]);
      if |log[0].text| < |p| then p else log[0].text + [0]
  }

  lemma IdealOpens(a: AEAD, log: seq<Seal>, n: bytes, c: bytes) returns (i: nat)
    requires Ideal(a, log) && a.open(n, c).Some?
    ensures i < |log| && log[i].nonce == n && a.open(n, c) == Some(log[i].text)
  {
    i :| i < |log| && log[i] == Seal(n, a.open(n, c).value);
  }

  /** An instance of the laws: the tag is the nonce. */
  function NonceTag(size: nat): Algorithm {
    Algorithm(
      size, size,
      (n: bytes, p: bytes) => p + Fit(n, size),
      (n: bytes, c: bytes) =>
        if |c| >= size && c[|c| - size..] == Fit(n, size) then Some(c[..|c| - size]) else None)
  }

  function Fit(n: bytes, size: nat): (t: bytes)
    ensures |t| == size
  {
    seq(size, i requires 0 <= i < size => if i < |n| then n[i] else 0)
  }

  lemma NonceTagLawful(size: nat)
    ensures LengthLaws(NonceTag(size)) && RoundTrips(NonceTag(size))
  {
    var a := NonceTag(size);
    forall n: bytes, p: bytes ensures a.open(n, a.seal(n, p)) == Some(p) {
      var c := a.seal(n, p);
      assert c[|c| - size..] == Fit(n, size) && c[..|c| - size] == p;
    }
  }

  /** An ideal instance for a given log, which still opens what was honestly sealed. */
  function Ideally(size: nat, log: seq<Seal>): Algorithm {
    var tagged := NonceTag(size);
    Algorithm(
      size, size, tagged.seal,
      (n: bytes, c: bytes) =>
        var text := tagged.open(n, c);
        if text.Some? && Seal(n, text.value) in log then text else None)
  }

  lemma IdeallyIdeal(size: nat, log: seq<Seal>)
    ensures LengthLaws(Ideally(size, log))
    ensures Ideal(Ideally(size, log), log) && OpensLog(Ideally(size, log), log)
  {
    NonceTagLawful(size);
    var a, tagged: AEAD := Ideally(size, log), NonceTag(size);
    forall s | s in log
      ensures a.open(s.nonce, a.seal(s.nonce, s.text)) == Some(s.text)
    {
      assert tagged.open(s.nonce, tagged.seal(s.nonce, s.text)) == Some(s.text);
    }
  }

  /** aead.Seal(buf[lo:lo], nonce, buf[lo:lo+n], nil): in place, the tag behind the ciphertext. */
  method SealInPlace(a: AEAD, nonce: bytes, buf: array<byte>, lo: nat, n: nat)
    requires lo + n + a.overhead <= buf.Length
    modifies buf
    ensures buf[..lo + n + a.overhead] == old(buf[..lo]) + a.seal(nonce, old(buf[lo..lo + n]))
    ensures buf[lo + n + a.overhead..] == old(buf[lo + n + a.overhead..])
  {
    var sealed := a.seal(nonce, buf[lo..lo + n]);
    forall i | 0 <= i < |sealed| {
      buf[lo + i] := sealed[i];
    }
  }

  /**
    aead.Open(dst[lo:lo], nonce, dst[lo:hi], nil): in place. When it fails, everything from lo up
    to the capacity may have been overwritten.
   */
  method OpenInPlace(a: AEAD, nonce: bytes, buf: array<byte>, lo: nat, hi: nat)
    returns (text: Option<bytes>)
    requires lo <= hi <= buf.Length
    modifies buf
    ensures text == a.open(nonce, old(buf[lo..hi]))
    ensures buf[..lo] == old(buf[..lo])
    ensures text.Some? ==>
              lo + |text.value| <= hi && buf[..lo + |text.value|] == old(buf[..lo]) + text.value
  {
    text := a.open(nonce, buf[lo..hi]);
    if text.Some? {
      forall i | 0 <= i < |text.value| {
        buf[lo + i] := text.value[i];
      }
    } else {
      for i := lo to buf.Length
        invariant buf[..lo] == old(buf[..lo])
      {
        buf[i] := *;
      }
    }
  }
}
