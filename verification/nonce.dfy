/** The counter nonce: an unsigned little-endian integer of fixed width that wraps around. */
module Nonce {
  import opened Bytes

  function Pow256(n: nat): nat {
    if n == 0 then 1 else 256 * Pow256(n - 1)
  }

  function Value(s: bytes): nat {
    if s == [] then 0 else s[0] + 256 * Value(s[1..])
  }

  /** The nonce of the k-th seal or open, counted from zero. */
  function At(size: nat, k: nat): (s: bytes)
    ensures |s| == size
  {
    if size == 0 then [] else [k % 256] + At(size - 1, k / 256)
  }

  /** Below 256^size the nonce is the counter itself. */
  lemma {:induction false} ValueAt(size: nat, k: nat)
    requires k < Pow256(size)
    ensures Value(At(size, k)) == k
  {
    if size > 0 {
      assert At(size, k)[1..] == At(size - 1, k / 256);
      ValueAt(size - 1, k / 256);
    }
  }

  /** No nonce comes twice within 256^size uses. */
  lemma {:induction false} Distinct(size: nat, j: nat, k: nat)
    requires j < k < j + Pow256(size)
    ensures At(size, j) != At(size, k)
  {
    if size > 0 {
      assert At(size, j)[1..] == At(size - 1, j / 256);
      assert At(size, k)[1..] == At(size - 1, k / 256);
      if j % 256 == k % 256 {
        Distinct(size - 1, j / 256, k / 256);
      }
    }
  }

  /** After 256^size uses the nonces start over. */
  lemma {:induction false} Wraps(size: nat, k: nat)
    ensures At(size, k + Pow256(size)) == At(size, k)
  {
    if size > 0 {
      var m := Pow256(size - 1);
      assert (k + 256 * m) % 256 == k % 256;
      assert (k + 256 * m) / 256 == k / 256 + m;
      Wraps(size - 1, k / 256);
    }
  }

  /** Plus one with carry, from the low end. */
  function Inc(s: bytes): (t: bytes)
    ensures |t| == |s|
  {
    if s == [] then []
    else if s[0] < 255 then [s[0] + 1] + s[1..]
    else [0] + Inc(s[1..])
  }

  lemma {:induction false} IncAt(size: nat, k: nat)
    ensures Inc(At(size, k)) == At(size, k + 1)
  {
    if size > 0 {
      assert At(size, k)[1..] == At(size - 1, k / 256);
      if k % 256 < 255 {
        assert (k + 1) / 256 == k / 256;
      } else {
        assert (k + 1) / 256 == k / 256 + 1;
        IncAt(size - 1, k / 256);
      }
    }
  }

  lemma {:induction false} ValueBound(s: bytes)
    ensures Value(s) < Pow256(|s|)
  {
    if s != [] {
      ValueBound(s[1..]);
    }
  }

  /** Inc is +1 modulo 256^len on the little-endian value. */
  lemma {:induction false} IncValue(s: bytes)
    ensures Value(s) < Pow256(|s|)
    ensures Value(Inc(s)) == if Value(s) + 1 == Pow256(|s|) then 0 else Value(s) + 1
  {
    ValueBound(s);
    if s != [] {
      IncValue(s[1..]);
      ValueBound(s[1..]);
      assert Inc(s)[1..] == if s[0] < 255 then s[1..] else Inc(s[1..]);
    }
  }

  function Zeros(n: nat): (s: bytes)
    ensures |s| == n
  {
    seq(n, _ => 0)
  }

  lemma {:induction false} FirstNonce(size: nat)
    ensures At(size, 0) == Zeros(size)
  {
    if size > 0 {
      FirstNonce(size - 1);
      assert [0] + Zeros(size - 1) == Zeros(size);
    }
  }

  lemma {:induction false} CarryPast(n: nat, s: bytes)
    ensures Inc(seq(n, _ => 255) + s) == Zeros(n) + Inc(s)
  {
    if n > 0 {
      var ones: bytes := seq(n, _ => 255);
      assert (ones + s)[1..] == seq(n - 1, _ => 255) + s;
      CarryPast(n - 1, s);
      assert [0] + (Zeros(n - 1) + Inc(s)) == Zeros(n) + Inc(s);
    } else {
      assert seq(n, _ => 255) + s == s;
    }
  }

  method Increment(b: array<byte>)
    modifies b
    ensures b[..] == Inc(old(b[..]))
  {
    for i := 0 to b.Length
      invariant forall j :: 0 <= j < i ==> b[j] == 0 && old(b[j]) == 255
      invariant b[i..] == old(b[i..])
    {
      ghost var low, high := old(b[..])[..i], old(b[..])[i..];
      assert old(b[..]) == low + high;
      assert low == seq(i, _ => 255);
      CarryPast(i, high);
      assert high[0] == b[i];
      b[i] := (b[i] as int + 1) % 256;
      if b[i] != 0 {
        assert b[..] == Zeros(i) + Inc(high);
        return;
      }
    }
    assert old(b[..]) == seq(b.Length, _ => 255) + [];
    CarryPast(b.Length, []);
    assert b[..] == Zeros(b.Length) + [];
  }
}
