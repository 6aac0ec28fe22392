/** Byte strings, optional values and the error values the proxy's layers pass around. */
module Bytes {

  type byte = b: int | 0 <= b < 256

  type bytes = seq<byte>

  datatype Option<+T> = None | Some(value: T)

  /** Go's `error`: `Nil` is the absence of an error. */
  datatype Error =
    | Nil
    | EOF
    | UnexpectedEOF
    | ShortWrite
    | ShortBuffer
    | BufferFull
    | NegativeCount
    | InvalidUnreadByte
    | AuthFailed
    | RepeatedSalt
    | ShortPacket
    | BadKey
    | AddressNotSupported
    | CommandNotSupported
    | InfoUDPAssociate
    | Transport(code: nat)

  /** An error an underlying stream can end with. `BufferFull` is private to the buffered reader. */
  type Failure = e: Error | e != Nil && e != BufferFull witness EOF

  /** Position of the first `d` in `s`, or -1 (Go's bytes.IndexByte). */
  function IndexByte(s: bytes, d: byte): (i: int)
    ensures -1 <= i < |s|
    ensures i < 0 ==> d !in s
    ensures 0 <= i ==> s[i] == d && d !in s[..i]
  {
    if s == [] then -1
    else if s[0] == d then 0
    else
      var i := IndexByte(s[1..], d);
      assert i >= 0 ==> s[1..][..i] == s[1..i + 1] && s[..i + 1] == [s[0]] + s[1..i + 1];
      if i < 0 then -1 else i + 1
  }

  lemma {:induction false} IndexAtMost(s: bytes, d: byte, k: nat)
    requires k < |s| && s[k] == d
    ensures 0 <= IndexByte(s, d) <= k
  {
    if k > 0 {
      IndexAtMost(s[1..], d, k - 1);
    }
  }

  /** What a delimiter read of an unbuffered stream takes: up to the first `d`, or everything. */
  function Upto(s: bytes, d: byte): bytes {
    var i := IndexByte(s, d);
    if i < 0 then s else s[..i + 1]
  }

  /** A first occurrence does not move when more bytes follow. */
  lemma {:induction false} UptoIs(line: bytes, rest: bytes, d: byte)
    requires line != [] && line[|line| - 1] == d && d !in line[..|line| - 1]
    ensures Upto(line + rest, d) == line
  {
    if |line| > 1 {
      var tail := line[1..];
      assert line[0] in line[..|line| - 1];
      assert tail[..|tail| - 1] == line[..|line| - 1][1..];
      UptoIs(tail, rest, d);
      assert (line + rest)[1..] == tail + rest;
      assert line == [line[0]] + tail;
    }
  }

  lemma UptoAll(s: bytes, d: byte)
    requires d !in s
    ensures Upto(s, d) == s
  {
  }

  function Concat(parts: seq<bytes>): bytes {
    if parts == [] then [] else parts[0] + Concat(parts[1..])
  }

  lemma {:induction false} ConcatAppend(a: seq<bytes>, b: seq<bytes>)
    ensures Concat(a + b) == Concat(a) + Concat(b)
  {
    if a == [] {
      assert a + b == b;
    } else {
      assert (a + b)[1..] == a[1..] + b;
      ConcatAppend(a[1..], b);
    }
  }

  lemma ConcatSnoc(a: seq<bytes>, p: bytes)
    ensures Concat(a + [p]) == Concat(a) + p
  {
    ConcatAppend(a, [p]);
    assert Concat([p]) == p + Concat([]);
  }

  lemma Assoc(a: bytes, b: bytes, c: bytes)
    ensures (a + b) + c == a + (b + c)
  {
  }

  /** The first n bytes of `s` change sides. */
  lemma Moved(front: bytes, s: bytes, n: nat, back: bytes)
    requires n <= |s|
    ensures (front + s[..n]) + (s[n..] + back) == front + (s + back)
  {
  }

  method SplitLast<T>(s: seq<T>) returns (front: seq<T>, last: T)
    requires s != []
    ensures s == front + [last] && |front| < |s|
  {
    front, last := s[..|s| - 1], s[|s| - 1];
  }

  function Min(a: int, b: int): int {
    if a < b then a else b
  }
}
