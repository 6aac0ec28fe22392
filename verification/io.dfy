/**
  The two ends of the outside world, as the contracts of Go's io.Reader and io.Writer describe
  them. Everything the contracts leave open (chunk sizes, scratch use of the caller's slice,
  empty reads without an error, where a write breaks off) is left open here.
 */
module Io {
  import opened Bytes

  /** A byte stream `rest` that ends, once and for all, in the error `end`. */
  class Source {
    var rest: bytes
    const end: Failure
    /** How many more times a read may return nothing without an error. */
    var stalls: nat
    /** Its error comes along with the last bytes, not with the read after them. */
    const prompt: bool
    /** Its error never comes along with bytes (unless it is prompt). */
    const late: bool
    /** It hands out as much as there is room for. */
    const eager: bool
    ghost var calls: nat

    constructor (data: bytes, end: Failure, stalls: nat)
      ensures rest == data && this.end == end && this.stalls == stalls
    {
      rest, this.end, this.stalls := data, end, stalls;
      prompt, late, eager := *, *, *;
      calls := 0;
    }

    constructor Prompt(data: bytes, end: Failure)
      ensures rest == data && this.end == end && stalls == 0 && prompt
    {
      rest, this.end, stalls, prompt, late, eager := data, end, 0, true, false, false;
      calls := 0;
    }

    /** A bytes.Buffer. */
    constructor Buffer(data: bytes)
      ensures rest == data && end == EOF && stalls == 0 && eager && late && !prompt
    {
      rest, end, stalls, prompt, late, eager := data, EOF, 0, false, true, true;
      calls := 0;
    }

    /**
      Reads `got` into p[lo..hi]. The part of that window behind the data may be used as scratch.
     */
    method Read(p: array<byte>, lo: nat, hi: nat) returns (n: nat, err: Error, ghost got: bytes)
      requires lo <= hi <= p.Length
      modifies this, p
      ensures n == |got| <= hi - lo && old(rest) == got + rest
      ensures p[..lo + n] == old(p[..lo]) + got && p[hi..] == old(p[hi..])
      ensures err != Nil ==> err == end && rest == []
      ensures prompt && rest == [] ==> err == end
      ensures late && !prompt && n > 0 ==> err == Nil
      ensures eager ==> n == Min(hi - lo, |old(rest)|)
      ensures stalls <= old(stalls) && calls == old(calls) + 1
      ensures n == 0 && err == Nil && lo < hi ==> stalls < old(stalls)
    {
      calls := calls + 1;
      n := Min(hi - lo, |rest|);
      if !eager {
        n :| 0 <= n <= hi - lo && n <= |rest| && (n == 0 ==> lo == hi || rest == [] || 0 < stalls);
      }
      got := rest[..n];
      for i := lo to hi
        modifies p
        invariant p[hi..] == old(p[hi..])
        invariant if i < lo + n then p[..i] == old(p[..lo]) + rest[..i - lo]
                                else p[..lo + n] == old(p[..lo]) + rest[..n]
      {
        if i < lo + n {
          p[i] := rest[i - lo];
        } else {
          p[i] := *;
        }
      }
      rest := rest[n..];
      err := Nil;
      if rest == [] {
        var ended: bool := *;
        if (ended && (n == 0 || !late)) || prompt || (n == 0 && stalls == 0) {
          err := end;
        }
      }
      if n == 0 && err == Nil && lo < hi {
        stalls := stalls - 1;
      }
    }
  }

  /** What io.ReadFull reports after `got` of `want` bytes from a stream that ends in `end`. */
  function FullReadError(got: nat, want: nat, end: Failure): Error {
    if got >= want then Nil
    else if got > 0 && end == EOF then UnexpectedEOF
    else end
  }

  /** io.ReadFull: reads until p[lo..hi] is full or the stream ends. */
  method ReadFull(src: Source, p: array<byte>, lo: nat, hi: nat)
    returns (n: nat, err: Error, ghost got: bytes)
    requires lo <= hi <= p.Length
    modifies src, p
    ensures n == |got| == Min(hi - lo, |old(src.rest)|) && old(src.rest) == got + src.rest
    ensures p[..lo + n] == old(p[..lo]) + got && p[hi..] == old(p[hi..])
    ensures err == FullReadError(|old(src.rest)|, hi - lo, src.end)
    ensures src.stalls <= old(src.stalls)
  {
    n, err, got := 0, Nil, [];
    while n < hi - lo && err == Nil
      invariant n == |got| <= hi - lo && old(src.rest) == got + src.rest
      invariant p[..lo + n] == old(p[..lo]) + got && p[hi..] == old(p[hi..])
      invariant err != Nil ==> err == src.end && src.rest == []
      invariant src.stalls <= old(src.stalls)
      decreases |src.rest| + src.stalls + (if err == Nil then 1 else 0)
    {
      ghost var more;
      var m;
      m, err, more := src.Read(p, lo + n, hi);
      Assoc(old(p[..lo]), got, more);
      Assoc(got, more, src.rest);
      n, got := n + m, got + more;
    }
    if n >= hi - lo {
      err := Nil;
    } else if n > 0 && err == EOF {
      err := UnexpectedEOF;
    }
  }

  /**
    Where bytes go. Any write may stop after a prefix, with or without an error. A `strict` sink
    keeps io.Writer's rule that a short write carries an error; a `reliable` one never fails.
   */
  class Sink {
    var data: bytes
    const strict: bool
    const reliable: bool
    /** How many more times a write may take nothing without an error. */
    var stalls: nat
    /** It never takes anything (unless it is reliable). */
    const broken: bool
    /** Where its other flags leave it the choice, it reports no error, however little it takes. */
    const mute: bool

    constructor (strict: bool, reliable: bool, stalls: nat)
      ensures data == [] && this.strict == strict && this.reliable == reliable
      ensures this.stalls == stalls
    {
      data, this.strict, this.reliable, this.stalls := [], strict, reliable, stalls;
      broken, mute := false, *;
    }

    constructor Broken()
      ensures data == [] && broken && !reliable
    {
      data, strict, reliable, stalls, broken, mute := [], true, false, 0, true, false;
    }

    /** Every error of the writer in front of it is that writer's own. */
    predicate Silent() {
      mute && !strict && !broken
    }

    method Write(p: bytes) returns (n: nat, err: Error)
      modifies this
      ensures n <= |p| && data == old(data) + p[..n]
      ensures stalls <= old(stalls)
      ensures n == 0 && err == Nil && p != [] ==> stalls < old(stalls)
      ensures strict && n < |p| ==> err != Nil
      ensures reliable ==> err == Nil && n == |p|
      ensures broken && !reliable ==> err != Nil && n == 0
      ensures Silent() ==> err == Nil
    {
      n, err := |p|, Nil;
      if !reliable {
        n :| 0 <= n <= |p| && (broken ==> n == 0) && (Silent() && n == 0 && p != [] ==> stalls > 0);
        var failed: bool := *;
        if (failed && !mute) || broken || (strict && n < |p|) || (n == 0 && p != [] && stalls == 0) {
          err :| err != Nil;
        }
        if n == 0 && err == Nil && p != [] {
          stalls := stalls - 1;
        }
      }
      data := data + p[..n];
    }
  }
}
