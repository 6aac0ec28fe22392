/** The buffered reader: a sliding window buf[r..w] over a byte source, with a sticky error. */
module BufioReader {
  import opened Bytes
  import opened Io

  const MIN_READ_BUFFER_SIZE := 16
  const CR: byte := 13
  const LF: byte := 10

  /** A line without its line end. */
  function StripEol(line: bytes): bytes {
    if line != [] && line[|line| - 1] == LF then
      if |line| > 1 && line[|line| - 2] == CR then line[..|line| - 2] else line[..|line| - 1]
    else line
  }

  /** A line end is "\n" or "\r\n", and one of them goes. */
  lemma LineEndings(x: bytes)
    ensures StripEol(x + [13, 10]) == x
    ensures x == [] || x[|x| - 1] != 13 ==> StripEol(x + [10]) == x
    ensures x == [] || x[|x| - 1] != 10 ==> StripEol(x) == x
  {
    assert (x + [13, 10])[..|x|] == x && (x + [10])[..|x|] == x;
  }

  ghost predicate EndsIn(s: bytes, c: byte) {
    s != [] && s[|s| - 1] == c
  }

  ghost predicate StartsWithCR(s: bytes) {
    s != [] && s[0] == CR
  }

  /** `eol` is all of the line end that may follow `line`. */
  ghost predicate LineEnds(line: bytes, eol: bytes) {
    || eol == []
    || (eol == [LF] && !EndsIn(line, CR))
    || eol == [CR, LF]
  }

  /** Cuts the line end off a slice that stops at its first LF, or that has none. */
  method DropLineEnd(whole: bytes) returns (line: bytes, ghost eol: bytes)
    requires whole != [] && LF !in whole[..|whole| - 1]
    ensures whole == line + eol && LineEnds(line, eol) && LF !in line
    ensures eol == [] <==> whole[|whole| - 1] != LF
  {
    line, eol := whole, [];
    if line[|line| - 1] == LF {
      var drop := 1;
      if |line| > 1 && line[|line| - 2] == CR {
        drop := 2;
      }
      eol := line[|line| - drop..];
      line := line[..|line| - drop];
      assert line == whole[..|whole| - 1][..|line|];
    } else {
      assert whole == whole[..|whole| - 1] + [whole[|whole| - 1]];
    }
  }

  /** Fragments without `d` and a last one make up the delimiter read of the whole. */
  lemma Assembled(front: bytes, last: bytes, rest: bytes, d: byte)
    requires d !in front && (last == [] || d !in last[..|last| - 1])
    requires (last != [] && last[|last| - 1] == d) || (d !in last && rest == [])
    ensures Upto(front + last + rest, d) == front + last
    ensures d in front + last + rest <==> last != [] && last[|last| - 1] == d
  {
    if last != [] && last[|last| - 1] == d {
      assert (front + last)[..|front + last| - 1] == front + last[..|last| - 1];
      UptoIs(front + last, rest, d);
    } else {
      assert front + last + rest == front + last;
      UptoAll(front + last, d);
    }
  }

  lemma AddFragment(full: seq<bytes>, frag: bytes, rest: bytes, d: byte)
    requires d !in Concat(full) && d !in frag
    ensures Concat(full + [frag]) + rest == Concat(full) + (frag + rest)
    ensures d !in Concat(full + [frag])
  {
    ConcatSnoc(full, frag);
  }

  /** Copies the full pieces and the last fragment into one new buffer. */
  method Join(full: seq<bytes>, frag: bytes) returns (whole: bytes)
    ensures whole == Concat(full) + frag
  {
    var n := 0;
    for i := 0 to |full|
      invariant n == |Concat(full[..i])|
    {
      assert full[..i + 1] == full[..i] + [full[i]];
      ConcatSnoc(full[..i], full[i]);
      n := n + |full[i]|;
    }
    assert full[..|full|] == full;
    var buf := new byte[n + |frag|](_ => 0);
    n := 0;
    for i := 0 to |full|
      invariant n == |Concat(full[..i])| && n + |Concat(full[i..])| + |frag| == buf.Length
      invariant buf[..n] == Concat(full[..i])
    {
      assert full[i..] == [full[i]] + full[i + 1..];
      assert full[..i + 1] == full[..i] + [full[i]];
      ConcatSnoc(full[..i], full[i]);
      forall k | 0 <= k < |full[i]| {
        buf[n + k] := full[i][k];
      }
      n := n + |full[i]|;
    }
    forall k | 0 <= k < |frag| {
      buf[n + k] := frag[k];
    }
    whole := buf[..];
  }

  class Reader {
    const buf: array<byte>
    var rd: Source
    var r: nat
    var w: nat
    var err: Error
    var lastByte: int
    var totalRead: int

    ghost predicate Valid()
      reads this, rd
    {
      && r <= w <= buf.Length
      && MIN_READ_BUFFER_SIZE <= buf.Length
      && (err != Nil ==> err == rd.end && rd.rest == [])
      && -1 <= lastByte < 256
    }

    /** Every byte not yet handed to the caller: what is buffered, then what the source holds. */
    ghost function Pending(): bytes
      requires Valid()
      reads this, buf, rd
    {
      buf[r..w] + rd.rest
    }

    /** Bounds how often the source can still be asked. */
    ghost function Fuel(): nat
      reads this, rd
    {
      |rd.rest| + rd.stalls
    }

    /** The stream that is pending and the counter. */
    ghost function Now(): State
      requires Valid()
      reads this, buf, rd
    {
      State(Pending(), totalRead)
    }

    /** The byte UnreadByte would put back. */
    ghost function LastRead(): Option<byte>
      requires Valid()
      reads this, buf, rd
    {
      if r == w && lastByte >= 0 then Some(lastByte)
      else if r > 0 then Some(buf[r - 1])
      else None
    }

    constructor (rd: Source, size: int)
      ensures Valid() && fresh(buf) && this.rd == rd
      ensures buf.Length == if size < 16 then 16 else size
      ensures Pending() == rd.rest && totalRead == 0
    {
      var n := if size < MIN_READ_BUFFER_SIZE then MIN_READ_BUFFER_SIZE else size;
      buf := new byte[n](_ => 0);
      this.rd, r, w, err, lastByte, totalRead := rd, 0, 0, Nil, -1, 0;
    }

    method Reset(rd: Source)
      requires Valid()
      modifies this
      ensures Valid() && this.rd == rd && Pending() == rd.rest && totalRead == 0
    {
      this.rd, r, w, err, lastByte, totalRead := rd, 0, 0, Nil, -1, 0;
    }

    ghost function Buffered(): bytes
      requires Valid()
      reads this, buf, rd
    {
      buf[r..w]
    }

    /** Moves the buffered bytes to the front. */
    method Slide()
      requires Valid()
      modifies this`r, this`w, buf
      ensures Valid() && r == 0 && Buffered() == old(Buffered())
    {
      if r > 0 {
        forall i | 0 <= i < w - r {
          buf[i] := buf[r + i];
        }
        w := w - r;
        r := 0;
      }
    }

    /** Reads new data behind the buffered bytes. */
    method Refill() returns (ghost got: bytes)
      requires Valid() && r == 0
      modifies this`w, this`err, buf, rd
      ensures Valid() && w == old(w) + |got|
      ensures Buffered() == old(Buffered()) + got && old(rd.rest) == got + rd.rest
      ensures old(err) != Nil ==> err == old(err)
      ensures rd.eager ==> |got| == Min(buf.Length - old(w), |old(rd.rest)|)
      ensures rd.stalls <= old(rd.stalls) && rd.calls == old(rd.calls) + 1
      ensures got == [] && err == Nil && w < buf.Length ==> rd.stalls < old(rd.stalls)
    {
      assert buf[..w] == Buffered();
      var n, e;
      n, e, got := rd.Read(buf, w, buf.Length);
      w := w + n;
      if e != Nil {
        err := e;
      }
    }

    method Fill() returns (ghost got: bytes)
      requires Valid()
      modifies this`r, this`w, this`err, buf, rd
      ensures Valid() && r == 0 && w == old(w - r) + |got|
      ensures Buffered() == old(Buffered()) + got && old(rd.rest) == got + rd.rest
      ensures Pending() == old(Pending())
      ensures old(err) != Nil ==> err == old(err)
      ensures rd.eager ==> |got| == Min(buf.Length - old(w - r), |old(rd.rest)|)
      ensures rd.stalls <= old(rd.stalls) && rd.calls == old(rd.calls) + 1
      ensures got == [] && err == Nil && w < buf.Length ==> rd.stalls < old(rd.stalls)
    {
      Slide();
      ghost var kept := Buffered();
      got := Refill();
      Assoc(kept, got, rd.rest);
    }

    /** Returns the pending error and forgets it. */
    method ReadErr() returns (e: Error)
      requires Valid()
      modifies this`err
      ensures Valid() && e == old(err) && err == Nil
    {
      e := err;
      err := Nil;
    }

    method Peek(n: int) returns (line: bytes, e: Error)
      requires Valid()
      modifies this`r, this`w, this`err, buf, rd
      ensures Valid() && Pending() == old(Pending())
      ensures n < 0 ==> line == [] && e == NegativeCount
      ensures n > buf.Length ==> line == [] && e == BufferFull
      ensures 0 <= n <= buf.Length && n <= |Pending()| ==> line == Pending()[..n] && e == Nil
      ensures 0 <= n <= buf.Length && n > |Pending()| ==> line == Pending() && e == rd.end
      ensures rd.stalls <= old(rd.stalls) && totalRead == old(totalRead)
    {
      if n < 0 {
        return [], NegativeCount;
      }
      if n > buf.Length {
        return [], BufferFull;
      }
      while w - r < n && err == Nil
        invariant Valid() && Pending() == old(Pending()) && rd.stalls <= old(rd.stalls)
        decreases Fuel(), err == Nil
      {
        ghost var got := Fill();
      }
      var m := w - r;
      if m > n {
        m := n;
      }
      e := Nil;
      if m < n {
        e := ReadErr();
        if e == Nil {
          e := BufferFull;
        }
      }
      line := buf[r..r + m];
    }

    /** The large read into an empty buffer, which bypasses the buffer. */
    method ReadDirect(p: array<byte>, lo: nat, hi: nat) returns (n: nat, e: Error, ghost got: bytes)
      requires Valid() && lo < hi <= p.Length && p != buf && r == w && err == Nil
      modifies this, rd, p
      ensures Valid() && rd == old(rd) && n == |got| <= hi - lo && old(Pending()) == got + Pending()
      ensures p[..lo + n] == old(p[..lo]) + got && p[hi..] == old(p[hi..])
      ensures rd.eager ==> n == Min(hi - lo, |old(Pending())|)
      ensures totalRead == old(totalRead) + n
      ensures n > 0 ==> LastRead() == Some(got[n - 1])
      ensures e != Nil ==> Pending() == [] && e == rd.end
      ensures rd.prompt && Pending() == [] ==> e == rd.end
      ensures rd.stalls <= old(rd.stalls) && rd.calls == old(rd.calls) + 1
      ensures n == 0 && e == Nil ==> rd.stalls < old(rd.stalls)
    {
      assert Buffered() == [];
      n, err, got := rd.Read(p, lo, hi);
      if n > 0 {
        assert p[..lo + n][lo + n - 1] == got[n - 1];
        lastByte := p[lo + n - 1];
        totalRead := totalRead + n;
      }
      e := ReadErr();
    }

    /** copy(p[lo:lo+n], b.buf[b.r:]) */
    method CopyTo(p: array<byte>, lo: nat, n: nat)
      requires Valid() && n <= w - r && lo + n <= p.Length && p != buf
      modifies p
      ensures p[..lo + n] == old(p[..lo]) + buf[r..r + n]
      ensures p[lo + n..] == old(p[lo + n..])
    {
      forall i | 0 <= i < n {
        p[lo + i] := buf[r + i];
      }
    }

    /** Takes the first n buffered bytes. */
    method Consume(n: nat) returns (ghost got: bytes)
      requires Valid() && 0 < n <= w - r
      modifies this`r, this`lastByte, this`totalRead
      ensures Valid() && got == buf[old(r)..old(r) + n] && old(Pending()) == got + Pending()
      ensures totalRead == old(totalRead) + n && LastRead() == Some(got[n - 1])
    {
      ghost var was := Buffered();
      got := was[..n];
      r := r + n;
      assert was == got + Buffered();
      Assoc(got, Buffered(), rd.rest);
      lastByte := buf[r - 1];
      totalRead := totalRead + n;
    }

    /** Hands out as many buffered bytes as fit in p[lo..hi]. */
    method CopyOut(p: array<byte>, lo: nat, hi: nat) returns (n: nat, ghost got: bytes)
      requires Valid() && r < w && lo < hi <= p.Length && p != buf
      modifies this`r, this`lastByte, this`totalRead, p
      ensures Valid() && 0 < n == |got| == Min(hi - lo, old(w - r)) && old(Pending()) == got + Pending()
      ensures p[..lo + n] == old(p[..lo]) + got && p[hi..] == old(p[hi..])
      ensures totalRead == old(totalRead) + n && LastRead() == Some(got[n - 1])
    {
      n := hi - lo;
      if n > w - r {
        n := w - r;
      }
      ghost var back := p[lo + n..];
      CopyTo(p, lo, n);
      assert p[hi..] == back[hi - lo - n..];
      got := Consume(n);
    }

    /** Refills an empty buffer; when nothing came, the error is handed out. */
    method FillOnce() returns (e: Error)
      requires Valid() && r == w && err == Nil
      modifies this`r, this`w, this`err, buf, rd
      ensures Valid() && Pending() == old(Pending())
      ensures r < w ==> e == Nil
      ensures rd.eager ==> w - r == Min(buf.Length, |old(Pending())|)
      ensures r == w ==> if e == Nil then rd.stalls < old(rd.stalls) else Pending() == [] && e == rd.end
      ensures rd.stalls <= old(rd.stalls) && rd.calls == old(rd.calls) + 1
    {
      ghost var got := Fill();
      e := Nil;
      if w == r {
        e := ReadErr();
      }
    }

    /** At most one read of the source, and none when there is something buffered. */
    method Read(p: array<byte>, lo: nat, hi: nat) returns (n: nat, e: Error, ghost got: bytes)
      requires Valid() && lo <= hi <= p.Length && p != buf
      modifies this, buf, rd, p
      ensures Valid() && rd == old(rd) && n == |got| <= hi - lo && old(Pending()) == got + Pending()
      ensures old(r < w) ==> n == Min(hi - lo, old(w - r))
      ensures old(r == w && err == Nil) && rd.eager ==> n == Min(hi - lo, |old(Pending())|)
      ensures p[..lo + n] == old(p[..lo]) + got && p[hi..] == old(p[hi..])
      ensures totalRead == old(totalRead) + n
      ensures n > 0 ==> LastRead() == Some(got[n - 1])
      ensures lo < hi && e != Nil ==> Pending() == [] && e == rd.end
      ensures e != Nil && n > 0 ==> old(r == w && err == Nil) && hi - lo >= buf.Length
      ensures rd.prompt && n > 0 && old(r == w && err == Nil) && hi - lo >= buf.Length && Pending() == [] ==>
                e != Nil
      ensures lo < hi && n == 0 && e == Nil ==> rd.stalls < old(rd.stalls)
      ensures rd.stalls <= old(rd.stalls)
      ensures rd.calls <= old(rd.calls) + if old(r == w && err == Nil) then 1 else 0
    {
      n, got := 0, [];
      if lo == hi {
        e := ReadErr();
        return;
      }
      if w == r {
        if err != Nil {
          e := ReadErr();
          return;
        }
        if hi - lo >= buf.Length {
          n, e, got := ReadDirect(p, lo, hi);
          return;
        }
        e := FillOnce();
        if w == r {
          return;
        }
      }
      n, got := CopyOut(p, lo, hi);
      e := Nil;
    }

    method ReadByte() returns (c: byte, e: Error)
      requires Valid()
      modifies this, buf, rd
      ensures Valid() && rd == old(rd)
      ensures old(Pending()) == [] ==> e == rd.end && Pending() == [] && totalRead == old(totalRead)
      ensures old(Pending()) != [] ==>
                && e == Nil && [c] + Pending() == old(Pending())
                && LastRead() == Some(c) && lastByte == c && totalRead == old(totalRead) + 1
      ensures rd.stalls <= old(rd.stalls)
    {
      while w == r
        invariant Valid() && rd == old(rd) && Pending() == old(Pending())
        invariant totalRead == old(totalRead) && rd.stalls <= old(rd.stalls)
        decreases Fuel(), err == Nil
      {
        if err != Nil {
          e := ReadErr();
          return 0, e;
        }
        ghost var got := Fill();
      }
      c := buf[r];
      ghost var stream := Buffered();
      r := r + 1;
      assert stream == [c] + Buffered();
      Assoc([c], Buffered(), rd.rest);
      lastByte := c;
      totalRead := totalRead + 1;
      e := Nil;
    }

    method UnreadByte() returns (e: Error)
      requires Valid()
      modifies this, buf
      ensures Valid() && rd == old(rd)
      ensures old(LastRead()).None? ==>
                e == InvalidUnreadByte && Pending() == old(Pending()) && totalRead == old(totalRead)
      ensures old(LastRead()).Some? ==>
                && e == Nil && Pending() == [old(LastRead()).value] + old(Pending()) && w - r == old(w - r) + 1
                && totalRead == if old(totalRead) > 0 then old(totalRead) - 1 else old(totalRead)
    {
      if r == w && lastByte >= 0 {
        w := 1;
        r := 0;
        buf[0] := lastByte;
        lastByte := -1;
        if totalRead > 0 {
          totalRead := totalRead - 1;
        }
        return Nil;
      }
      if r <= 0 {
        return InvalidUnreadByte;
      }
      r := r - 1;
      assert buf[r..w] == [buf[r]] + buf[r + 1..w];
      lastByte := -1;
      if totalRead > 0 {
        totalRead := totalRead - 1;
      }
      return Nil;
    }

    /** Consumes the buffered bytes up to the first `delim`, at offset i. */
    method TakeLine(delim: byte, i: nat) returns (line: bytes)
      requires Valid() && i < w - r && Buffered()[i] == delim && delim !in Buffered()[..i]
      modifies this`r
      ensures Valid() && r == old(r) + i + 1 && line == buf[old(r)..r]
      ensures old(Pending()) == line + Pending()
      ensures line[i] == delim && delim !in line[..i]
    {
      line := buf[r..r + i + 1];
      assert line[..i] == Buffered()[..i];
      r := r + i + 1;
      assert line + Buffered() == old(Buffered());
    }

    /** Consumes everything buffered. */
    method TakeAll() returns (line: bytes)
      requires Valid()
      modifies this`r
      ensures Valid() && r == w && line == old(Buffered()) == buf[old(r)..r]
      ensures old(Pending()) == line + Pending() && Pending() == rd.rest
    {
      line := buf[r..w];
      r := w;
    }

    /** Refills the buffer and searches the part that is new; i < 0 when `delim` is not there. */
    method FillAndSearch(delim: byte) returns (i: int)
      requires Valid() && delim !in Buffered()
      modifies this`r, this`w, this`err, buf, rd
      ensures Valid() && r == 0 && Pending() == old(Pending())
      ensures old(w - r) <= w - r
      ensures i < 0 ==> i == -1 && delim !in Buffered()
      ensures i >= 0 ==>
                && old(w - r) + i < w && Buffered()[old(w - r) + i] == delim
                && delim !in Buffered()[..old(w - r) + i]
      ensures old(err) != Nil ==> err == old(err)
      ensures Fuel() <= old(Fuel()) && rd.stalls <= old(rd.stalls)
      ensures i < 0 && w < buf.Length && err == Nil ==> Fuel() < old(Fuel())
    {
      ghost var kept := Buffered();
      var n := w - r;
      ghost var got := Fill();
      i := IndexByte(buf[n..w], delim);
      assert Buffered() == kept + buf[n..w];
      if i >= 0 {
        assert Buffered()[..n + i] == kept + buf[n..w][..i];
      }
    }

    /** Reads more until `delim` turns up (n + i >= 0 is its offset), the buffer fills or the stream ends. */
    method FillUntil(delim: byte) returns (n: nat, i: int, full: bool)
      requires Valid() && delim !in Buffered()
      modifies this`r, this`w, this`err, buf, rd
      ensures Valid() && Pending() == old(Pending()) && old(w - r) <= n <= w - r
      ensures rd.stalls <= old(rd.stalls)
      ensures i >= 0 ==>
                n + i < w - r && Buffered()[n + i] == delim && delim !in Buffered()[..n + i]
      ensures i < 0 ==>
                delim !in Buffered() && if full then r == 0 && w == buf.Length else err != Nil
      ensures i < 0 ==> (full <==> old(err) == Nil && w - r == buf.Length)
    {
      n, i, full := w - r, -1, false;
      while err == Nil
        invariant Valid() && Pending() == old(Pending()) && old(w - r) <= n <= w - r
        invariant delim !in Buffered() && i < 0 && !full && rd.stalls <= old(rd.stalls)
        invariant (err != Nil ==> old(err) != Nil || w - r < buf.Length) && (old(err) != Nil ==> err != Nil)
        decreases Fuel(), err == Nil
      {
        n := w - r;
        i := FillAndSearch(delim);
        if i >= 0 {
          return;
        }
        if w - r >= buf.Length {
          full := true;
          return;
        }
      }
    }

    /** What ReadSlice returns without a delimiter: the full buffer, or everything to the stream's end. */
    method TakeRest(full: bool) returns (line: bytes, e: Error)
      requires Valid() && if full then r == 0 && w == buf.Length else err != Nil
      modifies this`r, this`err, this`totalRead
      ensures Valid() && old(Pending()) == line + Pending() && line == old(Buffered())
      ensures r == w == old(w) && totalRead == old(totalRead) + |line|
      ensures if full then e == BufferFull && line == buf[..] else e == rd.end && Pending() == []
      ensures line != [] ==> r > 0 && buf[r - 1] == line[|line| - 1]
    {
      totalRead := totalRead + (w - r);
      line := TakeAll();
      e := BufferFull;
      if !full {
        e := ReadErr();
      }
    }

    /** The part of ReadSlice that has to read more. */
    method ReadSliceMore(delim: byte) returns (line: bytes, e: Error, ghost held: nat)
      requires Valid() && delim !in Buffered()
      modifies this`r, this`w, this`err, this`totalRead, buf, rd
      ensures Valid() && old(Pending()) == line + Pending()
      ensures e == Nil ==> line != [] && line[|line| - 1] == delim && delim !in line[..|line| - 1]
      ensures totalRead == old(totalRead) + |line| - held && |line| <= buf.Length
      ensures if e == Nil then old(w - r) <= held < |line| else held == 0
      ensures rd.stalls <= old(rd.stalls)
      ensures e != Nil ==> (e == BufferFull <==> old(err) == Nil && |line| == buf.Length)
      ensures line != [] ==> r > 0 && buf[r - 1] == line[|line| - 1]
      ensures e != Nil ==>
                && delim !in line && r == w && (e == BufferFull ==> w == buf.Length)
                && (if e == BufferFull then line == buf[..] else e == rd.end && Pending() == [])
    {
      var n, i, full := FillUntil(delim);
      if i >= 0 {
        line := TakeLine(delim, n + i);
        totalRead := totalRead + i + 1;
        return line, Nil, n;
      }
      held := 0;
      line, e := TakeRest(full);
    }

    /**
      The counter misses the `held` bytes of the line that were in the buffer before the last refill.
     */
    method ReadSlice(delim: byte) returns (line: bytes, e: Error, ghost held: nat)
      requires Valid()
      modifies this`r, this`w, this`err, this`totalRead, buf, rd
      ensures Valid() && old(Pending()) == line + Pending()
      ensures e == Nil ==> line != [] && line[|line| - 1] == delim && delim !in line[..|line| - 1]
      ensures e != Nil ==>
                && delim !in line && r == w && (e == BufferFull ==> w == buf.Length)
                && (if e == BufferFull then line == buf[..] else e == rd.end && Pending() == [])
      ensures |line| <= buf.Length && rd.stalls <= old(rd.stalls)
      ensures totalRead == old(totalRead) + |line| - held
      ensures if e != Nil || delim in old(Buffered()) then held == 0 else old(w - r) <= held < |line|
      ensures delim in old(Buffered()) ==> e == Nil
      ensures e != Nil ==> (e == BufferFull <==> old(err) == Nil && |line| == buf.Length)
      ensures line != [] ==> r > 0 && buf[r - 1] == line[|line| - 1]
    {
      var i := IndexByte(buf[r..w], delim);
      if i >= 0 {
        line := TakeLine(delim, i);
        totalRead := totalRead + i + 1;
        return line, Nil, 0;
      }
      line, e, held := ReadSliceMore(delim);
    }

    /** A "\r" that ends a full buffer goes back, so that the next call sees it before its "\n". */
    method PutBackCR(full: bytes) returns (line: bytes)
      requires Valid() && r == w == buf.Length && full == buf[..] && LF !in full
      modifies this`r
      ensures Valid() && full + old(Pending()) == line + Pending()
      ensures LF !in line && |full| - 1 <= |line| == |full| - (w - r)
      ensures if |line| == |full| then !EndsIn(line, CR) else StartsWithCR(Pending())
    {
      line := full;
      if line[|line| - 1] == CR {
        r := r - 1;
        line := line[..|line| - 1];
        assert full == line + [CR] && Buffered() == [CR];
      }
    }

    /**
      `eol` is the line end that was dropped from the returned line. The counter misses what
      ReadSlice misses, and counts a "\r" that was put back.
     */
    method ReadLine() returns (line: bytes, isPrefix: bool, e: Error, ghost eol: bytes, ghost held: nat)
      requires Valid()
      modifies this`r, this`w, this`err, this`totalRead, buf, rd
      ensures Valid() && LF !in line
      ensures isPrefix ==>
                && e == Nil && eol == [] && old(Pending()) == line + Pending()
                && buf.Length - 1 <= |line| == buf.Length - (w - r)
                && (if |line| == buf.Length then !EndsIn(line, CR) else StartsWithCR(Pending()))
      ensures e != Nil ==>
                && line == [] && eol == [] && e == rd.end && old(Pending()) == [] && Pending() == []
      ensures e == Nil && !isPrefix ==>
                && old(Pending()) == line + eol + Pending() && LineEnds(line, eol)
                && (eol == [] ==> line != [] && Pending() == [])
      ensures e == Nil && eol == [] ==> (isPrefix <==> old(err) == Nil && |old(Pending())| >= buf.Length)
      ensures |line| + |eol| <= buf.Length && rd.stalls <= old(rd.stalls)
      ensures totalRead ==
              old(totalRead) + |line| + |eol| - held + if isPrefix then buf.Length - |line| else 0
      ensures if isPrefix || eol == [] || LF in old(Buffered()) then held == 0
              else old(w - r) <= held < |line| + |eol|
    {
      eol, isPrefix := [], false;
      line, e, held := ReadSlice(LF);
      if e == BufferFull {
        line := PutBackCR(line);
        return line, true, Nil, [], held;
      }
      if |line| == 0 {
        return;
      }
      e := Nil;
      line, eol := DropLineEnd(line);
    }

    /** The fragments before the last: whole buffers without `delim`. */
    method Fragments(delim: byte) returns (full: seq<bytes>, frag: bytes, e: Error, ghost held: nat)
      requires Valid()
      modifies this`r, this`w, this`err, this`totalRead, buf, rd
      ensures Valid() && old(Pending()) == Concat(full) + (frag + Pending())
      ensures delim !in Concat(full)
      ensures e == Nil ==> frag != [] && frag[|frag| - 1] == delim && delim !in frag[..|frag| - 1]
      ensures e != Nil ==> e == rd.end && delim !in frag && Pending() == []
      ensures totalRead == old(totalRead) + |Concat(full)| + |frag| - held && rd.stalls <= old(rd.stalls)
      ensures if e != Nil || delim in old(Buffered()) then held == 0 else held < |frag| <= buf.Length
    {
      full := [];
      ghost var ahead, counted, seen := Pending(), totalRead, delim in Buffered();
      frag, e, held := ReadSlice(delim);
      while e == BufferFull
        invariant Valid() && old(Pending()) == Concat(full) + ahead && ahead == frag + Pending()
        invariant totalRead == counted + |Concat(full)| + |frag| - held && rd.stalls <= old(rd.stalls)
        invariant if e != Nil || seen then held == 0 else held < |frag| <= buf.Length
        invariant seen ==> e == Nil
        invariant delim !in Concat(full)
        invariant e == Nil ==> frag != [] && frag[|frag| - 1] == delim && delim !in frag[..|frag| - 1]
        invariant e != Nil ==> delim !in frag
        invariant e != Nil ==> if e == BufferFull then frag != [] else e == rd.end && Pending() == []
        decreases |ahead|, e == BufferFull
      {
        AddFragment(full, frag, Pending(), delim);
        full := full + [frag];
        ahead := Pending();
        frag, e, held := ReadSlice(delim);
      }
    }

    method ReadBytes(delim: byte) returns (line: bytes, e: Error, ghost held: nat)
      requires Valid()
      modifies this`r, this`w, this`err, this`totalRead, buf, rd
      ensures Valid() && line == Upto(old(Pending()), delim)
      ensures old(Pending()) == line + Pending()
      ensures e == if delim in old(Pending()) then Nil else rd.end
      ensures totalRead == old(totalRead) + |line| - held && rd.stalls <= old(rd.stalls)
      ensures if e != Nil || delim in old(Buffered()) then held == 0 else held < Min(|line|, buf.Length)
    {
      var full, frag;
      full, frag, e, held := Fragments(delim);
      assert Concat(full) + (frag + Pending()) == Concat(full) + frag + Pending();
      Assembled(Concat(full), frag, Pending(), delim);
      line := Join(full, frag);
    }

    /** Writes what is buffered. */
    method WriteBuf(sink: Sink) returns (n: nat, e: Error)
      requires Valid()
      modifies this`r, this`totalRead, sink
      ensures Valid() && old(sink.data) <= sink.data
      ensures sink.data + Pending() == old(sink.data) + old(Pending())
      ensures |sink.data| == |old(sink.data)| + n && totalRead == old(totalRead) + n
      ensures sink.stalls <= old(sink.stalls)
      ensures n == 0 && e == Nil && old(r < w) ==> sink.stalls < old(sink.stalls)
      ensures sink.reliable ==> e == Nil && r == w
    {
      n, e := sink.Write(buf[r..w]);
      r := r + n;
      assert Buffered() == old(Buffered())[n..];
      Moved(old(sink.data), old(Buffered()), n, rd.rest);
      if n > 0 {
        totalRead := totalRead + n;
      }
    }

    /** Copies the stream to a sink until it ends; an empty read without an error also stops it. */
    method WriteTo(sink: Sink) returns (n: nat, e: Error)
      requires Valid()
      modifies this`r, this`w, this`err, this`totalRead, buf, rd, sink
      ensures Valid() && old(sink.data) <= sink.data
      ensures sink.data + Pending() == old(sink.data) + old(Pending())
      ensures |sink.data| == |old(sink.data)| + n && totalRead == old(totalRead) + n
      ensures sink.reliable && old(rd.stalls) == 0 ==>
                Pending() == [] && e == if rd.end == EOF then Nil else rd.end
      ensures e == Nil ==> Pending() == [] || rd.stalls < old(rd.stalls)
      ensures rd.stalls <= old(rd.stalls)
    {
      n, e := WriteBuf(sink);
      if e != Nil {
        return;
      }
      ghost var got := Fill();
      while r < w
        invariant Valid() && old(sink.data) <= sink.data
        invariant sink.data + Pending() == old(sink.data) + old(Pending())
        invariant |sink.data| == |old(sink.data)| + n && totalRead == old(totalRead) + n
        invariant rd.stalls <= old(rd.stalls)
        invariant r == w && err == Nil ==> rd.stalls < old(rd.stalls)
        decreases |Pending()|, sink.stalls
      {
        var m;
        m, e := WriteBuf(sink);
        n := n + m;
        if e != Nil {
          return;
        }
        ghost var got := Fill();
      }
      if err == EOF {
        err := Nil;
      }
      e := ReadErr();
    }
  }

  lemma UptoEol(front: bytes, eol: bytes, rest: bytes)
    requires LF !in front && (eol == [LF] || eol == [CR, LF])
    ensures Upto(front + eol + rest, LF) == front + eol
  {
    var whole := front + eol;
    assert whole[..|whole| - 1] == front + eol[..|eol| - 1];
    UptoIs(whole, rest, LF);
  }

  lemma StripAdded(front: bytes, eol: bytes)
    requires LF !in front && LineEnds(front, eol)
    ensures StripEol(front + eol) == front
  {
    var whole := front + eol;
    assert whole[..|whole| - |eol|] == front;
    if eol == [] {
      assert whole == front;
    }
  }

  /** The fragments of one logical line fit together, also when "\r\n" straddles two of them. */
  lemma Reassembled(stream: bytes, text: bytes, line: bytes, eol: bytes, rest: bytes)
    requires stream == text + (line + eol + rest)
    requires LF !in text && LF !in line && LineEnds(line, eol)
    requires EndsIn(text, CR) ==> StartsWithCR(line + eol + rest)
    requires eol == [] ==> rest == []
    ensures StripEol(Upto(stream, LF)) == text + line
    ensures stream == Upto(stream, LF) + rest
  {
    var front := text + line;
    NotSplit(text, line, eol, rest);
    StripAdded(front, eol);
    assert stream == front + eol + rest;
    if eol == [] {
      assert stream == front && front + eol == front;
      UptoAll(front, LF);
    } else {
      UptoEol(front, eol, rest);
    }
  }

  /** The line end of the last fragment is the line end of the whole line. */
  lemma NotSplit(text: bytes, line: bytes, eol: bytes, rest: bytes)
    requires LineEnds(line, eol) && (eol == [] ==> rest == [])
    requires EndsIn(text, CR) ==> StartsWithCR(line + eol + rest)
    ensures LineEnds(text + line, eol)
  {
    var front := text + line;
    assert line != [] ==> front[|front| - 1] == line[|line| - 1];
    if line == [] {
      assert front == text && line + eol + rest == eol + rest;
    }
  }

  /**
    The loop ReadLine's documentation asks its callers for: fragments until one is not a prefix.
    Together they are the next line of the stream, whatever the buffer size and the chunking.
   */
  method ReadLogicalLine(b: Reader) returns (text: bytes, e: Error)
    requires b.Valid()
    modifies b, b.buf, b.rd
    ensures b.Valid() && b.rd == old(b.rd)
    ensures text == StripEol(Upto(old(b.Pending()), 10))
    ensures old(b.Pending()) == Upto(old(b.Pending()), 10) + b.Pending()
    ensures e != Nil ==> e == b.rd.end && b.Pending() == []
    ensures old(b.Pending()) == [] ==> e != Nil
  {
    text := [];
    while true
      invariant b.Valid() && b.rd == old(b.rd) && LF !in text
      invariant old(b.Pending()) == text + b.Pending()
      invariant EndsIn(text, CR) ==> StartsWithCR(b.Pending())
      decreases |b.Pending()|
    {
      var line, more;
      ghost var eol;
      ghost var held;
      line, more, e, eol, held := b.ReadLine();
      if !more {
        Reassembled(old(b.Pending()), text, line, eol, b.Pending());
        text := text + line;
        return;
      }
      Assoc(text, line, b.Pending());
      assert EndsIn(text + line, CR) ==> EndsIn(line, CR);
      text := text + line;
    }
  }

  // ----- Runs of calls -----

  datatype Call =
    | PeekCall(n: int)
    | ReadCall(size: nat)
    | ReadByteCall
    | UnreadByteCall
    | ReadSliceCall(delim: byte)
    | ReadLineCall
    | ReadBytesCall(delim: byte)
    | WriteToCall

  /**
    What the caller gets: bytes (of a WriteTo, what the sink got), an error, and whether a line goes
    on. An UnreadByte is given up unless a ReadByte or Read delivered directly before it.
   */
  datatype Answer =
    | Answer(data: bytes, err: Error, more: bool)
    | GivenUp

  /** What only the proof sees of a call: a dropped line end, and what the counter missed. */
  datatype Note = Note(eol: bytes, held: nat)

  /** A reader as its callers know it. */
  datatype State = State(pending: bytes, total: int)

  /** What does not change in a run: the source's end, the buffer's size, and whether nothing stalls or fails. */
  datatype World = World(end: Failure, size: nat, lively: bool, reliable: bool)

  /** What a call takes off the stream. */
  function Taken(call: Call, a: Answer, note: Note): bytes {
    if a.GivenUp? || call.PeekCall? || call.UnreadByteCall? then [] else a.data + note.eol
  }

  /** By how much the counter falls behind what is taken. */
  function Uncounted(call: Call, a: Answer, note: Note, size: nat): int {
    if a.GivenUp? || call.UnreadByteCall? then 0
    else note.held - if call.ReadLineCall? && a.more then size - |a.data| else 0
  }

  /** The reader without buffer and chunks: how one call may go, from the stream alone. */
  ghost predicate Obeys(call: Call, a: Answer, note: Note, s: bytes, t: bytes, u: World)
    requires a.Answer?
  {
    && (call.ReadLineCall? || (note.eol == [] && !a.more))
    && (call.ReadSliceCall? || call.ReadLineCall? || call.ReadBytesCall? || note.held == 0)
    && match call
       case PeekCall(n) =>
         && t == s
         && if n < 0 then a.data == [] && a.err == NegativeCount
            else if n > u.size then a.data == [] && a.err == BufferFull
            else if n <= |s| then a.data == s[..n] && a.err == Nil
            else a.data == s && a.err == u.end
       case ReadCall(size) =>
         && s == a.data + t && |a.data| <= size
         && (a.err != Nil && size > 0 ==> t == [] && a.err == u.end)
         && (a.err != Nil && a.data != [] ==> u.size <= size)
         && (u.lively && size > 0 ==> a.data != [] || a.err != Nil)
       case ReadByteCall =>
         && s == a.data + t
         && if s == [] then a.err == u.end else |a.data| == 1 && a.err == Nil
       case UnreadByteCall => false
       case ReadSliceCall(delim) =>
         && s == a.data + t && |a.data| <= u.size && SliceEnds(a.data, a.err, t, delim, u)
         && (note.held == 0 || (a.err == Nil && note.held < |a.data|))
       case ReadLineCall =>
         && s == a.data + note.eol + t && LineComes(a, note.eol, t, u)
         && (note.held == 0 || (!a.more && note.held < |a.data| + |note.eol|))
       case ReadBytesCall(delim) =>
         && s == a.data + t && a.data == Upto(s, delim)
         && a.err == (if delim in s then Nil else u.end)
         && (note.held == 0 || note.held < Min(|a.data|, u.size))
       case WriteToCall =>
         && s == a.data + t
         && (u.lively && u.reliable ==> t == [] && a.err == if u.end == EOF then Nil else u.end)
  }

  ghost predicate SliceEnds(line: bytes, err: Error, t: bytes, delim: byte, u: World) {
    if err == Nil then line != [] && line[|line| - 1] == delim && delim !in line[..|line| - 1]
    else delim !in line && if err == BufferFull then |line| == u.size else err == u.end && t == []
  }

  ghost predicate LineComes(a: Answer, eol: bytes, t: bytes, u: World)
    requires a.Answer?
  {
    && LF !in a.data && |a.data| + |eol| <= u.size
    && if a.more then
         && a.err == Nil && eol == [] && u.size - 1 <= |a.data|
         && if |a.data| == u.size then !EndsIn(a.data, CR) else StartsWithCR(t)
       else if a.err != Nil then a.data == [] && eol == [] && a.err == u.end && t == []
       else LineEnds(a.data, eol) && (eol == [] ==> a.data != [] && t == [])
  }

  /** A byte has just been delivered that UnreadByte can put back. */
  predicate Delivered(call: Call, a: Answer) {
    a.Answer? && (call.ReadCall? || call.ReadByteCall?) && a.data != []
  }

  /** One call, from state to state. `last` is the byte delivered directly before, if any. */
  ghost predicate Allowed(
    call: Call, a: Answer, note: Note, last: Option<byte>, from: State, to: State, u: World)
  {
    if call.UnreadByteCall? then
      if last.None? then a == GivenUp && to == from
      else
        && a == Answer([], Nil, false)
        && to.pending == [last.value] + from.pending
        && (from.total > 0 ==> to.total == from.total - 1)
    else
      && a.Answer? && Obeys(call, a, note, from.pending, to.pending, u)
      && to.total == from.total + |Taken(call, a, note)| - Uncounted(call, a, note, u.size)
  }

  /** A run, call by call, the last one outermost. */
  datatype Log =
    | Fresh(start: State)
    | Then(before: Log, call: Call, answer: Answer, note: Note, to: State)
  {
    function Start(): State {
      if Fresh? then start else before.Start()
    }

    function Now(): State {
      if Fresh? then start else to
    }

    function Calls(): seq<Call> {
      if Fresh? then [] else before.Calls() + [call]
    }

    function Answers(): seq<Answer> {
      if Fresh? then [] else before.Answers() + [answer]
    }

    /** The byte the last call delivered. */
    function Last(): Option<byte> {
      if Fresh? then None else LastOf(call, answer)
    }

    /** Every call went as the stream allows at that point. */
    ghost predicate Runs(u: World) {
      Then? ==> before.Runs(u) && Allowed(call, answer, note, before.Last(), before.Now(), to, u)
    }

    /** The net bytes: what was taken, less the last byte for every UnreadByte that was made. */
    function Net(): bytes {
      if Fresh? then []
      else if call.UnreadByteCall? then
        if answer.GivenUp? || before.Net() == [] then before.Net()
        else before.Net()[..|before.Net()| - 1]
      else before.Net() + Taken(call, answer, note)
    }

    /** What the counter missed. */
    function Missed(size: nat): int {
      if Fresh? then 0 else before.Missed(size) + Uncounted(call, answer, note, size)
    }

    /** What a sink got. */
    function Sunk(): bytes {
      if Fresh? then [] else before.Sunk() + SunkBy(call, answer)
    }
  }

  function LastOf(call: Call, a: Answer): Option<byte> {
    if Delivered(call, a) then Some(a.data[|a.data| - 1]) else None
  }

  function SunkBy(call: Call, a: Answer): bytes {
    if call.WriteToCall? && a.Answer? then a.data else []
  }

  lemma TakenFirst(call: Call, a: Answer, note: Note, last: Option<byte>, from: State, to: State, u: World)
    requires Allowed(call, a, note, last, from, to, u) && !call.UnreadByteCall?
    ensures from.pending == Taken(call, a, note) + to.pending
    ensures from.total <= to.total && (Delivered(call, a) ==> from.total < to.total)
    ensures Delivered(call, a) ==> Taken(call, a, note) == a.data
  {
    assert a.data + [] == a.data && [] + to.pending == to.pending;
  }

  /** The state of a run: net bytes, missed bytes, the byte delivered last. */
  ghost predicate Balanced(start: State, now: State, net: bytes, missed: int, last: Option<byte>) {
    && start.pending == net + now.pending
    && (last.Some? ==> net != [] && net[|net| - 1] == last.value)
    && (start.total >= 0 ==>
          && now.total == start.total + |net| - missed
          && 0 <= now.total && (last.Some? ==> 0 < now.total))
  }

  lemma BalancedOn(
      call: Call, a: Answer, note: Note, last: Option<byte>, start: State, from: State, to: State,
      net: bytes, missed: int, u: World)
    requires Balanced(start, from, net, missed, last)
    requires Allowed(call, a, note, last, from, to, u) && !call.UnreadByteCall?
    ensures Balanced(start, to, net + Taken(call, a, note), missed + Uncounted(call, a, note, u.size),
                     LastOf(call, a))
  {
    TakenFirst(call, a, note, last, from, to, u);
    Assoc(net, Taken(call, a, note), to.pending);
  }

  lemma BalancedBack(
      last: Option<byte>, start: State, from: State, to: State, net: bytes, missed: int, u: World,
      a: Answer, note: Note)
    requires Balanced(start, from, net, missed, last)
    requires Allowed(UnreadByteCall, a, note, last, from, to, u)
    ensures Balanced(start, to, if a.GivenUp? || net == [] then net else net[..|net| - 1], missed, None)
  {
    if last.Some? {
      var front := net[..|net| - 1];
      assert net == front + [last.value];
      Assoc(front, [last.value], from.pending);
    }
  }

  /**
    Conservation: the net bytes of a run, then what is pending, are the stream the run began with,
    and the counter is the net bytes less what ReadSlice and ReadLine miss.
   */
  lemma {:induction false} Conserves(log: Log, u: World)
    requires log.Runs(u)
    ensures Balanced(log.Start(), log.Now(), log.Net(), log.Missed(u.size), log.Last())
  {
    match log
    case Fresh(start) =>
      assert [] + start.pending == start.pending;
    case Then(before, call, a, note, to) =>
      Conserves(before, u);
      if call.UnreadByteCall? {
        BalancedBack(before.Last(), log.Start(), before.Now(), to, before.Net(), before.Missed(u.size), u, a, note);
      } else {
        BalancedOn(call, a, note, before.Last(), log.Start(), before.Now(), to,
                   before.Net(), before.Missed(u.size), u);
      }
  }

  lemma Unshift(before: bytes, after: bytes, rest: bytes, stream: bytes)
    requires before <= after && after + rest == before + stream
    ensures stream == after[|before|..] + rest
  {
    assert after == before + after[|before|..];
    Assoc(before, after[|before|..], rest);
    assert (before + stream)[|before|..] == stream;
    assert (before + (after[|before|..] + rest))[|before|..] == after[|before|..] + rest;
  }

  /** What the calls of a run may rely on. */
  ghost predicate Within(b: Reader, sink: Sink, u: World)
    reads b, b.rd
  {
    && b.Valid() && u.end == b.rd.end && u.size == b.buf.Length
    && (u.lively ==> b.rd.stalls == 0) && (u.reliable ==> sink.reliable)
  }

  method StepPeek(b: Reader, n: int, sink: Sink, ghost last: Option<byte>, ghost u: World) returns (a: Answer)
    requires Within(b, sink, u)
    modifies b, b.buf, b.rd
    ensures Within(b, sink, u) && b.rd == old(b.rd) && a.Answer?
    ensures Allowed(PeekCall(n), a, Note([], 0), last, old(b.Now()), b.Now(), u)
  {
    var line, e := b.Peek(n);
    a := Answer(line, e, false);
  }

  method StepReadByte(b: Reader, sink: Sink, ghost last: Option<byte>, ghost u: World) returns (a: Answer)
    requires Within(b, sink, u)
    modifies b, b.buf, b.rd
    ensures Within(b, sink, u) && b.rd == old(b.rd) && a.Answer?
    ensures Allowed(ReadByteCall, a, Note([], 0), last, old(b.Now()), b.Now(), u)
    ensures a.data != [] ==> b.LastRead() == Some(a.data[|a.data| - 1])
  {
    var c, e := b.ReadByte();
    a := Answer(if e == Nil then [c] else [], e, false);
  }

  /** Read into a slice of its own. */
  method ReadFresh(b: Reader, size: nat) returns (part: bytes, e: Error)
    requires b.Valid()
    modifies b, b.buf, b.rd
    ensures b.Valid() && b.rd == old(b.rd) && |part| <= size && old(b.Pending()) == part + b.Pending()
    ensures b.totalRead == old(b.totalRead) + |part| && b.rd.stalls <= old(b.rd.stalls)
    ensures part != [] ==> b.LastRead() == Some(part[|part| - 1])
    ensures size > 0 && e != Nil ==> b.Pending() == [] && e == b.rd.end
    ensures e != Nil && part != [] ==> b.buf.Length <= size
    ensures size > 0 && part == [] && e == Nil ==> b.rd.stalls < old(b.rd.stalls)
  {
    var p := new byte[size](_ => 0);
    ghost var got;
    var n;
    n, e, got := b.Read(p, 0, size);
    assert p[..0] == [] && [] + got == got;
    part := p[..0 + n];
  }

  method StepRead(b: Reader, size: nat, sink: Sink, ghost last: Option<byte>, ghost u: World) returns (a: Answer)
    requires Within(b, sink, u)
    modifies b, b.buf, b.rd
    ensures Within(b, sink, u) && b.rd == old(b.rd) && a.Answer?
    ensures Allowed(ReadCall(size), a, Note([], 0), last, old(b.Now()), b.Now(), u)
    ensures a.data != [] ==> b.LastRead() == Some(a.data[|a.data| - 1])
  {
    var part, e := ReadFresh(b, size);
    a := Answer(part, e, false);
    assert part + [] == part;
  }

  method StepWriteTo(b: Reader, sink: Sink, ghost last: Option<byte>, ghost u: World) returns (a: Answer)
    requires Within(b, sink, u)
    modifies b, b.buf, b.rd, sink
    ensures Within(b, sink, u) && b.rd == old(b.rd) && a.Answer?
    ensures Allowed(WriteToCall, a, Note([], 0), last, old(b.Now()), b.Now(), u)
    ensures sink.data == old(sink.data) + a.data
  {
    var before := sink.data;
    var n, e := b.WriteTo(sink);
    Unshift(before, sink.data, b.Pending(), old(b.Pending()));
    a := Answer(sink.data[|before|..], e, false);
    assert a.data + [] == a.data;
  }

  lemma SliceAllowed(
      delim: byte, line: bytes, e: Error, held: nat, last: Option<byte>,
      from: State, to: State, u: World)
    requires from.pending == line + to.pending && |line| <= u.size
    requires SliceEnds(line, e, to.pending, delim, u)
    requires held == 0 || (e == Nil && held < |line|)
    requires to.total == from.total + |line| - held
    ensures Allowed(ReadSliceCall(delim), Answer(line, e, false), Note([], held), last, from, to, u)
  {
    assert line + [] == line;
  }

  method StepSlice(b: Reader, delim: byte, sink: Sink, ghost last: Option<byte>, ghost u: World)
    returns (a: Answer, ghost note: Note)
    requires Within(b, sink, u)
    modifies b, b.buf, b.rd
    ensures Within(b, sink, u) && b.rd == old(b.rd) && a.Answer?
    ensures Allowed(ReadSliceCall(delim), a, note, last, old(b.Now()), b.Now(), u)
  {
    ghost var held;
    ghost var start := b.Now();
    var line, e;
    line, e, held := b.ReadSlice(delim);
    a, note := Answer(line, e, false), Note([], held);
    SliceAllowed(delim, line, e, held, last, start, b.Now(), u);
  }

  method StepLine(b: Reader, sink: Sink, ghost last: Option<byte>, ghost u: World)
    returns (a: Answer, ghost note: Note)
    requires Within(b, sink, u)
    modifies b, b.buf, b.rd
    ensures Within(b, sink, u) && b.rd == old(b.rd) && a.Answer?
    ensures Allowed(ReadLineCall, a, note, last, old(b.Now()), b.Now(), u)
  {
    ghost var eol, held;
    var line, more, e;
    line, more, e, eol, held := b.ReadLine();
    a, note := Answer(line, e, more), Note(eol, held);
    assert eol == [] ==> line + eol == line;
  }

  lemma BytesAllowed(
      delim: byte, line: bytes, e: Error, held: nat, last: Option<byte>,
      from: State, to: State, u: World)
    requires from.pending == line + to.pending && line == Upto(from.pending, delim)
    requires e == if delim in from.pending then Nil else u.end
    requires held == 0 || held < Min(|line|, u.size)
    requires to.total == from.total + |line| - held
    ensures Allowed(ReadBytesCall(delim), Answer(line, e, false), Note([], held), last, from, to, u)
  {
    assert line + [] == line;
  }

  method StepBytes(b: Reader, delim: byte, sink: Sink, ghost last: Option<byte>, ghost u: World)
    returns (a: Answer, ghost note: Note)
    requires Within(b, sink, u)
    modifies b, b.buf, b.rd
    ensures Within(b, sink, u) && b.rd == old(b.rd) && a.Answer?
    ensures Allowed(ReadBytesCall(delim), a, note, last, old(b.Now()), b.Now(), u)
  {
    ghost var held;
    ghost var start := b.Now();
    var line, e;
    line, e, held := b.ReadBytes(delim);
    a, note := Answer(line, e, false), Note([], held);
    BytesAllowed(delim, line, e, held, last, start, b.Now(), u);
  }

  /** UnreadByte, directly after a byte was delivered. */
  method StepBack(b: Reader, last: Option<byte>, sink: Sink, ghost u: World) returns (a: Answer)
    requires Within(b, sink, u) && (last.Some? ==> b.LastRead() == last)
    modifies b, b.buf
    ensures Within(b, sink, u) && b.rd == old(b.rd)
    ensures Allowed(UnreadByteCall, a, Note([], 0), last, old(b.Now()), b.Now(), u)
  {
    a := GivenUp;
    if last.Some? {
      var e := b.UnreadByte();
      a := Answer([], e, false);
    }
  }

  method StepLines(b: Reader, call: Call, sink: Sink, ghost last: Option<byte>, ghost u: World)
    returns (a: Answer, ghost note: Note)
    requires Within(b, sink, u) && (call.ReadSliceCall? || call.ReadLineCall? || call.ReadBytesCall?)
    modifies b, b.buf, b.rd
    ensures Within(b, sink, u) && b.rd == old(b.rd)
    ensures Allowed(call, a, note, last, old(b.Now()), b.Now(), u)
  {
    match call
    case ReadSliceCall(delim) => a, note := StepSlice(b, delim, sink, last, u);
    case ReadLineCall => a, note := StepLine(b, sink, last, u);
    case ReadBytesCall(delim) => a, note := StepBytes(b, delim, sink, last, u);
  }

  method Step(b: Reader, call: Call, last: Option<byte>, sink: Sink, ghost u: World)
    returns (a: Answer, ghost note: Note)
    requires Within(b, sink, u) && (last.Some? ==> b.LastRead() == last)
    modifies b, b.buf, b.rd, sink
    ensures Within(b, sink, u) && b.rd == old(b.rd)
    ensures Allowed(call, a, note, last, old(b.Now()), b.Now(), u)
    ensures LastOf(call, a).Some? ==> b.LastRead() == LastOf(call, a)
    ensures sink.data == old(sink.data) + SunkBy(call, a)
  {
    note := Note([], 0);
    match call
    case PeekCall(n) => a := StepPeek(b, n, sink, last, u);
    case ReadCall(size) => a := StepRead(b, size, sink, last, u);
    case ReadByteCall => a := StepReadByte(b, sink, last, u);
    case UnreadByteCall => a := StepBack(b, last, sink, u);
    case WriteToCall => a := StepWriteTo(b, sink, last, u);
    case _ => a, note := StepLines(b, call, sink, last, u);
  }

  /** One more call of a run. */
  method StepOn(
      b: Reader, call: Call, last: Option<byte>, sink: Sink, ghost u: World, ghost log: Log, ghost data: bytes)
    returns (a: Answer, ghost longer: Log)
    requires Within(b, sink, u) && (last.Some? ==> b.LastRead() == last) && last == log.Last()
    requires log.Runs(u) && log.Now() == b.Now() && sink.data == data + log.Sunk()
    modifies b, b.buf, b.rd, sink
    ensures Within(b, sink, u) && b.rd == old(b.rd)
    ensures longer.Runs(u) && longer.Now() == b.Now() && sink.data == data + longer.Sunk()
    ensures longer.Calls() == log.Calls() + [call] && longer.Answers() == log.Answers() + [a]
    ensures longer.Start() == log.Start() && longer.Last() == LastOf(call, a)
    ensures LastOf(call, a).Some? ==> b.LastRead() == LastOf(call, a)
  {
    ghost var note;
    a, note := Step(b, call, last, sink, u);
    Assoc(data, log.Sunk(), SunkBy(call, a));
    longer := Then(log, call, a, note, b.Now());
  }

  method Drive(b: Reader, calls: seq<Call>, sink: Sink, ghost u: World)
    returns (answers: seq<Answer>, last: Option<byte>, ghost log: Log)
    requires Within(b, sink, u)
    modifies b, b.buf, b.rd, sink
    ensures Within(b, sink, u) && b.rd == old(b.rd)
    ensures log.Calls() == calls && log.Answers() == answers
    ensures log.Runs(u) && log.Start() == old(b.Now()) && log.Now() == b.Now()
    ensures last == log.Last() && (last.Some? ==> b.LastRead() == last)
    ensures sink.data == old(sink.data) + log.Sunk()
    decreases |calls|
  {
    if calls == [] {
      answers, last, log := [], None, Fresh(b.Now());
      return;
    }
    ghost var data := sink.data;
    var front, call := SplitLast(calls);
    answers, last, log := Drive(b, front, sink, u);
    var a;
    a, log := StepOn(b, call, last, sink, u, log, data);
    answers, last := answers + [a], LastOf(call, a);
  }

  /**
    Any run of calls is a run of the reader without buffer and chunks: every answer the caller gets
    is one the stream allows at that point. The net bytes of the answers, then what is pending, are
    the stream the run began with; the counter is the net bytes less what the answers say it misses.
   */
  method Run(b: Reader, calls: seq<Call>, sink: Sink) returns (answers: seq<Answer>, ghost log: Log)
    requires b.Valid()
    modifies b, b.buf, b.rd, sink
    ensures b.Valid() && b.rd == old(b.rd)
    ensures log.Calls() == calls && log.Answers() == answers
    ensures log.Runs(World(b.rd.end, b.buf.Length, old(b.rd.stalls) == 0, sink.reliable))
    ensures log.Start() == old(b.Now()) && log.Now() == b.Now()
    ensures old(b.Pending()) == log.Net() + b.Pending()
    ensures old(b.totalRead) >= 0 ==>
              b.totalRead == old(b.totalRead) + |log.Net()| - log.Missed(b.buf.Length)
    ensures sink.data == old(sink.data) + log.Sunk()
  {
    ghost var u := World(b.rd.end, b.buf.Length, b.rd.stalls == 0, sink.reliable);
    var last;
    answers, last, log := Drive(b, calls, sink, u);
    Conserves(log, u);
  }

  // ----- Where the code and its documentation differ -----

  /** The part of a stream that fits in the buffer. */
  function Fitting(s: bytes, size: nat): bytes {
    s[..Min(|s|, size)]
  }

  lemma SliceFits(s: bytes, line: bytes, err: Error, rest: bytes, delim: byte, u: World)
    requires s == line + rest && |line| <= u.size && SliceEnds(line, err, rest, delim, u)
    ensures err == Nil <==> delim in Fitting(s, u.size)
  {
    var fitting := Fitting(s, u.size);
    if err == Nil {
      assert fitting[|line| - 1] == delim;
    } else if err == BufferFull {
      assert fitting == line;
    } else {
      assert s == line && fitting == line;
    }
  }

  /**
    When the counter of ReadSlice is right. With something buffered: if and only if the delimiter is
    among that, or not within reach of the buffer at all. With an empty buffer it is right if the
    delimiter is not within reach, and otherwise depends on the chunks.
   */
  method SliceCounted(b: Reader, delim: byte) returns (line: bytes, e: Error, ghost held: nat)
    requires b.Valid()
    modifies b, b.buf, b.rd
    ensures b.totalRead == old(b.totalRead) + |line| <==> held == 0
    ensures var reach := Fitting(old(b.Pending()), b.buf.Length);
            && (delim in old(b.Buffered()) || delim !in reach ==> held == 0)
            && (delim !in old(b.Buffered()) && delim in reach && old(b.r < b.w) ==> held > 0)
  {
    ghost var s := b.Pending();
    line, e, held := b.ReadSlice(delim);
    SliceFits(s, line, e, b.Pending(), delim, World(b.rd.end, b.buf.Length, false, false));
  }

  /** A buffer of 16, fifteen bytes and then "\r\n": the first fragment can only be the fifteen bytes. */
  lemma Straddled(stream: bytes, a: Answer, eol: bytes, rest: bytes, u: World)
    requires stream == seq(15, _ => 97) + [CR, LF] && u.size == 16
    requires a.Answer? && stream == a.data + eol + rest && LineComes(a, eol, rest, u)
    ensures a.more && |a.data| == 15 && rest == [CR, LF]
  {
    var front := a.data + eol;
    assert eol != [] ==> EndsIn(front, LF);
    assert |front| <= 16 && rest == stream[|front|..] && front == stream[..|front|];
    assert stream[15] == CR && stream[16] == LF && forall i :: 0 <= i < 16 ==> stream[i] != LF;
    assert forall i :: 0 <= i < |front| ==> front[i] == stream[i];
    assert eol == [];
  }

  lemma WholeRest(x: byte, line: bytes, err: Error, rest: bytes, u: World)
    requires line + rest == [x, LF] && x != LF && u.size >= 16 && SliceEnds(line, err, rest, LF, u)
    ensures line == [x, LF]
  {
    assert (line + rest)[0] == x && (line + rest)[1] == LF;
    assert line + [] == line;
  }

  /**
    The counter is wrong: with a buffer of 16, fifteen bytes and then "\r\n", a ReadLine counts 16
    bytes for the 15 it takes, and the ReadSlice for the rest counts 1 for 2.
   */
  method CounterGoesWrong(stalls: nat) returns (first: bytes, second: bytes, counted: int, total: int)
    ensures |first| == 15 && counted == 16
    ensures second == [CR, LF] && total - counted == 1
  {
    var text: bytes := seq(15, _ => 97);
    var src := new Source(text + [CR, LF], EOF, stalls);
    var b := new Reader(src, 16);
    ghost var eol, held;
    ghost var stream := b.Pending();
    var more, e;
    first, more, e, eol, held := b.ReadLine();
    Straddled(stream, Answer(first, e, more), eol, b.Pending(), World(EOF, 16, false, false));
    counted := b.totalRead;
    second, total := CountRest(b);
  }

  method CountRest(b: Reader) returns (second: bytes, total: int)
    requires b.Valid() && b.Pending() == [CR, LF] && b.w - b.r == 1
    modifies b, b.buf, b.rd
    ensures second == [CR, LF] && total == old(b.totalRead) + 1
  {
    assert b.Buffered() == b.Pending()[..1];
    ghost var held;
    var e;
    second, e, held := b.ReadSlice(LF);
    WholeRest(CR, second, e, b.Pending(), World(b.rd.end, b.buf.Length, false, false));
    total := b.totalRead;
  }

  lemma LineFits(s: bytes, a: Answer, eol: bytes, rest: bytes, u: World)
    requires a.Answer? && s == a.data + eol + rest && LineComes(a, eol, rest, u) && u.size > 0
    ensures eol != [] <==> LF in Fitting(s, u.size)
    ensures a.more ==> u.size <= |s| && (|a.data| < u.size <==> s[u.size - 1] == CR)
  {
    var reach := Fitting(s, u.size);
    if eol != [] {
      assert reach[|a.data| + |eol| - 1] == LF;
    } else if a.more {
      assert |a.data| < u.size ==> reach == a.data + [CR];
      assert |a.data| == u.size ==> reach == a.data;
    } else {
      assert reach == a.data;
    }
  }

  /**
    When the counter of ReadLine is right. It counts one too many if and only if a "\r" at the end of
    a full buffer goes back. Otherwise, with something buffered, it is right if and only if the line
    feed is among that, or not within reach of the buffer at all.
   */
  method LineCounted(b: Reader) returns (line: bytes, isPrefix: bool, e: Error, ghost taken: nat)
    requires b.Valid()
    modifies b, b.buf, b.rd
    ensures b.Valid() && |old(b.Pending())| == taken + |b.Pending()|
    ensures var s, size, extra := old(b.Pending()), b.buf.Length, b.totalRead - old(b.totalRead) - taken;
            if LF in Fitting(s, size) then
              && extra <= 0 && (LF in old(b.Buffered()) ==> extra == 0)
              && (LF !in old(b.Buffered()) && old(b.r < b.w) ==> extra < 0)
            else extra == if old(b.err) == Nil && size <= |s| && s[size - 1] == CR then 1 else 0
  {
    ghost var s, eol, held := b.Pending(), [], 0;
    line, isPrefix, e, eol, held := b.ReadLine();
    taken := |line| + |eol|;
    LineFits(s, Answer(line, e, isPrefix), eol, b.Pending(), World(b.rd.end, b.buf.Length, false, false));
  }

  /**
    "At EOF, the count will be zero" fails for a source whose error comes along with its last bytes,
    in a large read into an empty buffer.
   */
  method BytesWithEOF() returns (n: nat, e: Error)
    ensures n == 1 && e == EOF
  {
    var src := new Source.Prompt([97], EOF);
    var b := new Reader(src, 16);
    var p := new byte[16];
    ghost var got;
    n, e, got := b.Read(p, 0, 16);
  }

  /**
    "Only the most recently read byte can be unread": after a ReadSlice, which does not note its last
    byte, UnreadByte puts that byte back if and only if something is still buffered, no byte is noted
    from before, or the noted one happens to be the same.
   */
  method UnreadAfterSlice(b: Reader, delim: byte) returns (line: bytes, e: Error)
    requires b.Valid() && b.Pending() != []
    modifies b, b.buf, b.rd
    ensures b.Valid() && line != [] && e == Nil && line <= old(b.Pending())
    ensures var last := line[|line| - 1];
            ([last] + old(b.Pending())[|line|..] == b.Pending()) <==>
            old(b.lastByte) < 0 || old(b.lastByte) == last || |b.Buffered()| > 1
  {
    ghost var held;
    ghost var s := b.Pending();
    line, e, held := b.ReadSlice(delim);
    ghost var rest := b.Pending();
    assert rest == s[|line|..];
    e := b.UnreadByte();
    assert ([line[|line| - 1]] + rest)[0] == line[|line| - 1];
  }

  method UnreadAndRead(b: Reader) returns (c: byte)
    requires b.Valid() && b.r == b.w && b.lastByte >= 0
    modifies b, b.buf, b.rd
    ensures c == old(b.lastByte)
  {
    var e := b.UnreadByte();
    ghost var s := b.Pending();
    c, e := b.ReadByte();
    assert s[0] == c;
  }

  /** An input: of "ab\n", ReadByte takes the "a", ReadSlice the rest, and UnreadByte puts back an "a". */
  method UnreadStale() returns (c: byte, line: bytes, again: byte)
    ensures c == again == 97 && line == [98, LF]
  {
    var src := new Source([97, 98, LF], EOF, 0);
    var b := new Reader(src, 16);
    var e;
    ghost var held;
    ghost var s := b.Pending();
    c, e := b.ReadByte();
    assert c == s[0] && b.Pending() == s[1..] == [98, LF];
    line, e, held := b.ReadSlice(LF);
    WholeRest(98, line, e, b.Pending(), World(EOF, 16, false, false));
    again := UnreadAndRead(b);
  }
}
