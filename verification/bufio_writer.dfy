/** The buffered writer: a buffer buf[..n] in front of a sink, with a sticky error. */
module BufioWriter {
  import opened Bytes
  import opened Io

  const DEFAULT_BUF_SIZE := 4096

  /**
    What a Write that goes through leaves in the buffer: everything, if it fits; otherwise what comes
    behind one full buffer, unless that is more than a buffer, which bypasses it.
   */
  function HeldAfter(n: nat, len: nat, size: nat): int {
    if n + len <= size then n + len
    else
      var behind := if n == 0 then len else n + len - size;
      if behind <= size then behind else 0
  }

  /** What is left of `total` bytes when whole buffers go, each only when more is to come. */
  function Overflow(total: nat, size: nat): (r: nat)
    requires size > 0
    ensures r <= size && r <= total && (total > 0 ==> r > 0)
  {
    if total <= size then total else Overflow(total - size, size)
  }

  class Writer {
    const buf: array<byte>
    var wr: Sink
    var n: nat
    var err: Error
    var totalWrite: int

    ghost predicate Valid()
      reads this
    {
      n <= buf.Length && 0 < buf.Length
    }

    /** Everything accepted so far: what the sink took, then what is buffered. */
    ghost function Emitted(): bytes
      requires Valid()
      reads this, buf, wr
    {
      wr.data + buf[..n]
    }

    ghost function Now(): State
      requires Valid()
      reads this, buf, wr
    {
      State(wr.data, buf[..n], err, totalWrite)
    }

    /** No flush can go through any more. */
    ghost predicate Dead()
      reads this
    {
      err != Nil || (wr.broken && !wr.reliable)
    }

    constructor (wr: Sink, size: int)
      ensures Valid() && fresh(buf) && this.wr == wr && err == Nil && n == 0 && totalWrite == 0
      ensures buf.Length == if size <= 0 then 4096 else size
      ensures Emitted() == wr.data
    {
      buf := new byte[if size <= 0 then DEFAULT_BUF_SIZE else size](_ => 0);
      this.wr, n, err, totalWrite := wr, 0, Nil, 0;
    }

    method Reset(wr: Sink)
      requires Valid()
      modifies this
      ensures Valid() && this.wr == wr && err == Nil && n == 0 && totalWrite == 0
      ensures Emitted() == wr.data
    {
      this.wr, n, err, totalWrite := wr, 0, Nil, 0;
    }

    function Available(): int
      reads this
    {
      buf.Length - n
    }

    /** Drops the first k buffered bytes, which the sink has taken. */
    method Shift(k: nat)
      requires Valid() && k <= n
      modifies this`n, buf
      ensures Valid() && n == old(n) - k && buf[..n] == old(buf[k..n])
    {
      if 0 < k < n {
        forall i | 0 <= i < n - k {
          buf[i] := buf[k + i];
        }
      }
      n := n - k;
    }

    method Flush() returns (e: Error)
      requires Valid()
      modifies this`n, this`err, buf, wr
      ensures Valid() && Emitted() == old(Emitted()) && old(wr.data) <= wr.data
      ensures e == err && (old(err) != Nil ==> err == old(err) && n == old(n) && wr.data == old(wr.data))
      ensures e == Nil ==> n == 0
      ensures n <= old(n) && wr.stalls <= old(wr.stalls)
      ensures wr.reliable ==> err == old(err)
      ensures wr.broken && !wr.reliable && old(n) > 0 ==> e != Nil && n == old(n)
      ensures wr.Silent() && old(err) == Nil ==> e == if n == 0 then Nil else ShortWrite
    {
      if err != Nil {
        return err;
      }
      if n == 0 {
        assert buf[..0] == [];
        return Nil;
      }
      ghost var held, front := buf[..n], wr.data;
      var k;
      k, e := wr.Write(buf[..n]);
      if k < n && e == Nil {
        e := ShortWrite;
      }
      Moved(front, held, k, []);
      assert held[k..] + [] == held[k..] && held + [] == held;
      if e != Nil {
        assert buf[k..n] == held[k..];
        Shift(k);
        err := e;
        return;
      }
      assert held[k..] == [];
      n := 0;
    }

    /** copy(b.buf[b.n:], p): buffers as much of p as fits. */
    method CopyIn(p: bytes) returns (k: nat, ghost taken: bytes)
      requires Valid()
      modifies this`n, buf
      ensures Valid() && k == Min(|p|, buf.Length - old(n)) && n == old(n) + k
      ensures taken == p[..k] && Emitted() == old(Emitted()) + taken
    {
      k := Min(|p|, buf.Length - n);
      taken := p[..k];
      forall i | 0 <= i < k {
        buf[n + i] := p[i];
      }
      assert buf[..n + k] == old(buf[..n]) + taken;
      Assoc(wr.data, old(buf[..n]), taken);
      n := n + k;
    }

    /** The large write into an empty buffer, which bypasses the buffer. */
    method WriteDirect(p: bytes) returns (k: nat, ghost taken: bytes)
      requires Valid() && n == 0 && err == Nil && p != []
      modifies this`err, wr
      ensures Valid() && k <= |p| && p == taken + p[k..] && |taken| == k
      ensures Emitted() == old(Emitted()) + taken && old(wr.data) <= wr.data
      ensures k > 0 || err != Nil || wr.stalls < old(wr.stalls)
      ensures wr.strict && err == Nil ==> k == |p|
      ensures wr.stalls <= old(wr.stalls) && (wr.reliable ==> err == Nil)
    {
      assert buf[..0] == [];
      k, err := wr.Write(p);
      taken := p[..k];
    }

    /** Buffers what fits and flushes; nothing fits when the buffer is full already. */
    method CopyAndFlush(p: bytes) returns (k: nat, ghost taken: bytes)
      requires Valid() && err == Nil && |p| > Available()
      modifies this`n, this`err, buf, wr
      ensures Valid() && k <= |p| && p == taken + p[k..] && |taken| == k
      ensures Emitted() == old(Emitted()) + taken && old(wr.data) <= wr.data
      ensures k > 0 || err != Nil || n < old(n)
      ensures k == 0 ==> n <= old(n)
      ensures err == Nil ==> n == 0 && old(n) + k == buf.Length
      ensures wr.stalls <= old(wr.stalls) && (wr.reliable ==> err == Nil)
    {
      k, taken := CopyIn(p);
      var e := Flush();
    }

    /** Makes room for what is left of p: directly past an empty buffer, or by full buffers. */
    method Spill(p: bytes) returns (nn: nat, left: bytes, ghost done: bytes)
      requires Valid()
      modifies this`n, this`err, buf, wr
      ensures Valid() && p == done + left && nn == |done| && Emitted() == old(Emitted()) + done
      ensures err == Nil ==> n + |left| <= buf.Length
      ensures old(err) != Nil ==> done == [] && err == old(err) && wr.data == old(wr.data)
      ensures old(err) == Nil && old(n) + |p| <= buf.Length ==>
                done == [] && n == old(n) && err == Nil && wr.data == old(wr.data)
      ensures wr.strict && err == Nil ==> HeldAfter(n, |left|, buf.Length) == HeldAfter(old(n), |p|, buf.Length)
      ensures old(wr.data) <= wr.data && (wr.reliable ==> err == old(err))
    {
      nn, left, done := 0, p, [];
      ghost var start, err0, n0, data := Emitted(), err, n, wr.data;
      while |left| > Available() && err == Nil
        invariant Valid() && p == done + left && nn == |done| && Emitted() == start + done
        invariant err0 != Nil ==> done == [] && err == err0 && wr.data == data
        invariant n0 + |p| <= buf.Length ==> done == [] && n == n0 && err == err0 && wr.data == data
        invariant wr.strict && err == Nil ==> HeldAfter(n, |left|, buf.Length) == HeldAfter(n0, |p|, buf.Length)
        invariant data <= wr.data && (wr.reliable ==> err == err0)
        decreases |left|, wr.stalls, n, err == Nil
      {
        var k: nat;
        ghost var taken;
        if n == 0 {
          k, taken := WriteDirect(left);
        } else {
          k, taken := CopyAndFlush(left);
        }
        Assoc(done, taken, left[k..]);
        Assoc(start, done, taken);
        nn, done, left := nn + k, done + taken, left[k..];
      }
    }

    /** Accepts a prefix of p; all of it unless there is an error, and nothing after an error. */
    method Write(p: bytes) returns (nn: nat, e: Error)
      requires Valid()
      modifies this`n, this`err, this`totalWrite, buf, wr
      ensures Valid() && nn <= |p| && Emitted() == old(Emitted()) + p[..nn]
      ensures e == err && (e == Nil ==> nn == |p|)
      ensures old(err) != Nil ==> nn == 0 && err == old(err) && wr.data == old(wr.data)
      ensures totalWrite == old(totalWrite) + nn && old(wr.data) <= wr.data
      ensures wr.reliable ==> err == old(err)
      ensures old(err) == Nil && old(n) + |p| <= buf.Length ==> e == Nil && wr.data == old(wr.data)
      ensures wr.strict && e == Nil ==> n == HeldAfter(old(n), |p|, buf.Length)
    {
      ghost var start, done, taken := Emitted(), [], [];
      var left;
      nn, left, done := Spill(p);
      if err != Nil {
        totalWrite := totalWrite + nn;
        return nn, err;
      }
      var k;
      k, taken := CopyIn(left);
      Assoc(start, done, taken);
      nn := nn + k;
      totalWrite := totalWrite + nn;
      return nn, Nil;
    }

    /** Makes room for what is left of p by full buffers only. */
    method SpillCopies(p: bytes) returns (nn: nat, left: bytes, ghost done: bytes)
      requires Valid()
      modifies this`n, this`err, buf, wr
      ensures Valid() && p == done + left && nn == |done| && Emitted() == old(Emitted()) + done
      ensures err == Nil ==> n + |left| <= buf.Length
      ensures old(err) != Nil ==> done == [] && err == old(err) && wr.data == old(wr.data)
      ensures old(err) == Nil && old(n) + |p| <= buf.Length ==>
                done == [] && n == old(n) && err == Nil && wr.data == old(wr.data)
      ensures err == Nil ==> Overflow(n + |left|, buf.Length) == Overflow(old(n) + |p|, buf.Length)
      ensures old(wr.data) <= wr.data && (wr.reliable ==> err == old(err))
    {
      nn, left, done := 0, p, [];
      ghost var start, err0, n0, data := Emitted(), err, n, wr.data;
      while |left| > Available() && err == Nil
        invariant Valid() && p == done + left && nn == |done| && Emitted() == start + done
        invariant err0 != Nil ==> done == [] && err == err0 && wr.data == data
        invariant n0 + |p| <= buf.Length ==> done == [] && n == n0 && err == err0 && wr.data == data
        invariant err == Nil ==> Overflow(n + |left|, buf.Length) == Overflow(n0 + |p|, buf.Length)
        invariant data <= wr.data && (wr.reliable ==> err == err0)
        decreases |left|, wr.stalls, n, err == Nil
      {
        var k: nat;
        ghost var taken;
        k, taken := CopyAndFlush(left);
        Assoc(done, taken, left[k..]);
        Assoc(start, done, taken);
        nn, done, left := nn + k, done + taken, left[k..];
      }
    }

    /** As Write, but always through the buffer. */
    method WriteString(s: bytes) returns (nn: nat, e: Error)
      requires Valid()
      modifies this`n, this`err, this`totalWrite, buf, wr
      ensures Valid() && nn <= |s| && Emitted() == old(Emitted()) + s[..nn]
      ensures e == err && (e == Nil ==> nn == |s|)
      ensures old(err) != Nil ==> nn == 0 && err == old(err) && wr.data == old(wr.data)
      ensures totalWrite == old(totalWrite) + nn && old(wr.data) <= wr.data
      ensures wr.reliable ==> err == old(err)
      ensures old(err) == Nil && old(n) + |s| <= buf.Length ==> e == Nil && wr.data == old(wr.data)
      ensures e == Nil ==> n == Overflow(old(n) + |s|, buf.Length)
    {
      ghost var start, done, taken := Emitted(), [], [];
      var left;
      nn, left, done := SpillCopies(s);
      if err != Nil {
        totalWrite := totalWrite + nn;
        return nn, err;
      }
      var k;
      k, taken := CopyIn(left);
      Assoc(start, done, taken);
      nn := nn + k;
      totalWrite := totalWrite + nn;
      return nn, Nil;
    }

    method WriteByte(c: byte) returns (e: Error)
      requires Valid()
      modifies this`n, this`err, this`totalWrite, buf, wr
      ensures Valid() && e == err
      ensures e == Nil ==> Emitted() == old(Emitted()) + [c] && totalWrite == old(totalWrite) + 1
      ensures e != Nil ==> Emitted() == old(Emitted()) && totalWrite == old(totalWrite)
      ensures old(err) != Nil ==> err == old(err) && wr.data == old(wr.data)
      ensures old(err) == Nil && old(n) < buf.Length ==> e == Nil && wr.data == old(wr.data)
      ensures e == Nil ==> n == if old(n) < buf.Length then old(n) + 1 else 1
      ensures old(wr.data) <= wr.data
      ensures wr.reliable ==> err == old(err)
    {
      if err != Nil {
        return err;
      }
      if Available() <= 0 {
        e := Flush();
        if e != Nil {
          return;
        }
      }
      ghost var held := buf[..n];
      buf[n] := c;
      assert buf[..n + 1] == held + [c];
      Assoc(wr.data, held, [c]);
      n := n + 1;
      totalWrite := totalWrite + 1;
      return Nil;
    }

    /** One read of the source straight into the free part of the buffer. */
    method Pull(src: Source) returns (m: nat, e: Error, ghost more: bytes)
      requires Valid()
      modifies this`n, buf, src
      ensures Valid() && n == old(n) + m && m == |more| && old(src.rest) == more + src.rest
      ensures Emitted() == old(Emitted()) + more
      ensures e != Nil ==> e == src.end && src.rest == []
      ensures src.prompt && src.rest == [] ==> e == src.end
      ensures src.late && !src.prompt && m > 0 ==> e == Nil
      ensures src.stalls <= old(src.stalls)
      ensures m == 0 && e == Nil && old(n) < buf.Length ==> src.stalls < old(src.stalls)
    {
      ghost var held := buf[..n];
      m, e, more := src.Read(buf, n, buf.Length);
      Assoc(wr.data, held, more);
      n := n + m;
    }

    /**
      Copies a source into the buffer, flushing when the buffer is full, until a flush fails
      (`failed`), the source is at its end, or a read brings nothing.
     */
    method PullAll(src: Source) returns (k: nat, e: Error, failed: bool, ghost got: bytes)
      requires Valid()
      modifies this`n, this`err, buf, wr, src
      ensures Valid() && k == |got| && old(src.rest) == got + src.rest && Emitted() == old(Emitted()) + got
      ensures failed ==> e == err != Nil
      ensures !failed ==> err == old(err)
      ensures src.stalls <= old(src.stalls)
      ensures !failed ==> if e == Nil then src.stalls < old(src.stalls) else e == src.end && src.rest == []
      ensures old(err) != Nil ==> err == old(err) && wr.data == old(wr.data) && n == old(n) + k
      ensures old(err) != Nil && failed ==> n == buf.Length
      ensures old(err) != Nil && old(n) == buf.Length ==> failed
      ensures old(wr.data) <= wr.data
      ensures wr.reliable && old(err) == Nil ==> !failed
      ensures Fits(|old(src.rest)|, buf.Length - old(n), src.prompt) ==>
                !failed && n == old(n) + k && wr.data == old(wr.data)
      ensures wr.broken && !wr.reliable && failed ==> k == buf.Length - old(n)
      ensures wr.broken && !wr.reliable && !failed ==> k <= buf.Length - old(n)
      ensures old(Dead()) && Late(src) && old(src.stalls) == 0 && |old(src.rest)| == buf.Length - old(n) > 0 ==>
                failed
    {
      k, got, failed := 0, [], false;
      ghost var stream, emitted, err0, n0, data := src.rest, Emitted(), err, n, wr.data;
      while true
        invariant Valid() && k == |got| && stream == got + src.rest && Emitted() == emitted + got
        invariant src.stalls <= old(src.stalls) && err == err0 && data <= wr.data
        invariant err0 != Nil ==> wr.data == data && n == n0 + k
        invariant src.prompt && k > 0 ==> src.rest != []
        invariant (wr.broken && !wr.reliable) || Fits(|stream|, buf.Length - n0, src.prompt) ==> n == n0 + k
        invariant Fits(|stream|, buf.Length - n0, src.prompt) ==> wr.data == data
        decreases |src.rest|
      {
        if Available() == 0 {
          e := Flush();
          if e != Nil {
            failed := true;
            return;
          }
        }
        var m;
        ghost var more;
        m, e, more := Pull(src);
        Assoc(got, more, src.rest);
        Assoc(emitted, got, more);
        k, got := k + m, got + more;
        if m == 0 || e != Nil {
          break;
        }
      }
    }

    /** At the end of the source: a buffer that is just full is flushed. */
    method FlushFull() returns (e: Error)
      requires Valid()
      modifies this`n, this`err, buf, wr
      ensures Valid() && Emitted() == old(Emitted()) && old(wr.data) <= wr.data
      ensures if old(n) == buf.Length then e == err else e == Nil && err == old(err) && n == old(n)
      ensures old(err) != Nil ==> err == old(err) && wr.data == old(wr.data) && n == old(n)
      ensures wr.reliable ==> err == old(err)
    {
      e := Nil;
      if Available() == 0 {
        e := Flush();
      }
    }

    /**
      Copies a source into the buffer, flushing when the buffer is full. It looks at a sticky error
      only when the buffer is full: with room it still takes bytes, which no flush will deliver. It
      stops at an empty read, and an error of the flush inside the loop leaves the counter alone.
     */
    method ReadFrom(src: Source) returns (k: nat, e: Error, ghost got: bytes)
      requires Valid()
      modifies this`n, this`err, this`totalWrite, buf, wr, src
      ensures Valid() && k == |got| && old(src.rest) == got + src.rest
      ensures Emitted() == old(Emitted()) + got
      ensures totalWrite == old(totalWrite) + k || (totalWrite == old(totalWrite) && e == err != Nil)
      ensures e == Nil ==> src.rest == [] || src.stalls < old(src.stalls)
      ensures src.rest != [] && src.stalls == old(src.stalls) ==> totalWrite == old(totalWrite) && e == err != Nil
      ensures old(err) != Nil ==> err == old(err) && wr.data == old(wr.data) && n == old(n) + k
      ensures old(err) == Nil && err != Nil ==> e == err
      ensures old(wr.data) <= wr.data
      ensures Fits(|old(src.rest)|, buf.Length - old(n), src.prompt) ==> totalWrite == old(totalWrite) + k
      ensures |old(src.rest)| < buf.Length - old(n) ==> n == old(n) + k && wr.data == old(wr.data) && err == old(err)
      ensures wr.broken && !wr.reliable && old(src.stalls) == 0 && |old(src.rest)| > buf.Length - old(n) ==>
                k == buf.Length - old(n) && totalWrite == old(totalWrite) && e == err != Nil
      ensures old(Dead()) && Late(src) && old(src.stalls) == 0 && |old(src.rest)| == buf.Length - old(n) > 0 ==>
                k == buf.Length - old(n) && totalWrite == old(totalWrite)
      ensures old(err) != Nil && old(src.stalls) == 0 ==>
                StuckRead(|old(src.rest)|, buf.Length - old(n), src.end, k, e, err, totalWrite - old(totalWrite))
      ensures wr.reliable && old(err) == Nil ==>
                && err == Nil && (e == Nil || e == src.end) && totalWrite == old(totalWrite) + k
                && (old(src.stalls) == 0 ==> src.rest == [] && e == if src.end == EOF then Nil else src.end)
    {
      var failed;
      k, e, failed, got := PullAll(src);
      if failed {
        return;
      }
      if e == EOF {
        e := FlushFull();
      }
      totalWrite := totalWrite + k;
    }
  }

  /** The source reports its end only after its last byte. */
  ghost predicate Late(src: Source) {
    src.late && !src.prompt
  }

  /** A source of `size` bytes is read to its end before the loop finds the buffer full. */
  predicate Fits(size: nat, room: int, prompt: bool) {
    size < room || (prompt && 0 < size == room)
  }

  /**
    ReadFrom after an error, from a source of `size` bytes that never stalls: it takes what there is
    room for. When that is not everything it reports the error, but the counter stays as it was.
   */
  ghost predicate StuckRead(size: nat, room: int, end: Failure, k: nat, e: Error, err: Error, counted: int) {
    && k == Min(size, room)
    && (size > room || room == 0 ==> e == err)
    && (size > room ==> counted == 0)
    && (size < room ==> counted == k && e == if end == EOF then Nil else end)
  }

  // ----- Runs of calls -----

  datatype Call =
    | WriteCall(p: bytes)
    | WriteStringCall(s: bytes)
    | WriteByteCall(c: byte)
    | FlushCall
    | ReadFromCall(data: bytes, end: Failure, stalls: nat)

  /** What a call offers the writer. */
  function Offered(call: Call): bytes {
    match call
    case WriteCall(p) => p
    case WriteStringCall(s) => s
    case WriteByteCall(c) => [c]
    case FlushCall => []
    case ReadFromCall(data, _, _) => data
  }

  /** What a call reports: how many bytes it accepted, and its error. */
  datatype Result = Result(count: nat, err: Error)

  /** A writer: what the sink has, what is buffered, the sticky error, the counter. */
  datatype State = State(sent: bytes, held: bytes, err: Error, total: int)

  datatype World = World(size: nat, strict: bool, reliable: bool)

  /** The bytes a call accepts by its own report. */
  function Taken(call: Call, r: Result): bytes {
    Offered(call)[..Min(r.count, |Offered(call)|)]
  }

  /** How one call may go. */
  ghost predicate Allowed(call: Call, r: Result, from: State, to: State, u: World) {
    && r.count <= |Offered(call)|
    && to.sent + to.held == from.sent + from.held + Taken(call, r)
    && from.sent <= to.sent
    && (from.err != Nil ==> to.err == from.err && to.sent == from.sent)
    && if call.ReadFromCall? then AllowedFrom(call, r, from, to, u)
       else
         && r.err == to.err && to.total == from.total + r.count
         && (r.err == Nil ==> r.count == |Offered(call)|)
         && (from.err != Nil ==> r.count == 0)
         && (call.FlushCall? && r.err == Nil ==> to.held == [])
         && (u.reliable ==> to.err == from.err)
         && (!call.FlushCall? && from.err == Nil && |from.held| + |Offered(call)| <= u.size ==>
               r.err == Nil && to.sent == from.sent)
         && (r.err == Nil && u.strict && u.size > 0 ==>
               |to.held| == LeavesHeld(call, |from.held|, u.size))
  }

  /** How much a call that goes through leaves in the buffer. */
  function LeavesHeld(call: Call, held: nat, size: nat): int
    requires size > 0
  {
    match call
    case WriteCall(p) => HeldAfter(held, |p|, size)
    case WriteStringCall(s) => Overflow(held + |s|, size)
    case WriteByteCall(_) => if held < size then held + 1 else 1
    case FlushCall => 0
    case ReadFromCall(_, _, _) => held
  }

  ghost predicate AllowedFrom(call: Call, r: Result, from: State, to: State, u: World)
    requires call.ReadFromCall?
  {
    && (to.total == from.total + r.count || (to.total == from.total && r.err == to.err != Nil))
    && (from.err == Nil && to.err != Nil ==> r.err == to.err)
    && (|from.held| + |call.data| < u.size ==> to.sent == from.sent && to.err == from.err)
    && (from.err != Nil && call.stalls == 0 ==>
          StuckRead(|call.data|, u.size - |from.held|, call.end, r.count, r.err, from.err, to.total - from.total))
    && (u.reliable && from.err == Nil ==>
          && to.err == Nil && to.total == from.total + r.count
          && (call.stalls == 0 ==> r == Result(|call.data|, if call.end == EOF then Nil else call.end)))
  }

  /** A run, call by call, the last one outermost. */
  datatype Log =
    | Fresh(start: State)
    | Then(before: Log, call: Call, result: Result, to: State)
  {
    function Start(): State {
      if Fresh? then start else before.Start()
    }

    function Now(): State {
      if Fresh? then start else to
    }

    function Calls(): seq<Call> {
      if Fresh? then [] else before.Calls() + [call]
    }

    function Results(): seq<Result> {
      if Fresh? then [] else before.Results() + [result]
    }

    ghost predicate Runs(u: World) {
      Then? ==> before.Runs(u) && Allowed(call, result, before.Now(), to, u)
    }

    /** The accepted prefixes, end to end. */
    function Accepted(): bytes {
      if Fresh? then [] else before.Accepted() + Taken(call, result)
    }

    /** How much the calls offer in all. */
    function Size(): nat {
      if Fresh? then 0 else before.Size() + |Offered(call)|
    }

    predicate NoFlush() {
      Then? ==> before.NoFlush() && !call.FlushCall?
    }

    predicate NoReadFrom() {
      Then? ==> before.NoReadFrom() && !call.ReadFromCall?
    }
  }

  /**
    Conservation: sink and buffer hold what they held before and then exactly the accepted prefixes.
    The counter is their length without ReadFrom, and with it on a sink that does not fail.
   */
  lemma {:induction false} Conserves(log: Log, u: World)
    requires log.Runs(u)
    ensures log.Now().sent + log.Now().held == log.Start().sent + log.Start().held + log.Accepted()
    ensures log.NoReadFrom() || (u.reliable && log.Start().err == Nil) ==>
              log.Now().total == log.Start().total + |log.Accepted()|
    ensures u.reliable && log.Start().err == Nil ==> log.Now().err == Nil
  {
    match log
    case Fresh(start) =>
      assert start.sent + start.held + [] == start.sent + start.held;
    case Then(before, call, r, to) =>
      Conserves(before, u);
      Assoc(log.Start().sent + log.Start().held, before.Accepted(), Taken(call, r));
  }

  /** Nothing goes to the sink early: only a Flush, or bytes that do not fit, make the buffer give way. */
  lemma {:induction false} NothingEarly(log: Log, u: World)
    requires log.Runs(u) && log.NoFlush() && log.Start().err == Nil
    requires |log.Start().held| + log.Size() < u.size
             || (log.NoReadFrom() && |log.Start().held| + log.Size() == u.size)
    ensures log.Now().sent == log.Start().sent && log.Now().err == Nil
    ensures |log.Now().held| <= |log.Start().held| + log.Size()
  {
    if log.Then? {
      NothingEarly(log.before, u);
    }
  }

  /** After an error nothing more is accepted but by ReadFrom, and every such call returns the error. */
  lemma {:induction false} NothingAfterError(log: Log, later: Log, u: World)
    requires later.Runs(u) && log.Now().err != Nil && Continues(log, later)
    ensures later.Now().err == log.Now().err && later.Now().sent == log.Now().sent
    ensures later != log && !later.call.ReadFromCall? ==> later.result == Result(0, log.Now().err)
  {
    if later != log {
      NothingAfterError(log, later.before, u);
    }
  }

  ghost predicate Continues(log: Log, later: Log) {
    later == log || (later.Then? && Continues(log, later.before))
  }

  ghost predicate Within(b: Writer, u: World)
    reads b, b.wr
  {
    b.Valid() && u == World(b.buf.Length, b.wr.strict, b.wr.reliable)
  }

  method StepFrom(b: Writer, data: bytes, end: Failure, stalls: nat, ghost u: World) returns (r: Result)
    requires Within(b, u)
    modifies b, b.buf, b.wr
    ensures Within(b, u) && b.wr == old(b.wr)
    ensures Allowed(ReadFromCall(data, end, stalls), r, old(b.Now()), b.Now(), u)
  {
    var src := new Source(data, end, stalls);
    var k, e, got := b.ReadFrom(src);
    r := Result(k, e);
    assert data[..k] == got;
    assert data == data[..|data|];
  }

  /** One call. */
  method Step(b: Writer, call: Call, ghost u: World) returns (r: Result)
    requires Within(b, u)
    modifies b, b.buf, b.wr
    ensures Within(b, u) && b.wr == old(b.wr)
    ensures Allowed(call, r, old(b.Now()), b.Now(), u)
  {
    match call
    case WriteCall(p) =>
      var k, e := b.Write(p);
      r := Result(k, e);
    case WriteStringCall(s) =>
      var k, e := b.WriteString(s);
      r := Result(k, e);
    case WriteByteCall(c) =>
      var e := b.WriteByte(c);
      r := Result(if e == Nil then 1 else 0, e);
      assert Offered(call)[..1] == [c];
    case FlushCall =>
      var e := b.Flush();
      r := Result(0, e);
    case ReadFromCall(data, end, stalls) =>
      r := StepFrom(b, data, end, stalls, u);
  }

  /**
    Any run of calls, on any sink: every call goes as Allowed says, and by what the calls report, sink
    and buffer hold exactly the accepted prefixes in order.
   */
  method Run(b: Writer, calls: seq<Call>) returns (results: seq<Result>, ghost log: Log)
    requires b.Valid()
    modifies b, b.buf, b.wr
    ensures b.Valid() && b.wr == old(b.wr)
    ensures log.Calls() == calls && log.Results() == results
    ensures log.Runs(World(b.buf.Length, b.wr.strict, b.wr.reliable))
    ensures log.Start() == old(b.Now()) && log.Now() == b.Now()
    ensures b.Emitted() == old(b.Emitted()) + log.Accepted()
    ensures log.NoReadFrom() || (b.wr.reliable && old(b.err) == Nil) ==>
              b.totalWrite == old(b.totalWrite) + |log.Accepted()|
  {
    ghost var u := World(b.buf.Length, b.wr.strict, b.wr.reliable);
    results, log := Drive(b, calls, u);
    Conserves(log, u);
  }

  method Drive(b: Writer, calls: seq<Call>, ghost u: World) returns (results: seq<Result>, ghost log: Log)
    requires Within(b, u)
    modifies b, b.buf, b.wr
    ensures Within(b, u) && b.wr == old(b.wr)
    ensures log.Calls() == calls && log.Results() == results && log.Runs(u)
    ensures log.Start() == old(b.Now()) && log.Now() == b.Now()
    decreases |calls|
  {
    if calls == [] {
      results, log := [], Fresh(b.Now());
      return;
    }
    var front, call := SplitLast(calls);
    results, log := Drive(b, front, u);
    var r := Step(b, call, u);
    results, log := results + [r], Then(log, call, r, b.Now());
  }

  function OfferedBy(calls: seq<Call>): bytes {
    if calls == [] then [] else OfferedBy(calls[..|calls| - 1]) + Offered(calls[|calls| - 1])
  }

  /** On a sink that does not fail everything offered is accepted. */
  lemma {:induction false} AllAccepted(log: Log, u: World)
    requires log.Runs(u) && u.reliable && log.Start().err == Nil && log.NoReadFrom()
    ensures log.Accepted() == OfferedBy(log.Calls()) && log.Now().err == Nil
  {
    if log.Then? {
      AllAccepted(log.before, u);
      assert log.Calls()[..|log.Calls()| - 1] == log.before.Calls();
      assert Taken(log.call, log.result) == Offered(log.call);
    }
  }

  lemma {:induction false} NoneReadsFrom(log: Log)
    requires forall call :: call in log.Calls() ==> !call.ReadFromCall?
    ensures log.NoReadFrom()
  {
    if log.Then? {
      assert log.call in log.Calls();
      NoneReadsFrom(log.before);
    }
  }

  method Play(b: Writer, calls: seq<Call>)
    requires b.Valid() && b.err == Nil && b.wr.reliable
    requires forall call :: call in calls ==> !call.ReadFromCall?
    modifies b, b.buf, b.wr
    ensures b.Valid() && b.wr == old(b.wr) && b.err == Nil
    ensures b.Emitted() == old(b.Emitted()) + OfferedBy(calls)
  {
    var results;
    ghost var log;
    results, log := Run(b, calls);
    NoneReadsFrom(log);
    AllAccepted(log, World(b.buf.Length, b.wr.strict, true));
  }

  method FeedBytes(b: Writer, all: bytes)
    requires b.Valid() && b.err == Nil && b.wr.reliable
    modifies b, b.buf, b.wr
    ensures b.Valid() && b.wr == old(b.wr) && b.err == Nil
    ensures b.Emitted() == old(b.Emitted()) + all
  {
    for i := 0 to |all|
      invariant b.Valid() && b.wr == old(b.wr) && b.err == Nil
      invariant b.Emitted() == old(b.Emitted()) + all[..i]
    {
      var e := b.WriteByte(all[i]);
      assert all[..i + 1] == all[..i] + [all[i]];
      Assoc(old(b.Emitted()), all[..i], [all[i]]);
    }
    assert all[..|all|] == all;
  }

  /**
    On sinks that do not fail, a run of Write, WriteString, WriteByte and Flush on one writer and
    the same bytes fed one at a time to another leave the same bytes in sink and buffer, and the
    same bytes in the sink after a flush.
   */
  method SameAsBytewise(a: Writer, b: Writer, calls: seq<Call>)
    requires a.Valid() && b.Valid() && a.err == b.err == Nil && a.wr.reliable && b.wr.reliable
    requires a != b && a.buf != b.buf && a.wr != b.wr && a.Emitted() == b.Emitted()
    requires forall call :: call in calls ==> !call.ReadFromCall?
    modifies a, a.buf, a.wr, b, b.buf, b.wr
    ensures a.wr == old(a.wr) && b.wr == old(b.wr)
    ensures a.wr.data == b.wr.data == old(a.Emitted()) + OfferedBy(calls)
  {
    Play(a, calls);
    FeedBytes(b, OfferedBy(calls));
    assert a.Emitted() == b.Emitted();
    var _ := a.Flush();
    assert a.wr.data == a.Emitted() by {
      assert a.buf[..0] == [];
    }
    var _ := b.Flush();
    assert b.wr.data == b.Emitted() by {
      assert b.buf[..0] == [];
    }
  }

  // ----- Where the code and its documentation differ -----

  /**
    When ReadFrom counts right. On any writer: if the source fits with room to spare, or fills the room
    exactly and reports its end with its last byte; also if no flush can fail. On a writer whose flushes
    cannot go through: if and only if the source fits, or there is no room at all. When the last byte
    takes the last room, a source that reports its end only after it makes the loop flush once more.
   */
  method CountsWhenItFits(b: Writer, src: Source) returns (k: nat, e: Error)
    requires b.Valid() && src.stalls == 0
    modifies b, b.buf, b.wr, src
    ensures var size, room := |old(src.rest)|, b.buf.Length - old(b.n);
            var right := b.totalWrite == old(b.totalWrite) + k;
            && (Fits(size, room, src.prompt) ==> right)
            && (b.wr.reliable && old(b.err) == Nil ==> right)
            && (old(b.Dead()) && room > 0 && (src.prompt || size != room) ==> (right <==> size <= room))
            && (old(b.Dead()) && room > 0 && Late(src) ==> (right <==> size < room))
            && (old(b.Dead()) && room == 0 ==> k == 0 && right)
  {
    ghost var got;
    k, e, got := b.ReadFrom(src);
  }

  /** An input: a writer without an error, whose first flush fails in ReadFrom, takes two of three bytes. */
  method NothingCounted() returns (k: nat, e: Error, total: int)
    ensures k == 2 && e != Nil && total == 0
  {
    var sink := new Sink.Broken();
    var b := new Writer(sink, 2);
    var src := new Source([1, 2, 3], EOF, 0);
    ghost var got;
    k, e, got := b.ReadFrom(src);
    total := b.totalWrite;
  }

  /**
    "No more data will be accepted" after an error: ReadFrom accepts some if and only if there is
    room in the buffer.
   */
  method AcceptedAfterError(b: Writer, src: Source) returns (k: nat, e: Error)
    requires b.Valid() && b.err != Nil && src.stalls == 0 && src.rest != []
    modifies b, b.buf, b.wr, src
    ensures b.Valid() && (k > 0 <==> old(b.n) < b.buf.Length)
    ensures k == Min(|old(src.rest)|, b.buf.Length - old(b.n))
    ensures old(b.n < b.buf.Length) && (src.prompt || |old(src.rest)| != b.buf.Length - old(b.n)) ==>
              (b.totalWrite == old(b.totalWrite) + k <==> |old(src.rest)| <= b.buf.Length - old(b.n))
    ensures old(b.n < b.buf.Length) && Late(src) ==>
              (b.totalWrite == old(b.totalWrite) + k <==> |old(src.rest)| < b.buf.Length - old(b.n))
  {
    ghost var got;
    k, e, got := b.ReadFrom(src);
  }

  /** An input: after a failed flush, two of three bytes are accepted, and the counter stays at one. */
  method CounterStays() returns (flushed: Error, k: nat, e: Error, total: int)
    ensures flushed != Nil && k == 2 && e == flushed && total == 1
  {
    var sink := new Sink.Broken();
    var b := new Writer(sink, 3);
    e := b.WriteByte(0);
    flushed := b.Flush();
    var src := new Source([1, 2, 3], EOF, 0);
    ghost var got;
    k, e, got := b.ReadFrom(src);
    total := b.totalWrite;
  }
}
