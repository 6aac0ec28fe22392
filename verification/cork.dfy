/**
  The corked connection: small writes are held back until a timer, started by the first of them,
  flushes once. Both sides run under one lock, so every interleaving is a sequence of whole steps.
 */
module Cork {
  import opened Bytes
  import opened Io
  import BufioWriter

  class CorkedConn {
    const conn: Sink
    const bufw: BufioWriter.Writer
    var corked: bool
    var err: Error
    /** The timer has been started; it has gone off. */
    var armed: bool
    var fired: bool

    ghost predicate Valid()
      reads this, bufw
    {
      && bufw.Valid() && bufw.wr == conn
      && (corked ==> err == Nil && !fired)
      && (fired ==> armed && !corked)
      && (!corked && err == Nil ==> bufw.n == 0)
      && (corked && !armed ==> bufw.n == 0)
      && (err != Nil ==> fired && bufw.err == err)
    }

    /** Every byte a Write has accepted, in order: those on the connection, then those held back. */
    ghost function Accepted(): bytes
      requires Valid()
      reads this, bufw, bufw.buf, conn
    {
      bufw.Emitted()
    }

    /** No write has failed so far. */
    ghost predicate Healthy()
      reads this, bufw
    {
      err == Nil && bufw.err == Nil
    }

    ghost function Now(): State
      requires Valid()
      reads this, bufw, bufw.buf, conn
    {
      State(conn.data, bufw.buf[..bufw.n], corked, armed, fired, err, Healthy())
    }

    constructor (conn: Sink, bufSize: int)
      ensures Valid() && Healthy() && fresh(bufw) && fresh(bufw.buf) && this.conn == conn
      ensures corked && !armed && !fired && Accepted() == conn.data && bufw.n == 0
      ensures bufw.buf.Length == if bufSize <= 0 then 4096 else bufSize
    {
      this.conn := conn;
      bufw := new BufioWriter.Writer(conn, bufSize);
      corked, err, armed, fired := true, Nil, false, false;
    }

    /** A connection without a cork in front. */
    constructor Plain(conn: Sink)
      ensures Valid() && Healthy() && fresh(bufw) && fresh(bufw.buf) && this.conn == conn
      ensures !corked && !armed && Accepted() == conn.data
    {
      this.conn := conn;
      bufw := new BufioWriter.Writer(conn, 0);
      corked, err, armed, fired := false, Nil, false, false;
    }

    /** One write, under the lock. */
    method Write(p: bytes) returns (n: nat, e: Error)
      requires Valid()
      modifies this, bufw, bufw.buf, conn
      ensures Valid() && n <= |p| && Accepted() == old(Accepted()) + p[..n]
      ensures conn.strict && n < |p| ==> e != Nil
      ensures conn.reliable && old(Healthy()) ==> Healthy() && e == Nil && n == |p|
      ensures err == old(err) && corked == old(corked) && fired == old(fired)
      ensures old(armed) ==> armed
      ensures old(err) != Nil ==> n == 0 && e == err && conn.data == old(conn.data) && Healthy() == old(Healthy())
      ensures old(corked) ==> armed
      ensures old(conn.data) <= conn.data && (!old(corked) ==> armed == old(armed))
      ensures old(!corked && err == Nil) ==> bufw.n == 0 && conn.data == old(conn.data) + p[..n]
      ensures old(corked && bufw.err == Nil && bufw.n + |p| <= bufw.buf.Length) ==>
                e == Nil && n == |p| && conn.data == old(conn.data) && bufw.n == old(bufw.n) + n && Healthy()
    {
      if err != Nil {
        return 0, err;
      }
      if corked {
        armed := true;
        n, e := bufw.Write(p);
      } else {
        assert bufw.buf[..0] == [];
        n, e := conn.Write(p);
      }
    }

    /** The timer's one step, under the lock. */
    method Timer()
      requires Valid() && armed && !fired
      modifies this, bufw, bufw.buf, conn
      ensures Valid() && Accepted() == old(Accepted()) && fired && !corked && armed
      ensures err == Nil ==> bufw.n == 0 && conn.data == Accepted()
      ensures old(conn.data) <= conn.data
      ensures conn.reliable && old(Healthy()) ==> Healthy()
    {
      corked := false;
      err := bufw.Flush();
      fired := true;
      assert bufw.n == 0 ==> bufw.buf[..bufw.n] == [];
    }

    /** The timer may go off here, or not. */
    method MayFire()
      requires Valid()
      modifies this, bufw, bufw.buf, conn
      ensures Valid() && Accepted() == old(Accepted())
      ensures conn.reliable && old(Healthy()) ==> Healthy()
      ensures old(armed) ==> armed
      ensures old(fired) ==> unchanged(this) && unchanged(bufw) && unchanged(bufw.buf) && unchanged(conn)
    {
      var now: bool := *;
      if now && armed && !fired {
        Timer();
      }
    }
  }

  /** Waits until a timer that has been started has gone off. */
  method Settle(c: CorkedConn)
    requires c.Valid()
    modifies c, c.bufw, c.bufw.buf, c.conn
    ensures c.Valid() && c.Accepted() == old(c.Accepted())
    ensures c.conn.reliable && old(c.Healthy()) ==> c.Healthy() && c.conn.data == c.Accepted()
  {
    if c.armed && !c.fired {
      c.Timer();
    }
    assert c.bufw.n == 0 ==> c.bufw.buf[..c.bufw.n] == [];
  }

  // ----- Interleavings -----

  datatype Event = WriteEvent(p: bytes) | TimerEvent

  /** What a write reports. */
  datatype Result = Result(count: nat, err: Error)

  /** The connection's bytes, those held back, the flags, and whether no write has failed. */
  datatype State =
    State(sent: bytes, held: bytes, corked: bool, armed: bool, fired: bool, err: Error, healthy: bool)

  /** What the connection promises, and the size of the cork's buffer. */
  datatype World = World(strict: bool, reliable: bool, size: nat)

  /** The bytes accepted by a write's own report. */
  function Taken(event: Event, r: Result): bytes {
    if event.WriteEvent? then event.p[..Min(r.count, |event.p|)] else []
  }

  /** How one step may go; a timer that is not pending does nothing. */
  ghost predicate Allowed(event: Event, r: Result, from: State, to: State, u: World) {
    && to.sent + to.held == from.sent + from.held + Taken(event, r)
    && from.sent <= to.sent
    && (u.reliable && from.healthy ==> to.healthy)
    && (!to.corked && to.err == Nil ==> to.held == [])
    && match event
       case WriteEvent(p) =>
         && r.count <= |p| && (u.strict && r.count < |p| ==> r.err != Nil)
         && to.corked == from.corked && to.fired == from.fired && to.err == from.err
         && to.armed == (from.armed || from.corked)
         && (from.err != Nil ==> r == Result(0, from.err) && to.sent == from.sent)
         && (u.reliable && from.healthy ==> r == Result(|p|, Nil))
         && (from.corked && from.healthy && |from.held| + |p| <= u.size ==>
               r == Result(|p|, Nil) && to.sent == from.sent && to.healthy)
       case TimerEvent =>
         if from.armed && !from.fired then to.fired && !to.corked && to.armed else to == from
  }

  /** A run, step by step, the last one outermost. */
  datatype Log =
    | Fresh(start: State)
    | Then(before: Log, event: Event, result: Result, to: State)
  {
    function Start(): State {
      if Fresh? then start else before.Start()
    }

    function Now(): State {
      if Fresh? then start else to
    }

    function Events(): seq<Event> {
      if Fresh? then [] else before.Events() + [event]
    }

    function Results(): seq<Result> {
      if Fresh? then [] else before.Results() + [result]
    }

    ghost predicate Runs(u: World) {
      Then? ==> before.Runs(u) && Allowed(event, result, before.Now(), to, u)
    }

    function Accepted(): bytes {
      if Fresh? then [] else before.Accepted() + Taken(event, result)
    }
  }

  /** Every interleaving keeps the order of bytes: sent and held back are the accepted bytes. */
  lemma {:induction false} Conserves(log: Log, u: World)
    requires log.Runs(u)
    ensures log.Now().sent + log.Now().held == log.Start().sent + log.Start().held + log.Accepted()
  {
    match log
    case Fresh(start) =>
      assert start.sent + start.held + [] == start.sent + start.held;
    case Then(before, event, r, to) =>
      Conserves(before, u);
      Assoc(log.Start().sent + log.Start().held, before.Accepted(), Taken(event, r));
  }

  /** How much the writes of a run offer. */
  function Size(events: seq<Event>): nat {
    if events == [] then 0
    else
      var last := events[|events| - 1];
      Size(events[..|events| - 1]) + if last.WriteEvent? then |last.p| else 0
  }

  /**
    The cork holds back: until the timer goes off, nothing reaches the connection as long as what has
    been written fits in the buffer, and every write is accepted whole.
   */
  lemma {:induction false} HeldBack(log: Log, u: World)
    requires log.Runs(u) && log.Start().corked && log.Start().healthy && !log.Now().fired
    requires |log.Start().held| + Size(log.Events()) <= u.size
    ensures log.Now().sent == log.Start().sent && log.Now().corked && log.Now().healthy
    ensures |log.Now().held| == |log.Start().held| + Size(log.Events())
    ensures log.Then? && log.event.WriteEvent? ==> log.result == Result(|log.event.p|, Nil)
  {
    if log.Then? {
      assert log.Events()[..|log.Events()| - 1] == log.before.Events();
      HeldBack(log.before, u);
    }
  }

  /** Writes alone do not make the timer go off. */
  lemma {:induction false} NoTimer(log: Log, u: World)
    requires log.Runs(u) && !log.Start().fired
    requires forall i :: 0 <= i < |log.Events()| ==> log.Events()[i].WriteEvent?
    ensures !log.Now().fired
  {
    if log.Then? {
      var events := log.Events();
      assert events[..|events| - 1] == log.before.Events() && events[|events| - 1] == log.event;
      NoTimer(log.before, u);
    }
  }

  ghost predicate Continues(log: Log, later: Log) {
    later == log || (later.Then? && Continues(log, later.before))
  }

  /**
    Once the timer has gone off it stays so: if its flush went through, nothing is held back at any
    later point; if it failed, no later write accepts anything, and each returns that error.
   */
  lemma {:induction false} AfterTimer(log: Log, later: Log, u: World)
    requires later.Runs(u) && log.Then? && Continues(log, later) && log.Now().fired && !log.Now().corked
    ensures later.Now().fired && !later.Now().corked && later.Now().err == log.Now().err
    ensures log.Now().err == Nil ==> later.Now().held == []
    ensures log.Now().err != Nil ==> later.Accepted() == log.Accepted() && later.Now().sent == log.Now().sent
    ensures log.Now().err != Nil && later != log && later.event.WriteEvent? ==>
              later.result == Result(0, log.Now().err)
  {
    if later != log {
      AfterTimer(log, later.before, u);
    }
  }

  /** One step. */
  method Step(c: CorkedConn, event: Event) returns (r: Result)
    requires c.Valid()
    modifies c, c.bufw, c.bufw.buf, c.conn
    ensures c.Valid()
    ensures Allowed(event, r, old(c.Now()), c.Now(), World(c.conn.strict, c.conn.reliable, c.bufw.buf.Length))
  {
    r := Result(0, Nil);
    match event {
      case WriteEvent(p) =>
        var n, e := c.Write(p);
        r := Result(n, e);
      case TimerEvent =>
        if c.armed && !c.fired {
          c.Timer();
        }
    }
    assert c.bufw.n == 0 ==> c.bufw.buf[..c.bufw.n] == [];
  }

  /**
    Any interleaving of writes and the timer, on any connection: every step goes as Allowed says, and
    by what the writes report, connection and held-back bytes are the accepted bytes in order.
   */
  method Run(c: CorkedConn, events: seq<Event>) returns (results: seq<Result>, ghost log: Log)
    requires c.Valid()
    modifies c, c.bufw, c.bufw.buf, c.conn
    ensures c.Valid() && log.Events() == events && log.Results() == results
    ensures log.Runs(World(c.conn.strict, c.conn.reliable, c.bufw.buf.Length))
    ensures log.Start() == old(c.Now()) && log.Now() == c.Now()
    ensures c.Accepted() == old(c.Accepted()) + log.Accepted()
  {
    results, log := Drive(c, events);
    Conserves(log, World(c.conn.strict, c.conn.reliable, c.bufw.buf.Length));
  }

  method Drive(c: CorkedConn, events: seq<Event>) returns (results: seq<Result>, ghost log: Log)
    requires c.Valid()
    modifies c, c.bufw, c.bufw.buf, c.conn
    ensures c.Valid() && log.Events() == events && log.Results() == results
    ensures log.Runs(World(c.conn.strict, c.conn.reliable, c.bufw.buf.Length))
    ensures log.Start() == old(c.Now()) && log.Now() == c.Now()
    decreases |events|
  {
    if events == [] {
      results, log := [], Fresh(c.Now());
      return;
    }
    var front, event := SplitLast(events);
    results, log := Drive(c, front);
    var r := Step(c, event);
    results, log := results + [r], Then(log, event, r, c.Now());
  }
}
