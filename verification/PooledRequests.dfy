/**
 Any number of requests over one pool: each is the request loop as a program
 that looks in the pool, dials, exchanges and settles, and their steps, the
 ends of streams and shutdowns interleave in any order.
 */
module PooledRequests {
  import opened Bytes
  import opened Common
  import opened HttpRequests
  import opened ConnectionPools

  /** Where a request stands; `stream` is the connection that a finished one has handed to its response. */
  datatype Program =
    | Ready(s: Loop)
    | Missed(s: Loop)
    | Holding(s: Loop, conn: Conn, reused: bool)
    | Done(sent: seq<Request>, outcome: Outcome, stream: Option<Conn>)

  datatype World = World(pool: Ledger, programs: map<Task, Program>)

  datatype Act =
    | Launch(task: Task, url: Url, verb: string, body: Option<seq<Byte>>, headers: Headers, auth: Auth)
    | Look(task: Task, now: real, alive: Conn -> bool)
    | Dial(task: Task, connects: bool)
    | Finish(task: Task, x: Exchange, now: real, releaseFails: bool)
    | EndStream(conn: Conn)
    | Shutdown

  predicate Enabled(w: World, a: Act)
  {
    match a
    case Launch(t, _, _, _, _, _) => t !in w.programs
    case Look(t, _, _) => t in w.programs && w.programs[t].Ready?
    case Dial(t, _) => t in w.programs && w.programs[t].Missed?
    case Finish(t, x, _, _) => t in w.programs && w.programs[t].Holding? && !x.NoConnection?
    case EndStream(c) => c in w.pool.owner && w.pool.owner[c].Streamed?
    case Shutdown => true
  }

  /** A turn of the loop and what its `finally` block is told. */
  function TurnAndUse(c: Config, s: Loop, x: Exchange, releaseFails: bool): (Turn, Use)
  {
    var step := Step(c, s, x);
    var use := UseOf(c, x, step, releaseFails);
    (Ended(step, use), use)
  }

  function AfterTurn(turn: Turn, use: Use, conn: Conn): Program
  {
    match turn
    case Again(next) => Ready(next)
    case Stop(sent, outcome) => Done(sent, outcome, if use.handedOver then Some(conn) else None)
  }

  /** One step. `config` tells what each request was called with. */
  function Next(w: World, a: Act, config: Task -> Config, size: int): World
    requires Enabled(w, a)
  {
    match a
    case Launch(t, url, verb, body, headers, auth) =>
      w.(programs := w.programs[t := Ready(Start(url, verb, body, headers, auth))])
    case Look(t, now, alive) =>
      var s := w.programs[t].s;
      if config(t).pooling && !config(t).proxy then
        var (pool, got) := Acquired(w.pool, t, KeyOfUrl(s.url), now, alive);
        World(pool, w.programs[t := if got.Some? then Holding(s, got.value, true) else Missed(s)])
      else w.(programs := w.programs[t := Missed(s)])
    case Dial(t, connects) =>
      var s := w.programs[t].s;
      if connects then
        World(Connected(w.pool, t, KeyOfUrl(s.url)), w.programs[t := Holding(s, w.pool.made, false)])
      else w.(programs := w.programs[t := Done(s.sent, Raised, None)])
    case Finish(t, x, now, releaseFails) =>
      var p := w.programs[t];
      var (turn, use) := TurnAndUse(config(t), p.s, x.(reused := p.reused), releaseFails);
      World(Settled(w.pool, KeyOfUrl(p.s.url), p.conn, use, now, size), w.programs[t := AfterTurn(turn, use, p.conn)])
    case EndStream(c) => w.(pool := w.pool.(owner := w.pool.owner[c := Closed]))
    case Shutdown => w.(pool := AllClosed(w.pool))
  }

  function Exec(w: World, acts: seq<Act>, config: Task -> Config, size: int): Option<World>
    decreases |acts|
  {
    if acts == [] then Some(w)
    else if Enabled(w, acts[0]) then Exec(Next(w, acts[0], config, size), acts[1..], config, size)
    else None
  }

  function Initial(): World
  {
    World(Empty(), map[])
  }

  // ------------------------------------------------------------------------
  // The invariant
  // ------------------------------------------------------------------------

  predicate HoldsIn(w: World, t: Task, c: Conn)
  {
    t in w.programs && w.programs[t].Holding? && w.programs[t].conn == c
  }

  predicate StreamOf(w: World, t: Task, c: Conn)
  {
    t in w.programs && w.programs[t].Done? && w.programs[t].stream == Some(c)
  }

  predicate ProgramOk(pool: Ledger, p: Program, t: Task, c: Config)
  {
    match p
    case Ready(s) => Counted(c, s)
    case Missed(s) => Counted(c, s)
    case Holding(s, conn, _) =>
      Counted(c, s) && conn in pool.owner && pool.owner[conn] == InUse(t, KeyOfUrl(s.url))
    case Done(sent, outcome, stream) =>
      && |sent| <= 2 * HopLimit(c) + 2
      && (outcome.Streaming? <==> stream.Some?)
      && (stream.Some? ==> stream.value in pool.owner && pool.owner[stream.value] in {Streamed, Closed})
  }

  /** The pool's own invariant, and: programs and ledger agree on who holds what and whose streams there are. */
  ghost predicate WorldInv(w: World, config: Task -> Config, size: int)
  {
    && Inv(w.pool, size)
    && (forall t :: t in w.programs ==> ProgramOk(w.pool, w.programs[t], t, config(t)))
    && (forall t: Task, c: Conn :: Holds(w.pool, t, c) ==> HoldsIn(w, t, c))
    && (forall c: Conn :: c in w.pool.owner && w.pool.owner[c].Streamed? ==> exists t :: StreamOf(w, t, c))
    && (forall t: Task, u: Task, c: Conn :: StreamOf(w, t, c) && StreamOf(w, u, c) ==> t == u)
  }

  /** What a step may do to the connections of others: close a pooled one or a stream, no more. */
  ghost predicate OthersKept(before: Ledger, after: Ledger, mine: set<Conn>)
  {
    forall c :: c in before.owner && c !in mine ==>
      c in after.owner &&
      (after.owner[c] == before.owner[c] ||
       (after.owner[c] == Closed && (before.owner[c].Pooled? || before.owner[c].Streamed?)))
  }

  lemma OtherProgramOk(before: Ledger, after: Ledger, mine: set<Conn>, p: Program, t: Task, c: Config)
    requires ProgramOk(before, p, t, c) && OthersKept(before, after, mine)
    requires p.Holding? ==> p.conn !in mine
    requires p.Done? && p.stream.Some? ==> p.stream.value !in mine
    ensures ProgramOk(after, p, t, c)
  {
  }

  /**
   The step of one task: only `mine` changes hands, and the task's new program
   says who holds it now. Then the invariant is kept.
   */
  lemma StepKeepsInv(
      w: World, n: World, t: Task, mine: set<Conn>, config: Task -> Config, size: int)
    requires WorldInv(w, config, size) && Inv(n.pool, size)
    requires t in n.programs && n.programs == w.programs[t := n.programs[t]] && OthersKept(w.pool, n.pool, mine)
    requires ProgramOk(n.pool, n.programs[t], t, config(t))
    requires forall c :: c in mine && c in w.pool.owner ==> w.pool.owner[c].Pooled? || Holds(w.pool, t, c)
    requires forall c :: c in n.pool.owner && c !in w.pool.owner ==> c in mine
    requires forall c, u :: c in mine && Holds(n.pool, u, c) ==> u == t && HoldsIn(n, t, c)
    requires forall c :: c in mine && c in n.pool.owner && n.pool.owner[c].Streamed? ==> StreamOf(n, t, c)
    requires forall c :: StreamOf(n, t, c) ==> c in mine
    requires forall c :: Holds(w.pool, t, c) ==> c in mine
    requires forall c :: !StreamOf(w, t, c)
    ensures WorldInv(n, config, size)
  {
    forall u | u in n.programs
      ensures ProgramOk(n.pool, n.programs[u], u, config(u))
    {
      if u != t {
        OtherProgramOk(w.pool, n.pool, mine, n.programs[u], u, config(u));
      }
    }
    forall u: Task, c: Conn | Holds(n.pool, u, c)
      ensures HoldsIn(n, u, c)
    {
      if c !in mine {
        assert Holds(w.pool, u, c);
        assert HoldsIn(w, u, c);
      }
    }
    forall c: Conn | c in n.pool.owner && n.pool.owner[c].Streamed?
      ensures exists u :: StreamOf(n, u, c)
    {
      if c !in mine {
        var u :| StreamOf(w, u, c);
        assert StreamOf(n, u, c);
      }
    }
    forall u: Task, v: Task, c: Conn | StreamOf(n, u, c) && StreamOf(n, v, c)
      ensures u == v
    {
      OneStreamEach(w, n, t, mine, config, size, u, v, c);
    }
  }

  lemma OneStreamEach(
      w: World, n: World, t: Task, mine: set<Conn>, config: Task -> Config, size: int, u: Task, v: Task, c: Conn)
    requires WorldInv(w, config, size)
    requires t in n.programs && n.programs == w.programs[t := n.programs[t]]
    requires forall d :: d in mine && d in w.pool.owner ==> w.pool.owner[d].Pooled? || Holds(w.pool, t, d)
    requires forall d :: StreamOf(n, t, d) ==> d in mine
    requires StreamOf(n, u, c) && StreamOf(n, v, c)
    ensures u == v
  {
    if u != t && v != t {
      assert StreamOf(w, u, c) && StreamOf(w, v, c);
    }
  }

  lemma LookKeepsInv(w: World, a: Act, config: Task -> Config, size: int)
    requires WorldInv(w, config, size) && Enabled(w, a) && a.Look?
    ensures WorldInv(Next(w, a, config, size), config, size)
  {
    var n, t := Next(w, a, config, size), a.task;
    var key := KeyOfUrl(w.programs[t].s.url);
    if config(t).pooling && !config(t).proxy {
      AcquireKeepsInv(w.pool, size, t, key, a.now, a.alive);
      AcquireTouches(w.pool, size, t, key, a.now, a.alive);
      var got := Acquired(w.pool, t, key, a.now, a.alive).1;
      StepKeepsInv(w, n, t, if got.Some? then {got.value} else {}, config, size);
    } else {
      StepKeepsInv(w, n, t, {}, config, size);
    }
  }

  lemma DialKeepsInv(w: World, a: Act, config: Task -> Config, size: int)
    requires WorldInv(w, config, size) && Enabled(w, a) && a.Dial?
    ensures WorldInv(Next(w, a, config, size), config, size)
  {
    var n, t := Next(w, a, config, size), a.task;
    if a.connects {
      ConnectKeepsInv(w.pool, size, t, KeyOfUrl(w.programs[t].s.url));
      StepKeepsInv(w, n, t, {w.pool.made}, config, size);
    } else {
      StepKeepsInv(w, n, t, {}, config, size);
    }
  }

  /** The program after a turn: still within its bounds, and a stream exactly if one was handed over. */
  lemma TurnOk(c: Config, s: Loop, x: Exchange, releaseFails: bool, conn: Conn)
    requires Counted(c, s)
    ensures
      var (turn, use) := TurnAndUse(c, s, x, releaseFails);
      match AfterTurn(turn, use, conn)
      case Ready(n) => Counted(c, n) && !use.handedOver
      case Done(sent, outcome, stream) =>
        |sent| <= 2 * HopLimit(c) + 2 && (outcome.Streaming? <==> stream.Some?)
        && (use.handedOver <==> stream == Some(conn))
      case _ => false
  {
    StepProgresses(c, s, x);
  }

  lemma SettleTouches(l: Ledger, key: Key, conn: Conn, u: Use, now: real, size: int)
    requires conn in l.owner
    ensures
      var n := Settled(l, key, conn, u, now, size);
      && n.owner == l.owner[conn := n.owner[conn]]
      && n.owner[conn] in (if u.handedOver then {Streamed} else {Pooled(key), Closed})
  {
  }

  /** The holder of a connection gives it up, and the program says what became of it. */
  lemma GivingUpKeepsInv(
      w: World, n: World, t: Task, conn: Conn, o: Owner, config: Task -> Config, size: int)
    requires WorldInv(w, config, size) && Inv(n.pool, size)
    requires HoldsIn(w, t, conn) && n.pool.owner == w.pool.owner[conn := o] && !o.InUse?
    requires t in n.programs && n.programs == w.programs[t := n.programs[t]]
    requires ProgramOk(n.pool, n.programs[t], t, config(t)) && !n.programs[t].Holding?
    requires forall c :: StreamOf(n, t, c) ==> c == conn
    requires o.Streamed? ==> StreamOf(n, t, conn)
    ensures WorldInv(n, config, size)
  {
    assert ProgramOk(w.pool, w.programs[t], t, config(t));
    StepKeepsInv(w, n, t, {conn}, config, size);
  }

  lemma FinishKeepsInv(w: World, a: Act, config: Task -> Config, size: int)
    requires WorldInv(w, config, size) && Enabled(w, a) && a.Finish?
    ensures WorldInv(Next(w, a, config, size), config, size)
  {
    var n, t := Next(w, a, config, size), a.task;
    var p := w.programs[t];
    assert ProgramOk(w.pool, p, t, config(t));
    var x := a.x.(reused := p.reused);
    var (_, use) := TurnAndUse(config(t), p.s, x, a.releaseFails);
    TurnOk(config(t), p.s, x, a.releaseFails, p.conn);
    SettleKeepsInv(w.pool, size, KeyOfUrl(p.s.url), p.conn, use, a.now);
    SettleTouches(w.pool, KeyOfUrl(p.s.url), p.conn, use, a.now, size);
    GivingUpKeepsInv(w, n, t, p.conn, n.pool.owner[p.conn], config, size);
  }

  /** The end of a stream and a shutdown touch no program. */
  lemma CloseKeepsInv(w: World, a: Act, config: Task -> Config, size: int)
    requires WorldInv(w, config, size) && Enabled(w, a) && (a.EndStream? || a.Shutdown?)
    ensures WorldInv(Next(w, a, config, size), config, size)
  {
    var n := Next(w, a, config, size);
    if a.EndStream? {
      DropKeepsInv(w.pool, size, a.conn, Closed, w.pool.uses, n.pool);
    } else {
      CloseAllKeepsInv(w.pool, size);
    }
    forall u | u in n.programs
      ensures ProgramOk(n.pool, n.programs[u], u, config(u))
    {
      OtherProgramOk(w.pool, n.pool, {}, n.programs[u], u, config(u));
    }
    assert forall t: Task, c: Conn :: Holds(n.pool, t, c) ==> Holds(w.pool, t, c) && HoldsIn(w, t, c);
    assert forall t: Task, c: Conn :: StreamOf(n, t, c) <==> StreamOf(w, t, c);
    forall c: Conn | c in n.pool.owner && n.pool.owner[c].Streamed?
      ensures exists t :: StreamOf(n, t, c)
    {
      var t :| StreamOf(w, t, c);
      assert StreamOf(n, t, c);
    }
  }

  lemma LaunchKeepsInv(w: World, a: Act, config: Task -> Config, size: int)
    requires WorldInv(w, config, size) && Enabled(w, a) && a.Launch?
    ensures WorldInv(Next(w, a, config, size), config, size)
  {
    StepKeepsInv(w, Next(w, a, config, size), a.task, {}, config, size);
  }

  lemma NextKeepsInv(w: World, a: Act, config: Task -> Config, size: int)
    requires WorldInv(w, config, size) && Enabled(w, a)
    ensures WorldInv(Next(w, a, config, size), config, size)
  {
    match a
    case Launch(_, _, _, _, _, _) => LaunchKeepsInv(w, a, config, size);
    case Look(_, _, _) => LookKeepsInv(w, a, config, size);
    case Dial(_, _) => DialKeepsInv(w, a, config, size);
    case Finish(_, _, _, _) => FinishKeepsInv(w, a, config, size);
    case EndStream(_) => CloseKeepsInv(w, a, config, size);
    case Shutdown => CloseKeepsInv(w, a, config, size);
  }

  lemma {:induction false} RunKeepsInv(w: World, acts: seq<Act>, config: Task -> Config, size: int)
    requires WorldInv(w, config, size) && Exec(w, acts, config, size).Some?
    ensures WorldInv(Exec(w, acts, config, size).value, config, size)
    decreases |acts|
  {
    if acts != [] {
      NextKeepsInv(w, acts[0], config, size);
      RunKeepsInv(Next(w, acts[0], config, size), acts[1..], config, size);
    }
  }

  /** A request that looks in the pool gets the last usable connection of its origin, if there is one. */
  lemma LookTakesUsable(w: World, a: Act, config: Task -> Config, size: int, n: nat)
    requires WorldInv(w, config, size) && Enabled(w, a) && a.Look?
    requires n <= |Idle(w.pool, KeyOfUrl(w.programs[a.task].s.url))|
    requires n > 0 ==> Usable(Idle(w.pool, KeyOfUrl(w.programs[a.task].s.url))[n - 1], a.now, a.alive)
    requires forall i :: n <= i < |Idle(w.pool, KeyOfUrl(w.programs[a.task].s.url))| ==>
      !Usable(Idle(w.pool, KeyOfUrl(w.programs[a.task].s.url))[i], a.now, a.alive)
    ensures
      var s := w.programs[a.task].s;
      Next(w, a, config, size).programs[a.task] ==
        if config(a.task).pooling && !config(a.task).proxy && n > 0
        then Holding(s, Idle(w.pool, KeyOfUrl(s.url))[n - 1].conn, true)
        else Missed(s)
  {
    AcquiresLastUsable(w.pool, size, a.task, KeyOfUrl(w.programs[a.task].s.url), a.now, a.alive, n);
  }

  /**
   What becomes of a connection when its request is done with it: it goes with a
   response that streams; it is pooled after a response read to its end, if
   pooling is on, no proxy and no `Connection: close` were in the way and the
   list has room; and otherwise it is closed.
   */
  lemma FinishPlacesConnection(w: World, a: Act, config: Task -> Config, size: int)
    requires WorldInv(w, config, size) && Enabled(w, a) && a.Finish?
    ensures
      var p := w.programs[a.task];
      var key := KeyOfUrl(p.s.url);
      var c := config(a.task);
      var n := Next(w, a, config, size);
      var done := n.programs[a.task];
      var saysClose := a.x.Response? && Connection in a.x.headers && Lower(a.x.headers[Connection]) == "close";
      && p.conn in n.pool.owner
      && n.pool.owner[p.conn] ==
           if done.Done? && done.outcome.Streaming? then Streamed
           else if done.Done? && done.outcome.Buffered? && c.pooling && !c.proxy && !saysClose && |Idle(w.pool, key)| < size
           then Pooled(key)
           else Closed
  {
    var p := w.programs[a.task];
    assert ProgramOk(w.pool, p, a.task, config(a.task));
    UseTold(config(a.task), p.s, a.x.(reused := p.reused), a.releaseFails, p.conn);
  }

  /** What the `finally` block is told, in terms of what becomes of the request. */
  lemma UseTold(c: Config, s: Loop, x: Exchange, releaseFails: bool, conn: Conn)
    ensures
      var (turn, use) := TurnAndUse(c, s, x, releaseFails);
      var done := AfterTurn(turn, use, conn);
      && (use.handedOver <==> done.Done? && done.outcome.Streaming?)
      && (Reusable(use) && !use.releaseFails <==>
            && done.Done? && done.outcome.Buffered? && c.pooling && !c.proxy
            && !(x.Response? && Connection in x.headers && Lower(x.headers[Connection]) == "close"))
  {
  }

  // ------------------------------------------------------------------------
  // What every interleaving keeps
  // ------------------------------------------------------------------------

  /**
   However the requests of any number of threads interleave over one pool: a
   request that has ended holds no connection; it has handed over exactly one if
   it returned a stream and none otherwise, to nobody else, and never back to
   the pool; and it has sent no more than its bound.
   */
  lemma EveryExitLeaksNothing(acts: seq<Act>, config: Task -> Config, size: int, t: Task)
    requires Exec(Initial(), acts, config, size).Some?
    requires
      var w := Exec(Initial(), acts, config, size).value;
      t in w.programs && w.programs[t].Done?
    ensures
      var w := Exec(Initial(), acts, config, size).value;
      var done := w.programs[t];
      && HoldsNone(w.pool, t)
      && |done.sent| <= 2 * HopLimit(config(t)) + 2
      && (done.outcome.Streaming? <==> done.stream.Some?)
      && (done.stream.Some? ==>
            && done.stream.value in w.pool.owner && w.pool.owner[done.stream.value] in {Streamed, Closed}
            && forall u :: StreamOf(w, u, done.stream.value) ==> u == t)
  {
    RunKeepsInv(Initial(), acts, config, size);
    var w := Exec(Initial(), acts, config, size).value;
    var done := w.programs[t];
    assert ProgramOk(w.pool, done, t, config(t));
    if done.stream.Some? {
      assert StreamOf(w, t, done.stream.value);
    }
  }

  /** `c` is among the idle connections of `key`. */
  ghost predicate ListedUnder(w: World, key: Key, c: Conn)
  {
    exists e :: e in Idle(w.pool, key) && e.conn == c
  }

  ghost predicate Listed(w: World, c: Conn)
  {
    exists key :: ListedUnder(w, key, c)
  }

  /** A request that is running has `c`. */
  ghost predicate Held(w: World, c: Conn)
  {
    exists t :: HoldsIn(w, t, c)
  }

  predicate IsClosed(w: World, c: Conn)
  {
    c in w.pool.owner && w.pool.owner[c].Closed?
  }

  /** The response of a request that has ended has `c`, and has not closed it. */
  ghost predicate Streaming(w: World, c: Conn)
  {
    !IsClosed(w, c) && exists t :: StreamOf(w, t, c)
  }

  /** The ledger has every connection that was ever made. */
  ghost predicate AllRecorded(l: Ledger)
  {
    forall c: Conn :: c < l.made ==> c in l.owner
  }

  lemma NextRecords(w: World, a: Act, config: Task -> Config, size: int)
    requires AllRecorded(w.pool) && Enabled(w, a)
    ensures AllRecorded(Next(w, a, config, size).pool)
  {
  }

  lemma {:induction false} RunRecords(w: World, acts: seq<Act>, config: Task -> Config, size: int)
    requires AllRecorded(w.pool) && Exec(w, acts, config, size).Some?
    ensures AllRecorded(Exec(w, acts, config, size).value.pool)
    decreases |acts|
  {
    if acts != [] {
      NextRecords(w, acts[0], config, size);
      RunRecords(Next(w, acts[0], config, size), acts[1..], config, size);
    }
  }

  /** Lists, programs and streams seen from the ledger: each shows itself there. */
  lemma PlacesInLedger(w: World, config: Task -> Config, size: int, c: Conn)
    requires WorldInv(w, config, size)
    ensures forall key :: ListedUnder(w, key, c) <==> c in w.pool.owner && w.pool.owner[c] == Pooled(key)
    ensures forall t :: HoldsIn(w, t, c) <==> Holds(w.pool, t, c)
    ensures forall t :: StreamOf(w, t, c) ==> c in w.pool.owner && w.pool.owner[c] in {Streamed, Closed}
    ensures Streaming(w, c) <==> c in w.pool.owner && w.pool.owner[c].Streamed?
  {
    assert ConnOk(w.pool, c);
    forall key
      ensures ListedUnder(w, key, c) <==> c in w.pool.owner && w.pool.owner[c] == Pooled(key)
    {
      assert KeyOk(w.pool, key, size);
    }
    forall t | t in w.programs
      ensures ProgramOk(w.pool, w.programs[t], t, config(t))
    {
    }
  }

  predicate ExactlyOne(a: bool, b: bool, c: bool, d: bool)
  {
    if a then !b && !c && !d else if b then !c && !d else c != d
  }

  lemma PlacedOnce(w: World, c: Conn, config: Task -> Config, size: int)
    requires WorldInv(w, config, size) && c in w.pool.owner
    ensures ExactlyOne(Listed(w, c), Held(w, c), Streaming(w, c), IsClosed(w, c))
  {
    PlacesInLedger(w, config, size, c);
    var o := w.pool.owner[c];
    assert Listed(w, c) <==> o.Pooled? by {
      if o.Pooled? {
        assert ListedUnder(w, o.key, c);
      }
    }
    assert Held(w, c) <==> o.InUse? by {
      if o.InUse? {
        assert HoldsIn(w, o.task, c);
      }
    }
  }

  lemma ListedOnce(w: World, c: Conn, config: Task -> Config, size: int)
    requires WorldInv(w, config, size)
    ensures forall j, k :: ListedUnder(w, j, c) && ListedUnder(w, k, c) ==> j == k
    ensures forall key, i, j :: 0 <= i < j < |Idle(w.pool, key)| ==>
      Idle(w.pool, key)[i].conn != Idle(w.pool, key)[j].conn
  {
    PlacesInLedger(w, config, size, c);
    forall key, i, j | 0 <= i < j < |Idle(w.pool, key)|
      ensures Idle(w.pool, key)[i].conn != Idle(w.pool, key)[j].conn
    {
      assert KeyOk(w.pool, key, size);
    }
  }

  lemma HeldOnce(w: World, c: Conn, config: Task -> Config, size: int)
    requires WorldInv(w, config, size)
    ensures forall t, u :: HoldsIn(w, t, c) && HoldsIn(w, u, c) ==> t == u
    ensures forall t :: HoldsIn(w, t, c) ==>
      c in w.pool.owner && w.pool.owner[c] == InUse(t, KeyOfUrl(w.programs[t].s.url))
    ensures forall t, u :: StreamOf(w, t, c) && StreamOf(w, u, c) ==> t == u
  {
    PlacesInLedger(w, config, size, c);
    forall t | HoldsIn(w, t, c)
      ensures c in w.pool.owner && w.pool.owner[c] == InUse(t, KeyOfUrl(w.programs[t].s.url))
    {
      assert ProgramOk(w.pool, w.programs[t], t, config(t));
    }
  }

  /**
   Nothing is leaked and nothing is shared: of every connection ever made exactly
   one holds, whatever the interleaving. It is listed as idle, under one key and
   once; one running request has it, which asked for that origin; the open stream
   of one ended request has it; or it is closed.
   */
  lemma EveryConnectionIsAccountedFor(acts: seq<Act>, config: Task -> Config, size: int, c: Conn)
    requires Exec(Initial(), acts, config, size).Some?
    requires c < Exec(Initial(), acts, config, size).value.pool.made
    ensures
      var w := Exec(Initial(), acts, config, size).value;
      && ExactlyOne(Listed(w, c), Held(w, c), Streaming(w, c), IsClosed(w, c))
      && (forall j, k :: ListedUnder(w, j, c) && ListedUnder(w, k, c) ==> j == k)
      && (forall key, i, j :: 0 <= i < j < |Idle(w.pool, key)| ==>
            Idle(w.pool, key)[i].conn != Idle(w.pool, key)[j].conn)
      && (forall t, u :: HoldsIn(w, t, c) && HoldsIn(w, u, c) ==> t == u)
      && (forall t :: HoldsIn(w, t, c) ==>
            c in w.pool.owner && w.pool.owner[c] == InUse(t, KeyOfUrl(w.programs[t].s.url)))
      && (forall t, u :: StreamOf(w, t, c) && StreamOf(w, u, c) ==> t == u)
  {
    RunKeepsInv(Initial(), acts, config, size);
    RunRecords(Initial(), acts, config, size);
    var w := Exec(Initial(), acts, config, size).value;
    PlacedOnce(w, c, config, size);
    ListedOnce(w, c, config, size);
    HeldOnce(w, c, config, size);
  }
}
