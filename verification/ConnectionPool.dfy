/**
 The synchronous connection pool and who owns each connection: the pool, a
 request in progress, a streaming response, or nobody any more. The pool's
 operations run under its lock, so requests of different threads interleave
 operation by operation.
 */
module ConnectionPools {
  import opened Common
  import opened HttpRequests

  const IDLE_TIMEOUT := 60.0

  type Conn = nat
  type Task = nat

  datatype Key = Key(host: string, port: nat, https: bool)

  datatype Entry = Entry(conn: Conn, since: real)

  datatype Owner = Pooled(key: Key) | InUse(task: Task, key: Key) | Streamed | Closed

  /** How a request was done with a connection: the arguments of `_sync_release_or_close`, and whether `release` raises. */
  datatype Use = Use(
    handedOver: bool, complete: bool, pooling: bool, proxy: bool, stream: bool, saysClose: bool, releaseFails: bool)

  predicate Reusable(u: Use)
  {
    !u.handedOver && u.complete && u.pooling && !u.proxy && !u.stream && !u.saysClose
  }

  /** Idle connections by key, the owner of every connection ever made, and its last use. */
  datatype Ledger = Ledger(idle: map<Key, seq<Entry>>, owner: map<Conn, Owner>, uses: map<Conn, Use>, made: nat)

  function Idle(l: Ledger, key: Key): seq<Entry>
  {
    if key in l.idle then l.idle[key] else []
  }

  // ------------------------------------------------------------------------
  // Operations
  // ------------------------------------------------------------------------

  predicate Live(e: Entry, now: real, alive: Conn -> bool)
  {
    now - e.since <= IDLE_TIMEOUT && alive(e.conn)
  }

  /** How many entries are left after taking the last live one, if any: everything behind it is closed. */
  function LiveAt(entries: seq<Entry>, now: real, alive: Conn -> bool): (n: nat)
    ensures n <= |entries|
    ensures n > 0 ==> Live(entries[n - 1], now, alive)
    ensures forall i :: n <= i < |entries| ==> !Live(entries[i], now, alive)
  {
    if entries == [] then 0
    else if Live(entries[|entries| - 1], now, alive) then |entries|
    else LiveAt(entries[..|entries| - 1], now, alive)
  }

  function CloseConns(owner: map<Conn, Owner>, entries: seq<Entry>): map<Conn, Owner>
  {
    map c | c in owner :: if exists e :: e in entries && e.conn == c then Closed else owner[c]
  }

  /** `acquire`: the youngest live connection of a key; younger ones that are stale or dead are closed. */
  function Acquired(l: Ledger, t: Task, key: Key, now: real, alive: Conn -> bool): (Ledger, Option<Conn>)
  {
    var entries := Idle(l, key);
    var n := LiveAt(entries, now, alive);
    var owner := CloseConns(l.owner, entries[n..]);
    var idle := if key in l.idle then l.idle[key := if n == 0 then [] else entries[..n - 1]] else l.idle;
    if n == 0 then (l.(idle := idle, owner := owner), None)
    else
      (l.(idle := idle, owner := owner[entries[n - 1].conn := InUse(t, key)]), Some(entries[n - 1].conn))
  }

  function Connected(l: Ledger, t: Task, key: Key): Ledger
  {
    l.(owner := l.owner[l.made := InUse(t, key)], made := l.made + 1)
  }

  /** `release`: back into the pool, or closed when the key is full. */
  function Released(l: Ledger, key: Key, conn: Conn, now: real, size: int): Ledger
  {
    if |Idle(l, key)| < size then
      l.(idle := l.idle[key := Idle(l, key) + [Entry(conn, now)]], owner := l.owner[conn := Pooled(key)])
    else
      l.(idle := l.idle[key := Idle(l, key)], owner := l.owner[conn := Closed])
  }

  /** `_sync_release_or_close`. */
  function Settled(l: Ledger, key: Key, conn: Conn, u: Use, now: real, size: int): Ledger
  {
    var noted := l.(uses := l.uses[conn := u]);
    if u.handedOver then noted.(owner := noted.owner[conn := Streamed])
    else if Reusable(u) && !u.releaseFails then Released(noted, key, conn, now, size)
    else noted.(owner := noted.owner[conn := Closed])
  }

  /** `close_all`. */
  function AllClosed(l: Ledger): Ledger
  {
    l.(idle := map[], owner := map c | c in l.owner :: if l.owner[c].Pooled? then Closed else l.owner[c])
  }

  // ------------------------------------------------------------------------
  // The invariant
  // ------------------------------------------------------------------------

  ghost predicate KeyOk(l: Ledger, key: Key, size: int)
  {
    var entries := Idle(l, key);
    && (size >= 0 ==> |entries| <= size)
    && (size < 0 ==> entries == [])
    && (forall i :: 0 <= i < |entries| ==>
          entries[i].conn in l.owner && l.owner[entries[i].conn] == Pooled(key))
    && (forall i, j :: 0 <= i < j < |entries| ==> entries[i].conn != entries[j].conn)
  }

  ghost predicate ConnOk(l: Ledger, c: Conn)
  {
    && (c in l.owner ==> c < l.made)
    && (c in l.owner && l.owner[c].Pooled? ==>
          && (exists e :: e in Idle(l, l.owner[c].key) && e.conn == c)
          && c in l.uses && Reusable(l.uses[c]))
  }

  /**
   Every key holds at most `size` connections, all different and all owned by
   the pool under that key; every connection the pool owns is in its key's list
   and was read completely when last used.
   */
  ghost predicate Inv(l: Ledger, size: int)
  {
    && (forall key :: KeyOk(l, key, size))
    && (forall c :: ConnOk(l, c))
  }

  /** Taking a connection closes the stale and dead ones behind it and touches nothing else. */
  lemma AcquireTouches(l: Ledger, size: int, t: Task, key: Key, now: real, alive: Conn -> bool)
    requires Inv(l, size)
    ensures
      var (n, got) := Acquired(l, t, key, now, alive);
      && n.made == l.made && n.uses == l.uses && n.owner.Keys == l.owner.Keys
      && (got.Some? ==> got.value in l.owner && l.owner[got.value] == Pooled(key) && n.owner[got.value] == InUse(t, key))
      && (forall c :: c in l.owner && Some(c) != got ==>
            n.owner[c] == l.owner[c] || (l.owner[c] == Pooled(key) && n.owner[c] == Closed))
  {
    assert KeyOk(l, key, size);
  }

  /** Who owns the entries of the key's list afterwards: the pool those before the one taken, nobody those behind it. */
  lemma AcquireOwners(l: Ledger, size: int, t: Task, key: Key, now: real, alive: Conn -> bool, i: nat)
    requires Inv(l, size) && i < |Idle(l, key)|
    ensures
      var k := LiveAt(Idle(l, key), now, alive);
      var c := Idle(l, key)[i].conn;
      var n := Acquired(l, t, key, now, alive).0;
      c in n.owner && n.owner[c] == if i >= k then Closed else if i == k - 1 then InUse(t, key) else Pooled(key)
  {
    assert KeyOk(l, key, size);
  }

  /** What remains of the key's list is what the pool still owns under it. */
  lemma AcquireLeaves(l: Ledger, size: int, t: Task, key: Key, now: real, alive: Conn -> bool)
    requires Inv(l, size)
    ensures KeyOk(Acquired(l, t, key, now, alive).0, key, size)
  {
    var n := Acquired(l, t, key, now, alive).0;
    assert KeyOk(l, key, size);
    forall i | 0 <= i < |Idle(n, key)|
      ensures Idle(n, key)[i].conn in n.owner && n.owner[Idle(n, key)[i].conn] == Pooled(key)
    {
      AcquireOwners(l, size, t, key, now, alive, i);
    }
  }

  lemma AcquireListed(l: Ledger, size: int, t: Task, key: Key, now: real, alive: Conn -> bool, c: Conn)
    requires Inv(l, size)
    requires
      var n := Acquired(l, t, key, now, alive).0;
      c in n.owner && n.owner[c] == Pooled(key)
    ensures exists e :: e in Idle(Acquired(l, t, key, now, alive).0, key) && e.conn == c
  {
    var n := Acquired(l, t, key, now, alive).0;
    var entries := Idle(l, key);
    AcquireTouches(l, size, t, key, now, alive);
    assert ConnOk(l, c);
    var e :| e in entries && e.conn == c;
    var i :| 0 <= i < |entries| && entries[i] == e;
    AcquireOwners(l, size, t, key, now, alive, i);
    assert Idle(n, key)[i] == e;
  }

  lemma AcquireKeepsInv(l: Ledger, size: int, t: Task, key: Key, now: real, alive: Conn -> bool)
    requires Inv(l, size)
    ensures Inv(Acquired(l, t, key, now, alive).0, size)
  {
    var n := Acquired(l, t, key, now, alive).0;
    AcquireTouches(l, size, t, key, now, alive);
    AcquireLeaves(l, size, t, key, now, alive);
    forall k2
      ensures KeyOk(n, k2, size)
    {
      assert KeyOk(l, k2, size);
      assert k2 != key ==> Idle(n, k2) == Idle(l, k2);
    }
    forall c
      ensures ConnOk(n, c)
    {
      assert ConnOk(l, c);
      if c in n.owner && n.owner[c].Pooled? {
        if n.owner[c].key == key {
          AcquireListed(l, size, t, key, now, alive, c);
        } else {
          assert Idle(n, n.owner[c].key) == Idle(l, l.owner[c].key);
        }
      }
    }
  }

  lemma ConnectKeepsInv(l: Ledger, size: int, t: Task, key: Key)
    requires Inv(l, size)
    ensures Inv(Connected(l, t, key), size) && l.made !in l.owner
  {
    var n := Connected(l, t, key);
    assert ConnOk(l, l.made);
    forall k2
      ensures KeyOk(n, k2, size)
    {
      assert KeyOk(l, k2, size) && Idle(n, k2) == Idle(l, k2);
    }
    forall c
      ensures ConnOk(n, c)
    {
      assert ConnOk(l, c);
      if c in n.owner && n.owner[c].Pooled? {
        assert Idle(n, n.owner[c].key) == Idle(l, l.owner[c].key);
      }
    }
  }

  /** Giving a connection that the pool does not own to nobody or to a response leaves the pool as it is. */
  lemma DropKeepsInv(l: Ledger, size: int, conn: Conn, o: Owner, uses: map<Conn, Use>, n: Ledger)
    requires Inv(l, size) && conn in l.owner && !l.owner[conn].Pooled? && !o.Pooled?
    requires n.owner == l.owner[conn := o] && n.uses == uses && n.made == l.made
    requires forall key :: Idle(n, key) == Idle(l, key)
    requires forall c :: c in l.uses && c != conn ==> c in uses && uses[c] == l.uses[c]
    ensures Inv(n, size)
  {
    forall key
      ensures KeyOk(n, key, size)
    {
      assert KeyOk(l, key, size) && Idle(n, key) == Idle(l, key);
    }
    forall c
      ensures ConnOk(n, c)
    {
      assert ConnOk(l, c);
      if c in n.owner && n.owner[c].Pooled? {
        assert Idle(n, n.owner[c].key) == Idle(l, l.owner[c].key);
      }
    }
  }

  lemma ReleaseKeepsInv(l: Ledger, size: int, key: Key, conn: Conn, u: Use, now: real)
    requires Inv(l, size) && conn in l.owner && !l.owner[conn].Pooled? && Reusable(u) && !u.releaseFails
    requires |Idle(l, key)| < size
    ensures Inv(Settled(l, key, conn, u, now, size), size)
  {
    var n := Settled(l, key, conn, u, now, size);
    forall k2
      ensures KeyOk(n, k2, size)
    {
      assert KeyOk(l, k2, size);
      if k2 != key {
        assert Idle(n, k2) == Idle(l, k2);
      } else {
        assert Idle(n, key) == Idle(l, key) + [Entry(conn, now)];
      }
    }
    forall c
      ensures ConnOk(n, c)
    {
      assert ConnOk(l, c);
      if c == conn {
        assert Entry(conn, now) in Idle(n, key);
      } else if c in n.owner && n.owner[c].Pooled? {
        var e :| e in Idle(l, l.owner[c].key) && e.conn == c;
        assert e in Idle(n, n.owner[c].key);
      }
    }
  }

  lemma SettleKeepsInv(l: Ledger, size: int, key: Key, conn: Conn, u: Use, now: real)
    requires Inv(l, size) && conn in l.owner && !l.owner[conn].Pooled?
    ensures Inv(Settled(l, key, conn, u, now, size), size)
  {
    var n := Settled(l, key, conn, u, now, size);
    if Reusable(u) && !u.releaseFails && |Idle(l, key)| < size {
      ReleaseKeepsInv(l, size, key, conn, u, now);
    } else {
      DropKeepsInv(l, size, conn, n.owner[conn], n.uses, n);
    }
  }

  lemma CloseAllKeepsInv(l: Ledger, size: int)
    requires Inv(l, size)
    ensures Inv(AllClosed(l), size)
  {
    forall c
      ensures ConnOk(AllClosed(l), c)
    {
      assert ConnOk(l, c);
    }
  }

  // ------------------------------------------------------------------------
  // Every run of concurrent requests
  // ------------------------------------------------------------------------

  datatype Action =
    | Acquire(task: Task, key: Key, now: real, alive: Conn -> bool)
    | Connect(task: Task, key: Key)
    | Settle(task: Task, conn: Conn, outcome: Use, now: real)
    | CloseStream(conn: Conn)
    | CloseAll

  /** Task `t` holds connection `c`. */
  predicate Holds(l: Ledger, t: Task, c: Conn)
  {
    c in l.owner && l.owner[c].InUse? && l.owner[c].task == t
  }

  ghost predicate HoldsNone(l: Ledger, t: Task)
  {
    forall c :: !Holds(l, t, c)
  }

  /** A request asks for a connection when it holds none, and settles the one it holds. */
  ghost predicate Enabled(l: Ledger, a: Action)
  {
    match a
    case Acquire(t, _, _, _) => HoldsNone(l, t)
    case Connect(t, _) => HoldsNone(l, t)
    case Settle(t, c, _, _) => Holds(l, t, c)
    case CloseStream(c) => c in l.owner && l.owner[c].Streamed?
    case CloseAll => true
  }

  function Next(l: Ledger, a: Action, size: int): Ledger
  {
    match a
    case Acquire(t, key, now, alive) => Acquired(l, t, key, now, alive).0
    case Connect(t, key) => Connected(l, t, key)
    case Settle(t, c, u, now) =>
      if Holds(l, t, c) then Settled(l, l.owner[c].key, c, u, now, size) else l
    case CloseStream(c) => l.(owner := l.owner[c := Closed])
    case CloseAll => AllClosed(l)
  }

  function Empty(): Ledger
  {
    Ledger(map[], map[], map[], 0)
  }

  /** The ledgers of a run, from the empty one. */
  ghost predicate IsRun(states: seq<Ledger>, actions: seq<Action>, size: int)
  {
    && |states| == |actions| + 1 && states[0] == Empty()
    && forall i :: 0 <= i < |actions| ==>
         Enabled(states[i], actions[i]) && states[i + 1] == Next(states[i], actions[i], size)
  }

  ghost predicate OneEach(l: Ledger)
  {
    forall t, c, d :: Holds(l, t, c) && Holds(l, t, d) ==> c == d
  }

  lemma NextKeepsPool(l: Ledger, a: Action, size: int)
    requires Inv(l, size) && Enabled(l, a)
    ensures Inv(Next(l, a, size), size)
  {
    match a
    case Acquire(t, key, now, alive) => AcquireKeepsInv(l, size, t, key, now, alive);
    case Connect(t, key) => ConnectKeepsInv(l, size, t, key);
    case Settle(t, c, u, now) => SettleKeepsInv(l, size, l.owner[c].key, c, u, now);
    case CloseStream(c) => DropKeepsInv(l, size, c, Closed, l.uses, Next(l, a, size));
    case CloseAll => CloseAllKeepsInv(l, size);
  }

  lemma SettleFreesTask(l: Ledger, a: Action, size: int)
    requires OneEach(l) && a.Settle? && Enabled(l, a)
    ensures OneEach(Next(l, a, size)) && HoldsNone(Next(l, a, size), a.task)
    ensures Next(l, a, size).owner[a.conn] in
      if a.outcome.handedOver then {Streamed} else {Pooled(l.owner[a.conn].key), Closed}
    ensures Next(l, a, size).owner[a.conn].Pooled? ==> Reusable(a.outcome)
  {
    var n := Next(l, a, size);
    assert forall v: Task, d: Conn :: Holds(n, v, d) ==> Holds(l, v, d) && d != a.conn;
  }

  lemma NextKeepsOneEach(l: Ledger, a: Action, size: int)
    requires Inv(l, size) && OneEach(l) && Enabled(l, a)
    ensures OneEach(Next(l, a, size))
  {
    var n := Next(l, a, size);
    match a
    case Acquire(t, key, now, alive) =>
      AcquireTouches(l, size, t, key, now, alive);
      var got := Acquired(l, t, key, now, alive).1;
      assert forall u: Task, d: Conn :: Holds(n, u, d) ==> Holds(l, u, d) || (u == t && Some(d) == got);
    case Connect(t, key) =>
      assert forall u: Task, d: Conn :: Holds(n, u, d) ==> Holds(l, u, d) || (u == t && d == l.made);
    case Settle(_, _, _, _) => SettleFreesTask(l, a, size);
    case CloseStream(_) => assert forall v: Task, d: Conn :: Holds(n, v, d) ==> Holds(l, v, d);
    case CloseAll => assert forall v: Task, d: Conn :: Holds(n, v, d) ==> Holds(l, v, d);
  }

  lemma {:induction false} RunKeepsInv(states: seq<Ledger>, actions: seq<Action>, size: int, i: nat)
    requires IsRun(states, actions, size) && i < |states|
    ensures Inv(states[i], size) && OneEach(states[i])
  {
    if i > 0 {
      RunKeepsInv(states, actions, size, i - 1);
      NextKeepsPool(states[i - 1], actions[i - 1], size);
      NextKeepsOneEach(states[i - 1], actions[i - 1], size);
    }
  }

  /**
   In every interleaving of requests, streams and shutdowns: a key holds at most
   `size` idle connections; a connection is in some list exactly when the pool
   owns it, once and under its own key, so never while a request, a stream or
   nobody owns it; and a request holds at most one connection.
   */
  lemma OwnershipIsExclusive(states: seq<Ledger>, actions: seq<Action>, size: int, i: nat, c: Conn, key: Key)
    requires IsRun(states, actions, size) && i < |states|
    ensures |Idle(states[i], key)| <= if size > 0 then size else 0
    ensures (exists e :: e in Idle(states[i], key) && e.conn == c) <==>
      c in states[i].owner && states[i].owner[c] == Pooled(key)
    ensures forall j, k :: 0 <= j < k < |Idle(states[i], key)| ==>
      Idle(states[i], key)[j].conn != Idle(states[i], key)[k].conn
    ensures OneEach(states[i])
  {
    RunKeepsInv(states, actions, size, i);
    assert KeyOk(states[i], key, size) && ConnOk(states[i], c);
  }

  /**
   Only completely read responses return a connection: whatever a request takes
   from the pool belonged to the pool under that key, and its last use ended
   with the response read to the end, no proxy, no stream and no `close`.
   */
  lemma ReusedWasReadCompletely(states: seq<Ledger>, actions: seq<Action>, size: int, i: nat)
    requires IsRun(states, actions, size) && i < |actions| && actions[i].Acquire?
    ensures
      var a := actions[i];
      var got := Acquired(states[i], a.task, a.key, a.now, a.alive).1;
      got.Some? ==>
        && got.value in states[i].owner && states[i].owner[got.value] == Pooled(a.key)
        && got.value in states[i].uses
        && (var u := states[i].uses[got.value];
            u.complete && u.pooling && !u.handedOver && !u.proxy && !u.stream && !u.saysClose)
        && a.alive(got.value)
  {
    RunKeepsInv(states, actions, size, i);
    var a := actions[i];
    AcquireTouches(states[i], size, a.task, a.key, a.now, a.alive);
    var got := Acquired(states[i], a.task, a.key, a.now, a.alive).1;
    if got.Some? {
      assert ConnOk(states[i], got.value);
    }
  }

  /** Settling leaves the request with no connection: it is pooled, closed, or owned by the stream it was handed to. */
  lemma SettlingLeaksNothing(states: seq<Ledger>, actions: seq<Action>, size: int, i: nat)
    requires IsRun(states, actions, size) && i < |actions| && actions[i].Settle?
    ensures HoldsNone(states[i + 1], actions[i].task)
    ensures
      var a := actions[i];
      states[i + 1].owner[a.conn] in
        if a.outcome.handedOver then {Streamed} else {Pooled(states[i].owner[a.conn].key), Closed}
    ensures states[i + 1].owner[actions[i].conn].Pooled? ==> Reusable(actions[i].outcome)
  {
    RunKeepsInv(states, actions, size, i);
    SettleFreesTask(states[i], actions[i], size);
  }

  // ------------------------------------------------------------------------
  // Giving and taking back
  // ------------------------------------------------------------------------

  /** The entry has been idle for 60 seconds at most, and its connection is alive. */
  predicate Usable(e: Entry, now: real, alive: Conn -> bool)
  {
    now - e.since <= 60.0 && alive(e.conn)
  }

  lemma {:induction false} LastUsable(entries: seq<Entry>, now: real, alive: Conn -> bool, n: nat)
    requires n <= |entries|
    requires n > 0 ==> Usable(entries[n - 1], now, alive)
    requires forall i :: n <= i < |entries| ==> !Usable(entries[i], now, alive)
    ensures LiveAt(entries, now, alive) == n
  {
    if n < |entries| {
      LastUsable(entries[..|entries| - 1], now, alive, n);
    }
  }

  /**
   `acquire` takes the last usable entry of the key's list, if there is one; it
   closes those behind it, leaves those before it listed, and touches no others.
   */
  lemma AcquiresLastUsable(l: Ledger, size: int, t: Task, key: Key, now: real, alive: Conn -> bool, n: nat)
    requires Inv(l, size) && n <= |Idle(l, key)|
    requires n > 0 ==> Usable(Idle(l, key)[n - 1], now, alive)
    requires forall i :: n <= i < |Idle(l, key)| ==> !Usable(Idle(l, key)[i], now, alive)
    ensures
      var entries := Idle(l, key);
      var (after, got) := Acquired(l, t, key, now, alive);
      && got == (if n == 0 then None else Some(entries[n - 1].conn))
      && Idle(after, key) == (if n == 0 then [] else entries[..n - 1])
      && (forall i :: n <= i < |entries| ==> entries[i].conn in after.owner && after.owner[entries[i].conn] == Closed)
      && (n > 0 ==> entries[n - 1].conn in after.owner && after.owner[entries[n - 1].conn] == InUse(t, key))
      && (forall other :: other != key ==> Idle(after, other) == Idle(l, other))
  {
    LastUsable(Idle(l, key), now, alive, n);
    forall i | n <= i < |Idle(l, key)|
      ensures
        var c := Idle(l, key)[i].conn;
        var after := Acquired(l, t, key, now, alive).0;
        c in after.owner && after.owner[c] == Closed
    {
      AcquireOwners(l, size, t, key, now, alive, i);
    }
  }

  /** What is released within 60 seconds, still alive, and with room in its list, is what the next request gets. */
  lemma ReleasedIsTakenNext(
      l: Ledger, size: int, key: Key, conn: Conn, u: Use, now: real, t: Task, later: real, alive: Conn -> bool)
    requires Inv(l, size) && conn in l.owner && !l.owner[conn].Pooled?
    requires u.complete && u.pooling && !u.handedOver && !u.proxy && !u.stream && !u.saysClose && !u.releaseFails
    requires |Idle(l, key)| < size && later - now <= 60.0 && alive(conn)
    ensures
      var after := Settled(l, key, conn, u, now, size);
      && Acquired(after, t, key, later, alive).1 == Some(conn)
      && Idle(Acquired(after, t, key, later, alive).0, key) == Idle(l, key)
  {
    var after := Settled(l, key, conn, u, now, size);
    SettleKeepsInv(l, size, key, conn, u, now);
    assert Idle(after, key) == Idle(l, key) + [Entry(conn, now)];
    AcquiresLastUsable(after, size, t, key, later, alive, |Idle(after, key)|);
  }

  /** Any other end of a use closes the connection, or leaves it to its stream, and lists it nowhere. */
  lemma OtherwiseNotListed(l: Ledger, size: int, key: Key, conn: Conn, u: Use, now: real)
    requires Inv(l, size) && conn in l.owner && !l.owner[conn].Pooled?
    requires
      || !u.complete || !u.pooling || u.handedOver || u.proxy || u.stream || u.saysClose || u.releaseFails
      || |Idle(l, key)| >= size
    ensures
      var after := Settled(l, key, conn, u, now, size);
      && after.owner == l.owner[conn := if u.handedOver then Streamed else Closed]
      && forall k :: Idle(after, k) == Idle(l, k)
  {
  }

  /** Shutdown closes exactly the connections that are listed, and unlists them. */
  lemma ShutdownClosesListed(l: Ledger, size: int, c: Conn, key: Key)
    requires Inv(l, size) && c in l.owner
    ensures
      var after := AllClosed(l);
      && c in after.owner && Idle(after, key) == []
      && ((exists k, e :: e in Idle(l, k) && e.conn == c) ==> after.owner[c] == Closed)
      && ((forall k, e :: e in Idle(l, k) ==> e.conn != c) ==> after.owner[c] == l.owner[c])
  {
    assert ConnOk(l, c);
    if k, e :| e in Idle(l, k) && e.conn == c {
      assert KeyOk(l, k, size);
    }
  }

  // ------------------------------------------------------------------------
  // The pool object, and the request loop over it
  // ------------------------------------------------------------------------

  class ConnectionPool {
    const size: int
    var idle: map<Key, seq<Entry>>
    ghost var owner: map<Conn, Owner>
    ghost var uses: map<Conn, Use>
    var made: nat

    ghost function State(): Ledger
      reads this
    {
      Ledger(idle, owner, uses, made)
    }

    constructor (size: int)
      ensures this.size == size && State() == Empty() && Inv(State(), size)
    {
      this.size := size;
      idle, owner, uses, made := map[], map[], map[], 0;
    }

    method Take(ghost t: Task, key: Key, now: real, alive: Conn -> bool) returns (conn: Option<Conn>)
      modifies this
      ensures (State(), conn) == Acquired(old(State()), t, key, now, alive)
    {
      ghost var before := State();
      var entries := if key in idle then idle[key] else [];
      var conns := entries;
      while conns != [] && !Live(conns[|conns| - 1], now, alive)
        invariant conns <= entries && LiveAt(conns, now, alive) == LiveAt(entries, now, alive)
        decreases |conns|
      {
        conns := conns[..|conns| - 1];
      }
      ghost var n := LiveAt(entries, now, alive);
      assert conns == entries[..n];
      owner := CloseConns(owner, entries[n..]);
      if conns == [] {
        conn := None;
      } else {
        conn := Some(conns[|conns| - 1].conn);
        owner := owner[conn.value := InUse(t, key)];
        conns := conns[..|conns| - 1];
        assert conns == entries[..n - 1];
      }
      if key in idle {
        idle := idle[key := conns];
      }
    }

    method Open(ghost t: Task, key: Key) returns (conn: Conn)
      modifies this
      ensures State() == Connected(old(State()), t, key) && conn == old(made)
    {
      conn := made;
      owner := owner[conn := InUse(t, key)];
      made := made + 1;
    }

    method Release(key: Key, conn: Conn, now: real)
      modifies this
      ensures State() == Released(old(State()), key, conn, now, size)
    {
      var conns := if key in idle then idle[key] else [];
      idle := idle[key := conns];
      if |conns| < size {
        idle := idle[key := conns + [Entry(conn, now)]];
        owner := owner[conn := Pooled(key)];
      } else {
        owner := owner[conn := Closed];
      }
    }

    method ReleaseOrClose(key: Key, conn: Conn, u: Use, now: real)
      modifies this
      ensures State() == Settled(old(State()), key, conn, u, now, size)
    {
      uses := uses[conn := u];
      if u.handedOver {
        owner := owner[conn := Streamed];
        return;
      }
      if u.complete && u.pooling && !u.proxy && !u.stream && !u.saysClose {
        if u.releaseFails {
          owner := owner[conn := Closed];
        } else {
          Release(key, conn, now);
        }
      } else {
        owner := owner[conn := Closed];
      }
    }

    method CloseAllPooled()
      modifies this
      ensures State() == AllClosed(old(State()))
    {
      owner := map c | c in owner :: if owner[c].Pooled? then Closed else owner[c];
      idle := map[];
    }
  }

  function KeyOfUrl(u: Url): Key
  {
    Key(u.host, u.port, u.scheme == "https")
  }

  /** A connection serves one host, port and kind of transport. */
  lemma SameKeySameServer(u: Url, v: Url)
    ensures KeyOfUrl(u) == KeyOfUrl(v) <==>
      u.host == v.host && u.port == v.port && (u.scheme == "https" <==> v.scheme == "https")
  {
  }

  /** What the `finally` block is told about a turn of the loop. */
  function UseOf(c: Config, x: Exchange, turn: Turn, releaseFails: bool): Use
  {
    Use(turn.Stop? && turn.outcome.Streaming?,
        turn.Stop? && turn.outcome.Buffered?,
        c.pooling, c.proxy, c.stream,
        x.Response? && Connection in x.headers && Lower(x.headers[Connection]) == "close",
        releaseFails)
  }

  /** The turn after the `finally` block: a `release` that raises takes the place of the response. */
  function Ended(turn: Turn, u: Use): Turn
  {
    if turn.Stop? && Reusable(u) && u.releaseFails then Stop(turn.sent, Raised) else turn
  }

  /** The connections owned by streaming responses. */
  ghost function Streams(owner: map<Conn, Owner>): set<Conn>
  {
    set c | c in owner && owner[c].Streamed?
  }

  /** The exchange as the attempt sees it: a connection from the pool cannot fail to be made. */
  function Resolved(x: Exchange, reused: bool): Exchange
  {
    if x.NoConnection? then (if reused then Broken(true) else x) else x.(reused := reused)
  }

  /** One attempt with its connection: acquire, use, and the `finally` block. */
  method PooledAttempt(
      pool: ConnectionPool, ghost t: Task, c: Config, s: Loop, x: Exchange, now: real, alive: Conn -> bool,
      releaseFails: bool, ghost first: map<Conn, Owner>)
    returns (turn: Turn)
    requires Inv(pool.State(), pool.size) && Untouched(first, pool.owner, t)
    requires Streams(pool.owner) == Streams(first) && Counted(c, s)
    modifies pool
    ensures exists reused :: TurnOf(c, s, x, reused, releaseFails, turn)
    ensures Progresses(c, s, turn)
    ensures Inv(pool.State(), pool.size) && Untouched(first, pool.owner, t)
    ensures turn.Stop? && turn.outcome.Streaming? ==>
      exists d :: d !in Streams(first) && Streams(pool.owner) == Streams(first) + {d}
    ensures !(turn.Stop? && turn.outcome.Streaming?) ==> Streams(pool.owner) == Streams(first)
  {
    var key := KeyOfUrl(s.url);
    var conn, reused := ObtainConnection(pool, t, c, key, now, alive, !x.NoConnection?, first);
    var exchange := Resolved(x, reused);
    StepProgresses(c, s, exchange);
    turn := Attempt(c, s, exchange);
    if conn.Some? {
      var use := UseOf(c, exchange, turn, releaseFails);
      FinishConnection(pool, t, key, conn.value, use, now, first);
      turn := Ended(turn, use);
    }
    assert TurnOf(c, s, x, reused, releaseFails, turn);
  }

  /** One pass of the loop with its `finally` block, on a connection that was in the pool or a new one. */
  predicate TurnOf(c: Config, s: Loop, x: Exchange, reused: bool, releaseFails: bool, turn: Turn)
  {
    var step := Step(c, s, Resolved(x, reused));
    turn == Ended(step, UseOf(c, Resolved(x, reused), step, releaseFails))
  }

  /**
   The request loop with its connections. However it ends, this request holds
   no connection any more and no other request's or stream's connection was
   touched; it leaves one more stream exactly when it returns a stream.
   */
  method PooledRequest(
      pool: ConnectionPool, ghost t: Task, c: Config, start: Loop, network: nat -> Exchange,
      clock: nat -> real, alive: Conn -> bool, releaseFails: bool)
    returns (sent: seq<Request>, outcome: Outcome)
    requires Inv(pool.State(), pool.size) && HoldsNone(pool.State(), t) && Counted(c, start)
    modifies pool
    ensures Inv(pool.State(), pool.size) && HoldsNone(pool.State(), t)
    ensures Untouched(old(pool.owner), pool.owner, t)
    ensures Streams(old(pool.owner)) <= Streams(pool.owner)
    ensures |Streams(pool.owner)| == |Streams(old(pool.owner))| + if outcome.Streaming? then 1 else 0
    ensures |sent| <= 2 * HopLimit(c) + 2
  {
    var s := start;
    ghost var first := pool.owner;
    assert Untouched(first, pool.owner, t) by {
      assert forall d :: d in first && first[d].InUse? ==> !Holds(pool.State(), t, d);
    }
    while true
      invariant Inv(pool.State(), pool.size) && Counted(c, s)
      invariant Untouched(first, pool.owner, t)
      invariant Streams(pool.owner) == Streams(first)
      decreases HopsLeft(c, s), !s.attempted
    {
      var turn := PooledAttempt(pool, t, c, s, network(|s.sent|), clock(|s.sent|), alive, releaseFails, first);
      if turn.Stop? {
        return turn.sent, turn.outcome;
      }
      s := turn.next;
    }
  }

  /** Ownership after a look in the pool: pooled connections may have been closed, and one may be held by `t`. */
  lemma LookKeepsOthers(
      first: map<Conn, Owner>, before: map<Conn, Owner>, after: map<Conn, Owner>, t: Task, key: Key, got: Option<Conn>)
    requires Untouched(first, before, t) && Streams(before) == Streams(first)
    requires after.Keys == before.Keys
    requires got.Some? ==> got.value in before && before[got.value] == Pooled(key) && after[got.value] == InUse(t, key)
    requires forall c :: c in before && Some(c) != got ==>
      after[c] == before[c] || (before[c] == Pooled(key) && after[c] == Closed)
    ensures got.None? ==> Untouched(first, after, t) && Streams(after) == Streams(first)
    ensures got.Some? ==> HoldingOne(first, after, t, got.value)
  {
    assert forall c :: c in Streams(after) <==> c in Streams(before);
  }

  lemma NewKeepsOthers(first: map<Conn, Owner>, before: map<Conn, Owner>, t: Task, key: Key, conn: Conn)
    requires Untouched(first, before, t) && Streams(before) == Streams(first)
    requires conn !in before && conn !in first
    ensures HoldingOne(first, before[conn := InUse(t, key)], t, conn)
  {
    var after := before[conn := InUse(t, key)];
    assert forall c :: c in Streams(after) <==> c in Streams(before);
  }

  /** `_sync_acquire_connection`: from the pool, or a new one, or an exception (None). */
  method ObtainConnection(
      pool: ConnectionPool, ghost t: Task, c: Config, key: Key, now: real, alive: Conn -> bool,
      connects: bool, ghost first: map<Conn, Owner>)
    returns (conn: Option<Conn>, reused: bool)
    requires Inv(pool.State(), pool.size) && Untouched(first, pool.owner, t)
    requires Streams(pool.owner) == Streams(first)
    modifies pool
    ensures Inv(pool.State(), pool.size)
    ensures conn.None? ==> !connects && !reused
    ensures conn.None? ==> Untouched(first, pool.owner, t) && Streams(pool.owner) == Streams(first)
    ensures conn.Some? ==> (connects || reused)
    ensures conn.Some? ==> HoldingOne(first, pool.owner, t, conn.value)
  {
    reused := false;
    if c.pooling && !c.proxy {
      AcquireKeepsInv(pool.State(), pool.size, t, key, now, alive);
      AcquireTouches(pool.State(), pool.size, t, key, now, alive);
      ghost var before := pool.owner;
      conn := pool.Take(t, key, now, alive);
      LookKeepsOthers(first, before, pool.owner, t, key, conn);
      if conn.Some? {
        reused := true;
        return;
      }
    }
    if !connects {
      return None, false;
    }
    ConnectKeepsInv(pool.State(), pool.size, t, key);
    NewKeepsOthers(first, pool.owner, t, key, pool.made);
    var made := pool.Open(t, key);
    return Some(made), false;
  }

  /** The `finally` block: the connection goes back, to a stream, or is closed. */
  method FinishConnection(
      pool: ConnectionPool, ghost t: Task, key: Key, conn: Conn, u: Use, now: real, ghost first: map<Conn, Owner>)
    requires Inv(pool.State(), pool.size) && HoldingOne(first, pool.owner, t, conn)
    modifies pool
    ensures Inv(pool.State(), pool.size) && Untouched(first, pool.owner, t)
    ensures !u.handedOver ==> Streams(pool.owner) == Streams(first)
    ensures u.handedOver ==> conn !in Streams(first) && Streams(pool.owner) == Streams(first) + {conn}
  {
    SettleKeepsInv(pool.State(), pool.size, key, conn, u, now);
    pool.ReleaseOrClose(key, conn, u, now);
  }

  /** Besides `conn`, held by `t`, nothing differs but pooled connections closed on the way. */
  ghost predicate HoldingOne(first: map<Conn, Owner>, now: map<Conn, Owner>, t: Task, conn: Conn)
  {
    && conn in now && now[conn].InUse? && now[conn].task == t
    && (conn in first ==> first[conn].Pooled?)
    && first.Keys <= now.Keys
    && (forall d :: d in first && !first[d].Pooled? ==> now[d] == first[d])
    && (forall d :: d in now && d != conn && now[d].InUse? ==> now[d].task != t && d in first && first[d] == now[d])
    && Streams(now) == Streams(first)
  }

  /** What was not pooled is as it was, and what is in use was in use before, by somebody else. */
  ghost predicate Untouched(first: map<Conn, Owner>, now: map<Conn, Owner>, t: Task)
  {
    && first.Keys <= now.Keys
    && (forall d :: d in first && !first[d].Pooled? ==> d in now && now[d] == first[d])
    && (forall d :: d in now && now[d].InUse? ==> now[d].task != t && d in first && first[d] == now[d])
  }
}
