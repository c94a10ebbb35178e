/**
 The SQLite backend of the persistent dictionary: writes gather in an open
 transaction and are committed by a counter, by `flush`, `clear` or `close`.
 With `commit_every` 0 every write is committed at once, as the code does.
 The database itself is two tables: what the connection sees, and what a crash
 would leave.
 */
module SqliteStore {
  import opened Common

  type Table = map<string, string>

  datatype Failure = KeyMissing | DatabaseClosed | InvalidTableName

  datatype Mutation = Put(key: string, value: string) | Remove(key: string) | RemoveAll

  function Effect(t: Table, m: Mutation): Table
  {
    match m
    case Put(k, v) => t[k := v]
    case Remove(k) => t - {k}
    case RemoveAll => map[]
  }

  function Replay(t: Table, ms: seq<Mutation>): Table
  {
    if ms == [] then t else Effect(Replay(t, ms[..|ms| - 1]), ms[|ms| - 1])
  }

  /** `view` is the connection's table, `disk` the committed one. */
  datatype Store = Store(every: int, pending: nat, view: Table, disk: Table, isOpen: bool)

  function Opened(every: int, disk: Table): Store
  {
    Store(every, 0, disk, disk, true)
  }

  function Committed(s: Store): Store
  {
    s.(disk := s.view)
  }

  function AutoCommitted(s: Store): Store
  {
    if s.every == 0 then Committed(s)
    else if s.pending + 1 >= s.every then Committed(s).(pending := 0)
    else s.(pending := s.pending + 1)
  }

  datatype Op = Set(key: string, value: string) | Delete(key: string) | Clear | Flush

  /** One operation: the new store, and the mutation it made, if it succeeded and made one. */
  function Step(s: Store, op: Op): (Store, Result<Option<Mutation>, Failure>)
  {
    if !s.isOpen then (s, Err(DatabaseClosed)) else
    match op
    case Set(k, v) => (AutoCommitted(s.(view := s.view[k := v])), Ok(Some(Put(k, v))))
    case Delete(k) =>
      if k in s.view then (AutoCommitted(s.(view := s.view - {k})), Ok(Some(Remove(k))))
      else (s, Err(KeyMissing))
    case Clear => (Committed(s.(view := map[])).(pending := 0), Ok(Some(RemoveAll)))
    case Flush => (Committed(s).(pending := 0), Ok(None))
  }

  /** `close`: a commit whose failure is swallowed, then the end of the connection and its transaction. */
  function Closed(s: Store, commits: bool): Store
  {
    if s.isOpen && commits then Committed(s).(isOpen := false)
    else s.(view := s.disk, isOpen := false)
  }

  predicate NameStart(c: char)
  {
    'A' <= c <= 'Z' || 'a' <= c <= 'z' || c == '_'
  }

  /** `[A-Za-z_][A-Za-z0-9_]*` */
  predicate ValidName(table: string)
  {
    && table != "" && NameStart(table[0])
    && forall c :: c in table ==> NameStart(c) || '0' <= c <= '9'
  }

  /** `SqliteBackend(...)`: an error for a name that is no identifier, and no database is touched then. */
  method OpenBackend(table: string, commitEvery: int, disk: Table) returns (r: Result<SqliteBackend, Failure>)
    ensures r == Err(InvalidTableName) <==> !ValidName(table)
    ensures ValidName(table) ==> r.Ok? && fresh(r.value) && r.value.State() == Opened(commitEvery, disk)
  {
    if !ValidName(table) {
      return Err(InvalidTableName);
    }
    var backend := new SqliteBackend(commitEvery, disk);
    return Ok(backend);
  }

  class SqliteBackend {
    const commitEvery: int
    var pending: nat
    var view: Table
    var disk: Table
    var isOpen: bool

    ghost function State(): Store
      reads this
    {
      Store(commitEvery, pending, view, disk, isOpen)
    }

    constructor (commitEvery: int, disk: Table)
      ensures State() == Opened(commitEvery, disk)
    {
      this.commitEvery, this.pending, this.view, this.disk, this.isOpen := commitEvery, 0, disk, disk, true;
    }

    method Commit()
      modifies this`disk
      ensures State() == Committed(old(State()))
    {
      disk := view;
    }

    method AutoCommit()
      modifies this`disk, this`pending
      ensures State() == AutoCommitted(old(State()))
    {
      if commitEvery == 0 {
        Commit();
        return;
      }
      pending := pending + 1;
      if pending >= commitEvery {
        Commit();
        pending := 0;
      }
    }

    method Get(key: string) returns (r: Result<string, Failure>)
      ensures r == if !isOpen then Err(DatabaseClosed) else if key in view then Ok(view[key]) else Err(KeyMissing)
    {
      if !isOpen {
        return Err(DatabaseClosed);
      }
      if key !in view {
        return Err(KeyMissing);
      }
      return Ok(view[key]);
    }

    method SetItem(key: string, value: string) returns (r: Result<Option<Mutation>, Failure>)
      modifies this
      ensures (State(), r) == Step(old(State()), Set(key, value))
      ensures view == if old(isOpen) then old(view)[key := value] else old(view)
    {
      if !isOpen {
        return Err(DatabaseClosed);
      }
      view := view[key := value];
      AutoCommit();
      return Ok(Some(Put(key, value)));
    }

    method DeleteItem(key: string) returns (r: Result<Option<Mutation>, Failure>)
      modifies this
      ensures (State(), r) == Step(old(State()), Delete(key))
      ensures view == if old(isOpen) then old(view) - {key} else old(view)
    {
      if !isOpen {
        return Err(DatabaseClosed);
      }
      var rowcount := if key in view then 1 else 0;
      if rowcount == 0 {
        return Err(KeyMissing);
      }
      view := view - {key};
      AutoCommit();
      return Ok(Some(Remove(key)));
    }

    method ClearAll() returns (r: Result<Option<Mutation>, Failure>)
      modifies this
      ensures (State(), r) == Step(old(State()), Clear)
      ensures old(isOpen) ==> view == map[] && disk == map[] && pending == 0
    {
      if !isOpen {
        return Err(DatabaseClosed);
      }
      view := map[];
      Commit();
      pending := 0;
      return Ok(Some(RemoveAll));
    }

    method FlushAll() returns (r: Result<Option<Mutation>, Failure>)
      modifies this
      ensures (State(), r) == Step(old(State()), Flush)
      ensures view == old(view) && (old(isOpen) ==> disk == old(view) && pending == 0)
    {
      if !isOpen {
        return Err(DatabaseClosed);
      }
      Commit();
      pending := 0;
      return Ok(None);
    }

    /** `commits` is whether the final commit succeeds; its failure is not reported. */
    method Close(commits: bool)
      modifies this
      ensures State() == Closed(old(State()), commits)
    {
      if isOpen && commits {
        Commit();
      } else {
        view := disk;
      }
      isOpen := false;
    }
  }

  // ------------------------------------------------------------------------
  // Runs
  // ------------------------------------------------------------------------

  /** The store after `ops`, and the mutations that succeeded, in order. */
  function Run(s: Store, ops: seq<Op>): (Store, seq<Mutation>)
  {
    if ops == [] then (s, []) else
    var (before, ms) := Run(s, ops[..|ops| - 1]);
    var (after, r) := Step(before, ops[|ops| - 1]);
    (after, Extended(ms, r))
  }

  /** How many writes a crash may cost: fewer than `commit_every`, none if that is 0, 1 or negative. */
  function Tolerance(every: int): nat
  {
    if every > 1 then every - 1 else 0
  }

  /** The connection sees all mutations; the disk all but the last `pending` ones. */
  ghost predicate Durable(s: Store, start: Table, ms: seq<Mutation>)
  {
    && s.isOpen
    && s.pending <= |ms| && s.pending <= Tolerance(s.every)
    && s.view == Replay(start, ms)
    && s.disk == Replay(start, ms[..|ms| - s.pending])
  }

  /** The mutations after one more operation. */
  function Extended(ms: seq<Mutation>, r: Result<Option<Mutation>, Failure>): seq<Mutation>
  {
    if r.Ok? && r.value.Some? then ms + [r.value.value] else ms
  }

  lemma ReplayLast(start: Table, ms: seq<Mutation>, m: Mutation)
    ensures Replay(start, ms + [m]) == Effect(Replay(start, ms), m)
  {
    assert (ms + [m])[..|ms|] == ms;
  }

  /** A write is seen at once and committed with its batch. */
  lemma WriteKeepsDurable(s: Store, start: Table, ms: seq<Mutation>, m: Mutation)
    requires Durable(s, start, ms)
    ensures Durable(AutoCommitted(s.(view := Effect(s.view, m))), start, ms + [m])
  {
    ReplayLast(start, ms, m);
    assert (ms + [m])[..|ms| + 1] == ms + [m];
    assert (ms + [m])[..|ms| - s.pending] == ms[..|ms| - s.pending];
  }

  lemma CommitKeepsDurable(s: Store, start: Table, ms: seq<Mutation>)
    requires s.isOpen && s.view == Replay(start, ms)
    ensures Durable(Committed(s).(pending := 0), start, ms)
  {
    assert ms[..|ms|] == ms;
  }

  lemma StepKeepsDurable(s: Store, start: Table, ms: seq<Mutation>, op: Op)
    requires Durable(s, start, ms)
    ensures Durable(Step(s, op).0, start, Extended(ms, Step(s, op).1))
    ensures Step(s, op).0.every == s.every
  {
    match op
    case Set(k, v) => WriteKeepsDurable(s, start, ms, Put(k, v));
    case Delete(k) => WriteKeepsDurable(s, start, ms, Remove(k));
    case Clear =>
      ReplayLast(start, ms, RemoveAll);
      CommitKeepsDurable(s.(view := map[]), start, ms + [RemoveAll]);
    case Flush => CommitKeepsDurable(s, start, ms);
  }

  /**
   In every run the connection sees the effect of every successful mutation, and
   the disk that of a prefix of them, missing exactly the `pending` last ones,
   which are fewer than `commit_every`.
   */
  lemma {:induction false} CrashLosesOnlyPending(every: int, start: Table, ops: seq<Op>)
    ensures Durable(Run(Opened(every, start), ops).0, start, Run(Opened(every, start), ops).1)
    ensures Run(Opened(every, start), ops).0.every == every
  {
    if ops != [] {
      var before := ops[..|ops| - 1];
      CrashLosesOnlyPending(every, start, before);
      var (s, ms) := Run(Opened(every, start), before);
      StepKeepsDurable(s, start, ms, ops[|ops| - 1]);
    }
  }

  /** With `commit_every` 0, and after a flush or a clear, a crash loses nothing. */
  lemma {:induction false} NothingMissingAfterFlush(every: int, start: Table, ops: seq<Op>)
    requires every == 0 || (ops != [] && (ops[|ops| - 1].Flush? || ops[|ops| - 1].Clear?))
    ensures
      var (s, ms) := Run(Opened(every, start), ops);
      s.disk == s.view == Replay(start, ms)
  {
    CrashLosesOnlyPending(every, start, ops);
    if every != 0 {
      LastStepCommits(every, start, ops);
    }
    var (s, ms) := Run(Opened(every, start), ops);
    assert ms[..|ms|] == ms;
  }

  lemma LastStepCommits(every: int, start: Table, ops: seq<Op>)
    requires ops != [] && (ops[|ops| - 1].Flush? || ops[|ops| - 1].Clear?)
    ensures Run(Opened(every, start), ops).0.disk == Run(Opened(every, start), ops).0.view
  {
    CrashLosesOnlyPending(every, start, ops[..|ops| - 1]);
  }

  /**
   `commit_every` counts exactly: nothing reaches the disk before that many sets
   and successful deletes, and with the last of them all do.
   */
  lemma {:induction false} CommitsOnLastCountedWrite(s: Store, ops: seq<Op>)
    requires s.isOpen && s.pending < s.every && s.pending + |Run(s, ops).1| <= s.every
    requires forall i :: 0 <= i < |ops| ==> ops[i].Set? || ops[i].Delete?
    ensures
      var (n, writes) := Run(s, ops);
      && n.isOpen && n.every == s.every
      && (if s.pending + |writes| < s.every then n.pending == s.pending + |writes| && n.disk == s.disk
          else n.pending == 0 && n.disk == n.view)
  {
    if ops != [] {
      var front := ops[..|ops| - 1];
      assert forall i :: 0 <= i < |front| ==> front[i] == ops[i];
      CommitsOnLastCountedWrite(s, front);
    }
  }

  // ------------------------------------------------------------------------
  // What the operations asked for
  // ------------------------------------------------------------------------

  function Lookup(t: Table, key: string): Option<string>
  {
    if key in t then Some(t[key]) else None
  }

  /** What the operations leave under a key: the value last set since it was last deleted or all was cleared. */
  function LastWritten(start: Table, ops: seq<Op>, key: string): Option<string>
  {
    if ops == [] then Lookup(start, key) else
    var before := LastWritten(start, ops[..|ops| - 1], key);
    match ops[|ops| - 1]
    case Set(k, v) => if k == key then Some(v) else before
    case Delete(k) => if k == key then None else before
    case Clear => None
    case Flush => before
  }

  /** What the last of the operations answers, given what those before it left. */
  function Answer(start: Table, ops: seq<Op>): Result<Option<Mutation>, Failure>
    requires ops != []
  {
    match ops[|ops| - 1]
    case Set(k, v) => Ok(Some(Put(k, v)))
    case Delete(k) =>
      if LastWritten(start, ops[..|ops| - 1], k).Some? then Ok(Some(Remove(k))) else Err(KeyMissing)
    case Clear => Ok(Some(RemoveAll))
    case Flush => Ok(None)
  }

  /** How many of the operations wrote: a delete of a missing key and a flush do not. */
  function Writes(start: Table, ops: seq<Op>): nat
  {
    if ops == [] then 0
    else
      Writes(start, ops[..|ops| - 1]) +
      if Answer(start, ops).Ok? && !ops[|ops| - 1].Flush? then 1 else 0
  }

  /** The connection's table, key by key. */
  ghost predicate Reads(t: Table, start: Table, ops: seq<Op>)
  {
    forall key :: Lookup(t, key) == LastWritten(start, ops, key)
  }

  lemma StepReads(s: Store, start: Table, ops: seq<Op>)
    requires ops != [] && s.isOpen && Reads(s.view, start, ops[..|ops| - 1])
    ensures Reads(Step(s, ops[|ops| - 1]).0.view, start, ops)
  {
    forall key
      ensures Lookup(Step(s, ops[|ops| - 1]).0.view, key) == LastWritten(start, ops, key)
    {
      assert Lookup(s.view, key) == LastWritten(start, ops[..|ops| - 1], key);
    }
  }

  lemma StepAnswers(s: Store, start: Table, ops: seq<Op>)
    requires ops != [] && s.isOpen && Reads(s.view, start, ops[..|ops| - 1])
    ensures Step(s, ops[|ops| - 1]).1 == Answer(start, ops)
    ensures Step(s, ops[|ops| - 1]).0.isOpen && Step(s, ops[|ops| - 1]).0.every == s.every
  {
    if ops[|ops| - 1].Delete? {
      assert Lookup(s.view, ops[|ops| - 1].key) == LastWritten(start, ops[..|ops| - 1], ops[|ops| - 1].key);
    }
  }

  /** While a write waits, the disk is as before and the counter counts it. */
  lemma StepPends(s: Store, op: Op)
    requires s.isOpen && s.pending <= Tolerance(s.every) && Step(s, op).0.pending > 0
    ensures Step(s, op).0.disk == s.disk
    ensures Step(s, op).0.pending == s.pending + if Step(s, op).1.Ok? && !op.Flush? then 1 else 0
  {
  }

  /**
   Read your own writes: in every run a key reads as the value last set, each
   operation answers accordingly, and the mutations are those that were asked for.
   */
  lemma {:induction false} ReadsLastWritten(every: int, start: Table, ops: seq<Op>)
    ensures Run(Opened(every, start), ops).0.isOpen && Run(Opened(every, start), ops).0.every == every
    ensures Reads(Run(Opened(every, start), ops).0.view, start, ops)
    ensures |Run(Opened(every, start), ops).1| == Writes(start, ops)
    ensures ops != [] ==>
      var before := Run(Opened(every, start), ops[..|ops| - 1]);
      && Step(before.0, ops[|ops| - 1]).1 == Answer(start, ops)
      && Run(Opened(every, start), ops).1 == Extended(before.1, Answer(start, ops))
  {
    if ops != [] {
      var before := ops[..|ops| - 1];
      ReadsLastWritten(every, start, before);
      StepReads(Run(Opened(every, start), before).0, start, ops);
      StepAnswers(Run(Opened(every, start), before).0, start, ops);
    }
  }

  /**
   What a crash leaves is what some of the first operations wrote, key by key:
   all but the last `pending` writes, fewer than `commit_every` of them.
   */
  lemma {:induction false} CrashKeepsFirstOperations(every: int, start: Table, ops: seq<Op>) returns (kept: nat)
    ensures kept <= |ops|
    ensures
      var s := Run(Opened(every, start), ops).0;
      && Reads(s.disk, start, ops[..kept])
      && Writes(start, ops) == Writes(start, ops[..kept]) + s.pending
      && s.pending <= Tolerance(every)
  {
    CrashLosesOnlyPending(every, start, ops);
    ReadsLastWritten(every, start, ops);
    var s := Run(Opened(every, start), ops).0;
    kept := |ops|;
    assert ops[..|ops|] == ops;
    if s.pending > 0 {
      var n := |ops| - 1;
      kept := CrashKeepsFirstOperations(every, start, ops[..n]);
      assert ops[..n][..kept] == ops[..kept];
      PendingGrows(every, start, ops);
    } else {
      NothingPending(every, start, ops);
    }
  }

  lemma PendingGrows(every: int, start: Table, ops: seq<Op>)
    requires ops != [] && Run(Opened(every, start), ops).0.pending > 0
    ensures
      var before := Run(Opened(every, start), ops[..|ops| - 1]).0;
      var s := Run(Opened(every, start), ops).0;
      && s.disk == before.disk
      && s.pending == before.pending + Writes(start, ops) - Writes(start, ops[..|ops| - 1])
  {
    ReadsLastWritten(every, start, ops[..|ops| - 1]);
    CrashLosesOnlyPending(every, start, ops[..|ops| - 1]);
    var before := Run(Opened(every, start), ops[..|ops| - 1]).0;
    StepPends(before, ops[|ops| - 1]);
    StepAnswers(before, start, ops);
  }

  lemma NothingPending(every: int, start: Table, ops: seq<Op>)
    requires Run(Opened(every, start), ops).0.pending == 0
    ensures Run(Opened(every, start), ops).0.disk == Run(Opened(every, start), ops).0.view
  {
    CrashLosesOnlyPending(every, start, ops);
    var (s, ms) := Run(Opened(every, start), ops);
    assert ms[..|ms|] == ms;
  }

  // ------------------------------------------------------------------------
  // Sessions
  // ------------------------------------------------------------------------

  /** How a session ends: closed, with its last commit succeeding or not, or cut off by a crash. */
  datatype Ending = CloseOk | CloseFailed | Crash

  datatype Session = Session(every: int, ops: seq<Op>, ending: Ending)

  function DiskAfter(disk: Table, session: Session): Table
  {
    var s := Run(Opened(session.every, disk), session.ops).0;
    if session.ending.Crash? then s.disk else Closed(s, session.ending.CloseOk?).disk
  }

  function DiskAfterAll(disk: Table, sessions: seq<Session>): Table
    decreases |sessions|
  {
    if sessions == [] then disk else DiskAfterAll(DiskAfter(disk, sessions[0]), sessions[1..])
  }

  lemma {:induction false} ReplayAppend(t: Table, a: seq<Mutation>, b: seq<Mutation>)
    ensures Replay(t, a + b) == Replay(Replay(t, a), b)
  {
    if b == [] {
      assert a + b == a;
    } else {
      assert (a + b)[..|a + b| - 1] == a + b[..|b| - 1];
      ReplayAppend(t, a, b[..|b| - 1]);
    }
  }

  /** One session leaves a prefix of its mutations on disk, and all of them if it closed properly. */
  lemma SessionKeepsPrefix(disk: Table, session: Session) returns (kept: seq<Mutation>)
    ensures
      var ms := Run(Opened(session.every, disk), session.ops).1;
      && kept <= ms
      && |ms| - |kept| <= Tolerance(session.every)
      && (session.ending.CloseOk? ==> kept == ms)
    ensures DiskAfter(disk, session) == Replay(disk, kept)
  {
    CrashLosesOnlyPending(session.every, disk, session.ops);
    var (s, ms) := Run(Opened(session.every, disk), session.ops);
    kept := if session.ending.CloseOk? then ms else ms[..|ms| - s.pending];
  }

  /**
   Over any number of sessions, however each ended, the file holds the effect
   of the sessions' mutations one after another, each cut short by fewer than
   its `commit_every` last ones, and not at all if it closed properly.
   */
  lemma {:induction false} SessionsKeepPrefixes(disk: Table, sessions: seq<Session>) returns (kept: seq<Mutation>)
    ensures DiskAfterAll(disk, sessions) == Replay(disk, kept)
    ensures KeptFrom(disk, sessions, kept)
    decreases |sessions|
  {
    if sessions == [] {
      kept := [];
    } else {
      var first := SessionKeepsPrefix(disk, sessions[0]);
      var rest := SessionsKeepPrefixes(DiskAfter(disk, sessions[0]), sessions[1..]);
      kept := first + rest;
      ReplayAppend(disk, first, rest);
      assert kept[..|first|] == first && kept[|first|..] == rest;
    }
  }

  /** `kept` is made of one admissible prefix per session. */
  ghost predicate KeptFrom(disk: Table, sessions: seq<Session>, kept: seq<Mutation>)
    decreases |sessions|
  {
    if sessions == [] then kept == []
    else
      var ms := Run(Opened(sessions[0].every, disk), sessions[0].ops).1;
      exists n: nat :: n <= |ms| && n <= |kept|
        && kept[..n] == ms[..n]
        && |ms| - n <= Tolerance(sessions[0].every)
        && (sessions[0].ending.CloseOk? ==> n == |ms|)
        && KeptFrom(DiskAfter(disk, sessions[0]), sessions[1..], kept[n..])
  }
}
