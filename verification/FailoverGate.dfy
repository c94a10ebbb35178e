/**
 The single-flight gate behind ordered failover: one leader, any number of
 waiters, and a cancellation handoff that passes leadership on.

 The gate's code runs in sections: everything between taking the condition's
 lock and either returning or reaching `wait()` happens without interruption.
 `FailoverGate` is the object those sections update; `System` is any number of
 tasks running sections of one gate in any order.
 */
module FailoverGates {
  import opened Common

  // ------------------------------------------------------------------------
  // One gate
  // ------------------------------------------------------------------------

  /** The five fields of a gate, as a value. */
  datatype GateState<+O, +P> = GateState(
    generation: nat,
    active: bool,
    orphaned: bool,
    pending: Option<P>,
    outcome: Option<O>)

  /** `Wait` is the coordinator's `wait`: an `await_active` whose leadership flag is thrown away. */
  datatype Call = AwaitActive | Claim(observed: nat) | Wait

  /** How a section ends: back to sleep on the condition, or out of the call. */
  datatype Verdict<+O, +P> =
    | Sleep
    | Return(leader: bool, generation: nat, outcome: Option<O>, pending: Option<P>, waited: bool)

  /** One section of `await_active`, `claim_with_waited` or `wait`, from the lock to `wait()` or `return`. */
  function Section<O, P>(g: GateState<O, P>, call: Call, waited: bool): (GateState<O, P>, Verdict<O, P>)
  {
    if g.active && g.orphaned then
      (g.(orphaned := false, pending := None), Return(true, g.generation, None, g.pending, true))
    else if g.active then
      (g, Sleep)
    else if !call.Claim? || g.generation != call.observed then
      (g, Return(false, g.generation, g.outcome, None, waited))
    else
      (GateState(g.generation + 1, true, false, None, None),
       Return(true, g.generation + 1, None, None, waited))
  }

  function Published<O, P>(g: GateState<O, P>, outcome: Option<O>): GateState<O, P>
  {
    g.(outcome := outcome, active := false, orphaned := false, pending := None)
  }

  function HandedOff<O, P>(g: GateState<O, P>, pending: Option<P>): GateState<O, P>
  {
    g.(orphaned := true, pending := pending)
  }

  class FailoverGate<O, P> {
    var generation: nat
    var active: bool
    var orphaned: bool
    var pending: Option<P>
    var outcome: Option<O>

    ghost function State(): GateState<O, P>
      reads this
    {
      GateState(generation, active, orphaned, pending, outcome)
    }

    constructor ()
      ensures State() == GateState(0, false, false, None, None)
    {
      generation, active, orphaned, pending, outcome := 0, false, false, None, None;
    }

    /** The loop of `await_active`, run from its lock (or a wake-up) to its next `wait()` or return. */
    method AwaitActiveSection(waitedBefore: bool) returns (verdict: Verdict<O, P>)
      modifies this
      ensures (State(), verdict) == Section(old(State()), AwaitActive, waitedBefore)
    {
      if active {
        if orphaned {
          orphaned := false;
          var taken := pending;
          pending := None;
          return Return(true, generation, None, taken, true);
        }
        return Sleep;
      }
      return Return(false, generation, outcome, None, waitedBefore);
    }

    method ClaimSection(observed: nat, waitedBefore: bool) returns (verdict: Verdict<O, P>)
      modifies this
      ensures (State(), verdict) == Section(old(State()), Claim(observed), waitedBefore)
    {
      if active {
        if orphaned {
          orphaned := false;
          var taken := pending;
          pending := None;
          return Return(true, generation, None, taken, true);
        }
        return Sleep;
      }
      if generation != observed {
        return Return(false, generation, outcome, None, waitedBefore);
      }
      generation := generation + 1;
      active := true;
      orphaned := false;
      pending := None;
      outcome := None;
      return Return(true, generation, None, None, waitedBefore);
    }

    method Publish(result: Option<O>)
      modifies this
      ensures State() == Published(old(State()), result)
    {
      outcome := result;
      active := false;
      orphaned := false;
      pending := None;
    }

    method Handoff(value: Option<P>)
      modifies this
      ensures State() == HandedOff(old(State()), value)
    {
      orphaned := true;
      pending := value;
    }
  }

  // ------------------------------------------------------------------------
  // Any number of tasks around one gate
  // ------------------------------------------------------------------------

  type Task = nat

  /** `Asleep` waits for a notification; `Notified` has one and waits for the lock. */
  datatype Phase = Idle | Asleep(call: Call) | Notified(call: Call) | Leading

  /** What happened to leadership, in order. */
  datatype Event<+O, +P> =
    | Open(generation: nat, who: Task)
    | TakeOver(generation: nat, who: Task, value: Option<P>)
    | Drop(generation: nat, who: Task, value: Option<P>)
    | HandOver(generation: nat, who: Task, value: Option<P>)
    | Publication(generation: nat, who: Task, result: Option<O>)

  datatype System<+O, +P> = System(
    gate: GateState<O, P>,
    tasks: map<Task, Phase>,
    log: seq<Event<O, P>>)

  datatype Action<+O, +P> =
    | Begin(task: Task, call: Call)
    | Wake(task: Task)
    | Cancel(task: Task)
    | Publish(task: Task, result: Option<O>)
    | Handoff(task: Task, value: Option<P>)

  function Initial<O, P>(): System<O, P>
  {
    System(GateState(0, false, false, None, None), map[], [])
  }

  function PhaseOf<O, P>(s: System<O, P>, t: Task): Phase
  {
    if t in s.tasks then s.tasks[t] else Idle
  }

  predicate Waiting(phase: Phase)
  {
    phase.Asleep? || phase.Notified?
  }

  /** A claim names a generation its caller has already seen; only the leader publishes or hands off. */
  predicate Enabled<O, P>(s: System<O, P>, a: Action<O, P>)
  {
    var phase := PhaseOf(s, a.task);
    match a
    case Begin(_, call) => phase.Idle? && (call.Claim? ==> call.observed <= s.gate.generation)
    case Wake(_) => phase.Notified?
    case Cancel(_) => Waiting(phase)
    case Publish(_, _) => phase.Leading?
    case Handoff(_, _) => phase.Leading?
  }

  function NotifyAll(tasks: map<Task, Phase>): map<Task, Phase>
  {
    map t | t in tasks :: if tasks[t].Asleep? then Notified(tasks[t].call) else tasks[t]
  }

  /**
   Task `t` runs one section of `call` and moves to the phase its verdict gives
   it. A `wait` that is handed leadership drops it and its caller goes on as if
   there were no failover.
   */
  function RunSection<O, P>(s: System<O, P>, t: Task, call: Call, waited: bool): System<O, P>
  {
    var (g, verdict) := Section(s.gate, call, waited);
    match verdict
    case Sleep =>
      System(g, s.tasks[t := Asleep(call)], s.log)
    case Return(leader, generation, _, pending, _) =>
      var event :=
        if !leader then []
        else if call.Wait? then [Drop(generation, t, pending)]
        else if s.gate.active then [TakeOver(generation, t, pending)]
        else [Open(generation, t)];
      System(g, s.tasks[t := if leader && !call.Wait? then Leading else Idle], s.log + event)
  }

  function Next<O, P>(s: System<O, P>, a: Action<O, P>): System<O, P>
    requires Enabled(s, a)
  {
    var t := a.task;
    match a
    case Begin(_, call) => RunSection(s, t, call, false)
    case Wake(_) => RunSection(s, t, PhaseOf(s, t).call, true)
    case Cancel(_) => s.(tasks := s.tasks[t := Idle])
    case Publish(_, result) =>
      System(Published(s.gate, result), NotifyAll(s.tasks[t := Idle]),
             s.log + [Publication(s.gate.generation, t, result)])
    case Handoff(_, value) =>
      System(HandedOff(s.gate, value), NotifyAll(s.tasks[t := Idle]),
             s.log + [HandOver(s.gate.generation, t, value)])
  }

  /** The state after running `actions` from `s`, or None if one of them is not enabled. */
  function Exec<O, P>(s: System<O, P>, actions: seq<Action<O, P>>): Option<System<O, P>>
    decreases |actions|
  {
    if actions == [] then Some(s)
    else if Enabled(s, actions[0]) then Exec(Next(s, actions[0]), actions[1..])
    else None
  }

  ghost predicate Reachable<O(!new), P(!new)>(s: System<O, P>)
  {
    exists actions :: Exec(Initial(), actions) == Some(s)
  }

  // ------------------------------------------------------------------------
  // The invariant: the log explains the gate and the leader
  // ------------------------------------------------------------------------

  /** The leadership events that may directly follow one another; nothing follows a drop. */
  predicate Follows<O, P(==)>(e: Event<O, P>, f: Event<O, P>)
  {
    match e
    case Open(g, t) => f.generation == g && f.who == t && (f.Publication? || f.HandOver?)
    case TakeOver(g, t, _) => f.generation == g && f.who == t && (f.Publication? || f.HandOver?)
    case HandOver(g, _, v) => (f.TakeOver? || f.Drop?) && f.generation == g && f.value == v
    case Drop(_, _, _) => false
    case Publication(g, _, _) => f.Open? && f.generation == g + 1
  }

  predicate Chained<O, P(==)>(log: seq<Event<O, P>>)
  {
    && (log != [] ==> log[0].Open? && log[0].generation == 1)
    && forall i :: 0 < i < |log| ==> Follows(log[i - 1], log[i])
  }

  /** The gate that the last leadership event leaves behind. */
  function GateAfter<O, P>(log: seq<Event<O, P>>): GateState<O, P>
  {
    if log == [] then GateState(0, false, false, None, None) else
    match log[|log| - 1]
    case Open(g, _) => GateState(g, true, false, None, None)
    case TakeOver(g, _, _) => GateState(g, true, false, None, None)
    case Drop(g, _, _) => GateState(g, true, false, None, None)
    case HandOver(g, _, v) => GateState(g, true, true, v, None)
    case Publication(g, _, o) => GateState(g, false, false, None, o)
  }

  /** The task that the last leadership event leaves in charge. */
  function LeaderAfter<O, P>(log: seq<Event<O, P>>): Option<Task>
  {
    if log == [] then None else
    match log[|log| - 1]
    case Open(_, t) => Some(t)
    case TakeOver(_, t, _) => Some(t)
    case Drop(_, _, _) => None
    case HandOver(_, _, _) => None
    case Publication(_, _, _) => None
  }

  /** Leadership was last thrown away by a `wait`. */
  predicate Dropped<O, P>(log: seq<Event<O, P>>)
  {
    log != [] && log[|log| - 1].Drop?
  }

  ghost predicate Inv<O, P>(s: System<O, P>)
  {
    && Chained(s.log)
    && s.gate == GateAfter(s.log)
    && (forall t: Task :: PhaseOf(s, t).Leading? <==> LeaderAfter(s.log) == Some(t))
    && (forall t: Task :: PhaseOf(s, t).Asleep? ==> LeaderAfter(s.log).Some? || Dropped(s.log))
    && (forall t: Task {:trigger PhaseOf(s, t)} :: Waiting(PhaseOf(s, t)) && PhaseOf(s, t).call.Claim? ==>
          PhaseOf(s, t).call.observed <= s.gate.generation)
  }

  lemma ChainExtends<O, P>(log: seq<Event<O, P>>, e: Event<O, P>)
    requires Chained(log)
    requires if log == [] then e.Open? && e.generation == 1 else Follows(log[|log| - 1], e)
    ensures Chained(log + [e])
  {
    assert forall i :: 0 <= i < |log| ==> (log + [e])[i] == log[i];
  }

  lemma SectionKeepsInv<O, P>(s: System<O, P>, t: Task, call: Call, waited: bool)
    requires Inv(s) && !PhaseOf(s, t).Leading?
    requires call.Claim? ==> call.observed <= s.gate.generation
    ensures Inv(RunSection(s, t, call, waited))
  {
    var n := RunSection(s, t, call, waited);
    assert forall u: Task :: u != t ==> PhaseOf(n, u) == PhaseOf(s, u);
    if s.gate.active && !s.gate.orphaned {
      assert PhaseOf(n, t) == Asleep(call);
    } else if s.gate.active && call.Wait? {
      assert PhaseOf(n, t).Idle?;
      ChainExtends(s.log, Drop(s.gate.generation, t, s.gate.pending));
    } else if PhaseOf(n, t).Leading? {
      var e := if s.gate.active then TakeOver(s.gate.generation, t, s.gate.pending) else Open(s.gate.generation + 1, t);
      assert n.log == s.log + [e];
      ChainExtends(s.log, e);
    } else {
      assert PhaseOf(n, t).Idle? && n.log == s.log && n.gate == s.gate;
    }
  }

  lemma EndKeepsInv<O, P>(s: System<O, P>, a: Action<O, P>)
    requires Inv(s) && Enabled(s, a) && (a.Publish? || a.Handoff?)
    ensures Inv(Next(s, a))
  {
    var n := Next(s, a);
    assert PhaseOf(n, a.task).Idle?;
    assert forall u: Task :: u != a.task ==>
      PhaseOf(n, u) == (var p := PhaseOf(s, u); if p.Asleep? then Notified(p.call) else p);
    ChainExtends(s.log, n.log[|s.log|]);
  }

  lemma NextKeepsInv<O, P>(s: System<O, P>, a: Action<O, P>)
    requires Inv(s) && Enabled(s, a)
    ensures Inv(Next(s, a))
    ensures s.log <= Next(s, a).log
    ensures s.gate.generation <= Next(s, a).gate.generation
  {
    var t := a.task;
    match a
    case Begin(_, call) => SectionKeepsInv(s, t, call, false);
    case Wake(_) => SectionKeepsInv(s, t, PhaseOf(s, t).call, true);
    case Cancel(_) => assert forall u: Task :: u != t ==> PhaseOf(Next(s, a), u) == PhaseOf(s, u);
    case Publish(_, _) => EndKeepsInv(s, a);
    case Handoff(_, _) => EndKeepsInv(s, a);
  }

  /** From a free gate no step but an opening makes it busy. */
  lemma FreeUntilOpened<O, P>(s: System<O, P>, a: Action<O, P>)
    requires Inv(s) && Enabled(s, a) && !s.gate.active
    ensures Next(s, a).gate.generation == s.gate.generation ==> !Next(s, a).gate.active
  {
    assert PhaseOf(s, a.task).Leading? <==> LeaderAfter(s.log) == Some(a.task);
  }

  lemma {:induction false} RunKeepsInv<O, P>(s: System<O, P>, actions: seq<Action<O, P>>)
    requires Inv(s) && Exec(s, actions).Some?
    ensures Inv(Exec(s, actions).value)
    ensures s.log <= Exec(s, actions).value.log
    ensures s.gate.generation <= Exec(s, actions).value.gate.generation
    decreases |actions|
  {
    if actions != [] {
      NextKeepsInv(s, actions[0]);
      RunKeepsInv(Next(s, actions[0]), actions[1..]);
    }
  }

  lemma ReachableInv<O(!new), P(!new)>(s: System<O, P>)
    requires Reachable(s)
    ensures Inv(s)
  {
    var actions :| Exec(Initial(), actions) == Some(s);
    RunKeepsInv(Initial(), actions);
  }

  // ------------------------------------------------------------------------
  // What every run keeps
  // ------------------------------------------------------------------------

  function CountOpens<O, P>(log: seq<Event<O, P>>): nat
  {
    if log == [] then 0
    else CountOpens(log[..|log| - 1]) + if log[|log| - 1].Open? then 1 else 0
  }

  lemma {:induction false} OpensNumberGenerations<O, P>(log: seq<Event<O, P>>)
    requires Chained(log)
    ensures CountOpens(log) == GateAfter(log).generation
  {
    if log != [] {
      var before := log[..|log| - 1];
      OpensNumberGenerations(before);
      assert before != [] ==> Follows(log[|log| - 2], log[|log| - 1]);
    }
  }

  /**
   Never two leaders; a leader exactly while the gate is active and not
   orphaned, unless a `wait` threw leadership away; and as many generations as
   there were fresh claims.
   */
  lemma AtMostOneLeader<O(!new), P(!new)>(s: System<O, P>)
    requires Reachable(s)
    ensures forall t: Task, u: Task :: PhaseOf(s, t).Leading? && PhaseOf(s, u).Leading? ==> t == u
    ensures (exists t: Task :: PhaseOf(s, t).Leading?) <==> s.gate.active && !s.gate.orphaned && !Dropped(s.log)
    ensures s.gate.orphaned ==> s.gate.active
    ensures s.gate.generation == CountOpens(s.log)
  {
    ReachableInv(s);
    OpensNumberGenerations(s.log);
    if s.gate.active && !s.gate.orphaned && !Dropped(s.log) {
      assert PhaseOf(s, LeaderAfter(s.log).value).Leading?;
    }
  }

  /**
   No lost wake-up, as long as no `wait` has thrown leadership away. A task asleep without a notification has a live leader to
   wake it, and any waiter, whatever the others do, is at most two steps from
   the end of its call: a publication by the leader, if there is one, and its
   own wake-up.
   */
  lemma NoLostWakeup<O(!new), P(!new)>(s: System<O, P>, t: Task)
    requires Reachable(s) && !Dropped(s.log) && Waiting(PhaseOf(s, t))
    ensures PhaseOf(s, t).Asleep? ==> s.gate.active && !s.gate.orphaned && exists u: Task :: PhaseOf(s, u).Leading?
    ensures !(s.gate.active && !s.gate.orphaned) ==>
      Enabled(s, Wake(t)) && !Waiting(PhaseOf(Next(s, Wake(t)), t))
    ensures s.gate.active && !s.gate.orphaned ==>
      exists u: Task :: PhaseOf(s, u).Leading? &&
        forall result :: Exec(s, [Publish(u, result), Wake(t)]).Some? &&
          !Waiting(PhaseOf(Exec(s, [Publish(u, result), Wake(t)]).value, t))
  {
    ReachableInv(s);
    if s.gate.active && !s.gate.orphaned {
      var u := LeaderAfter(s.log).value;
      assert PhaseOf(s, u).Leading?;
      forall result
        ensures Exec(s, [Publish(u, result), Wake(t)]).Some?
        ensures !Waiting(PhaseOf(Exec(s, [Publish(u, result), Wake(t)]).value, t))
      {
        var actions := [Publish(u, result), Wake(t)];
        var n := Next(s, actions[0]);
        assert actions[1..] == [Wake(t)];
        assert PhaseOf(n, t).Notified?;
        assert Enabled(n, actions[1..][0]);
        assert Exec(n, actions[1..]) == Some(Next(n, Wake(t)));
      }
    }
  }

  /** Once a leader publishes or hands off, no task is left asleep: every waiter has its notification. */
  lemma EndOfLeadershipNotifiesAll<O(!new), P(!new)>(s: System<O, P>, a: Action<O, P>, t: Task)
    requires Reachable(s) && Enabled(s, a) && (a.Publish? || a.Handoff?)
    requires Waiting(PhaseOf(s, t))
    ensures PhaseOf(Next(s, a), t) == Notified(PhaseOf(s, t).call)
    ensures !Waiting(PhaseOf(Next(Next(s, a), Wake(t)), t))
  {
    ReachableInv(s);
  }

  // ------------------------------------------------------------------------
  // Generations and their publications
  // ------------------------------------------------------------------------

  lemma {:induction false} GenerationsAscend<O, P>(log: seq<Event<O, P>>, i: nat, j: nat)
    requires Chained(log) && i <= j < |log|
    ensures log[i].generation <= log[j].generation
    ensures i < j && log[i].Publication? ==> log[i].generation < log[j].generation
    ensures i < j && log[j].Open? ==> log[i].generation < log[j].generation
    decreases j - i
  {
    if i < j {
      GenerationsAscend(log, i, j - 1);
      assert Follows(log[j - 1], log[j]);
      if i < j - 1 && log[i].Publication? {
        GenerationsAscend(log, i + 1, j);
        assert Follows(log[i], log[i + 1]);
      }
    }
  }

  /** Each generation is opened once and published once. */
  lemma OnePublicationPerGeneration<O(!new), P(!new)>(s: System<O, P>, i: nat, j: nat)
    requires Reachable(s) && i < |s.log| && j < |s.log|
    requires s.log[i].generation == s.log[j].generation
    requires (s.log[i].Publication? && s.log[j].Publication?) || (s.log[i].Open? && s.log[j].Open?)
    ensures i == j
  {
    ReachableInv(s);
    if i < j {
      GenerationsAscend(s.log, i, j);
    } else if j < i {
      GenerationsAscend(s.log, j, i);
    }
  }

  /** The generation before an opening has just been published: that publication is the preceding event. */
  lemma PublishedBeforeNextOpens<O(!new), P(!new)>(s: System<O, P>, i: nat)
    requires Reachable(s) && i < |s.log| && s.log[i].Open?
    ensures s.log[i].generation == 1 <==> i == 0
    ensures i > 0 ==> s.log[i - 1].Publication? && s.log[i - 1].generation == s.log[i].generation - 1
  {
    ReachableInv(s);
    if i > 0 {
      assert Follows(s.log[i - 1], s.log[i]);
      GenerationsAscend(s.log, 0, i);
    }
  }

  /**
   A refused claim reports a generation later than the one its caller had
   observed, together with the outcome that was published for it.
   */
  lemma RefusedClaimSeesLaterOutcome<O(!new), P(!new)>(s: System<O, P>, t: Task, observed: nat, waited: bool)
    requires Reachable(s)
    requires
      || Enabled(s, Begin(t, Claim(observed)))
      || PhaseOf(s, t) == Notified(Claim(observed))
    requires
      var verdict := Section(s.gate, Claim(observed), waited).1;
      verdict.Return? && !verdict.leader
    ensures
      var verdict := Section(s.gate, Claim(observed), waited).1;
      && observed < verdict.generation
      && s.log != []
      && (var last := s.log[|s.log| - 1];
          last.Publication? && last.generation == verdict.generation && last.result == verdict.outcome)
  {
    ReachableInv(s);
    assert Waiting(PhaseOf(s, t)) ==> PhaseOf(s, t).call == Claim(observed);
  }

  // ------------------------------------------------------------------------
  // What a call answers
  // ------------------------------------------------------------------------

  /** The result of the last publication, if there has been one. */
  function LastResult<O, P>(log: seq<Event<O, P>>): Option<O>
  {
    if log == [] then None
    else if log[|log| - 1].Publication? then log[|log| - 1].result
    else LastResult(log[..|log| - 1])
  }

  /** The value of the handoff that nobody has taken over yet, if the last event is one. */
  function OnOffer<O, P>(log: seq<Event<O, P>>): Option<Option<P>>
  {
    if log != [] && log[|log| - 1].HandOver? then Some(log[|log| - 1].value) else None
  }

  /** A leader was appointed and has neither published nor handed off. */
  predicate Busy<O, P>(log: seq<Event<O, P>>)
  {
    log != [] && (log[|log| - 1].Open? || log[|log| - 1].TakeOver? || log[|log| - 1].Drop?)
  }

  /** The call whose section step `a` runs. */
  function CallOf<O, P>(s: System<O, P>, a: Action<O, P>): Call
    requires Enabled(s, a) && (a.Begin? || a.Wake?)
  {
    if a.Begin? then a.call else PhaseOf(s, a.task).call
  }

  /**
   What the history alone says that a call answers when it gets the lock: on a
   busy gate it sleeps; a handoff on offer makes it leader of the same generation
   with the value handed off; a claim of the present generation opens the next
   one; and any other call is told the number of generations so far, the result
   last published, and whether it has slept.
   */
  function Answer<O, P>(log: seq<Event<O, P>>, call: Call, slept: bool): Verdict<O, P>
  {
    if Busy(log) then Sleep
    else if OnOffer(log).Some? then Return(true, CountOpens(log), None, OnOffer(log).value, true)
    else if call == Claim(CountOpens(log)) then Return(true, CountOpens(log) + 1, None, None, slept)
    else Return(false, CountOpens(log), LastResult(log), None, slept)
  }

  /** Every section of every call answers what the history says, and sleeps at most as long as the gate is busy. */
  lemma AnswersFollowHistory<O(!new), P(!new)>(s: System<O, P>, a: Action<O, P>)
    requires Reachable(s) && Enabled(s, a) && (a.Begin? || a.Wake?)
    ensures Section(s.gate, CallOf(s, a), a.Wake?).1 == Answer(s.log, CallOf(s, a), a.Wake?)
    ensures PhaseOf(Next(s, a), a.task) ==
      match Answer(s.log, CallOf(s, a), a.Wake?)
      case Sleep => Asleep(CallOf(s, a))
      case Return(leader, _, _, _, _) => if leader && !CallOf(s, a).Wait? then Leading else Idle
  {
    ReachableInv(s);
    OpensNumberGenerations(s.log);
  }

  /**
   A value handed off reaches exactly one successor: the next leadership event,
   if there has been one, takes over that value (or is a `wait` dropping it), and
   until then the gate holds it; and every take-over receives the value of the
   handoff just before it.
   */
  lemma HandoffReachesOneSuccessor<O(!new), P(!new)>(s: System<O, P>, i: nat)
    requires Reachable(s) && i < |s.log|
    ensures s.log[i].HandOver? && i + 1 < |s.log| ==>
      || s.log[i + 1] == TakeOver(s.log[i].generation, s.log[i + 1].who, s.log[i].value)
      || s.log[i + 1] == Drop(s.log[i].generation, s.log[i + 1].who, s.log[i].value)
    ensures s.log[i].HandOver? && i + 1 == |s.log| ==>
      s.gate.orphaned && s.gate.pending == s.log[i].value && s.gate.generation == s.log[i].generation
    ensures s.log[i].TakeOver? ==>
      i > 0 && s.log[i - 1] == HandOver(s.log[i].generation, s.log[i - 1].who, s.log[i].value)
  {
    ReachableInv(s);
    if i + 1 < |s.log| {
      assert Follows(s.log[i], s.log[i + 1]);
    }
    if i > 0 {
      assert Follows(s.log[i - 1], s.log[i]);
    }
  }

  /** A take-over keeps the generation, whatever generation the new leader had observed; a fresh claim adds one. */
  lemma OrphanTakeoverKeepsGeneration<O(!new), P(!new)>(s: System<O, P>, a: Action<O, P>)
    requires Reachable(s) && Enabled(s, a) && (a.Begin? || a.Wake?)
    requires PhaseOf(Next(s, a), a.task).Leading?
    ensures s.gate.orphaned <==> Next(s, a).gate.generation == s.gate.generation
    ensures !s.gate.orphaned <==> Next(s, a).gate.generation == s.gate.generation + 1
    ensures s.gate.orphaned ==>
      Next(s, a).log == s.log + [TakeOver(s.gate.generation, a.task, s.gate.pending)]
  {
    ReachableInv(s);
  }

  // ------------------------------------------------------------------------
  // A wait that drops leadership
  // ------------------------------------------------------------------------

  /** The gate is taken, nobody is in charge of it, and it is not on offer. */
  ghost predicate Stranded<O, P>(s: System<O, P>)
  {
    && s.gate.active && !s.gate.orphaned
    && forall t: Task :: !PhaseOf(s, t).Leading?
  }

  /** Step `a` is a section of a `wait`, its first or one after a wake-up, that finds the gate on offer. */
  predicate WaitFindsOrphan<O, P>(s: System<O, P>, a: Action<O, P>)
    requires Enabled(s, a)
  {
    && (a.Begin? || a.Wake?)
    && (if a.Begin? then a.call else PhaseOf(s, a.task).call).Wait?
    && s.gate.orphaned
  }

  lemma StrandedIsDropped<O, P>(s: System<O, P>)
    requires Inv(s)
    ensures Stranded(s) <==> Dropped(s.log)
  {
    if s.gate.active && !s.gate.orphaned && !Dropped(s.log) {
      assert PhaseOf(s, LeaderAfter(s.log).value).Leading?;
    }
  }

  /** One step strands the gate exactly when it is such a section. */
  lemma StepStrands<O, P>(s: System<O, P>, a: Action<O, P>)
    requires Inv(s) && Enabled(s, a)
    ensures Stranded(Next(s, a)) <==> Stranded(s) || WaitFindsOrphan(s, a)
  {
    NextKeepsInv(s, a);
    StrandedIsDropped(s);
    StrandedIsDropped(Next(s, a));
    assert PhaseOf(s, a.task).Leading? <==> LeaderAfter(s.log) == Some(a.task);
  }

  /** Some step of the run is a section of a `wait` that finds the gate on offer. */
  predicate SomeWaitFoundOrphan<O, P>(s: System<O, P>, actions: seq<Action<O, P>>)
    requires Exec(s, actions).Some?
    decreases |actions|
  {
    actions != [] &&
    (WaitFindsOrphan(s, actions[0]) || SomeWaitFoundOrphan(Next(s, actions[0]), actions[1..]))
  }

  lemma {:induction false} RunStrands<O, P>(s: System<O, P>, actions: seq<Action<O, P>>)
    requires Inv(s) && Exec(s, actions).Some?
    ensures Stranded(Exec(s, actions).value) <==> Stranded(s) || SomeWaitFoundOrphan(s, actions)
    decreases |actions|
  {
    if actions != [] {
      StepStrands(s, actions[0]);
      NextKeepsInv(s, actions[0]);
      RunStrands(Next(s, actions[0]), actions[1..]);
    }
  }

  /**
   After any run the gate is stranded if and only if some section of a `wait`,
   before or after it slept, found the gate on offer; and then leadership was
   last dropped by that `wait`.
   */
  lemma DiscardingWaitStrandsOrphan<O, P>(actions: seq<Action<O, P>>)
    requires Exec<O, P>(Initial(), actions).Some?
    ensures
      var s := Exec<O, P>(Initial(), actions).value;
      && (Stranded(s) <==> SomeWaitFoundOrphan(Initial(), actions))
      && (Stranded(s) <==> Dropped(s.log))
  {
    RunKeepsInv<O, P>(Initial(), actions);
    RunStrands<O, P>(Initial(), actions);
    StrandedIsDropped(Exec<O, P>(Initial(), actions).value);
  }

  predicate NoWaiter<O, P>(s: System<O, P>)
  {
    forall t :: t in s.tasks && Waiting(s.tasks[t]) ==> !s.tasks[t].call.Wait?
  }

  lemma {:induction false} NoWaitNoOrphanFound<O, P>(s: System<O, P>, actions: seq<Action<O, P>>)
    requires NoWaiter(s) && Exec(s, actions).Some?
    requires forall a :: a in actions && a.Begin? ==> !a.call.Wait?
    ensures !SomeWaitFoundOrphan(s, actions)
    decreases |actions|
  {
    if actions != [] {
      NoWaitNoOrphanFound(Next(s, actions[0]), actions[1..]);
    }
  }

  /** A run without calls of `wait` drops nothing, so all that is said above holds of it. */
  lemma NoWaitNoDrop<O, P>(actions: seq<Action<O, P>>)
    requires Exec<O, P>(Initial(), actions).Some?
    requires forall a :: a in actions && a.Begin? ==> !a.call.Wait?
    ensures !Dropped(Exec<O, P>(Initial(), actions).value.log)
  {
    NoWaitNoOrphanFound<O, P>(Initial(), actions);
    DiscardingWaitStrandsOrphan<O, P>(actions);
  }

  /**
   A stranded gate stays stranded in every continuation, further calls of `wait`
   included: the gate never changes again, nobody ever leads, publishes or hands
   off, and no call, new or waiting, ever returns except by cancellation.
   */
  lemma {:induction false} StrandedForever<O, P>(s: System<O, P>, actions: seq<Action<O, P>>)
    requires Stranded(s) && Exec(s, actions).Some?
    ensures Stranded(Exec(s, actions).value)
    ensures Exec(s, actions).value.gate == s.gate && Exec(s, actions).value.log == s.log
    ensures forall i :: 0 <= i < |actions| ==> !actions[i].Publish? && !actions[i].Handoff?
    ensures forall i :: 0 <= i < |actions| && (actions[i].Begin? || actions[i].Wake?) ==>
      Exec(s, actions[..i + 1]).Some? && PhaseOf(Exec(s, actions[..i + 1]).value, actions[i].task).Asleep?
    decreases |actions|
  {
    if actions != [] {
      var a := actions[0];
      var n := Next(s, a);
      assert PhaseOf(s, a.task) == PhaseOf(s, a.task);
      assert forall t: Task :: t != a.task ==> PhaseOf(n, t) == PhaseOf(s, t);
      StrandedForever(n, actions[1..]);
      forall i | 0 <= i < |actions|
        ensures !actions[i].Publish? && !actions[i].Handoff?
        ensures actions[i].Begin? || actions[i].Wake? ==>
          Exec(s, actions[..i + 1]).Some? && PhaseOf(Exec(s, actions[..i + 1]).value, actions[i].task).Asleep?
      {
        assert actions[..i + 1][0] == a && actions[..i + 1][1..] == actions[1..][..i];
        if i == 0 {
          assert Exec(n, actions[1..][..0]) == Some(n);
        } else {
          assert actions[i] == actions[1..][i - 1];
        }
      }
    }
  }

  /** Both ways to strand it: a `wait` that comes after the handoff, and one that slept before it. */
  lemma WaitCanStrandGate()
    ensures
      var late: seq<Action<(), ()>> := [Begin(0, Claim(0)), Handoff(0, None), Begin(1, Wait)];
      Exec(Initial(), late).Some? && Stranded(Exec(Initial(), late).value)
    ensures
      var early: seq<Action<(), ()>> := [Begin(0, Claim(0)), Begin(1, Wait), Handoff(0, None), Wake(1)];
      Exec(Initial(), early).Some? && Stranded(Exec(Initial(), early).value)
  {
    var s0 := Initial<(), ()>();
    var late: seq<Action<(), ()>> := [Begin(0, Claim(0)), Handoff(0, None), Begin(1, Wait)];
    var early: seq<Action<(), ()>> := [Begin(0, Claim(0)), Begin(1, Wait), Handoff(0, None), Wake(1)];
    var s1 := Next(s0, late[0]);
    RunOfTwo(s1, late[1..]);
    var e2 := Next(s1, early[1]);
    assert early[1..][1..] == early[2..];
    RunOfTwo(e2, early[2..]);
  }

  lemma RunOfTwo<O, P>(s: System<O, P>, actions: seq<Action<O, P>>)
    requires |actions| == 2 && Enabled(s, actions[0]) && Enabled(Next(s, actions[0]), actions[1])
    ensures Exec(s, actions) == Some(Next(Next(s, actions[0]), actions[1]))
  {
    assert actions[1..] == [actions[1]];
    assert Exec(Next(s, actions[0]), [actions[1]]) == Some(Next(Next(s, actions[0]), actions[1]));
  }
}
