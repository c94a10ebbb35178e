/**
 The coordinator's use of the gate: tasks observe a candidate, claim failover
 with that observation, and a confirmed leader moves `current` on. The history
 of `current` is a chain with no link skipped twice.
 */
module FailoverChains {
  import opened Common
  import Gates = FailoverGates

  type Task = Gates.Task

  /** Leader `who`, who had seen candidate `seen`, moved `current` from `src` to `dst`. */
  datatype Change<+C> = Change(who: Task, seen: C, src: C, dst: C)

  /** What `await_observation` and `observe` return: the current candidate and the generation. */
  datatype Observation<+C> = Observation(candidate: C, generation: nat)

  /**
   `noted` holds the last observation each task was given; `claims` the candidate each
   running claim was made for; `seen` the candidate each confirmed leader acts on; `doubtful` the leaders that found
   another candidate current and are on their way to publish and return False.
   */
  datatype Chain<C> = Chain(
    sys: Gates.System<(), ()>,
    current: C,
    noted: map<Task, Observation<C>>,
    claims: map<Task, C>,
    seen: map<Task, C>,
    doubtful: set<Task>,
    changes: seq<Change<C>>)

  datatype Action<+C> =
    | Observe(task: Task)
    | AwaitObservation(task: Task)
    | ClaimObservation(task: Task, candidate: C, generation: nat)
    | WaitActive(task: Task)
    | Wake(task: Task)
    | Cancel(task: Task)
    | SetCurrent(task: Task, candidate: C)
    | Publish(task: Task)
    | Handoff(task: Task)

  function Initial<C>(current: C): Chain<C>
  {
    Chain(Gates.Initial(), current, map[], map[], map[], {}, [])
  }

  predicate Confirmed<C>(s: Chain<C>, t: Task)
  {
    Gates.PhaseOf(s.sys, t).Leading? && t !in s.doubtful
  }

  /** The gate's own step behind a coordinator step; `SetCurrent` and `Observe` take none. */
  function GateAction<C>(a: Action<C>): Gates.Action<(), ()>
    requires !a.SetCurrent? && !a.Observe?
  {
    match a
    case AwaitObservation(t) => Gates.Begin(t, Gates.AwaitActive)
    case ClaimObservation(t, _, g) => Gates.Begin(t, Gates.Claim(g))
    case WaitActive(t) => Gates.Begin(t, Gates.Wait)
    case Wake(t) => Gates.Wake(t)
    case Cancel(t) => Gates.Cancel(t)
    case Publish(t) => Gates.Publish(t, None)
    case Handoff(t) => Gates.Handoff(t, None)
  }

  predicate Enabled<C(==)>(s: Chain<C>, candidates: seq<C>, a: Action<C>)
  {
    && (a.SetCurrent? ==> Confirmed(s, a.task) && a.candidate in candidates)
    && (a.Handoff? ==> Confirmed(s, a.task))
    && (a.Observe? ==> Gates.PhaseOf(s.sys, a.task).Idle?)
    && (!a.SetCurrent? && !a.Observe? ==> Gates.Enabled(s.sys, GateAction(a)))
    && (a.Wake? && Gates.PhaseOf(s.sys, a.task).call.Claim? ==> a.task in s.claims)
  }

  /** What a task does with the verdict of its section: nothing, act as leader, or step back. */
  function Settle<C(==)>(s: Chain<C>, t: Task, claimed: Option<C>, sys: Gates.System<(), ()>): Chain<C>
  {
    if !Gates.PhaseOf(sys, t).Leading? then s.(sys := sys)
    else if claimed.Some? && s.current != claimed.value then s.(sys := sys, doubtful := s.doubtful + {t})
    else s.(sys := sys, seen := s.seen[t := s.current], doubtful := s.doubtful - {t})
  }

  /** `await_observation`, once the gate lets it go: it takes the generation from the gate's answer. */
  function AwaitedBy<C>(s: Chain<C>, t: Task, call: Gates.Call, slept: bool): Chain<C>
  {
    match Gates.Section(s.sys.gate, call, slept).1
    case Sleep => s
    case Return(_, generation, _, _, _) =>
      if call.AwaitActive? then s.(noted := s.noted[t := Observation(s.current, generation)]) else s
  }

  function Next<C(==)>(s: Chain<C>, candidates: seq<C>, a: Action<C>): Chain<C>
    requires Enabled(s, candidates, a)
  {
    var t := a.task;
    match a
    case Observe(_) => s.(noted := s.noted[t := Observation(s.current, s.sys.gate.generation)])
    case AwaitObservation(_) =>
      Settle(AwaitedBy(s, t, Gates.AwaitActive, false), t, None, Gates.Next(s.sys, GateAction(a)))
    case ClaimObservation(_, c, _) =>
      Settle(s.(claims := s.claims[t := c]), t, Some(c), Gates.Next(s.sys, GateAction(a)))
    case WaitActive(_) => s.(sys := Gates.Next(s.sys, GateAction(a)))
    case Wake(_) =>
      var call := Gates.PhaseOf(s.sys, t).call;
      Settle(AwaitedBy(s, t, call, true), t, if call.Claim? then Some(s.claims[t]) else None,
             Gates.Next(s.sys, GateAction(a)))
    case SetCurrent(_, c) =>
      var seen := if t in s.seen then s.seen[t] else s.current;
      s.(current := c, seen := s.seen[t := c], changes := s.changes + [Change(t, seen, s.current, c)])
    case Cancel(_) => s.(sys := Gates.Next(s.sys, GateAction(a)))
    case Publish(_) => s.(sys := Gates.Next(s.sys, GateAction(a)), doubtful := s.doubtful - {t})
    case Handoff(_) => s.(sys := Gates.Next(s.sys, GateAction(a)))
  }

  function Exec<C(==)>(s: Chain<C>, candidates: seq<C>, actions: seq<Action<C>>): Option<Chain<C>>
    decreases |actions|
  {
    if actions == [] then Some(s)
    else if Enabled(s, candidates, actions[0]) then
      Exec(Next(s, candidates, actions[0]), candidates, actions[1..])
    else None
  }

  // ------------------------------------------------------------------------
  // The invariant
  // ------------------------------------------------------------------------

  predicate Linked<C(==)>(start: C, changes: seq<Change<C>>, current: C)
  {
    && (if changes == [] then current == start
        else changes[0].src == start && changes[|changes| - 1].dst == current)
    && (forall i :: 0 < i < |changes| ==> changes[i].src == changes[i - 1].dst)
    && (forall i :: 0 <= i < |changes| ==> changes[i].seen == changes[i].src)
  }

  ghost predicate Inv<C>(s: Chain<C>, start: C)
  {
    && Gates.Inv(s.sys)
    && Linked(start, s.changes, s.current)
    && (forall t: Task {:trigger Confirmed(s, t)} :: Confirmed(s, t) ==> t in s.seen && s.seen[t] == s.current)
    && (forall t: Task {:trigger Gates.PhaseOf(s.sys, t)} ::
          Gates.Waiting(Gates.PhaseOf(s.sys, t)) && Gates.PhaseOf(s.sys, t).call.Claim? ==> t in s.claims)
  }

  /** Any step of the gate keeps the invariant, if its own task is confirmed with the current candidate. */
  lemma GateStepKeepsInv<C>(s: Chain<C>, start: C, g: Gates.Action<(), ()>, n: Chain<C>)
    requires Inv(s, start) && Gates.Enabled(s.sys, g)
    requires n.sys == Gates.Next(s.sys, g) && n.current == s.current && n.changes == s.changes
    requires forall t: Task :: t != g.task ==> (t in n.doubtful <==> t in s.doubtful)
    requires forall t: Task :: t != g.task && t in s.seen ==> t in n.seen && n.seen[t] == s.seen[t]
    requires s.claims.Keys <= n.claims.Keys
    requires Confirmed(n, g.task) ==> g.task in n.seen && n.seen[g.task] == n.current
    requires g.Begin? && g.call.Claim? ==> g.task in n.claims
    ensures Inv(n, start)
  {
    Gates.NextKeepsInv(s.sys, g);
    forall t: Task | Confirmed(n, t)
      ensures t in n.seen && n.seen[t] == n.current
    {
      if t != g.task {
        assert Confirmed(s, t);
      }
    }
  }

  lemma SettleKeepsInv<C>(s: Chain<C>, start: C, g: Gates.Action<(), ()>, claimed: Option<C>, n: Chain<C>)
    requires Inv(s, start) && Gates.Enabled(s.sys, g) && !Gates.PhaseOf(s.sys, g.task).Leading?
    requires n == s.(noted := n.noted, claims := n.claims) && s.claims.Keys <= n.claims.Keys
    requires g.Begin? && g.call.Claim? ==> g.task in n.claims
    ensures Inv(Settle(n, g.task, claimed, Gates.Next(s.sys, g)), start)
  {
    GateStepKeepsInv(s, start, g, Settle(n, g.task, claimed, Gates.Next(s.sys, g)));
  }

  lemma ObserveKeepsInv<C>(s: Chain<C>, start: C, n: Chain<C>)
    requires Inv(s, start) && n == s.(noted := n.noted)
    ensures Inv(n, start)
  {
    assert forall t: Task :: Confirmed(n, t) ==> Confirmed(s, t);
  }

  lemma NextKeepsInv<C>(s: Chain<C>, start: C, candidates: seq<C>, a: Action<C>)
    requires Inv(s, start) && Enabled(s, candidates, a)
    ensures Inv(Next(s, candidates, a), start)
  {
    var t := a.task;
    match a
    case SetCurrent(_, _) =>
    case Observe(_) => ObserveKeepsInv(s, start, Next(s, candidates, a));
    case AwaitObservation(_) =>
      SettleKeepsInv(s, start, GateAction(a), None, AwaitedBy(s, t, Gates.AwaitActive, false));
    case ClaimObservation(_, c, _) =>
      SettleKeepsInv(s, start, GateAction(a), Some(c), s.(claims := s.claims[t := c]));
    case WaitActive(_) => GateStepKeepsInv(s, start, GateAction(a), Next(s, candidates, a));
    case Wake(_) =>
      var call := Gates.PhaseOf(s.sys, t).call;
      SettleKeepsInv(s, start, GateAction(a), if call.Claim? then Some(s.claims[t]) else None, AwaitedBy(s, t, call, true));
    case Cancel(_) => GateStepKeepsInv(s, start, GateAction(a), Next(s, candidates, a));
    case Publish(_) => GateStepKeepsInv(s, start, GateAction(a), Next(s, candidates, a));
    case Handoff(_) => GateStepKeepsInv(s, start, GateAction(a), Next(s, candidates, a));
  }

  lemma {:induction false} RunKeepsInv<C>(s: Chain<C>, start: C, candidates: seq<C>, actions: seq<Action<C>>)
    requires Inv(s, start) && Exec(s, candidates, actions).Some?
    ensures Inv(Exec(s, candidates, actions).value, start)
    decreases |actions|
  {
    if actions != [] {
      NextKeepsInv(s, start, candidates, actions[0]);
      RunKeepsInv(Next(s, candidates, actions[0]), start, candidates, actions[1..]);
    }
  }

  // ------------------------------------------------------------------------
  // No double skip
  // ------------------------------------------------------------------------

  /**
   In every run the changes of `current` form one chain from the first
   candidate to the present one, and each was made by a leader acting on the
   candidate the change moved away from.
   */
  lemma ChangesFormOneChain<C>(start: C, candidates: seq<C>, actions: seq<Action<C>>)
    requires Exec(Initial(start), candidates, actions).Some?
    ensures
      var s := Exec(Initial(start), candidates, actions).value;
      Linked(start, s.changes, s.current)
  {
    RunKeepsInv(Initial(start), start, candidates, actions);
  }

  /**
   No double skip: when two changes away from the same candidate were made,
   `current` had come back to that candidate in between.
   */
  lemma NoDoubleSkip<C>(start: C, candidates: seq<C>, actions: seq<Action<C>>, i: nat, j: nat)
    requires Exec(Initial(start), candidates, actions).Some?
    requires i < j < |Exec(Initial(start), candidates, actions).value.changes|
    requires
      var changes := Exec(Initial(start), candidates, actions).value.changes;
      changes[i].seen == changes[j].seen != changes[i].dst
    ensures
      var changes := Exec(Initial(start), candidates, actions).value.changes;
      exists k :: i < k < j && changes[k].dst == changes[j].seen
  {
    ChangesFormOneChain(start, candidates, actions);
    var changes := Exec(Initial(start), candidates, actions).value.changes;
    assert changes[j].src == changes[j - 1].dst;
  }

  /**
   A claim or a wake-up that makes its task leader confirms it if and only if the
   candidate it was made for is current, and that candidate stays current through every step
   that other tasks take, for as long as the task has not ended its leadership.
   */
  lemma ClaimConfirmedOnlyWhileCurrent<C>(start: C, candidates: seq<C>, actions: seq<Action<C>>, a: Action<C>)
    requires Exec(Initial(start), candidates, actions).Some?
    requires Enabled(Exec(Initial(start), candidates, actions).value, candidates, a)
    ensures
      var s := Exec(Initial(start), candidates, actions).value;
      var n := Next(s, candidates, a);
      && (a.ClaimObservation? && Gates.PhaseOf(n.sys, a.task).Leading? ==>
            (Confirmed(n, a.task) <==> s.current == a.candidate) && n.current == s.current)
      && (a.Wake? && Gates.PhaseOf(s.sys, a.task).call.Claim? && Gates.PhaseOf(n.sys, a.task).Leading? ==>
            (Confirmed(n, a.task) <==> s.current == s.claims[a.task]) && n.current == s.current)
      && (forall t: Task :: t != a.task && Confirmed(s, t) ==> Confirmed(n, t) && n.current == s.current)
  {
    var s := Exec(Initial(start), candidates, actions).value;
    RunKeepsInv(Initial(start), start, candidates, actions);
    forall t: Task | t != a.task && Confirmed(s, t)
      ensures Confirmed(Next(s, candidates, a), t) && Next(s, candidates, a).current == s.current
    {
      LeaderStays(s, start, candidates, a, t);
    }
  }

  /** No step of another task changes `current` or a confirmed leader's standing. */
  lemma LeaderStays<C>(s: Chain<C>, start: C, candidates: seq<C>, a: Action<C>, t: Task)
    requires Inv(s, start) && Enabled(s, candidates, a) && t != a.task && Confirmed(s, t)
    ensures Confirmed(Next(s, candidates, a), t) && Next(s, candidates, a).current == s.current
  {
    assert Gates.LeaderAfter(s.sys.log) == Some(t);
  }

  // ------------------------------------------------------------------------
  // Observations made while no failover is running
  // ------------------------------------------------------------------------

  lemma StillQuietStep<C>(s: Chain<C>, start: C, candidates: seq<C>, a: Action<C>)
    requires Inv(s, start) && Enabled(s, candidates, a)
    ensures s.sys.gate.generation <= Next(s, candidates, a).sys.gate.generation
    ensures !s.sys.gate.active && Next(s, candidates, a).sys.gate.generation == s.sys.gate.generation ==>
      !Next(s, candidates, a).sys.gate.active && Next(s, candidates, a).current == s.current
  {
    if a.SetCurrent? {
      assert Gates.LeaderAfter(s.sys.log) == Some(a.task);
    } else if !a.Observe? {
      Gates.NextKeepsInv(s.sys, GateAction(a));
      StepsGateOnly(s, candidates, a);
      if !s.sys.gate.active {
        Gates.FreeUntilOpened(s.sys, GateAction(a));
      }
    }
  }

  lemma StepsGateOnly<C>(s: Chain<C>, candidates: seq<C>, a: Action<C>)
    requires Enabled(s, candidates, a) && !a.SetCurrent? && !a.Observe?
    ensures Next(s, candidates, a).sys == Gates.Next(s.sys, GateAction(a))
    ensures Next(s, candidates, a).current == s.current
  {
  }

  /** From a quiet gate, no change of generation means no failover began and `current` stands. */
  lemma {:induction false} StillQuiet<C>(s: Chain<C>, start: C, candidates: seq<C>, actions: seq<Action<C>>)
    requires Inv(s, start) && Exec(s, candidates, actions).Some?
    ensures
      var e := Exec(s, candidates, actions).value;
      && s.sys.gate.generation <= e.sys.gate.generation
      && (!s.sys.gate.active && e.sys.gate.generation == s.sys.gate.generation ==>
            !e.sys.gate.active && e.current == s.current)
    decreases |actions|
  {
    if actions != [] {
      var n := Next(s, candidates, actions[0]);
      StillQuietStep(s, start, candidates, actions[0]);
      NextKeepsInv(s, start, candidates, actions[0]);
      StillQuiet(n, start, candidates, actions[1..]);
    }
  }

  /** Step `a` gives its task an observation: a snapshot, or an `await_observation` that does not make it leader. */
  predicate Observes<C(==)>(s: Chain<C>, candidates: seq<C>, a: Action<C>)
    requires Enabled(s, candidates, a)
  {
    || a.Observe?
    || ((a.AwaitObservation? || (a.Wake? && Gates.PhaseOf(s.sys, a.task).call.AwaitActive?))
        && Gates.PhaseOf(Next(s, candidates, a).sys, a.task).Idle?)
  }

  /** An observation is of the candidate now current and counts the failovers begun; an awaited one finds none running. */
  lemma ObservationIsPresent<C>(s: Chain<C>, start: C, candidates: seq<C>, a: Action<C>)
    requires Inv(s, start) && Enabled(s, candidates, a) && Observes(s, candidates, a)
    ensures
      var n := Next(s, candidates, a);
      && a.task in n.noted
      && n.noted[a.task] == Observation(s.current, Gates.CountOpens(s.sys.log))
      && n.current == s.current && n.sys.gate == s.sys.gate && n.sys.log == s.sys.log
      && (!a.Observe? ==> !n.sys.gate.active)
  {
    Gates.OpensNumberGenerations(s.sys.log);
  }

  /**
   A task that is given an observation while no failover is running, and claims
   with that observation after any run to another quiet moment, becomes a
   confirmed leader exactly when no failover has begun meanwhile. It is never
   asked to step back.
   */
  lemma QuietClaimDecidedByGeneration<C>(
      start: C, candidates: seq<C>, before: seq<Action<C>>, a: Action<C>, between: seq<Action<C>>)
    requires Exec(Initial(start), candidates, before).Some?
    requires
      var s := Exec(Initial(start), candidates, before).value;
      && Enabled(s, candidates, a) && Observes(s, candidates, a) && (a.Observe? ==> !s.sys.gate.active)
      && Exec(Next(s, candidates, a), candidates, between).Some?
    requires
      var n := Next(Exec(Initial(start), candidates, before).value, candidates, a);
      var e := Exec(n, candidates, between).value;
      !e.sys.gate.active && Gates.PhaseOf(e.sys, a.task).Idle?
    ensures
      var n := Next(Exec(Initial(start), candidates, before).value, candidates, a);
      var e := Exec(n, candidates, between).value;
      && a.task in n.noted
      && (var claim := ClaimObservation(a.task, n.noted[a.task].candidate, n.noted[a.task].generation);
          && Enabled(e, candidates, claim)
          && (var f := Next(e, candidates, claim);
              && (Gates.PhaseOf(f.sys, a.task).Leading? <==>
                  Gates.CountOpens(e.sys.log) == Gates.CountOpens(n.sys.log))
              && (Gates.PhaseOf(f.sys, a.task).Leading? ==> Confirmed(f, a.task))))
  {
    var s := Exec(Initial(start), candidates, before).value;
    RunKeepsInv(Initial(start), start, candidates, before);
    ObservationIsPresent(s, start, candidates, a);
    NextKeepsInv(s, start, candidates, a);
    var n := Next(s, candidates, a);
    StillQuiet(n, start, candidates, between);
    RunKeepsInv(n, start, candidates, between);
    QuietClaim(Exec(n, candidates, between).value, start, candidates, a.task, n.noted[a.task], n);
  }

  lemma QuietClaim<C>(e: Chain<C>, start: C, candidates: seq<C>, t: Task, noted: Observation<C>, n: Chain<C>)
    requires Inv(e, start) && Inv(n, start) && !e.sys.gate.active && Gates.PhaseOf(e.sys, t).Idle?
    requires noted == Observation(n.current, Gates.CountOpens(n.sys.log))
    requires n.sys.gate.generation <= e.sys.gate.generation
    requires e.sys.gate.generation == n.sys.gate.generation ==> e.current == n.current
    ensures
      var claim := ClaimObservation(t, noted.candidate, noted.generation);
      && Enabled(e, candidates, claim)
      && (var f := Next(e, candidates, claim);
          && (Gates.PhaseOf(f.sys, t).Leading? <==> Gates.CountOpens(e.sys.log) == Gates.CountOpens(n.sys.log))
          && (Gates.PhaseOf(f.sys, t).Leading? ==> Confirmed(f, t)))
  {
    Gates.OpensNumberGenerations(n.sys.log);
    Gates.OpensNumberGenerations(e.sys.log);
  }

  // ------------------------------------------------------------------------
  // Any set of claims with one observation
  // ------------------------------------------------------------------------

  lemma {:induction false} ExecSplit<C>(s: Chain<C>, candidates: seq<C>, actions: seq<Action<C>>, k: nat)
    requires Exec(s, candidates, actions).Some? && k <= |actions|
    ensures Exec(s, candidates, actions[..k]).Some?
    ensures Exec(Exec(s, candidates, actions[..k]).value, candidates, actions[k..]) == Exec(s, candidates, actions)
    decreases |actions|
  {
    if k == 0 {
      assert actions[..0] == [] && actions[0..] == actions;
    } else {
      ExecSplit(Next(s, candidates, actions[0]), candidates, actions[1..], k - 1);
      FrontAndBack(actions, k);
    }
  }

  lemma FrontAndBack<T>(items: seq<T>, k: nat)
    requires 0 < k <= |items|
    ensures items[..k] != [] && items[..k][0] == items[0]
    ensures items[..k][1..] == items[1..][..k - 1] && items[k..] == items[1..][k - 1..]
  {
  }

  /** The state before step `k` of a run. */
  function StateAt<C(==)>(start: C, candidates: seq<C>, actions: seq<Action<C>>, k: nat): Chain<C>
    requires k <= |actions| && Exec(Initial(start), candidates, actions[..k]).Some?
  {
    Exec(Initial(start), candidates, actions[..k]).value
  }

  /** Step `a` is a section of a claim made with generation `g`, its first or one after a wake-up. */
  predicate ClaimSection<C(==)>(s: Chain<C>, a: Action<C>, g: nat)
  {
    || (a.ClaimObservation? && a.generation == g)
    || (a.Wake? && Gates.PhaseOf(s.sys, a.task) == Gates.Notified(Gates.Claim(g)))
  }

  /** What a claim section that opens no generation does with its task. */
  predicate RefusedOrWaiting<C(==)>(s: Chain<C>, n: Chain<C>, t: Task)
  {
    var phase := Gates.PhaseOf(n.sys, t);
    && n.sys.gate.generation == s.sys.gate.generation
    && n.current == s.current
    && (phase.Asleep? || phase.Idle? || (phase.Leading? && s.sys.gate.orphaned))
  }

  lemma RunAt<C>(start: C, candidates: seq<C>, actions: seq<Action<C>>, k: nat)
    requires Exec(Initial(start), candidates, actions).Some? && k < |actions|
    ensures Exec(Initial(start), candidates, actions[..k]).Some?
    ensures Exec(Initial(start), candidates, actions[..k + 1]).Some?
    ensures
      var s := StateAt(start, candidates, actions, k);
      && Inv(s, start)
      && Enabled(s, candidates, actions[k])
      && StateAt(start, candidates, actions, k + 1) == Next(s, candidates, actions[k])
  {
    ExecSplit(Initial(start), candidates, actions, k + 1);
    var before := actions[..k + 1];
    ExecSplit(Initial(start), candidates, before, k);
    assert before[..k] == actions[..k] && before[k..] == [actions[k]];
    RunKeepsInv(Initial(start), start, candidates, actions[..k]);
  }

  lemma GenerationNeverDrops<C>(start: C, candidates: seq<C>, actions: seq<Action<C>>, i: nat, j: nat)
    requires Exec(Initial(start), candidates, actions).Some? && i <= j <= |actions|
    ensures Exec(Initial(start), candidates, actions[..i]).Some? && Exec(Initial(start), candidates, actions[..j]).Some?
    ensures StateAt(start, candidates, actions, i).sys.gate.generation <=
            StateAt(start, candidates, actions, j).sys.gate.generation
  {
    ExecSplit(Initial(start), candidates, actions, j);
    ExecSplit(Initial(start), candidates, actions[..j], i);
    assert actions[..j][..i] == actions[..i];
    RunKeepsInv(Initial(start), start, candidates, actions[..i]);
    StillQuiet(StateAt(start, candidates, actions, i), start, candidates, actions[..j][i..]);
  }

  /** A section of a claim opens a generation exactly when it finds the gate free at the one observed. */
  lemma ClaimSectionOpens<C>(s: Chain<C>, start: C, candidates: seq<C>, a: Action<C>, g: nat)
    requires Inv(s, start) && Enabled(s, candidates, a) && ClaimSection(s, a, g)
    ensures
      var n := Next(s, candidates, a);
      if !s.sys.gate.active && s.sys.gate.generation == g
      then n.sys.gate.generation == g + 1 && Gates.PhaseOf(n.sys, a.task).Leading?
      else RefusedOrWaiting(s, n, a.task)
  {
  }

  /**
   Of all claims made with one generation, by any tasks and for any candidates,
   at most one opens the next generation; every other section of any of them
   sleeps, is refused, or takes over the orphaned leadership of its generation.
   */
  lemma OneOpeningPerObservation<C>(start: C, candidates: seq<C>, actions: seq<Action<C>>, i: nat, j: nat, g: nat)
    requires Exec(Initial(start), candidates, actions).Some? && i < |actions| && j < |actions| && i != j
    requires Exec(Initial(start), candidates, actions[..i]).Some? && Exec(Initial(start), candidates, actions[..j]).Some?
    requires ClaimSection(StateAt(start, candidates, actions, i), actions[i], g)
    requires ClaimSection(StateAt(start, candidates, actions, j), actions[j], g)
    requires
      var s := StateAt(start, candidates, actions, i);
      Enabled(s, candidates, actions[i]) && Next(s, candidates, actions[i]).sys.gate.generation != s.sys.gate.generation
    ensures
      var e := StateAt(start, candidates, actions, j);
      Enabled(e, candidates, actions[j]) && RefusedOrWaiting(e, Next(e, candidates, actions[j]), actions[j].task)
  {
    RunAt(start, candidates, actions, i);
    RunAt(start, candidates, actions, j);
    ClaimSectionOpens(StateAt(start, candidates, actions, i), start, candidates, actions[i], g);
    ClaimSectionOpens(StateAt(start, candidates, actions, j), start, candidates, actions[j], g);
    if i < j {
      GenerationNeverDrops(start, candidates, actions, i + 1, j);
    } else {
      GenerationNeverDrops(start, candidates, actions, j + 1, i);
    }
  }
}
