/**
 The coordinator's candidate ring: ordered candidates, a current one, and
 cooldowns kept in three dictionaries that are pruned only when they are read.
 The clock is a parameter of every operation that reads it.
 */
module Cooldowns {
  import opened Common

  datatype Failure = UnknownCandidate

  /** The constructor's three ValueErrors. */
  datatype BadArgument = EmptyOrRepeatedCandidates | CurrentNotACandidate | CooldownNotPositive

  /** The mutable part of a coordinator, as a value. */
  datatype Ring<C> = Ring(
    candidates: seq<C>,
    current: C,
    cooldown: real,
    deadlines: map<C, real>,
    startedAt: map<C, real>,
    details: map<C, Option<string>>)

  ghost predicate Distinct<C>(items: seq<C>)
  {
    forall i, j :: 0 <= i < j < |items| ==> items[i] != items[j]
  }

  /** What the constructor checks, and the three dictionaries having one domain. */
  ghost predicate Valid<C>(r: Ring<C>)
  {
    && Distinct(r.candidates) && r.current in r.candidates && r.cooldown > 0.0
    && r.startedAt.Keys == r.deadlines.Keys == r.details.Keys
  }

  function Marked<C>(r: Ring<C>, c: C, detail: Option<string>, now: real): Ring<C>
  {
    r.(startedAt := r.startedAt[c := now],
       deadlines := r.deadlines[c := now + r.cooldown],
       details := r.details[c := detail])
  }

  function Pruned<C>(r: Ring<C>, now: real): Ring<C>
    requires r.startedAt.Keys == r.deadlines.Keys == r.details.Keys
  {
    r.(deadlines := map c | c in r.deadlines && r.deadlines[c] > now :: r.deadlines[c],
       startedAt := map c | c in r.deadlines && r.deadlines[c] > now :: r.startedAt[c],
       details := map c | c in r.deadlines && r.deadlines[c] > now :: r.details[c])
  }

  function Cleared<C>(r: Ring<C>, c: C): Ring<C>
  {
    r.(deadlines := r.deadlines - {c}, startedAt := r.startedAt - {c}, details := r.details - {c})
  }

  /** The items that are not cooling, in order. */
  function Free<C(==)>(items: seq<C>, cooling: set<C>): (free: seq<C>)
  {
    if items == [] then []
    else if items[0] in cooling then Free(items[1..], cooling)
    else [items[0]] + Free(items[1..], cooling)
  }

  function IndexOf<C(==)>(items: seq<C>, c: C): (i: nat)
    requires c in items
    ensures i < |items| && items[i] == c
  {
    if items[0] == c then 0 else 1 + IndexOf(items[1..], c)
  }

  /** The items from position `i` on, then those before it. */
  function Rotated<C>(items: seq<C>, i: nat): (r: seq<C>)
    requires i <= |items|
    ensures |r| == |items|
  {
    items[i..] + items[..i]
  }

  function Available<C(==)>(r: Ring<C>): seq<C>
    requires r.current in r.candidates
  {
    Free(Rotated(r.candidates, IndexOf(r.candidates, r.current)), r.deadlines.Keys)
  }

  function NextAfter<C(==)>(r: Ring<C>, c: C): (next: Option<C>)
    requires c in r.candidates
    ensures next.Some? ==> next.value in r.candidates && next.value !in r.deadlines
  {
    var i := IndexOf(r.candidates, c) + 1;
    var free := Free(Rotated(r.candidates, i), r.deadlines.Keys);
    if free == [] then None
    else
      FreeMember(Rotated(r.candidates, i), r.deadlines.Keys, free[0]);
      RotatedMember(r.candidates, i, free[0]);
      Some(free[0])
  }

  /** The code's test for repetitions: as many different candidates as candidates. */
  lemma {:induction false} DistinctIffAsMany<C>(items: seq<C>)
    ensures |set c | c in items| == |items| <==> Distinct(items)
    ensures |set c | c in items| <= |items|
  {
    if items != [] {
      var front, last := items[..|items| - 1], items[|items| - 1];
      DistinctIffAsMany(front);
      var before := set c | c in front;
      assert (set c | c in items) == before + {last};
      assert last in before <==> exists i :: 0 <= i < |front| && items[i] == last;
      assert Distinct(items) ==> Distinct(front);
    }
  }

  /** `OrderedFailoverCoordinator(...)`: an error for arguments that make no ring. */
  method NewCoordinator<C(==)>(candidates: seq<C>, current: C, cooldownSeconds: real)
    returns (r: Result<OrderedFailoverCoordinator<C>, BadArgument>)
    ensures r.Err? && r.error.EmptyOrRepeatedCandidates? <==> candidates == [] || !Distinct(candidates)
    ensures r.Err? && r.error.CurrentNotACandidate? <==>
      candidates != [] && Distinct(candidates) && current !in candidates
    ensures r.Err? && r.error.CooldownNotPositive? <==>
      Distinct(candidates) && current in candidates && cooldownSeconds <= 0.0
    ensures r.Ok? ==>
      fresh(r.value) && Valid(r.value.State())
      && r.value.State() == Ring(candidates, current, cooldownSeconds, map[], map[], map[])
  {
    DistinctIffAsMany(candidates);
    if candidates == [] || |set c | c in candidates| != |candidates| {
      return Err(EmptyOrRepeatedCandidates);
    }
    if current !in candidates {
      return Err(CurrentNotACandidate);
    }
    if cooldownSeconds <= 0.0 {
      return Err(CooldownNotPositive);
    }
    var coordinator := new OrderedFailoverCoordinator(candidates, current, cooldownSeconds);
    return Ok(coordinator);
  }

  class OrderedFailoverCoordinator<C(==)> {
    const candidates: seq<C>
    const cooldownSeconds: real
    var current: C
    var cooldownUntil: map<C, real>
    var cooldownStartedAt: map<C, real>
    var cooldownDetails: map<C, Option<string>>

    ghost function State(): Ring<C>
      reads this
    {
      Ring(candidates, current, cooldownSeconds, cooldownUntil, cooldownStartedAt, cooldownDetails)
    }

    constructor (candidates: seq<C>, current: C, cooldownSeconds: real)
      requires Distinct(candidates) && current in candidates && cooldownSeconds > 0.0
      ensures Valid(State())
      ensures State() == Ring(candidates, current, cooldownSeconds, map[], map[], map[])
    {
      this.candidates, this.current, this.cooldownSeconds := candidates, current, cooldownSeconds;
      cooldownUntil, cooldownStartedAt, cooldownDetails := map[], map[], map[];
    }

    method MarkFailed(candidate: C, detail: Option<string>, now: real)
      requires Valid(State())
      modifies this
      ensures Valid(State()) && State() == Marked(old(State()), candidate, detail, now)
    {
      cooldownStartedAt := cooldownStartedAt[candidate := now];
      cooldownUntil := cooldownUntil[candidate := now + cooldownSeconds];
      cooldownDetails := cooldownDetails[candidate := detail];
    }

    method Prune(now: real)
      requires Valid(State())
      modifies this
      ensures Valid(State()) && State() == Pruned(old(State()), now)
    {
      var kept := map c | c in cooldownUntil && cooldownUntil[c] > now :: cooldownUntil[c];
      cooldownUntil := kept;
      cooldownDetails := map c | c in kept :: cooldownDetails[c];
      cooldownStartedAt := map c | c in kept :: cooldownStartedAt[c];
      assert State().deadlines == Pruned(old(State()), now).deadlines;
      assert State().details == Pruned(old(State()), now).details;
      assert State().startedAt == Pruned(old(State()), now).startedAt;
    }

    method CooldownDetail(candidate: C, now: real) returns (r: Result<Option<(Option<string>, real)>, Failure>)
      requires Valid(State())
      modifies this
      ensures Valid(State())
      ensures r.Err? <==> candidate !in candidates
      ensures r.Err? ==> State() == old(State())
      ensures r.Ok? ==> State() == Pruned(old(State()), now)
      ensures r.Ok? ==> (r.value.Some? <==> candidate in cooldownUntil)
      ensures r.Ok? && r.value.Some? ==>
        r.value.value == (cooldownDetails[candidate], cooldownUntil[candidate] - now)
    {
      if candidate !in candidates {
        return Err(UnknownCandidate);
      }
      Prune(now);
      if candidate !in cooldownUntil {
        return Ok(None);
      }
      return Ok(Some((cooldownDetails[candidate], cooldownUntil[candidate] - now)));
    }

    method AvailableCandidates(now: real) returns (free: seq<C>)
      requires Valid(State())
      modifies this
      ensures Valid(State()) && State() == Pruned(old(State()), now)
      ensures free == Available(State())
    {
      Prune(now);
      var start := IndexOf(candidates, current);
      var ordered := candidates[start..] + candidates[..start];
      free := Free(ordered, cooldownUntil.Keys);
    }

    method ClearCooldown(candidate: C) returns (r: Result<(), Failure>)
      requires Valid(State())
      modifies this
      ensures Valid(State())
      ensures r.Err? <==> candidate !in candidates
      ensures State() == if r.Ok? then Cleared(old(State()), candidate) else old(State())
    {
      if candidate !in candidates {
        return Err(UnknownCandidate);
      }
      cooldownUntil := cooldownUntil - {candidate};
      cooldownStartedAt := cooldownStartedAt - {candidate};
      cooldownDetails := cooldownDetails - {candidate};
      return Ok(());
    }

    method ClearCooldownStartedBefore(candidate: C, evidence: real, now: real) returns (r: Result<bool, Failure>)
      requires Valid(State())
      modifies this
      ensures Valid(State())
      ensures r.Err? <==> candidate !in candidates
      ensures r.Err? ==> State() == old(State())
      ensures r.Ok? ==> (State(), r.value) == ClearedBefore(old(State()), candidate, evidence, now)
    {
      if candidate !in candidates {
        return Err(UnknownCandidate);
      }
      Prune(now);
      if candidate !in cooldownStartedAt || cooldownStartedAt[candidate] >= evidence {
        return Ok(false);
      }
      var _ := ClearCooldown(candidate);
      return Ok(true);
    }

    method NextAvailableAfter(candidate: C, now: real) returns (r: Result<Option<C>, Failure>)
      requires Valid(State())
      modifies this
      ensures Valid(State()) && State() == Pruned(old(State()), now)
      ensures r.Err? <==> candidate !in candidates
      ensures r.Ok? ==> r.value == NextAfter(State(), candidate)
    {
      Prune(now);
      if candidate !in candidates {
        return Err(UnknownCandidate);
      }
      var start := IndexOf(candidates, candidate);
      var ordered := candidates[start + 1..] + candidates[..start + 1];
      var free := Free(ordered, cooldownUntil.Keys);
      return Ok(if free == [] then None else Some(free[0]));
    }

    method SetCurrent(candidate: C) returns (r: Result<(), Failure>)
      requires Valid(State())
      modifies this
      ensures Valid(State())
      ensures r.Err? <==> candidate !in candidates
      ensures State() == if r.Ok? then old(State()).(current := candidate) else old(State())
    {
      if candidate !in candidates {
        return Err(UnknownCandidate);
      }
      current := candidate;
      return Ok(());
    }
  }

  function ClearedBefore<C>(r: Ring<C>, c: C, evidence: real, now: real): (Ring<C>, bool)
    requires r.startedAt.Keys == r.deadlines.Keys == r.details.Keys
  {
    var p := Pruned(r, now);
    if c !in p.startedAt || p.startedAt[c] >= evidence then (p, false) else (Cleared(p, c), true)
  }

  // ------------------------------------------------------------------------
  // Lazy pruning agrees with history
  // ------------------------------------------------------------------------

  datatype Op<C> =
    | Mark(candidate: C, detail: Option<string>, now: real)
    | Clear(candidate: C)
    | ClearBefore(candidate: C, evidence: real, now: real)
    | Query(now: real)

  /** The clock readings of `ops`, none before `from`, never decrease and end by `to`. */
  ghost predicate Monotone<C>(ops: seq<Op<C>>, from: real, to: real)
  {
    if ops == [] then from <= to
    else
      var n := |ops| - 1;
      if ops[n].Clear? then Monotone(ops[..n], from, to)
      else ops[n].now <= to && Monotone(ops[..n], from, ops[n].now)
  }

  function Apply<C>(r: Ring<C>, op: Op<C>): Ring<C>
    requires r.startedAt.Keys == r.deadlines.Keys == r.details.Keys
  {
    match op
    case Mark(c, d, now) => Marked(r, c, d, now)
    case Clear(c) => Cleared(r, c)
    case ClearBefore(c, e, now) => ClearedBefore(r, c, e, now).0
    case Query(now) => Pruned(r, now)
  }

  function After<C>(r: Ring<C>, ops: seq<Op<C>>): (e: Ring<C>)
    requires r.startedAt.Keys == r.deadlines.Keys == r.details.Keys
    ensures e.startedAt.Keys == e.deadlines.Keys == e.details.Keys
    ensures (e.candidates, e.current, e.cooldown) == (r.candidates, r.current, r.cooldown)
  {
    if ops == [] then r else Apply(After(r, ops[..|ops| - 1]), ops[|ops| - 1])
  }

  /** The time and detail of the last failure of `c` that no clear has cancelled. Nothing ever expires here. */
  function LastFailure<C(==)>(ops: seq<Op<C>>, c: C): Option<(real, Option<string>)>
  {
    if ops == [] then None else
    var before := LastFailure(ops[..|ops| - 1], c);
    match ops[|ops| - 1]
    case Mark(x, d, now) => if x == c then Some((now, d)) else before
    case Clear(x) => if x == c then None else before
    case ClearBefore(x, e, _) => if x == c && before.Some? && before.value.0 < e then None else before
    case Query(_) => before
  }

  predicate Cooling<C(==)>(ops: seq<Op<C>>, c: C, cooldown: real, now: real)
  {
    var last := LastFailure(ops, c);
    last.Some? && now - last.value.0 < cooldown
  }

  /** The dictionaries hold only what history knows, and all of it that is still cooling at `now`. */
  ghost predicate Agrees<C(!new)>(r: Ring<C>, ops: seq<Op<C>>, now: real)
  {
    && r.startedAt.Keys == r.deadlines.Keys == r.details.Keys
    && (forall c :: c in r.deadlines ==>
          LastFailure(ops, c) == Some((r.startedAt[c], r.details[c])) &&
          r.deadlines[c] == r.startedAt[c] + r.cooldown)
    && (forall c :: Cooling(ops, c, r.cooldown, now) ==> c in r.deadlines)
  }

  lemma {:induction false} HistoryAgrees<C(!new)>(r: Ring<C>, ops: seq<Op<C>>, from: real, to: real)
    requires r.deadlines == map[] && r.startedAt == map[] && r.details == map[]
    requires Monotone(ops, from, to)
    ensures Agrees(After(r, ops), ops, to)
  {
    if ops != [] {
      var n := |ops| - 1;
      var op := ops[n];
      HistoryAgrees(r, ops[..n], from, if op.Clear? then to else op.now);
      if op.ClearBefore? {
        ClearBeforeAgrees(After(r, ops[..n]), ops, to);
      } else {
        OtherwiseAgrees(After(r, ops[..n]), ops, to);
      }
    }
  }

  lemma OtherwiseAgrees<C(!new)>(r: Ring<C>, ops: seq<Op<C>>, to: real)
    requires ops != [] && !ops[|ops| - 1].ClearBefore? && (ops[|ops| - 1].Clear? || ops[|ops| - 1].now <= to)
    requires Agrees(r, ops[..|ops| - 1], if ops[|ops| - 1].Clear? then to else ops[|ops| - 1].now)
    ensures Agrees(Apply(r, ops[|ops| - 1]), ops, to)
  {
  }

  lemma ClearBeforeAgrees<C(!new)>(r: Ring<C>, ops: seq<Op<C>>, to: real)
    requires ops != [] && ops[|ops| - 1].ClearBefore? && ops[|ops| - 1].now <= to
    requires Agrees(r, ops[..|ops| - 1], ops[|ops| - 1].now)
    ensures Agrees(Apply(r, ops[|ops| - 1]), ops, to)
  {
  }

  /**
   Whatever was marked, cleared, conditionally cleared and queried, under a
   clock that never goes back, a candidate is reported cooling exactly when its
   last uncleared failure is less than the cooldown old, with that failure's
   start, detail and deadline; and the three dictionaries have the same keys.
   */
  lemma {:induction false} CooldownsMatchHistory<C(!new)>(r: Ring<C>, ops: seq<Op<C>>, from: real, now: real, c: C)
    requires r.deadlines == map[] && r.startedAt == map[] && r.details == map[]
    requires Monotone(ops, from, now)
    ensures
      var p := Pruned(After(r, ops), now);
      && p.startedAt.Keys == p.deadlines.Keys == p.details.Keys
      && (c in p.deadlines <==> Cooling(ops, c, r.cooldown, now))
      && (c in p.deadlines ==>
            && LastFailure(ops, c) == Some((p.startedAt[c], p.details[c]))
            && p.deadlines[c] == p.startedAt[c] + r.cooldown)
  {
    HistoryAgrees(r, ops, from, now);
  }

  /** A conditional clear takes effect exactly when the candidate is cooling from before the evidence. */
  lemma ConditionalClearNeedsOlderCooldown<C(!new)>(
      r: Ring<C>, ops: seq<Op<C>>, from: real, now: real, c: C, evidence: real)
    requires r.deadlines == map[] && r.startedAt == map[] && r.details == map[]
    requires Monotone(ops, from, now)
    ensures
      var (p, cleared) := ClearedBefore(After(r, ops), c, evidence, now);
      && (cleared <==> Cooling(ops, c, r.cooldown, now) && LastFailure(ops, c).value.0 < evidence)
      && (c in p.deadlines <==> Cooling(ops, c, r.cooldown, now) && !cleared)
  {
    HistoryAgrees(r, ops, from, now);
  }

  // ------------------------------------------------------------------------
  // Rotation
  // ------------------------------------------------------------------------

  lemma {:induction false} FreeConcat<C>(a: seq<C>, b: seq<C>, cooling: set<C>)
    ensures Free(a + b, cooling) == Free(a, cooling) + Free(b, cooling)
  {
    if a == [] {
      assert a + b == b;
    } else {
      assert (a + b)[1..] == a[1..] + b;
      FreeConcat(a[1..], b, cooling);
    }
  }

  lemma {:induction false} FreeMember<C>(items: seq<C>, cooling: set<C>, c: C)
    ensures c in Free(items, cooling) <==> c in items && c !in cooling
  {
    if items != [] {
      FreeMember(items[1..], cooling, c);
      assert items == [items[0]] + items[1..];
    }
  }

  lemma RotatedMember<C>(items: seq<C>, i: nat, c: C)
    requires i <= |items|
    ensures c in Rotated(items, i) <==> c in items
  {
    assert items == items[..i] + items[i..];
  }

  lemma IndexOfDistinct<C>(items: seq<C>, i: nat)
    requires Distinct(items) && i < |items|
    ensures IndexOf(items, items[i]) == i
  {
  }

  /** How many steps around the ring lead from position `i` to position `j`. */
  function Steps(n: nat, i: nat, j: nat): int
    requires i < n && j < n
  {
    if i <= j then j - i else j - i + n
  }

  /** The same with at least one step: all the way around from a position to itself. */
  function StepsBehind(n: nat, i: nat, j: nat): int
    requires i < n && j < n
  {
    if i < j then j - i else j - i + n
  }

  /** Later items of the free ones come later in the list. */
  lemma {:induction false} FreeInOrder<C>(items: seq<C>, cooling: set<C>, a: nat, b: nat) returns (p: nat, q: nat)
    requires a < b < |Free(items, cooling)|
    ensures p < q < |items| && items[p] == Free(items, cooling)[a] && items[q] == Free(items, cooling)[b]
  {
    var rest := items[1..];
    if items[0] in cooling {
      p, q := FreeInOrder(rest, cooling, a, b);
      p, q := p + 1, q + 1;
    } else if a > 0 {
      p, q := FreeInOrder(rest, cooling, a - 1, b - 1);
      p, q := p + 1, q + 1;
    } else {
      p := 0;
      FreeMember(rest, cooling, Free(rest, cooling)[b - 1]);
      q :| 0 <= q < |rest| && rest[q] == Free(rest, cooling)[b - 1];
      q := q + 1;
    }
  }

  /** Where the rotated list has the item of position `j`. */
  lemma RotatedAt<C>(items: seq<C>, i: nat, p: nat, j: nat)
    requires Distinct(items) && i <= |items| && p < |items| && j < |items| && Rotated(items, i)[p] == items[j]
    ensures p == if j >= i then j - i else j - i + |items|
  {
    var k := if i + p < |items| then i + p else i + p - |items|;
    assert Rotated(items, i)[p] == items[k];
  }

  /**
   The available candidates are exactly those not cooling, and they stand in the
   order in which the ring comes to them from the current one.
   */
  lemma AvailableInRingOrder<C>(r: Ring<C>)
    requires Valid(r)
    ensures forall c :: c in Available(r) <==> c in r.candidates && c !in r.deadlines
    ensures forall a, b, h, i, j ::
      && 0 <= a < b < |Available(r)|
      && 0 <= h < |r.candidates| && r.candidates[h] == r.current
      && 0 <= i < |r.candidates| && r.candidates[i] == Available(r)[a]
      && 0 <= j < |r.candidates| && r.candidates[j] == Available(r)[b]
      ==> Steps(|r.candidates|, h, i) < Steps(|r.candidates|, h, j)
  {
    var start, cooling := IndexOf(r.candidates, r.current), r.deadlines.Keys;
    var ring := Rotated(r.candidates, start);
    forall c
      ensures c in Available(r) <==> c in r.candidates && c !in r.deadlines
    {
      FreeMember(ring, cooling, c);
      RotatedMember(r.candidates, start, c);
    }
    forall a, b, h, i, j |
      && 0 <= a < b < |Available(r)|
      && 0 <= h < |r.candidates| && r.candidates[h] == r.current
      && 0 <= i < |r.candidates| && r.candidates[i] == Available(r)[a]
      && 0 <= j < |r.candidates| && r.candidates[j] == Available(r)[b]
      ensures Steps(|r.candidates|, h, i) < Steps(|r.candidates|, h, j)
    {
      IndexOfDistinct(r.candidates, h);
      var p, q := FreeInOrder(ring, cooling, a, b);
      RotatedAt(r.candidates, start, p, i);
      RotatedAt(r.candidates, start, q, j);
    }
  }

  /**
   The next available candidate behind `c` is the free one that the ring comes
   to first, `c` itself being the last it comes to; none if all are cooling.
   */
  lemma NextIsFirstBehind<C>(r: Ring<C>, c: C)
    requires Valid(r) && c in r.candidates
    ensures NextAfter(r, c).None? <==> forall d :: d in r.candidates ==> d in r.deadlines
    ensures NextAfter(r, c).Some? ==> forall h, i, j ::
      && 0 <= h < |r.candidates| && r.candidates[h] == c
      && 0 <= i < |r.candidates| && r.candidates[i] == NextAfter(r, c).value
      && 0 <= j < |r.candidates| && r.candidates[j] !in r.deadlines
      ==> StepsBehind(|r.candidates|, h, i) <= StepsBehind(|r.candidates|, h, j)
  {
    var start, cooling := IndexOf(r.candidates, c) + 1, r.deadlines.Keys;
    var ring := Rotated(r.candidates, start);
    var free := Free(ring, cooling);
    forall d
      ensures d in free <==> d in r.candidates && d !in r.deadlines
    {
      FreeMember(ring, cooling, d);
      RotatedMember(r.candidates, start, d);
    }
    assert free != [] ==> free[0] in free;
    forall h, i, j |
      && 0 <= h < |r.candidates| && r.candidates[h] == c
      && 0 <= i < |r.candidates| && free != [] && r.candidates[i] == free[0]
      && 0 <= j < |r.candidates| && r.candidates[j] !in r.deadlines
      ensures StepsBehind(|r.candidates|, h, i) <= StepsBehind(|r.candidates|, h, j)
    {
      FirstBehind(r, h, i, j);
    }
  }

  lemma FirstBehind<C>(r: Ring<C>, h: nat, i: nat, j: nat)
    requires Valid(r) && h < |r.candidates| && i < |r.candidates| && j < |r.candidates|
    requires NextAfter(r, r.candidates[h]) == Some(r.candidates[i]) && r.candidates[j] !in r.deadlines
    ensures StepsBehind(|r.candidates|, h, i) <= StepsBehind(|r.candidates|, h, j)
  {
    IndexOfDistinct(r.candidates, h);
    var ring, cooling := Rotated(r.candidates, h + 1), r.deadlines.Keys;
    var free := Free(ring, cooling);
    FreeMember(ring, cooling, r.candidates[j]);
    RotatedMember(r.candidates, h + 1, r.candidates[j]);
    var b :| 0 <= b < |free| && free[b] == r.candidates[j];
    if b > 0 {
      var p, q := FreeInOrder(ring, cooling, 0, b);
      RotatedAt(r.candidates, h + 1, p, i);
      RotatedAt(r.candidates, h + 1, q, j);
    }
  }

  /** The free candidates, counted from the current one and from behind it. */
  lemma FreeAroundCurrent<C>(r: Ring<C>, i: nat, rest: seq<C>)
    requires i < |r.candidates| && r.candidates[i] == r.current
    requires rest == r.candidates[i + 1..] + r.candidates[..i]
    ensures
      var cooling := r.deadlines.Keys;
      var own := if r.current in r.deadlines then [] else [r.current];
      && Free(Rotated(r.candidates, i), cooling) == own + Free(rest, cooling)
      && Free(Rotated(r.candidates, i + 1), cooling) == Free(rest, cooling) + own
  {
    var cooling := r.deadlines.Keys;
    assert Rotated(r.candidates, i) == [r.current] + rest;
    assert Rotated(r.candidates, i + 1) == rest + [r.current];
    FreeConcat([r.current], rest, cooling);
    FreeConcat(rest, [r.current], cooling);
    assert Free([r.current], cooling) == if r.current in r.deadlines then [] else [r.current];
  }

  /**
   The successor of the current candidate is the head of `available()` exactly
   when the current one is cooling or nothing else is available.
   */
  lemma NextIsHeadOfAvailable<C>(r: Ring<C>)
    requires Valid(r)
    ensures
      var free := Available(r);
      NextAfter(r, r.current) == (if free == [] then None else Some(free[0])) <==>
        r.current in r.deadlines || forall c :: c in r.candidates && c != r.current ==> c in r.deadlines
  {
    var i := IndexOf(r.candidates, r.current);
    var rest := r.candidates[i + 1..] + r.candidates[..i];
    var others := Free(rest, r.deadlines.Keys);
    OthersFree(r, rest, others);
    FreeAroundCurrent(r, i, rest);
  }

  lemma OthersFree<C>(r: Ring<C>, rest: seq<C>, others: seq<C>)
    requires Valid(r)
    requires
      var i := IndexOf(r.candidates, r.current);
      rest == r.candidates[i + 1..] + r.candidates[..i]
    requires others == Free(rest, r.deadlines.Keys)
    ensures others != [] ==> others[0] != r.current
    ensures others == [] <==> forall c :: c in r.candidates && c != r.current ==> c in r.deadlines
  {
    var i := IndexOf(r.candidates, r.current);
    assert r.candidates == r.candidates[..i] + [r.current] + r.candidates[i + 1..];
    if others == [] {
      forall c | c in r.candidates && c != r.current
        ensures c in r.deadlines
      {
        FreeMember(rest, r.deadlines.Keys, c);
      }
    } else {
      FreeMember(rest, r.deadlines.Keys, others[0]);
    }
  }

  /** One failover: when the current candidate is marked, and when the next one is asked for. */
  datatype Failover = Failover(markAt: real, askAt: real)

  /** One failover of the current candidate, before the choice is made current. */
  function Failed<C>(r: Ring<C>, f: Failover): (e: Ring<C>)
    requires Valid(r)
    ensures Valid(e) && (e.candidates, e.current, e.cooldown) == (r.candidates, r.current, r.cooldown)
  {
    Pruned(Marked(r, r.current, None, f.markAt), f.askAt)
  }

  /** The candidates tried by failing over again and again, and whether the ring ran out of them. */
  function Walk<C(==)>(r: Ring<C>, fs: seq<Failover>): (seq<C>, bool)
    requires Valid(r)
    decreases |fs|
  {
    if fs == [] then ([r.current], false) else
    var e := Failed(r, fs[0]);
    match NextAfter(e, r.current)
    case None => ([r.current], true)
    case Some(next) =>
      var (visited, done) := Walk(e.(current := next), fs[1..]);
      ([r.current] + visited, done)
  }

  /** Every clock reading lies in a window that ends before a failure at its start has cooled down. */
  ghost predicate Within(fs: seq<Failover>, from: real, cooldown: real)
  {
    forall i :: 0 <= i < |fs| ==>
      from <= fs[i].markAt && fs[i].markAt < from + cooldown && fs[i].askAt < from + cooldown
  }

  lemma {:induction false} WalkAvoidsFailed<C>(r: Ring<C>, fs: seq<Failover>, from: real, failed: set<C>)
    requires Valid(r) && Within(fs, from, r.cooldown)
    requires r.current !in failed
    requires forall c :: c in failed ==> c in r.deadlines && r.deadlines[c] >= from + r.cooldown
    ensures Distinct(Walk(r, fs).0)
    ensures forall c :: c in Walk(r, fs).0 ==> c in r.candidates && c !in failed
    ensures Walk(r, fs).1 || |Walk(r, fs).0| == |fs| + 1
    decreases |fs|
  {
    if fs != [] {
      var e := Failed(r, fs[0]);
      FailedStays(r, fs[0], from, failed);
      var next := NextAfter(e, r.current);
      if next.Some? {
        WalkAvoidsFailed(e.(current := next.value), fs[1..], from, failed + {r.current});
      }
    }
  }

  /** After one failover all that failed in the window are still cooling, the last one included. */
  lemma FailedStays<C>(r: Ring<C>, f: Failover, from: real, failed: set<C>)
    requires Valid(r) && from <= f.markAt && f.markAt < from + r.cooldown && f.askAt < from + r.cooldown
    requires forall c :: c in failed ==> c in r.deadlines && r.deadlines[c] >= from + r.cooldown
    ensures
      var e := Failed(r, f);
      forall c :: c in failed + {r.current} ==> c in e.deadlines && e.deadlines[c] >= from + r.cooldown
  {
  }

  lemma {:induction false} DistinctFits<C>(items: seq<C>, pool: seq<C>)
    requires Distinct(items) && forall c :: c in items ==> c in pool
    ensures |items| <= |pool|
  {
    if items != [] {
      var i := IndexOf(pool, items[0]);
      var rest := pool[..i] + pool[i + 1..];
      assert pool == pool[..i] + [items[0]] + pool[i + 1..];
      forall c | c in items[1..]
        ensures c in rest
      {
        assert c in pool && c != items[0];
      }
      DistinctFits(items[1..], rest);
    }
  }

  /**
   Failing over again and again within one cooldown tries pairwise distinct
   candidates, whatever was cooling before, and with as many attempts as there
   are candidates it always runs out of them.
   */
  lemma WalkVisitsDistinct<C>(r: Ring<C>, fs: seq<Failover>, from: real)
    requires Valid(r) && Within(fs, from, r.cooldown)
    ensures Distinct(Walk(r, fs).0)
    ensures forall c :: c in Walk(r, fs).0 ==> c in r.candidates
    ensures |Walk(r, fs).0| <= |r.candidates|
    ensures |fs| >= |r.candidates| ==> Walk(r, fs).1
  {
    WalkAvoidsFailed(r, fs, from, {});
    DistinctFits(Walk(r, fs).0, r.candidates);
  }

  /** Rotating behind a candidate gives the same order from the ring and from any rotation of it. */
  lemma {:induction false} RotationsCommute<C>(items: seq<C>, s: nat, p: nat, c: C)
    requires Distinct(items) && s < |items| && p < |items|
    requires c in items && c == Rotated(items, s)[p]
    ensures Rotated(items, IndexOf(items, c) + 1) == Rotated(Rotated(items, s), p + 1)
  {
    var i := if s + p < |items| then s + p else s + p - |items|;
    IndexOfDistinct(items, i);
    if s + p >= |items| {
      RotationAcross(items, s, i);
    }
  }

  lemma RotationAcross<C>(items: seq<C>, s: nat, i: nat)
    requires i < s < |items|
    ensures Rotated(items, i + 1) == Rotated(Rotated(items, s), i + |items| - s + 1)
  {
    var turned := Rotated(items, s);
    assert turned[i + |items| - s + 1..] == items[i + 1..s];
    assert turned[..i + |items| - s + 1] == items[s..] + items[..i + 1];
    assert items[i + 1..] == items[i + 1..s] + items[s..];
  }

  lemma FreeOfCooling<C>(items: seq<C>, cooling: set<C>)
    requires forall c :: c in items ==> c in cooling
    ensures Free(items, cooling) == []
  {
  }

  lemma {:induction false} FreeDependsOnItems<C>(items: seq<C>, a: set<C>, b: set<C>)
    requires forall c :: c in items ==> (c in a <==> c in b)
    ensures Free(items, a) == Free(items, b)
  {
    if items != [] {
      FreeDependsOnItems(items[1..], a, b);
    }
  }

  /** A failover inside the window keeps what was cooling to its end, and adds the failed candidate. */
  lemma FailedCools<C>(r: Ring<C>, f: Failover, from: real)
    requires Valid(r) && Within([f], from, r.cooldown)
    requires forall c :: c in r.deadlines ==> r.deadlines[c] >= from + r.cooldown
    ensures Failed(r, f).deadlines.Keys == r.deadlines.Keys + {r.current}
    ensures forall c :: c in Failed(r, f).deadlines ==> Failed(r, f).deadlines[c] >= from + r.cooldown
  {
    assert [f][0] == f;
  }

  /**
   A walk along `order`, a rotation of the ring, has reached position `p`:
   everything behind it is cooling, what is cooling ahead of it is what was
   cooling at the outset, and nothing expires before the window ends.
   */
  ghost predicate OnTrack<C>(r: Ring<C>, from: real, order: seq<C>, s: nat, p: nat, cooling: set<C>)
  {
    && Valid(r)
    && s < |r.candidates| && order == Rotated(r.candidates, s)
    && p < |order| && r.current == order[p]
    && (forall c :: c in r.deadlines ==> r.deadlines[c] >= from + r.cooldown)
    && (forall q :: 0 <= q < p ==> order[q] in r.deadlines)
    && (forall q :: p < q < |order| ==> (order[q] in r.deadlines <==> order[q] in cooling))
  }

  /** The next choice lies ahead of the walk. */
  lemma NextLiesAhead<C>(r: Ring<C>, f: Failover, from: real, order: seq<C>, s: nat, p: nat, cooling: set<C>)
    requires OnTrack(r, from, order, s, p, cooling) && Within([f], from, r.cooldown)
    ensures
      var free := Free(order[p + 1..], cooling);
      NextAfter(Failed(r, f), r.current) == if free == [] then None else Some(free[0])
  {
    FailedCools(r, f, from);
    RotationsCommute(r.candidates, s, p, r.current);
    FreeAhead(order, p, Failed(r, f).deadlines.Keys, cooling);
  }

  lemma FreeAhead<C>(order: seq<C>, p: nat, now: set<C>, cooling: set<C>)
    requires p < |order|
    requires forall q :: 0 <= q <= p ==> order[q] in now
    requires forall q :: p < q < |order| ==> (order[q] in now <==> order[q] in cooling)
    ensures Free(Rotated(order, p + 1), now) == Free(order[p + 1..], cooling)
  {
    var rest := order[p + 1..];
    FreeConcat(rest, order[..p + 1], now);
    FreeOfCooling(order[..p + 1], now);
    FreeDependsOnItems(rest, now, cooling);
  }

  lemma StaysOnTrack<C>(
      r: Ring<C>, f: Failover, from: real, order: seq<C>, s: nat, p: nat, cooling: set<C>, next: nat)
    requires OnTrack(r, from, order, s, p, cooling) && Within([f], from, r.cooldown)
    requires p < next < |order|
    requires forall q :: p < q < next ==> order[q] in cooling
    ensures OnTrack(Failed(r, f).(current := order[next]), from, order, s, next, cooling)
  {
    FailedCools(r, f, from);
    RotatedMember(r.candidates, s, order[next]);
  }

  lemma {:induction false} WalkInOrder<C>(
      r: Ring<C>, fs: seq<Failover>, from: real, order: seq<C>, s: nat, p: nat, cooling: set<C>)
    requires OnTrack(r, from, order, s, p, cooling) && Within(fs, from, r.cooldown)
    ensures
      var expected := [order[p]] + Free(order[p + 1..], cooling);
      && Walk(r, fs).0 <= expected
      && (Walk(r, fs).1 ==> Walk(r, fs).0 == expected)
    decreases |fs|
  {
    if fs != [] {
      assert fs[0] == [fs[0]][0];
      NextLiesAhead(r, fs[0], from, order, s, p, cooling);
      if Free(order[p + 1..], cooling) != [] {
        var next := FirstAhead(order, p, cooling);
        StaysOnTrack(r, fs[0], from, order, s, p, cooling, next);
        var e := Failed(r, fs[0]).(current := order[next]);
        WalkInOrder(e, fs[1..], from, order, s, next, cooling);
        PrefixBehind(order[p], Walk(e, fs[1..]).0, Free(order[p + 1..], cooling));
      }
    }
  }

  lemma PrefixBehind<C>(first: C, part: seq<C>, whole: seq<C>)
    requires part <= whole
    ensures [first] + part <= [first] + whole
  {
  }

  lemma FirstAhead<C>(order: seq<C>, p: nat, cooling: set<C>) returns (next: nat)
    requires p < |order| && Free(order[p + 1..], cooling) != []
    ensures p < next < |order|
    ensures forall k :: p < k < next ==> order[k] in cooling
    ensures Free(order[p + 1..], cooling) == [order[next]] + Free(order[next + 1..], cooling)
  {
    var ahead := order[p + 1..];
    var q := FirstFree(ahead, cooling);
    next := p + 1 + q;
    assert ahead[q + 1..] == order[next + 1..];
    assert forall k :: p < k < next ==> order[k] == ahead[k - p - 1];
  }

  lemma {:induction false} FirstFree<C>(items: seq<C>, cooling: set<C>) returns (q: nat)
    requires Free(items, cooling) != []
    ensures q < |items| && items[q] == Free(items, cooling)[0]
    ensures forall i :: 0 <= i < q ==> items[i] in cooling
    ensures Free(items, cooling) == [items[q]] + Free(items[q + 1..], cooling)
  {
    if items[0] in cooling {
      var k := FirstFree(items[1..], cooling);
      q := k + 1;
      assert items[1..][k + 1..] == items[q + 1..];
    } else {
      q := 0;
    }
  }

  /**
   If nothing that is cooling expires in the window, the candidates are tried
   in cyclic order from the current one: exactly the available ones, in order,
   once the walk has run out of them.
   */
  lemma WalkIsCyclicOrder<C>(r: Ring<C>, fs: seq<Failover>, from: real)
    requires Valid(r) && Within(fs, from, r.cooldown)
    requires forall c :: c in r.deadlines ==> r.deadlines[c] >= from + r.cooldown
    ensures
      var others := Rotated(r.candidates, IndexOf(r.candidates, r.current))[1..];
      var expected := [r.current] + Free(others, r.deadlines.Keys);
      && Walk(r, fs).0 <= expected
      && (|fs| >= |r.candidates| ==> Walk(r, fs) == (expected, true))
  {
    var s := IndexOf(r.candidates, r.current);
    WalkInOrder(r, fs, from, Rotated(r.candidates, s), s, 0, r.deadlines.Keys);
    WalkVisitsDistinct(r, fs, from);
  }
}
