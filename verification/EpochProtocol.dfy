/**
 Concurrent writes and deletes on one shard, as the store runs them around the
 epoch tracker: any interleaving of their atomic steps, over whole runs.
 */
module EpochProtocol {
  import opened Wrappers
  import opened EpochTracker
  import opened Guard

  /** A write in flight: the guards it was handed, in the order it visits them, and how many it has passed. */
  datatype Write = Write(points: seq<Point>, order: seq<nat>, passed: nat)

  /** A delete waits for earlier writes, deletes, takes its guard out of the tracker and releases it. */
  datatype Phase = Draining | Deleting | Releasing | Finished

  datatype Delete = Delete(guard: Guard, phase: Phase)

  /** Writes in flight and all deletes so far, by generation; a guard is known by its delete's generation. */
  datatype State = State(tracker: Tracker<Guard>, writes: map<nat, Write>, deletes: map<nat, Delete>)

  datatype Step =
    | StartWrite(points: seq<Point>, order: seq<nat>)
    | PassGuard(w: nat)
    | EndWrite(w: nat)
    | WaitDelete(guard: Guard)
    | WaitReturns(d: nat)
    | Unregister(d: nat)
    | ReleaseGuard(d: nat)

  ghost predicate Init(s: State)
  {
    s == State(New(), map[], map[])
  }

  /** The write has passed every guard it was handed. */
  predicate Writing(w: Write)
  {
    w.passed == |w.order|
  }

  function Advance(s: State, d: nat, phase: Phase): State
    requires d in s.deletes
  {
    s.(deletes := s.deletes[d := s.deletes[d].(phase := phase)])
  }

  /** Whether an operation can take its next step, and the state after it. */
  ghost predicate Next(s: State, step: Step, s': State)
  {
    match step
    case StartWrite(points, order) =>
      var t := Started(s.tracker);
      Lists(order, s.tracker.deletes) &&
      s' == s.(tracker := t, writes := s.writes[t.epoch := Write(points, order, 0)])
    case PassGuard(w) =>
      // A matching guard is waited on until it is released.
      && w in s.writes && s.writes[w].passed < |s.writes[w].order|
      && var d := s.writes[w].order[s.writes[w].passed];
      && d in s.deletes && (!Matches(s.deletes[d].guard, s.writes[w].points) || s.deletes[d].phase.Finished?)
      && s' == s.(writes := s.writes[w := s.writes[w].(passed := s.writes[w].passed + 1)])
    case EndWrite(w) =>
      && w in s.writes && Writing(s.writes[w])
      && s' == s.(tracker := Ended(s.tracker, w), writes := s.writes - {w})
    case WaitDelete(guard) =>
      var t := Waited(s.tracker, guard);
      s' == s.(tracker := t, deletes := s.deletes[t.epoch := Delete(guard, Draining)])
    case WaitReturns(d) =>
      && d in s.deletes && s.deletes[d].phase.Draining?
      && d in s.tracker.deletes && s.tracker.deletes[d].pending <= 0
      && s' == Advance(s, d, Deleting)
    case Unregister(d) =>
      && d in s.deletes && s.deletes[d].phase.Deleting?
      && s' == Advance(s, d, Releasing).(tracker := Unregistered(s.tracker, d))
    case ReleaseGuard(d) =>
      && d in s.deletes && s.deletes[d].phase.Releasing?
      && s' == Advance(s, d, Finished)
  }

  // ----- What every step keeps -----

  /** The writes in flight that started before generation `d`. */
  ghost function Earlier(s: State, d: nat): set<nat>
  {
    set w | w in s.writes && w < d
  }

  ghost predicate InTracker(s: State, d: nat)
  {
    d in s.deletes && (s.deletes[d].phase.Draining? || s.deletes[d].phase.Deleting?)
  }

  ghost predicate Generations(s: State)
  {
    && (forall w | w in s.writes :: 0 < w <= s.tracker.epoch && w !in s.deletes)
    && (forall d | d in s.deletes :: 0 < d <= s.tracker.epoch)
    && (forall d | d in s.tracker.deletes :: d <= s.tracker.largest)
    && s.tracker.largest <= s.tracker.epoch
  }

  /** The counters: a registered delete is still owed exactly the earlier writes in flight. */
  ghost predicate Counted(s: State)
  {
    && s.tracker.writes == |s.writes|
    && (forall d: nat :: d in s.tracker.deletes <==> InTracker(s, d))
    && (forall d | d in s.tracker.deletes ::
          s.tracker.deletes[d] == Registered(s.deletes[d].guard, |Earlier(s, d)|))
  }

  /** Every write knows the guards of the older deletes in the tracker, and passed only those it may. */
  ghost predicate Handed(s: State)
  {
    && (forall w | w in s.writes ::
          && s.writes[w].passed <= |s.writes[w].order|
          && (forall d | d in s.writes[w].order :: d in s.deletes && d < w))
    && (forall w, d: nat | w in s.writes && InTracker(s, d) && d < w :: d in s.writes[w].order)
  }

  ghost predicate MayPass(s: State, d: nat, points: seq<Point>)
  {
    d in s.deletes && (!Matches(s.deletes[d].guard, points) || s.deletes[d].phase.Finished?)
  }

  ghost predicate PassedOnlyOpen(s: State)
  {
    forall w, i | w in s.writes && 0 <= i < s.writes[w].passed && i < |s.writes[w].order| ::
      MayPass(s, s.writes[w].order[i], s.writes[w].points)
  }

  /** A delete past its wait has no earlier write in flight. */
  ghost predicate Drained(s: State)
  {
    forall w, d | w in s.writes && d in s.deletes && !s.deletes[d].phase.Draining? :: d < w
  }

  ghost predicate Inv(s: State)
  {
    Generations(s) && Counted(s) && Handed(s) && PassedOnlyOpen(s) && Drained(s)
  }

  lemma GenerationsKept(s: State, step: Step, s': State)
    requires Generations(s) && Next(s, step, s')
    ensures Generations(s')
  {
  }

  lemma EarlierAfter(s: State, step: Step, s': State, d: nat)
    requires Generations(s) && Next(s, step, s')
    ensures step.StartWrite? && d <= s.tracker.epoch ==> Earlier(s', d) == Earlier(s, d)
    ensures step.EndWrite? ==> Earlier(s', d) == Earlier(s, d) - {step.w}
    ensures !step.StartWrite? && !step.EndWrite? ==> Earlier(s', d) == Earlier(s, d)
    ensures step.WaitDelete? && d == s'.tracker.epoch ==> Earlier(s', d) == s.writes.Keys
  {
    if step.PassGuard? {
      assert s'.writes.Keys == s.writes.Keys;
    }
  }

  lemma MapSizes<T>(m: map<nat, T>, k: nat, v: T)
    ensures |m[k := v]| == if k in m then |m| else |m| + 1
    ensures |m - {k}| == if k in m then |m| - 1 else |m|
  {
    assert m[k := v].Keys == m.Keys + {k};
    assert (m - {k}).Keys == m.Keys - {k};
  }

  lemma WriteCount(s: State, step: Step, s': State)
    requires Generations(s) && s.tracker.writes == |s.writes| && Next(s, step, s')
    ensures s'.tracker.writes == |s'.writes|
  {
    hide Matches, Lists;
    if step.StartWrite? {
      MapSizes(s.writes, s.tracker.epoch + 1, s'.writes[s.tracker.epoch + 1]);
    } else if step.PassGuard? {
      MapSizes(s.writes, step.w, s'.writes[step.w]);
    } else if step.EndWrite? {
      MapSizes(s.writes, step.w, s.writes[step.w]);
    }
  }

  lemma PendingKept(s: State, step: Step, s': State, d: nat)
    requires Generations(s) && Counted(s) && Next(s, step, s') && d in s'.tracker.deletes
    ensures d in s'.deletes && s'.tracker.deletes[d] == Registered(s'.deletes[d].guard, |Earlier(s', d)|)
  {
    EarlierAfter(s, step, s', d);
    assert (step.WaitDelete? && d == s'.tracker.epoch) || d in s.tracker.deletes;
    if step.EndWrite? {
      assert step.w < d <==> step.w in Earlier(s, d);
      assert step.w != d;
    }
  }

  lemma RegistrationKept(s: State, step: Step, s': State, d: nat)
    requires Generations(s) && Next(s, step, s')
    requires d in s.tracker.deletes <==> InTracker(s, d)
    ensures d in s'.tracker.deletes <==> InTracker(s', d)
  {
  }

  lemma CountedKept(s: State, step: Step, s': State)
    requires Generations(s) && Counted(s) && Next(s, step, s')
    ensures Counted(s')
  {
    hide Next, Generations, InTracker, Earlier;
    WriteCount(s, step, s');
    forall d: nat ensures d in s'.tracker.deletes <==> InTracker(s', d) {
      RegistrationKept(s, step, s', d);
    }
    forall d: nat | d in s'.tracker.deletes
      ensures d in s'.deletes && s'.tracker.deletes[d] == Registered(s'.deletes[d].guard, |Earlier(s', d)|)
    {
      PendingKept(s, step, s', d);
    }
  }

  lemma OrdersKept(s: State, step: Step, s': State, w: nat)
    requires Generations(s) && Counted(s) && Handed(s) && Next(s, step, s') && w in s'.writes
    ensures s'.writes[w].passed <= |s'.writes[w].order|
    ensures forall d | d in s'.writes[w].order :: d in s'.deletes && d < w
  {
    hide Matches, Earlier;
  }

  lemma HandedOver(s: State, step: Step, s': State, w: nat, d: nat)
    requires Generations(s) && Counted(s) && Handed(s) && Next(s, step, s')
    requires w in s'.writes && InTracker(s', d) && d < w
    ensures d in s'.writes[w].order
  {
    hide Matches, Earlier;
    assert InTracker(s, d);
  }

  lemma HandedKept(s: State, step: Step, s': State)
    requires Generations(s) && Counted(s) && Handed(s) && Next(s, step, s')
    ensures Handed(s')
  {
    hide Next, Generations, Counted, InTracker;
    forall w | w in s'.writes
      ensures s'.writes[w].passed <= |s'.writes[w].order|
      ensures forall d | d in s'.writes[w].order :: d in s'.deletes && d < w
    {
      OrdersKept(s, step, s', w);
    }
    forall w, d: nat | w in s'.writes && InTracker(s', d) && d < w ensures d in s'.writes[w].order {
      HandedOver(s, step, s', w, d);
    }
  }

  lemma PassedKept(s: State, step: Step, s': State)
    requires Generations(s) && Handed(s) && PassedOnlyOpen(s) && Next(s, step, s')
    ensures PassedOnlyOpen(s')
  {
    hide Matches, Lists;
    forall w, i | w in s'.writes && 0 <= i < s'.writes[w].passed && i < |s'.writes[w].order|
      ensures MayPass(s', s'.writes[w].order[i], s'.writes[w].points)
    {
      var d := s'.writes[w].order[i];
      assert w in s.writes && s.writes[w].order == s'.writes[w].order && s.writes[w].points == s'.writes[w].points;
      assert MayPass(s, d, s.writes[w].points);
      assert d in s.writes[w].order;
    }
  }

  lemma DrainedKept(s: State, step: Step, s': State)
    requires Generations(s) && Counted(s) && Drained(s) && Next(s, step, s')
    ensures Drained(s')
  {
    if step.WaitReturns? {
      assert |Earlier(s, step.d)| == 0;
      forall w | w in s.writes ensures step.d < w {
        assert w !in Earlier(s, step.d);
      }
    }
  }

  /** Every step of every operation keeps the invariant. */
  lemma StepKeeps(s: State, step: Step, s': State)
    requires Inv(s) && Next(s, step, s')
    ensures Inv(s')
  {
    GenerationsKept(s, step, s');
    CountedKept(s, step, s');
    HandedKept(s, step, s');
    PassedKept(s, step, s');
    DrainedKept(s, step, s');
  }

  // ----- Runs -----

  ghost predicate Run(states: seq<State>, steps: seq<Step>)
  {
    && |states| == |steps| + 1 && Init(states[0])
    && forall i | 0 <= i < |steps| :: Next(states[i], steps[i], states[i + 1])
  }

  lemma {:induction false} RunKeeps(states: seq<State>, steps: seq<Step>, n: nat)
    requires Run(states, steps) && n <= |steps|
    ensures Inv(states[n])
  {
    if n == 0 {
      forall d: nat ensures Earlier(states[0], d) == {} {}
    } else {
      RunKeeps(states, steps, n - 1);
      StepKeeps(states[n - 1], steps[n - 1], states[n]);
    }
  }

  /**
   From the moment a delete's wait returns until it leaves the tracker, no
   earlier write is in flight, every write in flight was handed its guard, and no
   write that the guard matches is writing.
   */
  lemma DeleteExcludesWrites(states: seq<State>, steps: seq<Step>, n: nat, d: nat, w: nat)
    requires Run(states, steps) && n <= |steps|
    requires d in states[n].deletes && states[n].deletes[d].phase.Deleting? && w in states[n].writes
    ensures d < w && d in states[n].writes[w].order
    ensures Writing(states[n].writes[w]) ==> !Matches(states[n].deletes[d].guard, states[n].writes[w].points)
  {
    var s := states[n];
    RunKeeps(states, steps, n);
    assert InTracker(s, d);
    var i :| 0 <= i < |s.writes[w].order| && s.writes[w].order[i] == d;
    if Writing(s.writes[w]) {
      assert MayPass(s, s.writes[w].order[i], s.writes[w].points);
    }
  }

  /** No point that a running delete removes is being written, if the point carries the tags the delete compares. */
  lemma NoLostDelete(states: seq<State>, steps: seq<Step>, n: nat, d: nat, w: nat, i: nat,
                     min: int, max: int, names: seq<string>, cond: Option<Expr>, world: World)
    requires Run(states, steps) && n <= |steps|
    requires d in states[n].deletes && states[n].deletes[d] == Delete(NewGuard(min, max, names, cond), Deleting)
    requires w in states[n].writes && Writing(states[n].writes[w]) && i < |states[n].writes[w].points|
    requires cond.Some? ==> Visible(cond.value, states[n].writes[w].points[i], world)
    ensures !Deletes(min, max, names, cond, states[n].writes[w].points[i], world)
  {
    DeleteExcludesWrites(states, steps, n, d, w);
    if Deletes(min, max, names, cond, states[n].writes[w].points[i], world) {
      GuardCoversDelete(min, max, names, cond, states[n].writes[w].points, i, world);
    }
  }

  // ----- Nothing waits forever -----

  /** The operation of generation `g` has not finished. */
  predicate Pending(s: State, g: nat)
  {
    g in s.writes || (g in s.deletes && !s.deletes[g].phase.Finished?)
  }

  /** The next step of a pending operation. */
  function NextStep(s: State, g: nat): Step
    requires Pending(s, g)
  {
    if g in s.writes then
      if Writing(s.writes[g]) then EndWrite(g) else PassGuard(g)
    else
      match s.deletes[g].phase
      case Draining => WaitReturns(g)
      case Deleting => Unregister(g)
      case _ => ReleaseGuard(g)
  }

  /** `g` cannot take its next step until `h` does something. */
  ghost predicate WaitsFor(s: State, g: nat, h: nat)
  {
    || (g in s.writes && !Writing(s.writes[g]) && s.writes[g].passed < |s.writes[g].order| &&
        h == s.writes[g].order[s.writes[g].passed] && !MayPass(s, h, s.writes[g].points))
    || (g in s.deletes && s.deletes[g].phase.Draining? && h in Earlier(s, g))
  }

  /** Every wait is for an older operation that is itself pending. */
  lemma WaitsForOlder(s: State, g: nat, h: nat)
    requires Inv(s) && WaitsFor(s, g, h)
    ensures h < g && Pending(s, h)
  {
    if g in s.writes {
      assert h in s.writes[g].order;
    }
  }

  ghost predicate Enabled(s: State, step: Step)
  {
    exists s' :: Next(s, step, s')
  }

  /** An operation that waits for nothing can take its next step. */
  lemma UnblockedIsEnabled(s: State, g: nat)
    requires Inv(s) && Pending(s, g) && forall h: nat :: !WaitsFor(s, g, h)
    ensures Enabled(s, NextStep(s, g))
  {
    if g in s.writes {
      var w := s.writes[g];
      if Writing(w) {
        assert Next(s, EndWrite(g), s.(tracker := Ended(s.tracker, g), writes := s.writes - {g}));
      } else {
        assert !WaitsFor(s, g, w.order[w.passed]);
        assert Next(s, PassGuard(g), s.(writes := s.writes[g := w.(passed := w.passed + 1)]));
      }
    } else {
      match s.deletes[g].phase
      case Draining =>
        assert InTracker(s, g);
        assert forall h: nat | h in Earlier(s, g) :: WaitsFor(s, g, h);
        assert Earlier(s, g) == {};
        assert Next(s, WaitReturns(g), Advance(s, g, Deleting));
      case Deleting =>
        assert Next(s, Unregister(g), Advance(s, g, Releasing).(tracker := Unregistered(s.tracker, g)));
      case Releasing =>
        assert Next(s, ReleaseGuard(g), Advance(s, g, Finished));
      case Finished =>
    }
  }

  /** While an operation is pending, some operation can take its next step: there is no deadlock. */
  lemma {:induction false} SomeoneCanStep(s: State, g: nat) returns (h: nat)
    requires Inv(s) && Pending(s, g)
    ensures h <= g && Pending(s, h) && Enabled(s, NextStep(s, h))
  {
    if older: nat :| WaitsFor(s, g, older) {
      WaitsForOlder(s, g, older);
      h := SomeoneCanStep(s, older);
    } else {
      UnblockedIsEnabled(s, g);
      h := g;
    }
  }

  /** The steps that operation `g` still has to take. */
  function StepsLeft(s: State, g: nat): nat
  {
    if g in s.writes then
      if s.writes[g].passed <= |s.writes[g].order| then |s.writes[g].order| - s.writes[g].passed + 1 else 0
    else if g in s.deletes then
      match s.deletes[g].phase
      case Draining => 3
      case Deleting => 2
      case Releasing => 1
      case Finished => 0
    else 0
  }

  /** The steps that the operations up to generation `n` still have to take. */
  function Work(s: State, n: nat): nat
  {
    if n == 0 then 0 else Work(s, n - 1) + StepsLeft(s, n)
  }

  /** A step that starts no operation, and the operation that takes it. */
  predicate Internal(step: Step)
  {
    !step.StartWrite? && !step.WaitDelete?
  }

  function Actor(step: Step): nat
    requires Internal(step)
  {
    if step.PassGuard? || step.EndWrite? then step.w else step.d
  }

  lemma WriteSpendsOne(s: State, step: Step, s': State, g: nat)
    requires Generations(s) && (step.PassGuard? || step.EndWrite?) && Next(s, step, s')
    ensures StepsLeft(s', g) == if g == Actor(step) then StepsLeft(s, g) - 1 else StepsLeft(s, g)
    ensures 1 <= Actor(step) <= s.tracker.epoch == s'.tracker.epoch
  {
  }

  lemma DeleteSpendsOne(s: State, step: Step, s': State, g: nat)
    requires Generations(s) && (step.WaitReturns? || step.Unregister? || step.ReleaseGuard?) && Next(s, step, s')
    ensures StepsLeft(s', g) == if g == Actor(step) then StepsLeft(s, g) - 1 else StepsLeft(s, g)
    ensures 1 <= Actor(step) <= s.tracker.epoch == s'.tracker.epoch
  {
    assert s'.writes == s.writes && step.d !in s.writes;
    assert s'.tracker.epoch == s.tracker.epoch;
  }

  lemma StepSpendsOne(s: State, step: Step, s': State, g: nat)
    requires Inv(s) && Internal(step) && Next(s, step, s')
    ensures StepsLeft(s', g) == if g == Actor(step) then StepsLeft(s, g) - 1 else StepsLeft(s, g)
    ensures 1 <= Actor(step) <= s.tracker.epoch == s'.tracker.epoch
  {
    if step.PassGuard? || step.EndWrite? {
      WriteSpendsOne(s, step, s', g);
    } else {
      DeleteSpendsOne(s, step, s', g);
    }
  }

  lemma {:induction false} WorkShrinks(s: State, step: Step, s': State, n: nat)
    requires Inv(s) && Internal(step) && Next(s, step, s')
    ensures Work(s', n) == if Actor(step) <= n then Work(s, n) - 1 else Work(s, n)
  {
    hide Inv, Next, StepsLeft;
    StepSpendsOne(s, step, s', n);
    if n > 0 {
      WorkShrinks(s, step, s', n - 1);
    }
  }

  lemma {:induction false} NoWorkNothingPending(s: State, n: nat, g: nat)
    requires Inv(s) && Work(s, n) == 0 && g <= n
    ensures !Pending(s, g)
  {
    if g < n {
      NoWorkNothingPending(s, n - 1, g);
    } else if n == 0 {
      assert Generations(s);
    }
  }

  /** States connected by steps none of which starts an operation. */
  ghost predicate Schedule(states: seq<State>, steps: seq<Step>)
  {
    && |states| == |steps| + 1
    && forall i | 0 <= i < |steps| :: Internal(steps[i]) && Next(states[i], steps[i], states[i + 1])
  }

  /**
   However the pending operations are scheduled, each step brings the end one
   step nearer, and once the work counted at the start is done nothing is pending.
   Together with `SomeoneCanStep`, every operation finishes.
   */
  lemma {:induction false} ScheduleFinishes(states: seq<State>, steps: seq<Step>, n: nat)
    requires Schedule(states, steps) && Inv(states[0]) && n <= |steps|
    ensures Inv(states[n]) && states[n].tracker.epoch == states[0].tracker.epoch
    ensures Work(states[n], states[0].tracker.epoch) == Work(states[0], states[0].tracker.epoch) - n
    ensures n == Work(states[0], states[0].tracker.epoch) ==> forall g: nat :: !Pending(states[n], g)
  {
    hide Next, Work, StepsLeft, Counted, Handed, PassedOnlyOpen, Drained;
    if n > 0 {
      ScheduleFinishes(states, steps, n - 1);
      StepKeeps(states[n - 1], steps[n - 1], states[n]);
      StepSpendsOne(states[n - 1], steps[n - 1], states[n], 0);
      WorkShrinks(states[n - 1], steps[n - 1], states[n], states[0].tracker.epoch);
    }
    if n == Work(states[0], states[0].tracker.epoch) {
      forall g: nat ensures !Pending(states[n], g) {
        if g <= states[0].tracker.epoch {
          NoWorkNothingPending(states[n], states[0].tracker.epoch, g);
        }
      }
    }
  }
}
