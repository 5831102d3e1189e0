/** The chain of runtime-call timers linked by their parent pointers, seen as
    a value: `stack` lists the frames outermost first, so the last frame is the
    current timer and each frame's parent is the one before it. Counters are
    numbered; two frames with the same id share one counter (recursion).

    Enter is Start under the current timer, Leave is Stop of the current timer;
    both use the arithmetic of `Timing.Ticks`, as the timer class does. */
module CallStack {
  import opened Timing

  datatype Option<T> = None | Some(value: T)

  datatype Frame = Frame(id: nat, ticks: Ticks)

  /** A counter's invocation count and committed time. */
  datatype Tally = Tally(count: int, time: int)

  datatype Stats = Stats(tallies: seq<Tally>, stack: seq<Frame>)

  function Top(stack: seq<Frame>): Frame
    requires stack != []
  {
    stack[|stack| - 1]
  }

  function Below(stack: seq<Frame>): seq<Frame>
    requires stack != []
  {
    stack[..|stack| - 1]
  }

  /** How many frames are running. */
  function Running(stack: seq<Frame>): nat {
    if stack == [] then 0
    else Running(Below(stack)) + (if Top(stack).ticks.IsStarted() then 1 else 0)
  }

  /** The time the frames hold, each counted as if paused at `now`. */
  function Pending(stack: seq<Frame>, now: int): int {
    if stack == [] then 0 else Pending(Below(stack), now) + Top(stack).ticks.Accrued(now)
  }

  /** All counters added up: total invocations and total committed time. */
  function Sum(tallies: seq<Tally>): Tally {
    if tallies == [] then Tally(0, 0)
    else
      var rest := Sum(tallies[..|tallies| - 1]);
      var last := tallies[|tallies| - 1];
      Tally(rest.count + last.count, rest.time + last.time)
  }

  /** Every unit of time seen so far: committed, or still held by a frame. */
  function Total(s: Stats, now: int): int {
    Sum(s.tallies).time + Pending(s.stack, now)
  }

  /** Every frame names a counter, and at most one frame is running. */
  predicate Wf(s: Stats) {
    (forall i | 0 <= i < |s.stack| :: s.stack[i].id < |s.tallies|) &&
    Running(s.stack) <= 1
  }

  /** Fine-grained timing is on: the innermost frame is the running one. */
  predicate Measured(s: Stats) {
    s.stack != [] ==> Top(s.stack).ticks.IsStarted()
  }

  /** Start a timer for counter `id` under the current timer at tick `now`.
      When only sampling, the frame is pushed and nothing else happens. */
  function Enter(s: Stats, id: nat, sampling: bool, now: int): (r: Stats)
    requires !sampling && s.stack != [] ==> Top(s.stack).ticks.IsStarted()
    ensures |r.stack| == |s.stack| + 1 && r.tallies == s.tallies
    ensures Top(r.stack).id == id && (Top(r.stack).ticks.IsStarted() <==> !sampling && now != 0)
  {
    if sampling then
      Stats(s.tallies, s.stack + [Frame(id, Unstarted)])
    else
      var below :=
        if s.stack == [] then []
        else Below(s.stack) + [Frame(Top(s.stack).id, Top(s.stack).ticks.Paused(now))];
      Stats(s.tallies, below + [Frame(id, Unstarted.Resumed(now))])
  }

  /** What Leave needs: the counter exists and the parent can be resumed. */
  predicate CanLeave(s: Stats) {
    s.stack != [] &&
    (Top(s.stack).ticks.IsStarted() ==>
      Top(s.stack).id < |s.tallies| &&
      (|s.stack| > 1 ==> !Top(Below(s.stack)).ticks.IsStarted()))
  }

  /** Stop the current timer at tick `now` and make its parent current. */
  function Leave(s: Stats, now: int): (r: Stats)
    requires CanLeave(s)
    ensures |r.stack| == |s.stack| - 1 && |r.tallies| == |s.tallies|
    ensures !Top(s.stack).ticks.IsStarted() ==> r.tallies == s.tallies
    ensures r.stack != [] ==> Top(r.stack).id == Top(Below(s.stack)).id
  {
    var top := Top(s.stack);
    var rest := Below(s.stack);
    if !top.ticks.IsStarted() then
      Stats(s.tallies, rest)
    else
      var t := s.tallies[top.id];
      var tallies := s.tallies[top.id := Tally(t.count + 1, t.time + top.ticks.Paused(now).elapsed)];
      if rest == [] then Stats(tallies, [])
      else Stats(tallies, Below(rest) + [Frame(Top(rest).id, Top(rest).ticks.Resumed(now))])
  }

  /** Enter pushes one frame bound to `id` and never touches a counter; the
      frames below the parent are kept, and the parent is paused at `now`
      unless only sampling. */
  lemma EnterEffect(s: Stats, id: nat, sampling: bool, now: int)
    requires !sampling && s.stack != [] ==> Top(s.stack).ticks.IsStarted()
    ensures var r := Enter(s, id, sampling, now);
      |r.stack| == |s.stack| + 1 && r.tallies == s.tallies &&
      Top(r.stack).id == id &&
      (Top(r.stack).ticks.IsStarted() <==> !sampling && now != 0) &&
      (s.stack != [] ==> Below(Below(r.stack)) == Below(s.stack)) &&
      (sampling ==> Below(r.stack) == s.stack) &&
      (!sampling && s.stack != [] ==>
        Top(Below(r.stack)) == Frame(Top(s.stack).id, Top(s.stack).ticks.Paused(now)))
  {
  }

  /** Leave pops one frame. A frame that is not running changes nothing else;
      a running one charges its own counter one call and its accrued time,
      and the parent, kept in place, is resumed at `now`. */
  lemma LeaveEffect(s: Stats, now: int)
    requires CanLeave(s)
    ensures var r := Leave(s, now);
      |r.stack| == |s.stack| - 1 && |r.tallies| == |s.tallies| &&
      (!Top(s.stack).ticks.IsStarted() ==> r == Stats(s.tallies, Below(s.stack))) &&
      (Top(s.stack).ticks.IsStarted() ==>
        var top := Top(s.stack);
        r.tallies == s.tallies[top.id := Tally(s.tallies[top.id].count + 1, s.tallies[top.id].time + top.ticks.Accrued(now))] &&
        (r.stack != [] ==>
          Below(r.stack) == Below(Below(s.stack)) &&
          Top(r.stack) == Frame(Top(Below(s.stack)).id, Top(Below(s.stack)).ticks.Resumed(now))))
  {
  }

  /** Enter, read back from the two frames it touches: the parent ends with
      `parentTicks` and the new frame with `childTicks`. */
  lemma EnterReadBack(s: Stats, id: nat, sampling: bool, now: int, parentTicks: Ticks, childTicks: Ticks)
    requires !sampling && s.stack != [] ==> Top(s.stack).ticks.IsStarted()
    requires s.stack != [] ==>
      parentTicks == if sampling then Top(s.stack).ticks else Top(s.stack).ticks.Paused(now)
    requires childTicks == if sampling then Unstarted else Unstarted.Resumed(now)
    ensures Enter(s, id, sampling, now) ==
      Stats(s.tallies,
        (if s.stack == [] then [] else Below(s.stack) + [Frame(Top(s.stack).id, parentTicks)]) +
        [Frame(id, childTicks)])
  {
    if sampling && s.stack != [] {
      assert Below(s.stack) + [Top(s.stack)] == s.stack;
    }
  }

  /** Leave, read back from what it touches: the popped frame's tally ends
      as `counted` and the parent with `parentTicks`. */
  lemma LeaveReadBack(s: Stats, now: int, counted: Tally, parentTicks: Ticks)
    requires CanLeave(s) && Top(s.stack).id < |s.tallies|
    requires counted ==
      var t := s.tallies[Top(s.stack).id];
      if Top(s.stack).ticks.IsStarted() then Tally(t.count + 1, t.time + Top(s.stack).ticks.Accrued(now)) else t
    requires |s.stack| > 1 ==>
      parentTicks ==
        var p := Top(Below(s.stack)).ticks;
        if Top(s.stack).ticks.IsStarted() then p.Resumed(now) else p
    ensures Leave(s, now) ==
      Stats(s.tallies[Top(s.stack).id := counted],
        if |s.stack| == 1 then [] else Below(Below(s.stack)) + [Frame(Top(Below(s.stack)).id, parentTicks)])
  {
    if !Top(s.stack).ticks.IsStarted() {
      assert s.tallies[Top(s.stack).id := counted] == s.tallies;
      if |s.stack| > 1 {
        assert Below(Below(s.stack)) + [Top(Below(s.stack))] == Below(s.stack);
      }
    }
  }

  // ---------------------------------------------------------------------------
  // Sums over the stack and the counters

  lemma RunningSnoc(stack: seq<Frame>, f: Frame)
    ensures Running(stack + [f]) == Running(stack) + (if f.ticks.IsStarted() then 1 else 0)
  {
  }

  lemma PendingSnoc(stack: seq<Frame>, f: Frame, now: int)
    ensures Pending(stack + [f], now) == Pending(stack, now) + f.ticks.Accrued(now)
  {
  }

  /** No frame runs in a stack whose running count is 0. */
  lemma {:induction false} NoneRunning(stack: seq<Frame>)
    requires Running(stack) == 0
    ensures forall i | 0 <= i < |stack| :: !stack[i].ticks.IsStarted()
  {
    if stack != [] {
      NoneRunning(Below(stack));
      assert forall i | 0 <= i < |stack| - 1 :: stack[i] == Below(stack)[i];
    }
  }

  /** Updating one counter changes the sum by exactly the change to that counter. */
  lemma {:induction false} SumUpdate(tallies: seq<Tally>, k: nat, v: Tally)
    requires k < |tallies|
    ensures Sum(tallies[k := v]).count == Sum(tallies).count - tallies[k].count + v.count
    ensures Sum(tallies[k := v]).time == Sum(tallies).time - tallies[k].time + v.time
  {
    var n := |tallies|;
    if k == n - 1 {
      assert tallies[k := v][..n - 1] == tallies[..n - 1];
    } else {
      assert tallies[k := v][..n - 1] == tallies[..n - 1][k := v];
      SumUpdate(tallies[..n - 1], k, v);
    }
  }

  // ---------------------------------------------------------------------------
  // The chain invariant

  /** Wf is the stated invariant: no two frames of a stack run at once. */
  lemma {:induction false} AtMostOneRunning(s: Stats)
    requires Wf(s)
    ensures forall i, j | 0 <= i < j < |s.stack| ::
      !(s.stack[i].ticks.IsStarted() && s.stack[j].ticks.IsStarted())
    decreases |s.stack|
  {
    var stack := s.stack;
    if stack != [] {
      var n := |stack|;
      if Top(stack).ticks.IsStarted() {
        NoneRunning(Below(stack));
        assert forall i | 0 <= i < n - 1 :: !stack[i].ticks.IsStarted() by {
          assert forall i | 0 <= i < n - 1 :: stack[i] == Below(stack)[i];
        }
      } else {
        AtMostOneRunning(Stats(s.tallies, Below(stack)));
        assert forall i | 0 <= i < n - 1 :: stack[i] == Below(stack)[i];
      }
    }
  }

  /** With fine-grained timing on, only the innermost frame runs. */
  lemma MeasuredRunsInnermost(s: Stats)
    requires Wf(s) && Measured(s) && s.stack != []
    ensures Running(s.stack) == 1
    ensures forall i | 0 <= i < |s.stack| - 1 :: !s.stack[i].ticks.IsStarted()
  {
    AtMostOneRunning(s);
  }

  /** A well-formed stack admits a Leave whenever it is not empty. */
  lemma WfCanLeave(s: Stats)
    requires Wf(s) && s.stack != []
    ensures CanLeave(s)
  {
    AtMostOneRunning(s);
  }

  lemma EnterKeepsWf(s: Stats, id: nat, sampling: bool, now: int)
    requires Wf(s) && id < |s.tallies|
    requires !sampling && s.stack != [] ==> Top(s.stack).ticks.IsStarted()
    ensures Wf(Enter(s, id, sampling, now))
    ensures Measured(s) && !sampling && now > 0 ==> Measured(Enter(s, id, sampling, now))
  {
  }

  lemma LeaveKeepsWf(s: Stats, now: int)
    requires Wf(s) && s.stack != []
    ensures CanLeave(s) && Wf(Leave(s, now))
    ensures Measured(s) && now > 0 ==> Measured(Leave(s, now))
  {
    WfCanLeave(s);
    var rest := Below(s.stack);
    assert s.stack == rest + [Top(s.stack)];
    RunningSnoc(rest, Top(s.stack));
    var r := Leave(s, now);
    if Top(s.stack).ticks.IsStarted() && rest != [] {
      assert rest == Below(rest) + [Top(rest)];
      RunningSnoc(Below(rest), Top(rest));
      assert r.stack == Below(rest) + [Top(r.stack)];
      RunningSnoc(Below(rest), Top(r.stack));
    }
  }

  // ---------------------------------------------------------------------------
  // Exclusive time: no tick is lost or counted twice

  /** Between two ticks every running frame gains the whole interval and the
      others gain nothing. */
  lemma {:induction false} AdvanceClock(stack: seq<Frame>, t1: int, t2: int)
    ensures Pending(stack, t2) == Pending(stack, t1) + (t2 - t1) * Running(stack)
  {
    if stack != [] {
      AdvanceClock(Below(stack), t1, t2);
      var b := if Top(stack).ticks.IsStarted() then 1 else 0;
      assert (t2 - t1) * (Running(Below(stack)) + b) == (t2 - t1) * Running(Below(stack)) + (t2 - t1) * b;
    }
  }

  /** Start hands the parent's running interval to the child at the same
      tick: the total time seen does not jump. */
  lemma EnterConservesTime(s: Stats, id: nat, sampling: bool, now: int)
    requires !sampling && s.stack != [] ==> Top(s.stack).ticks.IsStarted()
    ensures Total(Enter(s, id, sampling, now), now) == Total(s, now)
  {
    if sampling {
      PendingSnoc(s.stack, Frame(id, Unstarted), now);
    } else {
      var f := Frame(id, Unstarted.Resumed(now));
      assert f.ticks.Accrued(now) == 0;
      if s.stack == [] {
        PendingSnoc([], f, now);
      } else {
        var below := Below(s.stack);
        var top := Top(s.stack);
        var p := Frame(top.id, top.ticks.Paused(now));
        assert p.ticks.Accrued(now) == top.ticks.Accrued(now);
        PendingSnoc(below + [p], f, now);
        PendingSnoc(below, p, now);
        assert s.stack == below + [top];
        PendingSnoc(below, top, now);
      }
    }
  }

  /** Stop moves the current frame's time into its counter and hands the
      running interval back to the parent at the same tick. Only a frame that
      is not running loses what it holds. */
  lemma LeaveConservesTime(s: Stats, now: int)
    requires CanLeave(s)
    ensures Total(Leave(s, now), now) ==
      Total(s, now) - (if Top(s.stack).ticks.IsStarted() then 0 else Top(s.stack).ticks.elapsed)
  {
    var top := Top(s.stack);
    var rest := Below(s.stack);
    assert s.stack == rest + [top];
    PendingSnoc(rest, top, now);
    if top.ticks.IsStarted() {
      var t := s.tallies[top.id];
      SumUpdate(s.tallies, top.id, Tally(t.count + 1, t.time + top.ticks.Paused(now).elapsed));
      if rest != [] {
        var r := Leave(s, now);
        assert rest == Below(rest) + [Top(rest)];
        PendingSnoc(Below(rest), Top(rest), now);
        assert r.stack == Below(rest) + [Top(r.stack)];
        PendingSnoc(Below(rest), Top(r.stack), now);
      }
    }
  }

  // ---------------------------------------------------------------------------
  // Whole runs

  datatype Event = Entered(id: nat, sampling: bool, now: int) | Left(now: int)

  /** One Enter or Leave; None where a debug check of the timer would fail
      (a measured Start at tick 0 leaves the timer not started; a Pause of a
      parent that is not running; a Resume of a running parent), where the
      counter does not exist, or on a Leave with nothing entered. */
  function Step(s: Stats, e: Event): (r: Option<Stats>)
    ensures e.Entered? && !e.sampling && e.now == 0 ==> r.None?
    ensures e.Left? && s.stack == [] ==> r.None?
    ensures r.Some? ==> |r.value.tallies| == |s.tallies| && |r.value.stack| == Depth(|s.stack|, e)
  {
    match e
    case Entered(id, sampling, now) =>
      if id < |s.tallies| && (sampling || now != 0) &&
         (!sampling && s.stack != [] ==> Top(s.stack).ticks.IsStarted())
      then Some(Enter(s, id, sampling, now)) else None
    case Left(now) =>
      if CanLeave(s) then Some(Leave(s, now)) else None
  }

  function Replay(s: Stats, events: seq<Event>): Option<Stats>
    decreases |events|
  {
    if events == [] then Some(s)
    else
      match Step(s, events[0])
      case None => None
      case Some(next) => Replay(next, events[1..])
  }

  /** Every tick of the clock is positive and no Enter is sampling-only. */
  predicate Measuring(events: seq<Event>) {
    forall e | e in events :: e.now > 0 && !(e.Entered? && e.sampling)
  }

  function Depth(depth: nat, e: Event): nat {
    if e.Entered? then depth + 1 else if depth > 0 then depth - 1 else 0
  }

  /** Wall time, from tick `t` on, during which some operation was in
      progress: computed from the events alone, not from any timer. */
  function BusyTime(depth: nat, t: int, events: seq<Event>): int
    decreases |events|
  {
    if events == [] then 0
    else
      (if depth > 0 then events[0].now - t else 0) +
      BusyTime(Depth(depth, events[0]), events[0].now, events[1..])
  }

  function LastTick(t: int, events: seq<Event>): int {
    if events == [] then t else events[|events| - 1].now
  }

  function Leaves(events: seq<Event>): nat {
    if events == [] then 0 else (if events[0].Left? then 1 else 0) + Leaves(events[1..])
  }

  /** One measured event keeps the invariants, tracks the depth, and moves
      the time held from tick `t` to the event's tick by the busy interval. */
  lemma StepAccounting(s: Stats, t: int, e: Event)
    requires Wf(s) && Measured(s) && e.now > 0 && !(e.Entered? && e.sampling)
    requires Step(s, e).Some?
    ensures var next := Step(s, e).value;
      Wf(next) && Measured(next) && |next.stack| == Depth(|s.stack|, e) &&
      Total(next, e.now) == Total(s, t) + (if |s.stack| > 0 then e.now - t else 0) &&
      Sum(next.tallies).count == Sum(s.tallies).count + (if e.Left? then 1 else 0)
  {
    AdvanceClock(s.stack, t, e.now);
    if s.stack != [] {
      MeasuredRunsInnermost(s);
    }
    if e.Entered? {
      EnterKeepsWf(s, e.id, e.sampling, e.now);
      EnterConservesTime(s, e.id, e.sampling, e.now);
    } else {
      LeaveKeepsWf(s, e.now);
      LeaveConservesTime(s, e.now);
      var top := Top(s.stack);
      var c := s.tallies[top.id];
      SumUpdate(s.tallies, top.id, Tally(c.count + 1, c.time + top.ticks.Paused(e.now).elapsed));
    }
  }

  /** Over any measured run, the time held by counters and frames grows by
      exactly the wall time during which some operation was in progress, and
      the counters record exactly one invocation per Leave. */
  lemma {:induction false} ReplayAccounting(s: Stats, t: int, events: seq<Event>)
    requires Wf(s) && Measured(s) && Measuring(events)
    requires Replay(s, events).Some?
    ensures Total(Replay(s, events).value, LastTick(t, events)) ==
      Total(s, t) + BusyTime(|s.stack|, t, events)
    ensures Sum(Replay(s, events).value.tallies).count == Sum(s.tallies).count + Leaves(events)
    ensures |Replay(s, events).value.tallies| == |s.tallies|
    decreases |events|
  {
    if events != [] {
      var e := events[0];
      assert e in events;
      StepAccounting(s, t, e);
      var next := Step(s, e).value;
      assert Measuring(events[1..]) by {
        forall x | x in events[1..] ensures x in events { }
      }
      ReplayAccounting(next, e.now, events[1..]);
      assert LastTick(e.now, events[1..]) == LastTick(t, events);
    }
  }

  // ---------------------------------------------------------------------------
  // Exclusive time, counter by counter

  /** The counters the frames are bound to, outermost first. */
  function Ids(stack: seq<Frame>): (ids: seq<nat>)
    ensures |ids| == |stack|
  {
    if stack == [] then [] else Ids(Below(stack)) + [Top(stack).id]
  }

  /** The time held by the frames bound to counter `k`, each counted as if
      paused at `now`. */
  function Held(k: nat, stack: seq<Frame>, now: int): int {
    if stack == [] then 0
    else Held(k, Below(stack), now) + (if Top(stack).id == k then Top(stack).ticks.Accrued(now) else 0)
  }

  /** The counters of the operations in progress after event `e`. */
  function Nest(ids: seq<nat>, e: Event): seq<nat> {
    if e.Entered? then ids + [e.id] else if ids == [] then [] else ids[..|ids| - 1]
  }

  /** Wall time, from tick `t` on, during which the innermost operation in
      progress was one bound to counter `k`, given the counters `ids` of the
      operations in progress: computed from the events alone. */
  function OwnTime(k: nat, ids: seq<nat>, t: int, events: seq<Event>): int
    decreases |events|
  {
    if events == [] then 0
    else
      (if ids != [] && ids[|ids| - 1] == k then events[0].now - t else 0) +
      OwnTime(k, Nest(ids, events[0]), events[0].now, events[1..])
  }

  /** How many of the events close an operation bound to counter `k`. */
  function OwnCalls(k: nat, ids: seq<nat>, events: seq<Event>): nat
    decreases |events|
  {
    if events == [] then 0
    else
      (if events[0].Left? && ids != [] && ids[|ids| - 1] == k then 1 else 0) +
      OwnCalls(k, Nest(ids, events[0]), events[1..])
  }

  lemma IdsSnoc(stack: seq<Frame>, f: Frame)
    ensures Ids(stack + [f]) == Ids(stack) + [f.id]
  {
    assert Below(stack + [f]) == stack;
  }

  lemma HeldSnoc(k: nat, stack: seq<Frame>, f: Frame, now: int)
    ensures Held(k, stack + [f], now) == Held(k, stack, now) + (if f.id == k then f.ticks.Accrued(now) else 0)
  {
    assert Below(stack + [f]) == stack;
  }

  /** Frames that are all paused hold the same time at every tick. */
  lemma {:induction false} HeldWhilePaused(k: nat, stack: seq<Frame>, t1: int, t2: int)
    requires forall i | 0 <= i < |stack| :: !stack[i].ticks.IsStarted()
    ensures Held(k, stack, t1) == Held(k, stack, t2)
  {
    if stack != [] {
      assert forall i | 0 <= i < |stack| - 1 :: Below(stack)[i] == stack[i];
      HeldWhilePaused(k, Below(stack), t1, t2);
    }
  }

  /** One measured event: counter `k` gains, in committed plus held time, the
      interval since `t` exactly when its frame was the innermost, and one
      call exactly when the event closes a frame bound to it. */
  lemma StepOwnTime(s: Stats, t: int, e: Event, k: nat)
    requires Wf(s) && Measured(s) && e.now > 0 && !(e.Entered? && e.sampling)
    requires Step(s, e).Some? && k < |s.tallies|
    ensures var next := Step(s, e).value;
      var ids := Ids(s.stack);
      var own := ids != [] && ids[|ids| - 1] == k;
      Ids(next.stack) == Nest(ids, e) &&
      next.tallies[k].time + Held(k, next.stack, e.now) ==
        s.tallies[k].time + Held(k, s.stack, t) + (if own then e.now - t else 0) &&
      next.tallies[k].count == s.tallies[k].count + (if e.Left? && own then 1 else 0)
  {
    if s.stack != [] {
      HeldAdvance(s, k, t, e.now);
      IdsSnoc(Below(s.stack), Top(s.stack));
      assert Below(s.stack) + [Top(s.stack)] == s.stack;
    }
    if e.Entered? {
      EnteredOwnTime(s, e.id, e.now, k);
    } else {
      MeasuredRunsInnermost(s);
      LeftOwnTime(s, e.now, k);
    }
  }

  /** Between two ticks only the innermost frame of a measured stack
      accrues, so the time held for `k` grows by the interval exactly when
      that frame is bound to `k`. */
  lemma HeldAdvance(s: Stats, k: nat, t: int, now: int)
    requires Wf(s) && Measured(s) && s.stack != []
    ensures Held(k, s.stack, now) == Held(k, s.stack, t) + (if Top(s.stack).id == k then now - t else 0)
  {
    var below := Below(s.stack);
    var top := Top(s.stack);
    assert s.stack == below + [top];
    MeasuredRunsInnermost(s);
    assert forall i | 0 <= i < |below| :: below[i] == s.stack[i];
    HeldWhilePaused(k, below, t, now);
    HeldSnoc(k, below, top, t);
    HeldSnoc(k, below, top, now);
  }

  /** A measured Enter at `now` moves nothing held for `k`: the parent keeps
      what it accrued and the new frame starts empty. */
  lemma EnteredOwnTime(s: Stats, id: nat, now: int, k: nat)
    requires Step(s, Entered(id, false, now)).Some? && k < |s.tallies|
    ensures var next := Step(s, Entered(id, false, now)).value;
      Ids(next.stack) == Ids(s.stack) + [id] &&
      next.tallies == s.tallies && Held(k, next.stack, now) == Held(k, s.stack, now)
  {
    var next := Step(s, Entered(id, false, now)).value;
    var f := Frame(id, Unstarted.Resumed(now));
    if s.stack == [] {
      assert next.stack == [] + [f];
      IdsSnoc([], f);
      HeldSnoc(k, [], f, now);
    } else {
      var below := Below(s.stack);
      var top := Top(s.stack);
      var p := Frame(top.id, top.ticks.Paused(now));
      assert next.stack == (below + [p]) + [f];
      IdsSnoc(below + [p], f);
      IdsSnoc(below, p);
      IdsSnoc(below, top);
      assert below + [top] == s.stack;
      HeldSnoc(k, below + [p], f, now);
      HeldSnoc(k, below, p, now);
      HeldSnoc(k, below, top, now);
    }
  }

  /** A Leave at `now` moves what the popped frame holds into its counter,
      with one call, and resumes the parent without changing what it holds. */
  lemma LeftOwnTime(s: Stats, now: int, k: nat)
    requires Step(s, Left(now)).Some? && k < |s.tallies| && Top(s.stack).ticks.IsStarted()
    ensures var next := Step(s, Left(now)).value;
      Ids(next.stack) == Ids(s.stack)[..|s.stack| - 1] &&
      next.tallies[k].time + Held(k, next.stack, now) == s.tallies[k].time + Held(k, s.stack, now) &&
      next.tallies[k].count == s.tallies[k].count + (if Top(s.stack).id == k then 1 else 0)
  {
    var next := Step(s, Left(now)).value;
    var top := Top(s.stack);
    var rest := Below(s.stack);
    assert s.stack == rest + [top];
    IdsSnoc(rest, top);
    HeldSnoc(k, rest, top, now);
    assert Ids(s.stack)[..|s.stack| - 1] == Ids(rest);
    if rest != [] {
      var q := Frame(Top(rest).id, Top(rest).ticks.Resumed(now));
      assert rest == Below(rest) + [Top(rest)];
      assert next.stack == Below(rest) + [q];
      IdsSnoc(Below(rest), Top(rest));
      IdsSnoc(Below(rest), q);
      HeldSnoc(k, Below(rest), Top(rest), now);
      HeldSnoc(k, Below(rest), q, now);
    }
  }

  /** Over any measured run, each counter's committed plus held time grows by
      exactly the wall time during which an operation bound to it was the
      innermost one, and its count by the number of its frames closed. */
  lemma {:induction false} ReplayOwnTime(s: Stats, t: int, events: seq<Event>, k: nat)
    requires Wf(s) && Measured(s) && Measuring(events)
    requires Replay(s, events).Some? && k < |s.tallies|
    ensures var r := Replay(s, events).value;
      |r.tallies| == |s.tallies| &&
      r.tallies[k].time + Held(k, r.stack, LastTick(t, events)) ==
        s.tallies[k].time + Held(k, s.stack, t) + OwnTime(k, Ids(s.stack), t, events) &&
      r.tallies[k].count == s.tallies[k].count + OwnCalls(k, Ids(s.stack), events)
    decreases |events|
  {
    if events != [] {
      var e := events[0];
      assert e in events;
      StepAccounting(s, t, e);
      StepOwnTime(s, t, e, k);
      var next := Step(s, e).value;
      assert Measuring(events[1..]) by {
        forall x | x in events[1..] ensures x in events { }
      }
      ReplayOwnTime(next, e.now, events[1..], k);
      assert LastTick(e.now, events[1..]) == LastTick(t, events);
    }
  }

  /** A run that starts and ends with nothing entered commits to the counters
      exactly the time during which some operation was in progress, and to
      each counter exactly the time during which an operation bound to it was
      the innermost one, with one call per frame of it closed. */
  lemma IdleRunCommitsBusyTime(s: Stats, t: int, events: seq<Event>)
    requires Wf(s) && s.stack == [] && Measuring(events)
    requires Replay(s, events).Some? && Replay(s, events).value.stack == []
    ensures Sum(Replay(s, events).value.tallies).time == Sum(s.tallies).time + BusyTime(0, t, events)
    ensures Sum(Replay(s, events).value.tallies).count == Sum(s.tallies).count + Leaves(events)
    ensures var r := Replay(s, events).value;
      |r.tallies| == |s.tallies| &&
      forall k | 0 <= k < |s.tallies| ::
        r.tallies[k].time == s.tallies[k].time + OwnTime(k, [], t, events) &&
        r.tallies[k].count == s.tallies[k].count + OwnCalls(k, [], events)
  {
    ReplayAccounting(s, t, events);
    forall k | 0 <= k < |s.tallies|
      ensures Replay(s, events).value.tallies[k].time == s.tallies[k].time + OwnTime(k, [], t, events)
      ensures Replay(s, events).value.tallies[k].count == s.tallies[k].count + OwnCalls(k, [], events)
    {
      ReplayOwnTime(s, t, events, k);
    }
  }

  // ---------------------------------------------------------------------------
  // Counters never go back

  /** Every frame holds a non-negative time and a running frame started no
      later than `t`; every counter is non-negative. */
  predicate Settled(s: Stats, t: int) {
    (forall k | 0 <= k < |s.tallies| :: s.tallies[k].count >= 0 && s.tallies[k].time >= 0) &&
    (forall i | 0 <= i < |s.stack| ::
      s.stack[i].ticks.elapsed >= 0 &&
      (s.stack[i].ticks.IsStarted() ==> s.stack[i].ticks.startTicks <= t))
  }

  /** The clock never goes back: from tick `t`, each event's tick is at least
      the one before. */
  predicate Ascending(t: int, events: seq<Event>)
    decreases |events|
  {
    events == [] || (t <= events[0].now && Ascending(events[0].now, events[1..]))
  }

  /** No counter lost a call or any time. */
  predicate Grown(before: seq<Tally>, after: seq<Tally>) {
    |after| == |before| &&
    forall k | 0 <= k < |before| :: before[k].count <= after[k].count && before[k].time <= after[k].time
  }

  /** An Enter on a clock that has not gone back keeps the state settled and
      leaves the counters alone. */
  lemma EnterNeverLowers(s: Stats, t: int, id: nat, sampling: bool, now: int)
    requires Settled(s, t) && t <= now
    requires !sampling && s.stack != [] ==> Top(s.stack).ticks.IsStarted()
    ensures Settled(Enter(s, id, sampling, now), now)
  {
    var next := Enter(s, id, sampling, now);
    EnterEffect(s, id, sampling, now);
    if s.stack != [] {
      assert forall i | 0 <= i < |s.stack| - 1 :: next.stack[i] == Below(Below(next.stack))[i] == s.stack[i];
      assert next.stack[|s.stack| - 1] == Top(Below(next.stack));
    }
  }

  /** A Leave on a clock that has not gone back keeps the state settled and
      never lowers a counter. */
  lemma LeaveNeverLowers(s: Stats, t: int, now: int)
    requires Settled(s, t) && t <= now && CanLeave(s)
    ensures Settled(Leave(s, now), now) && Grown(s.tallies, Leave(s, now).tallies)
  {
    var next := Leave(s, now);
    LeaveEffect(s, now);
    assert Top(s.stack) == s.stack[|s.stack| - 1];
    if next.stack != [] {
      assert forall i | 0 <= i < |next.stack| - 1 :: next.stack[i] == Below(next.stack)[i] == s.stack[i];
      assert Top(Below(s.stack)) == s.stack[|next.stack| - 1];
    }
  }

  /** One step on a clock that has not gone back keeps the state settled and
      never lowers a counter; this holds for sampling-only activations too. */
  lemma StepNeverLowers(s: Stats, t: int, e: Event)
    requires Settled(s, t) && t <= e.now && Step(s, e).Some?
    ensures Settled(Step(s, e).value, e.now) && Grown(s.tallies, Step(s, e).value.tallies)
  {
    if e.Entered? {
      EnterNeverLowers(s, t, e.id, e.sampling, e.now);
    } else {
      LeaveNeverLowers(s, t, e.now);
    }
  }

  /** Over any run on a clock that never goes back, sampling-only activations
      included, counters only grow, and they stay non-negative. */
  lemma {:induction false} ReplayNeverLowers(s: Stats, t: int, events: seq<Event>)
    requires Settled(s, t) && Ascending(t, events) && Replay(s, events).Some?
    ensures Settled(Replay(s, events).value, LastTick(t, events))
    ensures Grown(s.tallies, Replay(s, events).value.tallies)
    decreases |events|
  {
    if events != [] {
      StepNeverLowers(s, t, events[0]);
      ReplayNeverLowers(Step(s, events[0]).value, events[0].now, events[1..]);
      assert LastTick(events[0].now, events[1..]) == LastTick(t, events);
    }
  }

  // ---------------------------------------------------------------------------
  // Enter/Leave pairs

  /** A measured child entered at t1 and left at t2 charges its counter one
      call and t2 - t1, and the parent resumes at t2 having lost exactly the
      interval the child ran: at any later tick it holds t2 - t1 less. */
  lemma ChildIntervalExcludedFromParent(s: Stats, id: nat, t1: int, t2: int)
    requires Wf(s) && Measured(s) && s.stack != [] && id < |s.tallies|
    requires t1 > 0 && t2 > 0
    ensures CanLeave(Enter(s, id, false, t1))
    ensures
      var r := Leave(Enter(s, id, false, t1), t2);
      var c := s.tallies[id];
      r.tallies == s.tallies[id := Tally(c.count + 1, c.time + (t2 - t1))] &&
      |r.stack| == |s.stack| && Below(r.stack) == Below(s.stack) &&
      Top(r.stack).id == Top(s.stack).id &&
      forall t :: Top(r.stack).ticks.Accrued(t) == Top(s.stack).ticks.Accrued(t) - (t2 - t1)
  {
  }

  /** A sampling-only activation leaves no trace: the counters and the stack
      are as they were, and the parent keeps running. */
  lemma SampledActivationInvisible(s: Stats, id: nat, t1: int, t2: int)
    ensures CanLeave(Enter(s, id, true, t1))
    ensures Leave(Enter(s, id, true, t1), t2) == s
  {
  }

  // ---------------------------------------------------------------------------
  // Scenarios

  /** Replaying four events is stepping through them one at a time. */
  lemma ReplayFour(s0: Stats, e1: Event, e2: Event, e3: Event, e4: Event, s1: Stats, s2: Stats, s3: Stats, s4: Stats)
    requires Step(s0, e1) == Some(s1) && Step(s1, e2) == Some(s2)
    requires Step(s2, e3) == Some(s3) && Step(s3, e4) == Some(s4)
    ensures Replay(s0, [e1, e2, e3]) == Some(s3)
    ensures Replay(s0, [e1, e2, e3, e4]) == Some(s4)
  {
    assert [e1, e2, e3][1..] == [e2, e3] && [e2, e3][1..] == [e3] && [e3][1..] == [];
    assert [e1, e2, e3, e4][1..] == [e2, e3, e4] && [e2, e3, e4][1..] == [e3, e4] && [e3, e4][1..] == [e4];
    assert [e4][1..] == [];
    assert Replay(s3, [e4]) == Replay(s4, []);
    assert Replay(s2, [e3, e4]) == Replay(s3, [e4]);
    assert Replay(s1, [e2, e3, e4]) == Replay(s2, [e3, e4]);
    assert Replay(s0, [e1, e2, e3, e4]) == Replay(s1, [e2, e3, e4]);
    assert Replay(s2, [e3]) == Replay(s3, []);
    assert Replay(s1, [e2, e3]) == Replay(s2, [e3]);
    assert Replay(s0, [e1, e2, e3]) == Replay(s1, [e2, e3]);
  }

  /** The four shapes of step the scenarios below go through. */
  lemma EnterIdle(tallies: seq<Tally>, id: nat, now: int)
    ensures Enter(Stats(tallies, []), id, false, now) == Stats(tallies, [Frame(id, Ticks(now, 0))])
  {
  }

  lemma EnterUnderOne(tallies: seq<Tally>, f: Frame, id: nat, now: int)
    requires f.ticks.IsStarted()
    ensures Enter(Stats(tallies, [f]), id, false, now) ==
      Stats(tallies, [Frame(f.id, f.ticks.Paused(now)), Frame(id, Ticks(now, 0))])
  {
  }

  lemma LeaveOverOne(tallies: seq<Tally>, f: Frame, g: Frame, now: int)
    requires g.ticks.IsStarted() && !f.ticks.IsStarted() && g.id < |tallies|
    ensures Leave(Stats(tallies, [f, g]), now) ==
      Stats(tallies[g.id := Tally(tallies[g.id].count + 1, tallies[g.id].time + g.ticks.Accrued(now))],
            [Frame(f.id, f.ticks.Resumed(now))])
  {
  }

  lemma LeaveLast(tallies: seq<Tally>, g: Frame, now: int)
    requires g.ticks.IsStarted() && g.id < |tallies|
    ensures Leave(Stats(tallies, [g]), now) ==
      Stats(tallies[g.id := Tally(tallies[g.id].count + 1, tallies[g.id].time + g.ticks.Accrued(now))], [])
  {
  }

  const Fresh2: Stats := Stats([Tally(0, 0), Tally(0, 0)], [])

  /** Start A at t0, start B inside it at t1, stop B at t2, stop A at t3:
      B gets t2 - t1, A gets only its own (t1 - t0) + (t3 - t2). */
  lemma NestedScenario(t0: int, t1: int, t2: int, t3: int)
    requires t0 > 0 && t1 > 0 && t2 > 0
    ensures Replay(Fresh2, [Entered(0, false, t0), Entered(1, false, t1), Left(t2), Left(t3)]) ==
      Some(Stats([Tally(1, (t1 - t0) + (t3 - t2)), Tally(1, t2 - t1)], []))
  {
    var s1 := Stats(Fresh2.tallies, [Frame(0, Ticks(t0, 0))]);
    var s2 := Stats(Fresh2.tallies, [Frame(0, Ticks(0, t1 - t0)), Frame(1, Ticks(t1, 0))]);
    var s3 := Stats([Tally(0, 0), Tally(1, t2 - t1)], [Frame(0, Ticks(t2, t1 - t0))]);
    var s4 := Stats([Tally(1, (t1 - t0) + (t3 - t2)), Tally(1, t2 - t1)], []);
    EnterIdle(Fresh2.tallies, 0, t0);
    EnterUnderOne(Fresh2.tallies, s1.stack[0], 1, t1);
    LeaveOverOne(s2.tallies, s2.stack[0], s2.stack[1], t2);
    assert s2.tallies[1 := Tally(1, t2 - t1)] == s3.tallies;
    LeaveLast(s3.tallies, s3.stack[0], t3);
    assert s3.tallies[0 := Tally(1, (t1 - t0) + (t3 - t2))] == s4.tallies;
    ReplayFour(Fresh2, Entered(0, false, t0), Entered(1, false, t1), Left(t2), Left(t3), s1, s2, s3, s4);
  }

  /** The same operation entered from inside itself: two frames on one
      counter. After the inner stop the outer frame holds only t1 - t0; at the
      end the counter has two calls and the whole t3 - t0. */
  lemma RecursiveScenario(t0: int, t1: int, t2: int, t3: int)
    requires t0 > 0 && t1 > 0 && t2 > 0
    ensures Replay(Fresh2, [Entered(0, false, t0), Entered(0, false, t1), Left(t2)]) ==
      Some(Stats([Tally(1, t2 - t1), Tally(0, 0)], [Frame(0, Ticks(t2, t1 - t0))]))
    ensures Replay(Fresh2, [Entered(0, false, t0), Entered(0, false, t1), Left(t2), Left(t3)]) ==
      Some(Stats([Tally(2, t3 - t0), Tally(0, 0)], []))
  {
    var s1 := Stats(Fresh2.tallies, [Frame(0, Ticks(t0, 0))]);
    var s2 := Stats(Fresh2.tallies, [Frame(0, Ticks(0, t1 - t0)), Frame(0, Ticks(t1, 0))]);
    var s3 := Stats([Tally(1, t2 - t1), Tally(0, 0)], [Frame(0, Ticks(t2, t1 - t0))]);
    var s4 := Stats([Tally(2, t3 - t0), Tally(0, 0)], []);
    EnterIdle(Fresh2.tallies, 0, t0);
    EnterUnderOne(Fresh2.tallies, s1.stack[0], 0, t1);
    LeaveOverOne(s2.tallies, s2.stack[0], s2.stack[1], t2);
    assert s2.tallies[0 := Tally(1, t2 - t1)] == s3.tallies;
    LeaveLast(s3.tallies, s3.stack[0], t3);
    assert s3.tallies[0 := Tally(2, t3 - t0)] == s4.tallies;
    ReplayFour(Fresh2, Entered(0, false, t0), Entered(0, false, t1), Left(t2), Left(t3), s1, s2, s3, s4);
  }

  /** Tick 0 is the "not started" sentinel: a measured Start at tick 0
      leaves the timer not started, so the debug check that closes Start
      fails on that very Start, and a run beginning there is rejected. */
  lemma ZeroTickScenario()
    ensures !Top(Enter(Fresh2, 0, false, 0).stack).ticks.IsStarted()
    ensures Step(Fresh2, Entered(0, false, 0)) == None
    ensures Replay(Fresh2, [Entered(0, false, 0), Entered(1, false, 10), Left(15), Left(40)]) == None
  {
  }
}
