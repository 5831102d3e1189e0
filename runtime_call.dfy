/** The runtime-call timer and its collaborators as heap objects: a timer is
    one stack frame whose `parent` links to the frame it interrupted, and the
    counters it charges may be shared between frames (recursion). */
module RuntimeCall {
  import opened Timing
  import CallStack

  /** The monotonic tick source, given as the readings it will return next. */
  class Clock {
    var last: int
    var readings: seq<int>

    ghost predicate Valid()
      reads this
    {
      0 <= last &&
      (readings != [] ==> last <= readings[0]) &&
      (forall i | 0 <= i < |readings| :: 0 < readings[i]) &&
      (forall i, j | 0 <= i < j < |readings| :: readings[i] <= readings[j])
    }

    constructor (readings: seq<int>)
      requires forall i | 0 <= i < |readings| :: 0 < readings[i]
      requires forall i, j | 0 <= i < j < |readings| :: readings[i] <= readings[j]
      ensures Valid() && this.readings == readings && last == 0
    {
      this.last := 0;
      this.readings := readings;
    }

    /** The current tick: never 0 (the sentinel) and never before the last one. */
    method Now() returns (r: int)
      requires Valid() && readings != []
      modifies this
      ensures Valid()
      ensures r == old(readings[0]) && readings == old(readings[1..]) && last == r
      ensures r > 0 && r >= old(last)
    {
      r := readings[0];
      readings := readings[1..];
      last := r;
    }
  }

  /** Time and invocation count charged to one runtime function. */
  class Counter {
    var count: int
    var time: int

    constructor ()
      ensures count == 0 && time == 0
    {
      count := 0;
      time := 0;
    }

    method Increment()
      modifies this
      ensures count == old(count) + 1 && time == old(time)
    {
      count := count + 1;
    }

    method Add(delta: int)
      modifies this
      ensures time == old(time) + delta && count == old(count)
    {
      time := time + delta;
    }
  }

  /** The timer `t` points to, as a frame: none when `t` is null. */
  function Present(t: Timer?): set<Timer> {
    if t == null then {} else {t}
  }

  class Timer {
    var counter: Counter?
    var parent: Timer?
    var startTicks: int
    var elapsed: int

    constructor ()
      ensures counter == null && parent == null && Ticks() == Unstarted
    {
      counter := null;
      parent := null;
      startTicks := 0;
      elapsed := 0;
    }

    function Ticks(): Timing.Ticks
      reads this
    {
      Timing.Ticks(startTicks, elapsed)
    }

    /** Running: the ticks read as started. */
    predicate IsStarted(): (r: bool)
      reads this
      ensures r <==> Ticks().IsStarted()
    {
      startTicks != 0
    }

    /** Bind to `counter` and `parent`; unless only sampling, read the clock
        once and hand the running state from `parent` to this timer. */
    method Start(counter: Counter?, parent: Timer?, sampling: bool, clock: Clock)
      requires !IsStarted()
      requires clock.Valid() && (!sampling ==> clock.readings != [])
      requires !sampling && parent != null ==> parent.IsStarted()
      modifies this, Present(parent)`startTicks, Present(parent)`elapsed, clock
      ensures this.counter == counter && this.parent == parent
      ensures clock.Valid()
      ensures sampling ==> Ticks() == old(Ticks()) && unchanged(clock)
      ensures sampling && parent != null && parent != this ==> unchanged(parent)
      ensures !sampling ==> clock.last == old(clock.readings[0]) && clock.readings == old(clock.readings[1..])
      ensures !sampling ==> Ticks() == old(Ticks()).Resumed(clock.last) && IsStarted()
      ensures !sampling && parent != null ==>
        parent.Ticks() == old(parent.Ticks()).Paused(clock.last) && !parent.IsStarted()
    {
      this.counter := counter;
      this.parent := parent;
      if sampling {
        return;
      }
      var now := clock.Now();
      if parent != null {
        parent.Pause(now);
      }
      Resume(now);
    }

    method Pause(now: int)
      requires IsStarted()
      modifies this`startTicks, this`elapsed
      ensures Ticks() == old(Ticks()).Paused(now)
      ensures !IsStarted() && elapsed == old(elapsed) + (now - old(startTicks))
    {
      elapsed := elapsed + (now - startTicks);
      startTicks := 0;
    }

    method Resume(now: int)
      requires !IsStarted()
      modifies this`startTicks
      ensures Ticks() == old(Ticks()).Resumed(now)
      ensures IsStarted() <==> now != 0
    {
      startTicks := now;
    }

    /** Close this frame: charge its time to its counter, give the running
        state back to the parent at the same tick, and return the parent. */
    method Stop(clock: Clock) returns (p: Timer?)
      requires clock.Valid()
      requires IsStarted() ==>
        counter != null && clock.readings != [] && (parent != null ==> !parent.IsStarted())
      modifies this, counter, Present(parent)`startTicks, clock
      ensures p == parent && parent == old(parent) && counter == old(counter)
      ensures clock.Valid()
      ensures !old(IsStarted()) ==> unchanged(this, clock)
      ensures !old(IsStarted()) && counter != null ==> unchanged(counter)
      ensures !old(IsStarted()) && parent != null ==> unchanged(parent)
      ensures old(IsStarted()) ==>
        clock.last == old(clock.readings[0]) && clock.readings == old(clock.readings[1..])
      ensures old(IsStarted()) ==>
        Ticks() == Unstarted &&
        counter.count == old(counter.count) + 1 &&
        counter.time == old(counter.time) + old(Ticks()).Accrued(clock.last)
      ensures old(IsStarted()) && parent != null ==>
        parent.Ticks() == old(parent.Ticks()).Resumed(clock.last) && parent.IsStarted()
    {
      if !IsStarted() {
        return parent;
      }
      var now := clock.Now();
      Pause(now);
      counter.Increment();
      CommitTimeToCounter();
      var parentTimer := parent;
      if parentTimer != null {
        parentTimer.Resume(now);
      }
      return parentTimer;
    }

    method CommitTimeToCounter()
      requires counter != null
      modifies this`elapsed, counter
      ensures elapsed == 0
      ensures counter.time == old(counter.time) + old(elapsed) && counter.count == old(counter.count)
    {
      counter.Add(elapsed);
      elapsed := 0;
    }
  }

  /** The per-isolate stack manager: it owns one counter per counter id, and
      `current` is the innermost timer. Its Enter and Leave are modelled as
      binding the timer under the current one and making the timer's parent
      current again. The ghost `chain` lists the timers reachable from
      `current` through `parent`, outermost first, and `model` is the whole
      state as a `CallStack` value: one frame per timer of the chain, one
      tally per counter. */
  class RuntimeCallStats {
    const counters: seq<Counter>
    var current: Timer?
    ghost var chain: seq<Timer>
    ghost var model: CallStack.Stats

    /** `chain` is a parent-linked list of timers from a root, outermost first,
        and `s` describes it: one frame per timer, bound to the timer's counter
        and holding its ticks, and one tally per counter, holding its count
        and time. */
    ghost predicate Describes(chain: seq<Timer>, s: CallStack.Stats)
      reads chain, counters
    {
      (forall i, j | 0 <= i < j < |counters| :: counters[i] != counters[j]) &&
      (chain != [] ==> chain[0].parent == null) &&
      (forall i, j | 0 <= i < j < |chain| && j == i + 1 :: chain[j].parent == chain[i]) &&
      |s.tallies| == |counters| && |s.stack| == |chain| &&
      (forall k | 0 <= k < |counters| :: s.tallies[k] == CallStack.Tally(counters[k].count, counters[k].time)) &&
      (forall i | 0 <= i < |chain| ::
        s.stack[i].id < |counters| && chain[i].counter == counters[s.stack[i].id] &&
        s.stack[i].ticks == chain[i].Ticks())
    }

    ghost predicate Valid()
      reads this, chain, counters
    {
      Describes(chain, model) &&
      current == (if chain == [] then null else chain[|chain| - 1])
    }

    constructor (counters: seq<Counter>)
      requires forall i, j | 0 <= i < j < |counters| :: counters[i] != counters[j]
      ensures Valid() && this.counters == counters && current == null && chain == [] && model.stack == []
    {
      this.counters := counters;
      current := null;
      chain := [];
      model := CallStack.Stats(seq(|counters|, k requires 0 <= k < |counters| reads counters =>
        CallStack.Tally(counters[k].count, counters[k].time)), []);
    }

    method Enter(timer: Timer, id: nat, sampling: bool, clock: Clock)
      requires Valid() && timer !in chain && id < |counters|
      requires !timer.IsStarted()
      requires clock.Valid() && (!sampling ==> clock.readings != [])
      requires !sampling && current != null ==> current.IsStarted()
      modifies this, timer, Present(current)`startTicks, Present(current)`elapsed, clock
      ensures Valid() && chain == old(chain) + [timer]
      ensures current == timer && timer.parent == old(current) && timer.counter == counters[id]
      ensures clock.Valid()
      ensures sampling ==> timer.Ticks() == old(timer.Ticks()) && unchanged(clock)
      ensures sampling && old(current) != null ==> unchanged(old(current))
      ensures !sampling ==> clock.last == old(clock.readings[0]) && clock.readings == old(clock.readings[1..])
      ensures !sampling ==> timer.Ticks() == old(timer.Ticks()).Resumed(clock.last) && timer.IsStarted()
      ensures !sampling && old(current) != null ==>
        old(current).Ticks() == old(current.Ticks()).Paused(clock.last) && !old(current).IsStarted()
      ensures old(timer.elapsed) == 0 ==> model == CallStack.Enter(old(model), id, sampling, clock.last)
    {
      ghost var s0, parent := model, current;
      timer.Start(counters[id], current, sampling, clock);
      current := timer;
      ghost var below :=
        if s0.stack == [] then []
        else CallStack.Below(s0.stack) + [CallStack.Frame(CallStack.Top(s0.stack).id, parent.Ticks())];
      chain, model := chain + [timer], CallStack.Stats(s0.tallies, below + [CallStack.Frame(id, timer.Ticks())]);
      Pushed(CallStack.Entered(id, sampling, clock.last));
    }

    /** What Enter's heap updates leave: a timer bound to counter `e.id`
        and linked to the old innermost one has been pushed and resumed at
        `e.now` unless sampling, the old innermost one has been paused at
        `e.now` unless sampling, and every other timer and every counter is
        untouched. Then the model, read back frame by frame, still
        describes the chain, and for a timer holding no leftover time it is
        `CallStack.Enter` of the old one. */
    twostate lemma Pushed(e: CallStack.Event)
      requires old(Valid()) && e.Entered? && e.id < |counters|
      requires current != null && chain == old(chain) + [current]
      requires current.parent == old(current) && current.counter == counters[e.id]
      requires !e.sampling && old(current) != null ==> old(current.IsStarted())
      requires var t: Timer := current;
        old(allocated(t)) && t !in old(chain) && !old(t.IsStarted()) &&
        t.Ticks() == if e.sampling then old(t.Ticks()) else old(t.Ticks()).Resumed(e.now)
      requires old(current) != null ==>
        var p: Timer := old(current);
        unchanged(p`parent, p`counter) &&
        p.Ticks() == if e.sampling then old(p.Ticks()) else old(p.Ticks()).Paused(e.now)
      requires forall i | 0 <= i < |old(chain)| && old(chain)[i] != old(current) :: unchanged(old(chain)[i])
      requires forall k | 0 <= k < |counters| :: unchanged(counters[k])
      requires var s0, p := old(model), old(current);
        model == CallStack.Stats(s0.tallies,
          (if s0.stack == [] then []
           else CallStack.Below(s0.stack) + [CallStack.Frame(CallStack.Top(s0.stack).id, p.Ticks())]) +
          [CallStack.Frame(e.id, current.Ticks())])
      ensures Valid()
      ensures var t: Timer := current;
        old(t.elapsed) == 0 ==> model == CallStack.Enter(old(model), e.id, e.sampling, e.now)
    {
      var c, n := old(chain), |old(chain)|;
      forall i | 0 <= i < n - 1 {
        Unshared(c, i, n - 1);
      }
      var t: Timer := current;
      if old(t.elapsed) == 0 {
        CallStack.EnterReadBack(old(model), e.id, e.sampling, e.now,
          if n == 0 then Unstarted else old(current).Ticks(), current.Ticks());
      }
    }

    method Leave(timer: Timer, clock: Clock)
      requires Valid() && current == timer
      requires clock.Valid()
      requires timer.IsStarted() ==>
        clock.readings != [] && (timer.parent != null ==> !timer.parent.IsStarted())
      modifies this, timer, timer.counter, Present(timer.parent)`startTicks, clock
      ensures Valid() && chain == old(chain[..|chain| - 1])
      ensures current == old(timer.parent) == timer.parent && timer.counter == old(timer.counter)
      ensures clock.Valid()
      ensures !old(timer.IsStarted()) ==> unchanged(timer, clock, timer.counter)
      ensures !old(timer.IsStarted()) && timer.parent != null ==> unchanged(timer.parent)
      ensures old(timer.IsStarted()) ==>
        clock.last == old(clock.readings[0]) && clock.readings == old(clock.readings[1..])
      ensures old(timer.IsStarted()) ==>
        timer.Ticks() == Unstarted &&
        timer.counter.count == old(timer.counter.count) + 1 &&
        timer.counter.time == old(timer.counter.time) + old(timer.Ticks()).Accrued(clock.last)
      ensures old(timer.IsStarted()) && timer.parent != null ==>
        timer.parent.Ticks() == old(timer.parent.Ticks()).Resumed(clock.last) && timer.parent.IsStarted()
      ensures CallStack.CanLeave(old(model)) && model == CallStack.Leave(old(model), clock.last)
    {
      ghost var s0 := model;
      LeaveAllowed();
      current := timer.Stop(clock);
      chain, model := chain[..|chain| - 1], CallStack.Leave(s0, clock.last);
      Popped(clock.last);
    }

    /** The innermost frame may be left: in the model, the parent of a
        running innermost frame is paused. */
    lemma LeaveAllowed()
      requires Valid() && current != null
      requires current.IsStarted() && current.parent != null ==> !current.parent.IsStarted()
      ensures CallStack.CanLeave(model)
    {
      var n := |chain|;
      if n > 1 {
        assert chain[n - 1].parent == chain[n - 2];
      }
    }

    /** What Leave's heap updates leave: the innermost timer has been
        stopped at `now` (charging its counter if it ran), its parent has
        been resumed at `now` if it ran, and every other timer and every
        other counter is untouched. Then the model, read back, still
        describes the chain. */
    twostate lemma Popped(now: int)
      requires old(Valid()) && old(current) != null && CallStack.CanLeave(old(model))
      requires var t: Timer := old(current);
        current == old(t.parent) && chain == old(chain)[..|old(chain)| - 1] &&
        unchanged(t`parent, t`counter)
      requires var t: Timer := old(current);
        old(t.IsStarted()) ==>
          t.counter != null &&
          t.counter.count == old(t.counter.count) + 1 &&
          t.counter.time == old(t.counter.time) + old(t.Ticks()).Accrued(now)
      requires var t: Timer := old(current);
        !old(t.IsStarted()) && t.counter != null ==> unchanged(t.counter)
      requires var t: Timer := old(current);
        old(t.parent) != null ==>
          var p: Timer := old(t.parent);
          unchanged(p`parent, p`counter, p`elapsed) &&
          p.Ticks() == if old(t.IsStarted()) then old(p.Ticks()).Resumed(now) else old(p.Ticks())
      requires forall i | 0 <= i < |old(chain)| && old(chain)[i] != old(current) && old(chain)[i] != old(current.parent) ::
        unchanged(old(chain)[i])
      requires forall k | 0 <= k < |counters| && counters[k] != old(current.counter) :: unchanged(counters[k])
      requires model == CallStack.Leave(old(model), now)
      ensures Valid()
    {
      var s0, n := old(model), |old(chain)|;
      var k := CallStack.Top(s0.stack).id;
      var c := old(chain);
      forall i | 0 <= i < n - 1 {
        Unshared(c, i, n - 1);
      }
      forall i | 0 <= i < n - 2 {
        Unshared(c, i, n - 2);
      }
      var t: Timer := old(current);
      assert t == old(chain)[n - 1] && CallStack.Top(s0.stack).ticks == old(t.Ticks());
      assert t.counter == counters[k] && s0.tallies[k] == CallStack.Tally(old(counters[k].count), old(counters[k].time));
      assert n > 1 ==> old(t.parent) == old(chain)[n - 2] && CallStack.Top(CallStack.Below(s0.stack)).ticks == old(chain[n - 2].Ticks());
      CallStack.LeaveReadBack(s0, now, CallStack.Tally(counters[k].count, counters[k].time),
        if n == 1 then Unstarted else chain[n - 2].Ticks());
    }
  }

  /** Timers linked by `parent` from a root are pairwise distinct: equal
      timers have equal parents, all the way down to the root, which has
      none. */
  lemma Unshared(chain: seq<Timer>, i: nat, j: nat)
    requires chain != [] ==> chain[0].parent == null
    requires forall a, b | 0 <= a < b < |chain| && b == a + 1 :: chain[b].parent == chain[a]
    requires i < j < |chain|
    ensures chain[i] != chain[j]
    decreases i
  {
    assert chain[j].parent == chain[j - 1];
    if i > 0 {
      assert chain[i].parent == chain[i - 1];
      Unshared(chain, i - 1, j - 1);
    }
  }

  /** A scoped measurement: the constructor enters when runtime stats are on,
      and the destructor leaves exactly when the constructor entered. */
  class TimerScope {
    const stats: RuntimeCallStats?
    const timer: Timer

    constructor (runtimeStats: bool, stats: RuntimeCallStats, id: nat, sampling: bool, clock: Clock)
      requires runtimeStats ==> stats.Valid() && id < |stats.counters|
      requires runtimeStats ==> clock.Valid() && (!sampling ==> clock.readings != [])
      requires runtimeStats && !sampling && stats.current != null ==> stats.current.IsStarted()
      modifies stats, Present(stats.current)`startTicks, Present(stats.current)`elapsed, clock
      ensures this.stats == (if runtimeStats then stats else null)
      ensures fresh(timer)
      ensures !runtimeStats ==>
        unchanged(stats, clock) && (stats.current != null ==> unchanged(stats.current)) &&
        timer.counter == null && timer.parent == null && timer.Ticks() == Unstarted
      ensures runtimeStats ==>
        stats.Valid() && stats.chain == old(stats.chain) + [timer] &&
        stats.current == timer && timer.parent == old(stats.current) && timer.counter == stats.counters[id]
      ensures runtimeStats ==> clock.Valid()
      ensures runtimeStats && sampling ==>
        timer.Ticks() == Unstarted && unchanged(clock) &&
        (old(stats.current) != null ==> unchanged(old(stats.current)))
      ensures runtimeStats && !sampling ==>
        clock.last == old(clock.readings[0]) && clock.readings == old(clock.readings[1..])
      ensures runtimeStats && !sampling ==> timer.Ticks() == Unstarted.Resumed(clock.last) && timer.IsStarted()
      ensures runtimeStats && !sampling && old(stats.current) != null ==>
        old(stats.current).Ticks() == old(stats.current.Ticks()).Paused(clock.last) &&
        !old(stats.current).IsStarted()
      ensures runtimeStats ==> stats.model == CallStack.Enter(old(stats.model), id, sampling, clock.last)
    {
      timer := new Timer();
      this.stats := if runtimeStats then stats else null;
      new;
      if runtimeStats {
        stats.Enter(timer, id, sampling, clock);
      }
    }

    /** The destructor. */
    method Destroy(clock: Clock)
      requires stats != null ==>
        stats.Valid() && stats.current == timer && clock.Valid() &&
        (timer.IsStarted() ==>
          clock.readings != [] && (timer.parent != null ==> !timer.parent.IsStarted()))
      modifies stats, timer, timer.counter, Present(timer.parent)`startTicks, clock
      ensures stats == null ==> unchanged(timer, clock)
      ensures stats == null && timer.counter != null ==> unchanged(timer.counter)
      ensures stats == null && timer.parent != null ==> unchanged(timer.parent)
      ensures stats != null ==>
        stats.Valid() && stats.chain == old(stats.chain[..|stats.chain| - 1]) &&
        stats.current == old(timer.parent) == timer.parent && clock.Valid()
      ensures timer.counter == old(timer.counter)
      ensures stats != null && !old(timer.IsStarted()) ==> unchanged(timer, clock, timer.counter)
      ensures stats != null && old(timer.IsStarted()) ==>
        clock.last == old(clock.readings[0]) && clock.readings == old(clock.readings[1..])
      ensures stats != null && old(timer.IsStarted()) ==>
        timer.Ticks() == Unstarted &&
        timer.counter.count == old(timer.counter.count) + 1 &&
        timer.counter.time == old(timer.counter.time) + old(timer.Ticks()).Accrued(clock.last)
      ensures stats != null && old(timer.IsStarted()) && timer.parent != null ==>
        timer.parent.Ticks() == old(timer.parent.Ticks()).Resumed(clock.last) && timer.parent.IsStarted()
      ensures stats != null ==>
        CallStack.CanLeave(old(stats.model)) && stats.model == CallStack.Leave(old(stats.model), clock.last)
    {
      if stats != null {
        stats.Leave(timer, clock);
      }
    }
  }

  /** A runtime function called from inside the current one and returning
      before it: its scope is opened at the next clock reading and closed at
      the one after, so the model takes one Enter and then one Leave, and
      the caller is current again. */
  method NestedCall(stats: RuntimeCallStats, id: nat, clock: Clock)
    requires stats.Valid() && id < |stats.counters|
    requires clock.Valid() && |clock.readings| >= 2
    requires stats.current != null ==> stats.current.IsStarted()
    modifies stats, stats.counters[id], Present(stats.current)`startTicks, Present(stats.current)`elapsed, clock
    ensures stats.Valid() && stats.chain == old(stats.chain) && stats.current == old(stats.current)
    ensures clock.Valid() && clock.readings == old(clock.readings[2..])
    ensures var entered := CallStack.Enter(old(stats.model), id, false, old(clock.readings[0]));
      CallStack.CanLeave(entered) && stats.model == CallStack.Leave(entered, old(clock.readings[1]))
    ensures var c, t1, t2 := stats.counters[id], old(clock.readings[0]), old(clock.readings[1]);
      c.count == old(c.count) + 1 && c.time == old(c.time) + (t2 - t1)
    ensures var t1, t2 := old(clock.readings[0]), old(clock.readings[1]);
      stats.current != null ==> stats.current.Ticks() == old(stats.current.Ticks()).Paused(t1).Resumed(t2)
  {
    var scope := new TimerScope(true, stats, id, false, clock);
    scope.Destroy(clock);
  }

  /** An outer runtime function that calls an inner one, from an idle
      stack: the outer counter is charged one call and the time outside the
      inner call, the inner counter one call and the time inside it. */
  method OuterCall(stats: RuntimeCallStats, outer: nat, inner: nat, clock: Clock)
    requires stats.Valid() && stats.current == null
    requires outer < |stats.counters| && inner < |stats.counters| && outer != inner
    requires clock.Valid() && |clock.readings| >= 4
    modifies stats, stats.counters[outer], stats.counters[inner], clock
    ensures stats.Valid() && stats.current == null
    ensures var a, t0, t1, t2, t3 := stats.counters[outer], old(clock.readings[0]), old(clock.readings[1]),
        old(clock.readings[2]), old(clock.readings[3]);
      a.count == old(a.count) + 1 && a.time == old(a.time) + (t1 - t0) + (t3 - t2)
    ensures var b, t1, t2 := stats.counters[inner], old(clock.readings[1]), old(clock.readings[2]);
      b.count == old(b.count) + 1 && b.time == old(b.time) + (t2 - t1)
  {
    var scope := new TimerScope(true, stats, outer, false, clock);
    NestedCall(stats, inner, clock);
    scope.Destroy(clock);
  }

  /** Two nested operations A and B on ticks 100, 110, 115, 140: B gets the
      5 ticks it ran, A only the 35 ticks outside B. */
  method NestingExample() returns (timeA: int, countA: int, timeB: int, countB: int)
    ensures timeA == 35 && countA == 1
    ensures timeB == 5 && countB == 1
  {
    var clock := new Clock([100, 110, 115, 140]);
    var a := new Counter();
    var b := new Counter();
    var stats := new RuntimeCallStats([a, b]);
    OuterCall(stats, 0, 1, clock);
    timeA, countA, timeB, countB := a.time, a.count, b.time, b.count;
  }

  /** A runtime function that calls itself once, from an idle stack: both
      activations charge the one counter, which gains two calls and the
      whole time from the outer entry to the outer exit. */
  method RecursiveCall(stats: RuntimeCallStats, id: nat, clock: Clock)
    requires stats.Valid() && stats.current == null && id < |stats.counters|
    requires clock.Valid() && |clock.readings| >= 4
    modifies stats, stats.counters[id], clock
    ensures stats.Valid() && stats.current == null
    ensures var c, t0, t3 := stats.counters[id], old(clock.readings[0]), old(clock.readings[3]);
      c.count == old(c.count) + 2 && c.time == old(c.time) + (t3 - t0)
  {
    var scope := new TimerScope(true, stats, id, false, clock);
    NestedCall(stats, id, clock);
    scope.Destroy(clock);
  }

  /** The same operation entered again from inside itself on ticks 100, 110,
      115, 140: the one counter ends with two calls and the whole 40 ticks. */
  method RecursionExample() returns (time: int, count: int)
    ensures time == 40 && count == 2
  {
    var clock := new Clock([100, 110, 115, 140]);
    var c := new Counter();
    var stats := new RuntimeCallStats([c]);
    RecursiveCall(stats, 0, clock);
    time, count := c.time, c.count;
  }

  /** A scope built while runtime stats are off: the destructor does not read
      the flag, only whether the constructor entered, so nothing is charged
      and the stack stays idle. */
  method DisabledScopeExample() returns (time: int, count: int, idle: bool)
    ensures time == 0 && count == 0 && idle
  {
    var clock := new Clock([100]);
    var c := new Counter();
    var stats := new RuntimeCallStats([c]);
    var scope := new TimerScope(false, stats, 0, false, clock);
    scope.Destroy(clock);
    time, count, idle := c.time, c.count, stats.current == null;
  }
}
