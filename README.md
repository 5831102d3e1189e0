# V8 runtime-call timers in Dafny

This project models the hierarchical runtime-call timer of V8
(`deps/v8/src/counters-inl.h`). A `RuntimeCallTimer` is one frame of a stack
of measurements. It holds the `RuntimeCallCounter` it charges, a `parent`
pointer to the frame it interrupted, a start tick (`start_ticks_`, where 0
means "not started") and the time accumulated but not yet committed
(`elapsed_`). `Start` pauses the parent and resumes the child at the same tick.
`Stop` pauses the child, charges one call and its time to its counter, and
resumes the parent at the same tick. So every frame accrues only its own
exclusive time. Frames of a recursive call share one counter.

The project has three modules:

- `Timing` (`timing.dfy`): the `Ticks` value, a pair of start tick and
  elapsed time, with `Paused`, `Resumed` and `Accrued`. Both other modules use
  this arithmetic.
- `RuntimeCall` (`runtime_call.dfy`): the source's objects as classes whose
  methods update fields in place.
  - `Timer` with `Start`, `Pause`, `Resume`, `Stop`, `CommitTimeToCounter` and
    `IsStarted`. The frames of `Start` and `Stop` allow the parent's counter to
    be the child's counter.
  - `Counter` with `Increment` and `Add`. These are declared in
    `src/counters.h`, which is not part of this model. Here they add one to
    the count and add the delta to the time.
  - `Clock`: a monotonic tick source standing in for
    `base::TimeTicks::HighResolutionNow()`. It returns readings given up front,
    each positive and none before the previous one.
  - `RuntimeCallStats`: the counters indexed by counter id, and the `current`
    timer pointer, with `Enter` and `Leave`. A ghost `chain` lists the timers
    reachable from `current` through `parent`, and a ghost `model` is the same
    state as a `CallStack.Stats` value. `Valid` says the model describes the
    chain timer by timer and the counters one by one. `Enter` and `Leave` keep
    `Valid` and move the model by `CallStack.Enter` and `CallStack.Leave`.
  - `TimerScope`: the RAII wrapper, with its constructor and its destructor
    `Destroy`.
  - Clients that run the whole protocol: a nested call, an outer call around
    it, a recursive call, and a scope built while runtime stats are off.
- `CallStack` (`call_stack.dfy`): the chain of timers linked by `parent`,
  seen as a sequence of frames (outermost first), with numbered counters.
  `Enter` is `Start` under the current timer and `Leave` is `Stop` of the
  current timer. This is where the exclusive-time properties are proved:
  - at most one frame runs;
  - a child's interval is removed from its parent's time exactly;
  - over any measured run, the committed time plus the time frames still
    hold grows by exactly the wall time during which some operation was in
    progress. The invocation count grows by the number of Leaves.
  - The same holds counter by counter: each counter's committed plus held
    time grows by the wall time during which an operation bound to it was
    the innermost one, and its count by one per frame of it closed.
  - Over a measured run from idle to idle no frame holds anything at the
    end, so the committed time alone equals that wall time, in total and
    counter by counter.
  - On a clock that never goes back, no counter ever loses a call or any time.

The source's `DCHECK`s become `requires` clauses on the class methods. In a
replayed run (`CallStack.Replay`) they make the step return `None`.

The sampling mode (`TracingCategoryObserver::ENABLED_BY_SAMPLING`) and
`FLAG_runtime_stats` are parameters: `sampling` and `runtimeStats`.

About tick 0: a start tick of 0 reads as "not started". So a measured Start
at tick 0 leaves its timer not started, and the debug check that closes
`Start` (`counters-inl.h:27`) fails on that very Start.
`CallStack.ZeroTickScenario` proves this, and `CallStack.Step` rejects such an
Enter. The `Clock` never returns 0. The nesting scenario is therefore stated
for any positive ticks, and instantiated on ticks 100, 110, 115 and 140
rather than on a clock that starts at 0.

## Model

| member | source | states |
|---|---|---|
| `Timing.Ticks.Paused` | deps/v8/src/counters-inl.h:30-34 | Pausing a started timer at `now` leaves it not started and adds exactly `now - startTicks` to `elapsed`. On a clock that has not gone back, `elapsed` never shrinks. |
| `Timing.Ticks.Resumed` | deps/v8/src/counters-inl.h:36-39 | Resuming keeps `elapsed`. The timer runs exactly when `now` is not 0. A later pause at `t` then adds exactly `t - now`. |
| `Timing.Ticks.Accrued` | deps/v8/src/counters-inl.h:42-46 | The time a timer holds at `now`. For a started timer it is the `elapsed` that pausing at `now` would leave, which is what `Stop` commits (`:43-46`). For one that is not started it is the `elapsed` it holds, which `Stop` does not commit (`:42`). |
| `RuntimeCall.Clock.Now` | deps/v8/src/counters-inl.h:62-64 | The tick returned is positive (never the "not started" sentinel) and not before the previous tick; one reading is consumed. |
| `RuntimeCall.Timer.IsStarted` | deps/v8/src/counters-inl.h:60 | A timer is started exactly when its ticks are, that is, when the start tick is not the zero sentinel. |
| `RuntimeCall.Timer.Start` | deps/v8/src/counters-inl.h:15-28 | Requires a timer that is not started. Always binds `counter` and `parent`. In sampling mode the clock is not read, the parent is untouched and the timer stays not started. Otherwise it reads the clock once: the parent is paused and this timer resumed at that same tick. Afterwards this timer is started and the parent is not. |
| `RuntimeCall.Timer.Pause` | deps/v8/src/counters-inl.h:30-34 | Requires a started timer. Adds `now - startTicks` to `elapsed` and leaves the timer not started. |
| `RuntimeCall.Timer.Resume` | deps/v8/src/counters-inl.h:36-39 | Requires a timer that is not started. Sets the start tick to `now`, keeps `elapsed`. The timer is started afterwards exactly when `now` is not 0. |
| `RuntimeCall.Timer.Stop` | deps/v8/src/counters-inl.h:41-53 | On a timer that is not started: returns the parent and changes nothing (timer, counter, parent, clock). On a started timer: reads the clock once. The counter gains one call and `elapsed + (now - startTicks)` time. The timer ends not started with `elapsed` 0. The parent (if any) is resumed at the same tick. Returns the parent, or null. |
| `RuntimeCall.Timer.CommitTimeToCounter` | deps/v8/src/counters-inl.h:55-58 | The counter's time grows by `elapsed`, its count is unchanged, and `elapsed` becomes 0. |
| `RuntimeCall.RuntimeCallStats.Enter` | deps/v8/src/counters-inl.h:81 | Starts the timer on counter `id` under the current timer (with `Start`'s effects on the timer, the parent and the clock) and makes it current. The stats stay `Valid` with the timer pushed on the chain. For a timer holding no leftover time, the model moves by `CallStack.Enter` at the tick read. |
| `RuntimeCall.RuntimeCallStats.Pushed` | deps/v8/src/counters-inl.h:15-28 | After `Start`'s heap updates (new timer linked and resumed, old innermost one paused, every other timer and every counter untouched), the model read back frame by frame describes the chain again. For a timer holding no leftover time, that model is `CallStack.Enter` of the old one. |
| `RuntimeCall.RuntimeCallStats.Leave` | deps/v8/src/counters-inl.h:86 | Stops the current timer (with `Stop`'s effects) and makes its parent current. The stats stay `Valid` with the timer popped from the chain. The old model may be left, and the new one is `CallStack.Leave` of it at the tick read. |
| `RuntimeCall.RuntimeCallStats.LeaveAllowed` | deps/v8/src/counters-inl.h:48-50 | When a running innermost timer's parent is not started, as `Resume` demands, the model's innermost frame may be left. |
| `RuntimeCall.RuntimeCallStats.Popped` | deps/v8/src/counters-inl.h:41-53 | After `Stop`'s heap updates (innermost timer stopped and charged if it ran, parent resumed if it ran, every other timer and counter untouched), `CallStack.Leave` of the old model describes the shortened chain. |
| `RuntimeCall.TimerScope.constructor` | deps/v8/src/counters-inl.h:66-82 | With runtime stats off, nothing is entered: `stats` stays null, and the stack, the clock and the timer are untouched. With them on, `stats` is set, the scope's fresh timer is entered under the current timer, and the model moves by `CallStack.Enter`. |
| `RuntimeCall.TimerScope.Destroy` | deps/v8/src/counters-inl.h:84-88 | Leaves exactly when the constructor entered (`stats` non-null), whatever the flag is now, and then the model moves by `CallStack.Leave`. Otherwise it changes nothing. |
| `RuntimeCall.NestedCall` | deps/v8/src/counters-inl.h:15-58 | A scope opened and closed inside the current operation, on the next two ticks `t1` and `t2`: the model takes one Enter and one Leave, the callee's counter gains one call and `t2 - t1`, and the caller is current again, paused at `t1` and resumed at `t2`. |
| `RuntimeCall.OuterCall` | deps/v8/src/counters-inl.h:15-58 | From an idle stack, an outer operation around one nested call on ticks `t0` to `t3`: the outer counter gains one call and `(t1 - t0) + (t3 - t2)`, the inner one one call and `t2 - t1`, and the stack is idle again. |
| `RuntimeCall.RecursiveCall` | deps/v8/src/counters-inl.h:15-58 | From an idle stack, an operation that calls itself once on ticks `t0` to `t3`: its counter gains two calls and the whole `t3 - t0`. |
| `RuntimeCall.NestingExample` | deps/v8/src/counters-inl.h:15-58 | Enter A at 100, B at 110, leave B at 115, A at 140. Counter A ends with 35 ticks and 1 call, counter B with 5 ticks and 1 call. |
| `RuntimeCall.RecursionExample` | deps/v8/src/counters-inl.h:15-58 | Two nested frames on one counter end with 2 calls and the whole 40 ticks. |
| `RuntimeCall.DisabledScopeExample` | deps/v8/src/counters-inl.h:66-88 | A scope built with runtime stats off charges nothing and leaves the stack idle. |
| `CallStack.Enter` | deps/v8/src/counters-inl.h:15-28 | Pushes one frame bound to `id` and keeps the counters. The new frame runs exactly when not sampling and `now` is not 0. |
| `CallStack.Leave` | deps/v8/src/counters-inl.h:41-53 | Pops one frame and keeps the number of counters. A frame that is not running leaves the counters as they were. The frame below becomes the innermost one. |
| `CallStack.Step` | deps/v8/src/counters-inl.h:15-58 | One Enter or Leave, failing where a debug check fails. A measured Enter at tick 0 fails (the check at `:27`), and so does a Leave with nothing entered. A step that succeeds keeps the number of counters and moves the depth by one. |
| `CallStack.EnterEffect` | deps/v8/src/counters-inl.h:15-28 | Pushes one frame bound to `id` and leaves the counters alone. The new frame runs exactly when not sampling and `now` is not 0. In sampling mode the frames below are untouched; otherwise the parent is paused at `now`. |
| `CallStack.LeaveEffect` | deps/v8/src/counters-inl.h:41-58 | Pops one frame. A frame that is not running leaves everything else as it was. A running frame charges its counter one call and its accrued time (other counters unchanged), and the parent is resumed at `now`. |
| `CallStack.EnterReadBack` | deps/v8/src/counters-inl.h:24-26 | Enter is fully given by what it does to the two frames it touches: the parent's new ticks and the new frame's ticks. |
| `CallStack.LeaveReadBack` | deps/v8/src/counters-inl.h:41-53 | Leave is fully given by what it does to the popped frame's counter and to the parent's ticks. |
| `CallStack.AtMostOneRunning` | deps/v8/src/counters-inl.h:24-26 | In a well-formed chain no two frames run at once. |
| `CallStack.MeasuredRunsInnermost` | deps/v8/src/counters-inl.h:24-26 | When fine-grained timing is on, the innermost frame is the only running one. |
| `CallStack.WfCanLeave` | deps/v8/src/counters-inl.h:48-51 | In a well-formed chain, the parent of a running frame is not running, so `Resume` may be called on it. |
| `CallStack.EnterKeepsWf` | deps/v8/src/counters-inl.h:15-28 | Start keeps the chain well formed, and keeps the innermost frame running when measuring. |
| `CallStack.LeaveKeepsWf` | deps/v8/src/counters-inl.h:41-53 | Stop keeps the chain well formed, and keeps the innermost frame running when measuring. |
| `CallStack.AdvanceClock` | deps/v8/src/counters-inl.h:30-34 | Between two ticks, each running frame accrues the whole interval and a paused frame accrues nothing. |
| `CallStack.EnterConservesTime` | deps/v8/src/counters-inl.h:24-26 | Pausing the parent and resuming the child at the same tick neither loses nor adds time. |
| `CallStack.LeaveConservesTime` | deps/v8/src/counters-inl.h:43-51 | Committing the child's time and resuming the parent at the same tick neither loses nor adds time. The one exception: a frame that is not running drops whatever it still holds. |
| `CallStack.StepAccounting` | deps/v8/src/counters-inl.h:15-58 | One measured Enter or Leave keeps the invariants and tracks the depth. It grows the time held by exactly the wall time since the previous tick if something was in progress. A Leave adds exactly one call. |
| `CallStack.ReplayAccounting` | deps/v8/src/counters-inl.h:15-58 | Over any measured run, the time committed plus the time held by frames grows by exactly the wall time during which some operation was in progress. The counters gain one call per Leave. |
| `CallStack.HeldAdvance` | deps/v8/src/counters-inl.h:30-34 | Between two ticks, the time held for a counter grows by the interval exactly when the innermost frame is bound to it. |
| `CallStack.EnteredOwnTime` | deps/v8/src/counters-inl.h:24-26 | A measured Enter pushes its counter id and moves no time held for any counter. |
| `CallStack.LeftOwnTime` | deps/v8/src/counters-inl.h:43-51 | Leaving a running frame moves what it holds into its own counter with one call; no other counter changes, in committed plus held time. |
| `CallStack.StepOwnTime` | deps/v8/src/counters-inl.h:15-58 | One measured step gives a counter, in committed plus held time, the interval since the previous tick exactly when its frame was the innermost, and one call exactly when the step closes a frame bound to it. |
| `CallStack.ReplayOwnTime` | deps/v8/src/counters-inl.h:15-58 | Over any measured run, each counter's committed plus held time grows by exactly the wall time during which an operation bound to it was the innermost one (computed from the events alone), and its count by the number of its frames closed. |
| `CallStack.IdleRunCommitsBusyTime` | deps/v8/src/counters-inl.h:15-58 | A run from idle to idle commits exactly the busy wall time and one call per Leave. Counter by counter, it commits exactly that counter's own exclusive wall time and one call per frame of it closed. |
| `CallStack.EnterNeverLowers` | deps/v8/src/counters-inl.h:24-26 | An Enter on a clock that has not gone back keeps every held time non-negative and every running start tick not after the clock. |
| `CallStack.LeaveNeverLowers` | deps/v8/src/counters-inl.h:41-53 | A Leave on a clock that has not gone back keeps that and never lowers a counter's count or time. |
| `CallStack.StepNeverLowers` | deps/v8/src/counters-inl.h:15-58 | One step of any kind, sampling included, on a clock that has not gone back, keeps that and never lowers a counter. |
| `CallStack.ReplayNeverLowers` | deps/v8/src/counters-inl.h:15-58 | Over any run on a clock that never goes back, sampling-only activations included, counters only grow and stay non-negative. |
| `CallStack.ChildIntervalExcludedFromParent` | deps/v8/src/counters-inl.h:24-50 | A child entered at `t1` and left at `t2` charges its counter one call and `t2 - t1`. The parent keeps its position and holds exactly `t2 - t1` less at any later tick. |
| `CallStack.SampledActivationInvisible` | deps/v8/src/counters-inl.h:15-42 | An activation entered in sampling mode and then left restores the exact previous state: counters, stack, and the parent still running. |
| `CallStack.NestedScenario` | deps/v8/src/counters-inl.h:15-58 | Enter A at `t0`, B at `t1`, leave B at `t2`, A at `t3`. A ends with 1 call and `(t1 - t0) + (t3 - t2)`; B with 1 call and `t2 - t1`. |
| `CallStack.RecursiveScenario` | deps/v8/src/counters-inl.h:15-58 | The same counter entered twice. After the inner Leave the outer frame holds only `t1 - t0`. At the end the counter has 2 calls and `t3 - t0`. |
| `CallStack.ZeroTickScenario` | deps/v8/src/counters-inl.h:26-27 | A measured Start at tick 0 leaves the timer not started, so the check at `:27` fails on that Start: the step is rejected, and so is any run that begins with it. |

## Left out

- `RuntimeCallStats::Enter` and `Leave` are defined in `src/counters.cc`, which is not part of this model. They are modelled as an assumption: `Enter` is `timer.Start(counters[id], current)` followed by `current := timer`, and `Leave` is `current := timer.Stop()`.
- `RuntimeCall.RuntimeCallStats.Leave` requires the timer to be the current one (stack discipline).
- `RuntimeCall.RuntimeCallStats.Enter` requires a timer that is not already on the chain, since a timer entered twice would link the chain into a cycle. Its model equation with `CallStack.Enter` is stated only for a timer holding no leftover `elapsed`. `CallStack.Enter` always pushes an empty frame, whereas a reused timer that was stopped while not started keeps its leftover time. `Valid` still describes such a timer frame by frame. Timers built by `TimerScope` are fresh, so the scope's constructor states the equation without the condition.
- `RuntimeCall.Counter.Add` accepts any delta, as its caller at `counters-inl.h:56` passes `elapsed_` without a check. That counters never lose time is proved over whole runs instead, on a clock that never goes back (`CallStack.ReplayNeverLowers`).
- `isolate->counters()->runtime_call_stats()` and `HeapObject::GetIsolate()` are left out. The scope takes the stats object directly, so the three scope constructors share one model. Counter ids are indices into the stats object's `counters`.
- `base::TimeTicks::HighResolutionNow()` is a platform clock. It is replaced by a clock with a finite list of readings. `Start` (when not sampling) and `Stop` (when started) require at least one reading to be left.
- `FLAG_runtime_stats` and `TracingCategoryObserver::ENABLED_BY_SAMPLING` are global configuration. They are passed in as the booleans `runtimeStats` and `sampling`.
- `TimeTicks` and `TimeDelta` are 64-bit, but ticks and durations here are unbounded integers. Overflow is not modelled.
- Reporting or serialising counters, and any thread-local or concurrency concerns, are not modelled.
- `RuntimeCall.Timer.Stop` requires a started timer's parent to be not started on entry. The source checks this only when it resumes the parent, after pausing the timer. The two agree except when a started timer is its own parent, which `Start` can never produce.
- The exclusive-time theorems (`CallStack.ReplayAccounting`, `CallStack.ReplayOwnTime`, `CallStack.IdleRunCommitsBusyTime`) cover measured runs only: every tick is positive and no Enter is sampling-only. Sampling-only activations are covered separately by `CallStack.SampledActivationInvisible` and `CallStack.ReplayNeverLowers`.
- The class model is tied to `CallStack` one Enter or Leave at a time, through `RuntimeCallStats.Valid` and the model equations. The run-level theorems are stated about `CallStack.Replay`, not about sequences of heap calls.
