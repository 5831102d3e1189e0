/** The timing state of one runtime-call timer: its start timestamp and the
    time it has accumulated but not yet committed to its counter.

    Timestamps and durations are integer ticks. A start timestamp of 0 is the
    "not started" sentinel, so a timer started at tick 0 reads as not started. */
module Timing {

  datatype Ticks = Ticks(startTicks: int, elapsed: int) {

    /** Running: a start timestamp is set. */
    predicate IsStarted() {
      startTicks != 0
    }

    /** Close the running interval at `now`: its length joins `elapsed`, and
        the timer stops accruing; a clock that has not gone back never
        shrinks `elapsed`. */
    function Paused(now: int): (r: Ticks)
      requires IsStarted()
      ensures !r.IsStarted() && r.elapsed - elapsed == now - startTicks
      ensures startTicks <= now ==> elapsed <= r.elapsed
    {
      Ticks(0, elapsed + (now - startTicks))
    }

    /** Open a new interval at `now`; `elapsed` is kept. The timer runs
        unless `now` is the sentinel, and pausing it later at `t` adds
        exactly `t - now`. */
    function Resumed(now: int): (r: Ticks)
      requires !IsStarted()
      ensures r.elapsed == elapsed
      ensures r.IsStarted() <==> now != 0
      ensures now != 0 ==> forall t :: r.Paused(t).elapsed == elapsed + (t - now)
    {
      Ticks(now, elapsed)
    }

    /** The time held at `now`: for a running timer, what pausing at `now`
        would leave in `elapsed` (what Stop commits); for a paused one, the
        `elapsed` it holds, which Stop does not commit. */
    function Accrued(now: int): (r: int)
      ensures IsStarted() ==> r == Paused(now).elapsed
      ensures !IsStarted() ==> r == elapsed
    {
      if IsStarted() then elapsed + (now - startTicks) else elapsed
    }
  }

  /** A timer that was never started, or one whose time has been committed. */
  const Unstarted: Ticks := Ticks(0, 0)
}
