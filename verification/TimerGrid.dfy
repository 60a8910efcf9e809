/** The times at which the simulated hardware (avstream/avshws/hwsim.cpp) interrupts: deadlines
    are computed from the start time and the interrupt count, never from each other. */
module TimerGrid {
  import opened Words

  /** `deadline` is meaningful while the timer is set; `due` holds from its expiry to the end of
      the DPC; `startTime` and `interrupts` are m_StartTime and m_InterruptTime. */
  datatype Clock = Clock(now: int, startTime: int, period: int, interrupts: int,
                         timer: bool, deadline: int, due: bool)

  datatype Event = Pass(dt: nat) | Expire | FakeHardware(stopping: bool) | Unpause

  /** Start: the counters are reset and the first deadline is one period away. */
  function Start(now: int, period: int): Clock {
    Clock(now, now, period, 0, true, now + period, false)
  }

  /** Unpausing follows a pause, when neither timer nor DPC is outstanding. */
  ghost predicate Enabled(c: Clock, e: Event)
    requires c.period > 0
  {
    match e
    case Pass(_) => true
    case Expire => c.timer && c.deadline <= c.now
    case FakeHardware(_) => c.due
    case Unpause => !c.timer && !c.due
  }

  function Step(c: Clock, e: Event): Clock
    requires c.period > 0
  {
    match e
    case Pass(dt) => c.(now := c.now + dt)
    case Expire => c.(timer := false, due := true)
    case FakeHardware(stopping) =>
      var interrupts := U32(c.interrupts + 1);
      if stopping then c.(interrupts := interrupts, due := false)
      else c.(interrupts := interrupts, due := false, timer := true,
              deadline := c.startTime + c.period * U32(interrupts + 1))
    case Unpause =>
      var interrupts := U32((c.now - c.startTime) / c.period);
      c.(interrupts := interrupts, timer := true, deadline := c.startTime + U32(interrupts + 1) * c.period)
  }

  /** The count never runs ahead of the time, and what is outstanding is the grid point of the count
      that follows it in 32 bits. */
  ghost predicate Inv(c: Clock) {
    && c.period > 0 && c.startTime <= c.now && 0 <= c.interrupts < TWO_32
    && c.interrupts * c.period <= c.now - c.startTime
    && !(c.timer && c.due)
    && (c.timer ==> c.deadline == GridPoint(c, U32(c.interrupts + 1)))
    && (c.due ==> GridPoint(c, U32(c.interrupts + 1)) <= c.now)
  }

  function GridPoint(c: Clock, k: int): int {
    c.startTime + k * c.period
  }

  lemma StartInv(now: int, period: int)
    requires period > 0
    ensures Inv(Start(now, period))
  {
  }

  /** The quotient is the number of whole periods. */
  lemma WholePeriods(elapsed: int, period: int)
    requires 0 <= elapsed && period > 0
    ensures 0 <= elapsed / period
    ensures (elapsed / period) * period <= elapsed < (elapsed / period + 1) * period
  {
    var q := elapsed / period;
    assert elapsed == period * q + elapsed % period;
    assert (q + 1) * period == q * period + period;
    if q < 0 {
      MultipleIsLarge(period, q);
    }
  }

  lemma MorePeriods(a: int, b: int, period: int)
    requires period > 0
    ensures a >= b ==> a * period >= b * period
  {
    var k := a - b;
    assert a * period == b * period + period * k;
    MultipleIsLarge(period, k);
  }

  lemma StepKeeps(c: Clock, e: Event)
    requires Inv(c) && Enabled(c, e)
    ensures Inv(Step(c, e))
    ensures Step(c, e).startTime == c.startTime && Step(c, e).period == c.period && c.now <= Step(c, e).now
  {
    if e.Unpause? {
      UnpauseKeepsIff(c);
    } else if e.FakeHardware? {
      DpcKeepsIff(c, e.stopping);
    }
  }

  /** An interrupt counts one period, however late, and sets the timer for the next point of the grid if
      and only if the hardware is not being stopped; the count grows if and only if it is not the last
      of 32 bits. */
  lemma DpcKeepsIff(c: Clock, stopping: bool)
    requires Inv(c) && Enabled(c, FakeHardware(stopping))
    ensures var d := Step(c, FakeHardware(stopping));
      && Inv(d) && d.interrupts == U32(c.interrupts + 1)
      && (d.interrupts > c.interrupts <==> c.interrupts + 1 < TWO_32)
      && (d.timer <==> !stopping) && !d.due
  {
    var k := U32(U32(c.interrupts + 1) + 1);
    assert c.period * k == k * c.period;
  }

  /** The deadline set on unpausing lies on the grid; it lies behind the present and at most a period
      away if and only if the number of periods since the start, and one more, fits 32 bits. The count
      has not gone back then. */
  lemma UnpauseKeepsIff(c: Clock)
    requires Inv(c) && Enabled(c, Unpause)
    ensures var d, elapsed := Step(c, Unpause), (c.now - c.startTime) / c.period;
      && Inv(d) && d.timer
      && (c.now < d.deadline <= c.now + c.period <==> elapsed + 1 < TWO_32)
      && (elapsed < TWO_32 ==> c.now - c.startTime < (d.interrupts + 1) * c.period)
      && (elapsed < TWO_32 ==> c.interrupts <= d.interrupts)
  {
    var elapsed := c.now - c.startTime;
    var q := elapsed / c.period;
    WholePeriods(elapsed, c.period);
    var d := Step(c, Unpause);
    U32Least(q);
    MorePeriods(q, d.interrupts, c.period);
    MorePeriods(c.interrupts, q + 1, c.period);
    assert (q + 1) * c.period == q * c.period + c.period;
    if q + 1 < TWO_32 {
      assert U32(q) == q && U32(q + 1) == q + 1;
    } else {
      var k := U32(U32(q) + 1);
      LaterWraps(q);
      MorePeriods(q, k, c.period);
    }
  }

  lemma U32Least(x: nat)
    ensures U32(x) <= x
  {
  }

  lemma LaterWraps(q: nat)
    requires q + 1 >= TWO_32
    ensures U32(U32(q) + 1) <= q
  {
    U32Add(q, 1);
    assert q + 1 == TWO_32 * ((q + 1) / TWO_32) + U32(q + 1);
  }

  ghost predicate Possible(c: Clock, es: seq<Event>)
    requires c.period > 0
    decreases |es|
  {
    es == [] || (Enabled(c, es[0]) && Possible(Step(c, es[0]), es[1..]))
  }

  function After(c: Clock, es: seq<Event>): (c': Clock)
    requires c.period > 0
    ensures c'.period == c.period && c'.startTime == c.startTime
    decreases |es|
  {
    if es == [] then c else After(Step(c, es[0]), es[1..])
  }

  lemma {:induction false} RunKeeps(c: Clock, es: seq<Event>)
    requires Inv(c) && Possible(c, es)
    ensures Inv(After(c, es)) && c.now <= After(c, es).now
    decreases |es|
  {
    if es != [] {
      StepKeeps(c, es[0]);
      RunKeeps(Step(c, es[0]), es[1..]);
    }
  }

  /** Over any run of interrupts, delays and pauses, of any length: every deadline is a whole number
      of periods from the start, however late the interrupts before it were, and the count of
      interrupts never exceeds the periods that have passed. */
  lemma NoDrift(now: int, period: int, es: seq<Event>)
    requires period > 0 && Possible(Start(now, period), es)
    ensures var c := After(Start(now, period), es);
      && (c.timer ==> c.deadline == now + U32(c.interrupts + 1) * period)
      && c.interrupts * period <= c.now - now
  {
    StartInv(now, period);
    RunKeeps(Start(now, period), es);
  }

  /** Until 2^32 - 1 periods have passed the count never decreases. */
  lemma {:induction false} NeverBack(c: Clock, es: seq<Event>)
    requires Inv(c) && Possible(c, es) && After(c, es).now - c.startTime < (TWO_32 - 1) * c.period
    ensures c.interrupts <= After(c, es).interrupts
    decreases |es|
  {
    if es != [] {
      var d := Step(c, es[0]);
      StepKeeps(c, es[0]);
      RunKeeps(d, es[1..]);
      if es[0].Unpause? {
        UnpauseKeepsIff(c);
        PeriodsBelow(c.now - c.startTime, c.period, TWO_32 - 1);
      } else if es[0].FakeHardware? {
        DpcKeepsIff(c, es[0].stopping);
        MorePeriods(c.interrupts, TWO_32 - 1, c.period);
      }
      NeverBack(d, es[1..]);
    }
  }

  lemma PeriodsBelow(elapsed: int, period: int, n: nat)
    requires 0 <= elapsed < n * period && period > 0
    ensures elapsed / period < n
  {
    WholePeriods(elapsed, period);
    MorePeriods(elapsed / period, n, period);
  }

  // ---------------------------------------------------------------- what a run leaves going

  /** Whether interrupts are coming at the end of a run: they are from an unpause on, until the
      interrupt that finds the hardware being stopped. */
  function Coming(before: bool, es: seq<Event>): bool {
    if es == [] then before
    else
      var last := es[|es| - 1];
      if last.Unpause? then true
      else if last.FakeHardware? then !last.stopping
      else Coming(before, es[..|es| - 1])
  }

  /** Whether the timer went off after the last interrupt. */
  function WentOff(before: bool, es: seq<Event>): bool {
    if es == [] then before
    else
      var last := es[|es| - 1];
      last.Expire? || (!last.FakeHardware? && WentOff(before, es[..|es| - 1]))
  }

  function Elapsed(es: seq<Event>): nat {
    if es == [] then 0
    else Elapsed(es[..|es| - 1]) + (if es[|es| - 1].Pass? then es[|es| - 1].dt else 0)
  }

  /** How many interrupts there were since the last unpause, counting on from `before`. */
  function Counted(before: nat, es: seq<Event>): nat {
    if es == [] then before
    else Counted(before, es[..|es| - 1]) + (if es[|es| - 1].FakeHardware? then 1 else 0)
  }

  lemma {:induction false} LastStep(c: Clock, es: seq<Event>)
    requires c.period > 0 && Possible(c, es) && es != []
    ensures var front := es[..|es| - 1];
      && Possible(c, front) && Enabled(After(c, front), es[|es| - 1])
      && After(c, es) == Step(After(c, front), es[|es| - 1])
    decreases |es|
  {
    var front := es[..|es| - 1];
    if |es| > 1 {
      LastStep(Step(c, es[0]), es[1..]);
      assert front[1..] == es[1..][..|es| - 2];
    } else {
      assert front == [] && es[1..] == [];
    }
  }

  /** Over every run: a timer is set or an interrupt due exactly from a start or an unpause to the
      interrupt that stops, the timer is off exactly from its expiry to the interrupt, and the time is
      that of all that passed. */
  lemma {:induction false} InterruptsCome(c: Clock, es: seq<Event>)
    requires Inv(c) && Possible(c, es)
    ensures var d := After(c, es);
      && (d.timer || d.due <==> Coming(c.timer || c.due, es))
      && (d.due <==> WentOff(c.due, es))
      && d.now == c.now + Elapsed(es)
    decreases |es|
  {
    if es != [] {
      var front := es[..|es| - 1];
      LastStep(c, es);
      RunKeeps(c, front);
      InterruptsCome(c, front);
    }
  }

  /** A timer that is set goes off when its deadline has come, and not before; then the interrupt runs. */
  lemma TimerComes(c: Clock, stopping: bool)
    requires Inv(c) && c.timer
    ensures var wait := Max(0, c.deadline - c.now); var d := Step(c, Pass(wait));
      && (Enabled(c, Expire) <==> wait == 0)
      && Enabled(d, Expire) && Enabled(Step(d, Expire), FakeHardware(stopping))
  {
  }

  /** Between unpauses the count is that of the interrupts, in 32 bits. */
  lemma {:induction false} CountIsInterrupts(c: Clock, es: seq<Event>)
    requires Inv(c) && Possible(c, es) && forall e :: e in es ==> !e.Unpause?
    ensures After(c, es).interrupts == U32(Counted(c.interrupts, es))
    decreases |es|
  {
    if es != [] {
      var front := es[..|es| - 1];
      LastStep(c, es);
      RunKeeps(c, front);
      CountIsInterrupts(c, front);
      U32Add(Counted(c.interrupts, front), 1);
      assert es[|es| - 1] in es;
    } else {
      U32Small(c.interrupts);
    }
  }
}
