/** The multimedia event timer (hals/halacpi/mmtimer.c): a 64-bit performance
    count kept from a 32-bit main counter by a clock interrupt. */
module MmTimer {
  import opened Words

  /** The two globals: the count as of the last interrupt or calibration, and
      the difference between the count and the main counter, both modulo 2^64. */
  datatype Count = Count(perf: u64, offset: u64)

  function Interrupted(c: Count, ticks: u32): Count {
    var perf := Add64(c.perf, ticks);
    Count(perf, if Sub64(perf, c.offset) > 0xFFFF_FFFF then Add64(c.offset, TWO_32) else c.offset)
  }

  function Calibrated(newCount: u64, main: u32): Count {
    Count(newCount, Sub64(newCount, main))
  }

  function Queried(c: Count, main: u32): u64 {
    if Sub64(c.perf, c.offset) > main then Add64(Add64(c.offset, TWO_32), main) else Add64(main, c.offset)
  }

  class EventTimer {
    var perfCount: u64
    var offset: u64
    var systemClockTicks: u32

    function State(): Count
      reads this
    {
      Count(perfCount, offset)
    }

    constructor (ticks: u32)
      ensures State() == Count(0, 0) && systemClockTicks == ticks
    {
      perfCount, offset, systemClockTicks := 0, 0, ticks;
    }

    method ClockInterrupt()
      modifies `perfCount, `offset
      ensures State() == Interrupted(old(State()), systemClockTicks)
    {
      perfCount := Add64(perfCount, systemClockTicks);
      if Sub64(perfCount, offset) > 0xFFFF_FFFF {
        offset := Add64(offset, TWO_32);
      }
    }

    method CalibratePerfCount(primary: bool, newCount: u64, mainCounter: u32)
      modifies `perfCount, `offset
      ensures State() == if primary then Calibrated(newCount, mainCounter) else old(State())
    {
      if primary {
        perfCount := newCount;
        offset := Sub64(perfCount, mainCounter);
      }
    }

    method QueryPerfCount(mainCounter: u32) returns (li: u64)
      ensures li == Queried(State(), mainCounter)
    {
      li := if Sub64(perfCount, offset) > mainCounter
            then Add64(Add64(offset, TWO_32), mainCounter)
            else Add64(mainCounter, offset);
    }
  }

  // ----- Runs

  /** The state of a run: the globals, the true extended count, which keeps
      counting without a width, and the true count at the last interrupt or
      calibration. The main counter shows the true count, less what the
      calibrations moved it by, modulo 2^32. */
  datatype World = World(count: Count, truth: nat, since: nat, shift: int)

  function Main(w: World): u32 {
    (w.truth - w.shift) % TWO_32
  }

  datatype Step =
    | Elapse(n: nat)
    | Interrupt
    | Calibrate(newCount: u64)

  function Next(w: World, ticks: u32, step: Step): World {
    match step
    case Elapse(n) => w.(truth := w.truth + n)
    case Interrupt => w.(count := Interrupted(w.count, ticks), since := w.truth)
    case Calibrate(n) => World(Calibrated(n, Main(w)), n, n, w.shift + n - w.truth)
  }

  /** How far the globals are behind the true count. */
  function Lag(w: World): int {
    w.truth - w.count.perf
  }

  /** What every step keeps, as long as the 64-bit count itself does not wrap. */
  ghost predicate Invariant(w: World) {
    && w.count.perf <= w.since <= w.truth < TWO_64
    && Sub64(w.count.perf, w.count.offset) < TWO_32
    && (w.count.offset - w.shift) % TWO_32 == 0
  }

  /** An interrupt comes at least one clock period after the last interrupt or
      calibration; no step lets the true count wrap. */
  ghost predicate Allowed(w: World, ticks: u32, step: Step) {
    && (step.Interrupt? ==> w.since + ticks <= w.truth)
    && (step.Elapse? ==> w.truth + step.n < TWO_64)
  }

  lemma OffsetIsAligned(perf: u64, offset: u64, shift: int, truth: nat)
    requires (offset - shift) % TWO_32 == 0
    ensures (truth - shift) % TWO_32 == (truth - offset) % TWO_32
  {
  }

  lemma InterruptKeepsInvariant(w: World, ticks: u32)
    requires Invariant(w) && Allowed(w, ticks, Interrupt)
    ensures Invariant(Next(w, ticks, Interrupt))
  {
    assert (Add64(w.count.offset, TWO_32) - w.shift) % TWO_32 == 0;
  }

  lemma CalibrateKeepsInvariant(w: World, ticks: u32, n: u64)
    requires Invariant(w)
    ensures Invariant(Next(w, ticks, Calibrate(n)))
  {
    var m := Main(w);
    assert (w.truth - w.shift - m) % TWO_32 == 0;
    assert (Sub64(n, m) - (w.shift + n - w.truth)) % TWO_32 == 0;
  }

  lemma StepKeepsInvariant(w: World, ticks: u32, step: Step)
    requires Invariant(w) && Allowed(w, ticks, step)
    ensures Invariant(Next(w, ticks, step))
  {
    match step
    case Elapse(n) =>
    case Interrupt => InterruptKeepsInvariant(w, ticks);
    case Calibrate(n) => CalibrateKeepsInvariant(w, ticks, n);
  }

  /** A query returns the count of the globals plus the lag modulo 2^32, so it
      is exact if and only if the lag is below 2^32. */
  lemma QueryIsExact(w: World)
    requires Invariant(w)
    ensures Queried(w.count, Main(w)) == Add64(w.count.perf, Lag(w) % TWO_32)
    ensures Queried(w.count, Main(w)) == w.truth <==> Lag(w) < TWO_32
  {
    var d := Sub64(w.count.perf, w.count.offset);
    OffsetIsAligned(w.count.perf, w.count.offset, w.shift, w.truth);
    MainShowsLag(w);
    LowWord(d, Lag(w));
    LagParts(Lag(w));
  }

  lemma MainShowsLag(w: World)
    requires Invariant(w)
    ensures Main(w) == (Sub64(w.count.perf, w.count.offset) + Lag(w)) % TWO_32
  {
    OffsetIsAligned(w.count.perf, w.count.offset, w.shift, w.truth);
    hide Lag;
  }

  /** A sum of two counts below 2^32 wraps at most once. */
  lemma LowWord(d: nat, lag: nat)
    requires d < TWO_32
    ensures var m := (d + lag) % TWO_32; var l := lag % TWO_32;
            m == if d + l < TWO_32 then d + l else d + l - TWO_32
  {
    ModSum(d, lag, TWO_32);
  }

  lemma LagParts(lag: nat)
    ensures lag % TWO_32 <= lag && (lag % TWO_32 == lag <==> lag < TWO_32)
  {
  }

  ghost predicate AllowedRun(w: World, ticks: u32, steps: seq<Step>)
    decreases |steps|
  {
    steps == [] || (Allowed(w, ticks, steps[0]) && AllowedRun(Next(w, ticks, steps[0]), ticks, steps[1..]))
  }

  ghost function Run(w: World, ticks: u32, steps: seq<Step>): World
    decreases |steps|
  {
    if steps == [] then w else Run(Next(w, ticks, steps[0]), ticks, steps[1..])
  }

  /** After any interleaving of interrupts and calibrations, from the reset
      timer, the difference between the count and its offset is below 2^32 and
      a query is exact if and only if the globals lag by less than 2^32. */
  lemma {:induction false} RunIsExact(w: World, ticks: u32, steps: seq<Step>)
    requires Invariant(w) && AllowedRun(w, ticks, steps)
    ensures var w' := Run(w, ticks, steps);
            && Invariant(w')
            && (Queried(w'.count, Main(w')) == w'.truth <==> Lag(w') < TWO_32)
    decreases |steps|
  {
    if steps == [] {
      QueryIsExact(w);
    } else {
      StepKeepsInvariant(w, ticks, steps[0]);
      RunIsExact(Next(w, ticks, steps[0]), ticks, steps[1..]);
    }
  }

  lemma ResetIsInvariant()
    ensures Invariant(World(Count(0, 0), 0, 0, 0))
  {
  }

  /** Between calibrations the true count only grows. */
  lemma {:induction false} TruthIsMonotone(w: World, ticks: u32, steps: seq<Step>)
    requires forall i | 0 <= i < |steps| :: !steps[i].Calibrate?
    ensures w.truth <= Run(w, ticks, steps).truth
    decreases |steps|
  {
    if steps != [] {
      TruthIsMonotone(Next(w, ticks, steps[0]), ticks, steps[1..]);
    }
  }

  // ----- What the interrupts are for

  /** How far the globals are behind after a run, from how far they were: the
      ticks that elapse, less one clock period for each interrupt, from 0 again
      after a calibration. */
  function Behind(lag: int, ticks: u32, steps: seq<Step>): int
    decreases |steps|
  {
    if steps == [] then lag
    else
      var now := match steps[0] {
        case Elapse(n) => lag + n
        case Interrupt => lag - ticks
        case Calibrate(n) => 0
      };
      Behind(now, ticks, steps[1..])
  }

  /** The true count after a run. */
  function Shown(truth: nat, steps: seq<Step>): nat
    decreases |steps|
  {
    if steps == [] then truth
    else
      var now := match steps[0] {
        case Elapse(n) => truth + n
        case Interrupt => truth
        case Calibrate(n) => n
      };
      Shown(now, steps[1..])
  }

  /** One step moves the lag by what elapses and by what an interrupt adds to the
      count. */
  lemma StepMovesLag(w: World, ticks: u32, step: Step)
    requires Invariant(w) && Allowed(w, ticks, step)
    ensures var w' := Next(w, ticks, step);
            match step {
              case Elapse(n) => Lag(w') == Lag(w) + n && w'.truth == w.truth + n
              case Interrupt => Lag(w') == Lag(w) - ticks && w'.count.perf == w.count.perf + ticks
                                && w'.truth == w.truth
              case Calibrate(n) => Lag(w') == 0 && w'.truth == n
            }
  {
  }

  /** After any interleaving, a query returns the true count if and only if the
      interrupts since the last calibration have kept pace with the counter to
      within 2^32 ticks. */
  lemma {:induction false} PaceDecides(w: World, ticks: u32, steps: seq<Step>)
    requires Invariant(w) && AllowedRun(w, ticks, steps)
    ensures var w' := Run(w, ticks, steps);
            && Lag(w') == Behind(Lag(w), ticks, steps) && w'.truth == Shown(w.truth, steps)
            && (Queried(w'.count, Main(w')) == Shown(w.truth, steps) <==> Behind(Lag(w), ticks, steps) < TWO_32)
    decreases |steps|
  {
    hide Queried, Main, Next;
    if steps == [] {
      QueryIsExact(w);
    } else {
      StepMovesLag(w, ticks, steps[0]);
      StepKeepsInvariant(w, ticks, steps[0]);
      PaceDecides(Next(w, ticks, steps[0]), ticks, steps[1..]);
    }
  }

  function Elapsed(steps: seq<Step>): nat {
    if steps == [] then 0 else Elapsed(steps[1..]) + match steps[0] { case Elapse(n) => n case _ => 0 }
  }

  function Interrupts(steps: seq<Step>): nat {
    if steps == [] then 0 else Interrupts(steps[1..]) + if steps[0].Interrupt? then 1 else 0
  }

  function Periods(ticks: u32, n: nat): nat {
    ticks * n
  }

  lemma OnePeriodMore(ticks: u32, n: nat)
    ensures Periods(ticks, n + 1) == Periods(ticks, n) + ticks
  {
  }

  lemma {:induction false} BehindInTotal(lag: int, truth: nat, ticks: u32, steps: seq<Step>)
    requires forall i | 0 <= i < |steps| :: !steps[i].Calibrate?
    ensures Behind(lag, ticks, steps) == lag + Elapsed(steps) - Periods(ticks, Interrupts(steps))
    ensures Shown(truth, steps) == truth + Elapsed(steps)
    decreases |steps|
  {
    hide Periods;
    if steps == [] {
      assert Periods(ticks, 0) == 0 by { NoPeriods(ticks); }
    } else {
      var now := Behind(lag, ticks, steps);
      OnePeriodMore(ticks, Interrupts(steps[1..]));
      match steps[0] {
        case Elapse(n) => BehindInTotal(lag + n, truth + n, ticks, steps[1..]);
        case Interrupt => BehindInTotal(lag - ticks, truth, ticks, steps[1..]);
      }
    }
  }

  lemma NoPeriods(ticks: u32)
    ensures Periods(ticks, 0) == 0
  {
  }

  /** Without calibrations, from any state: the count of the globals advances by
      one clock period for each interrupt, and a query after the run returns the
      first true count plus what has elapsed if and only if the elapsed ticks
      exceed the clock periods counted by less than 2^32, less the first lag. */
  lemma InterruptsKeepPace(w: World, ticks: u32, steps: seq<Step>)
    requires Invariant(w) && AllowedRun(w, ticks, steps)
    requires forall i | 0 <= i < |steps| :: !steps[i].Calibrate?
    ensures var w' := Run(w, ticks, steps);
            && w'.count.perf == w.count.perf + ticks * Interrupts(steps)
            && (Queried(w'.count, Main(w')) == w.truth + Elapsed(steps)
                <==> Lag(w) + Elapsed(steps) < ticks * Interrupts(steps) + TWO_32)
  {
    hide Queried, Main, AllowedRun, Run;
    PaceDecides(w, ticks, steps);
    BehindInTotal(Lag(w), w.truth, ticks, steps);
  }

  /** So two exact queries with no calibration between them never go back. */
  lemma QueriesAreMonotone(w: World, ticks: u32, steps: seq<Step>)
    requires Invariant(w) && AllowedRun(w, ticks, steps)
    requires forall i | 0 <= i < |steps| :: !steps[i].Calibrate?
    requires Lag(w) < TWO_32 && Lag(Run(w, ticks, steps)) < TWO_32
    ensures var w' := Run(w, ticks, steps);
            Queried(w.count, Main(w)) <= Queried(w'.count, Main(w'))
  {
    QueryIsExact(w);
    RunIsExact(w, ticks, steps);
    TruthIsMonotone(w, ticks, steps);
  }
}
