/** The workaround for the broken PIIX4 power-management timer
    (hals/halacpi/pmtimerc.c): a 64-bit clock made from a 24- or 32-bit
    hardware counter that sometimes returns nonsense.

    `Query` is the whole of one call as a function of the values the hardware
    returns; class `Timer` is the code that runs on the globals, and its
    method is proved to compute `Query`. */
module Piix4Timer {
  import opened Words

  /** The four globals a call reads and writes: the last time reported, the
      bound for the next one, and the skew between the two clocks. */
  datatype Clock = Clock(time: u64, bound: u64, skew: u64, positive: bool)

  /** What is fixed while a call runs: the period of the hardware counter, the
      entry of the upper-bound table for the current tick rate, and whether
      ULONG_PTR has 64 bits. */
  datatype Setup = Setup(period: nat, ticks: u32, wide: bool)

  const MIN_TICKS: u32 := 14318
  const MAX_TICKS: u32 := 429544
  const A_FEW_TICKS: u32 := 3

  predicate ValidSetup(s: Setup) {
    && (s.period == 0x100_0000 || s.period == TWO_32)
    && MIN_TICKS <= s.ticks <= MAX_TICKS
  }

  // ----- One read

  /** The hardware value put into the low bits of the last reported time. */
  function Spliced(time: u64, period: nat, hw: u32): u64
    requires period == 0x100_0000 || period == TWO_32
  {
    var low := time % TWO_32;
    SplicedFits(time, low - low % period, hw);
    time / TWO_32 * TWO_32 + Or(low - low % period, hw)
  }

  lemma SplicedFits(time: u64, low: u32, hw: u32)
    ensures time / TWO_32 * TWO_32 + Or(low, hw) < TWO_64
  {
    Pow2Values();
    OrBounded(low, hw, 32);
    hide Or, Pow2;
  }

  function Raw(c: Clock, s: Setup, hw: u32): u64
    requires ValidSetup(s)
  {
    Spliced(c.time, s.period, hw)
  }

  function Unskewed(c: Clock): u64 {
    if c.skew == 0 then c.time
    else if c.positive then Sub64(c.time, c.skew)
    else Add64(c.time, c.skew)
  }

  /** The test for a rollover of the hardware counter. */
  predicate RollsOver(c: Clock, s: Setup, hw: u32)
    requires ValidSetup(s)
  {
    Unskewed(c) % TWO_32 % s.period > hw && hw < s.ticks / 2
  }

  function Reading(c: Clock, s: Setup, roll: bool, hw: u32): u64
    requires ValidSetup(s)
  {
    if roll then Add64(Raw(c, s, hw), s.period) else Raw(c, s, hw)
  }

  function Skewed(c: Clock, read: u64): u64 {
    if c.positive then Add64(read, c.skew) else Sub64(read, c.skew)
  }

  datatype Verdict =
    | Reread
    | Believed(value: u64, skew: u64, positive: bool)

  /** What becomes of a reading, given the reading before it. */
  function Judge(c: Clock, s: Setup, read: u64, last: u64): Verdict
    requires ValidSetup(s)
  {
    if c.time <= read <= c.bound then
      Believed(read, 0, c.positive)
    else if c.skew > 0 && c.time <= Skewed(c, read) <= c.bound then
      Believed(Skewed(c, read), c.skew, c.positive)
    else if Sub64(read, last) > 0xfff then
      Reread
    else if read < c.time then
      var v := Add64(c.time, if c.time - read < 0x40 then A_FEW_TICKS else s.ticks / 8);
      Believed(v, Sub64(v, read), true)
    else
      var v := Add64(c.time, s.ticks / 4);
      Believed(v, Sub64(read, v), false)
  }

  /** The part of a time above the bits the hardware counts, in the width of
      ULONG_PTR. */
  function Block(s: Setup, x: u64): nat
    requires ValidSetup(s)
  {
    var y := if s.wide then x else x % TWO_32;
    y - y % s.period
  }

  /** The correction of the skew after the reread loop. */
  function Reskewed(c: Clock, s: Setup, v: Verdict, raw: u64, roll: bool, hw: u32): (u64, bool)
    requires ValidSetup(s) && v.Believed?
  {
    if v.skew > 0 && roll && !v.positive && v.skew > hw then
      if v.value >= raw then (v.value - raw, true)
      else if v.skew > s.period - 1 && Add64(v.value, v.skew % s.period) != 0 then (v.skew % s.period, false)
      else (v.skew, false)
    else if v.skew > 0 && !roll && v.positive && Block(s, v.value) > Block(s, c.time)
            && Add64(raw, s.period) > v.value then
      (Add64(raw, s.period) - v.value, false)
    else (v.skew, v.positive)
  }

  // ----- One call

  /** The clock a call leaves behind, and how many reads it took. The time it
      returns is the time of that clock. */
  datatype Answer = Answer(clock: Clock, used: nat)

  /** A call on a clock `c` whose reads return `values`, entered with the last
      reading and the rollover flag; None when the reads run out before the
      call can return. */
  function Query(c: Clock, s: Setup, values: seq<u32>, last: u64, roll: bool): Option<Answer>
    requires ValidSetup(s)
  {
    if values == [] then None
    else
      var hw := values[0];
      var roll' := roll || RollsOver(c, s, hw);
      var read := Reading(c, s, roll', hw);
      var v := Judge(c, s, read, last);
      if v.Reread? then
        var rest := Query(c, s, values[1..], read, roll');
        if rest.None? then None else Some(rest.value.(used := rest.value.used + 1))
      else
        var (skew, positive) := Reskewed(c, s, v, Raw(c, s, hw), roll', hw);
        Some(Answer(Clock(v.value, Add64(v.value, s.ticks), skew, positive), 1))
  }

  function Call(c: Clock, s: Setup, values: seq<u32>): Option<Answer>
    requires ValidSetup(s)
  {
    Query(c, s, values, 0, false)
  }

  // ----- Safety of one call, for every hardware behaviour

  lemma {:induction false} CallIsSafe(c: Clock, s: Setup, values: seq<u32>, last: u64, roll: bool)
    requires ValidSetup(s)
    requires c.time + s.ticks < TWO_64
    requires Query(c, s, values, last, roll).Some?
    ensures var a := Query(c, s, values, last, roll).value;
            && c.time <= a.clock.time
            && (a.clock.time <= c.bound || a.clock.time <= c.time + s.ticks / 4)
            && a.clock.bound == Add64(a.clock.time, s.ticks)
            && 1 <= a.used <= |values|
    decreases |values|
  {
    var roll' := roll || RollsOver(c, s, values[0]);
    var read := Reading(c, s, roll', values[0]);
    if Judge(c, s, read, last).Reread? {
      CallIsSafe(c, s, values[1..], read, roll');
    }
  }

  // ----- Every run

  /** One call of a run: its setup and the values the hardware returns. */
  datatype Request = Request(setup: Setup, values: seq<u32>)

  ghost predicate ValidRequests(calls: seq<Request>) {
    forall i | 0 <= i < |calls| :: ValidSetup(calls[i].setup)
  }

  /** The clocks of a run: `c` and then the clock after each call; shorter
      than the run when a call does not return. */
  ghost function Clocks(c: Clock, calls: seq<Request>): (r: seq<Clock>)
    requires ValidRequests(calls)
    ensures 1 <= |r| <= |calls| + 1 && r[0] == c
    decreases |calls|
  {
    if calls == [] then [c]
    else
      var a := Call(c, calls[0].setup, calls[0].values);
      if a.None? then [c] else [c] + Clocks(a.value.clock, calls[1..])
  }

  /** One call moved the clock from `c` to `d`: forward, to within the bound
      or a quarter of the table entry, with a bound one entry ahead. */
  ghost predicate Advanced(c: Clock, d: Clock, s: Setup) {
    && c.time <= d.time
    && (d.time <= c.bound || d.time <= c.time + s.ticks / 4)
    && d.bound == d.time + s.ticks
  }

  ghost predicate AllAdvanced(r: seq<Clock>, calls: seq<Request>) {
    && |r| <= |calls| + 1
    && forall i | 0 < i < |r| :: Advanced(r[i - 1], r[i], calls[i - 1].setup)
  }

  /** The 64-bit time cannot wrap in a run of `n` calls from time `t`. */
  ghost predicate Room(t: u64, n: nat) {
    t + (n + 1) * MAX_TICKS as int < TWO_64
  }

  /** In every run, whatever the hardware returns and however the tick rate
      changes, every call advances the clock: time never goes back and the
      bound stays one table entry ahead. */
  lemma {:induction false} RunNeverGoesBack(c: Clock, calls: seq<Request>)
    requires ValidRequests(calls)
    requires c.bound <= c.time + MAX_TICKS
    requires Room(c.time, |calls|)
    ensures AllAdvanced(Clocks(c, calls), calls)
    decreases |calls|
  {
    var r := Clocks(c, calls);
    if |r| > 1 {
      var s := calls[0].setup;
      CallIsSafe(c, s, calls[0].values, 0, false);
      var d := Call(c, s, calls[0].values).value.clock;
      assert Advanced(c, d, s);
      var rest := Clocks(d, calls[1..]);
      assert r == [c] + rest;
      RunNeverGoesBack(d, calls[1..]);
      forall i | 0 < i < |r|
        ensures Advanced(r[i - 1], r[i], calls[i - 1].setup)
      {
        if i > 1 {
          var k := i - 1;
          assert Advanced(rest[k - 1], rest[k], calls[1..][k - 1].setup);
        }
      }
    }
  }

  lemma {:induction false} AdvancedIsMonotone(r: seq<Clock>, calls: seq<Request>, i: nat, j: nat)
    requires AllAdvanced(r, calls)
    requires i <= j < |r|
    ensures r[i].time <= r[j].time
    decreases j
  {
    if i < j {
      assert Advanced(r[j - 1], r[j], calls[j - 1].setup);
      AdvancedIsMonotone(r, calls, i, j - 1);
    }
  }

  /** The promise of the filter over whole runs, for every hardware behaviour:
      the times returned never decrease, the bound is always the last time
      plus the table entry, and two calls at the same tick rate are at most
      one table entry apart. */
  lemma RunIsMonotoneAndBounded(c: Clock, calls: seq<Request>)
    requires ValidRequests(calls)
    requires c.bound <= c.time + MAX_TICKS
    requires Room(c.time, |calls|)
    ensures var r := Clocks(c, calls);
            && (forall i, j | 0 <= i <= j < |r| :: r[i].time <= r[j].time)
            && (forall i | 0 < i < |r| :: r[i].bound == r[i].time + calls[i - 1].setup.ticks)
            && (forall i | 1 < i < |r| && calls[i - 1].setup.ticks == calls[i - 2].setup.ticks ::
                  r[i].time <= r[i - 1].time + calls[i - 1].setup.ticks)
  {
    RunNeverGoesBack(c, calls);
    var r := Clocks(c, calls);
    forall i, j | 0 <= i <= j < |r| ensures r[i].time <= r[j].time {
      AdvancedIsMonotone(r, calls, i, j);
    }
    forall i | 0 < i < |r|
      ensures r[i].bound == r[i].time + calls[i - 1].setup.ticks
    {
      assert Advanced(r[i - 1], r[i], calls[i - 1].setup);
    }
    forall i | 1 < i < |r| && calls[i - 1].setup.ticks == calls[i - 2].setup.ticks
      ensures r[i].time <= r[i - 1].time + calls[i - 1].setup.ticks
    {
      assert Advanced(r[i - 1], r[i], calls[i - 1].setup);
      assert Advanced(r[i - 2], r[i - 1], calls[i - 2].setup);
    }
  }

  // ----- The skew keeps the clock in phase with the hardware

  lemma AddPhase(a: u64, b: u64, period: nat)
    requires period == 0x100_0000 || period == TWO_32
    ensures Add64(a, b) % period == (a + b) % period
  {
    var x := a + b;
    if x >= TWO_64 {
      QuotientRemainder(x - TWO_64, period, x / period - TWO_64 / period, x % period);
    }
  }

  lemma DropWholePeriods(x: u64, skew: u64, period: nat)
    requires period == 0x100_0000 || period == TWO_32
    ensures Add64(x, skew % period) % period == Add64(x, skew) % period
  {
    ModSum(x, skew, period);
    AddPhase(x, skew, period);
    AddPhase(x, skew % period, period);
  }

  lemma ModOfPeriod(x: nat, period: nat)
    requires period == 0x100_0000 || period == TWO_32
    ensures x % TWO_32 % period == x % period
  {
    if period == 0x100_0000 {
      assert x % TWO_32 % 0x100_0000 == x % 0x100_0000;
    }
  }

  /** A reading takes its low bits from the port, and or-s the bits above into
      those of the last time. */
  lemma SplicedFields(time: u64, period: nat, hw: u32)
    requires period == 0x100_0000 || period == TWO_32
    ensures Spliced(time, period, hw)
         == time / TWO_32 * TWO_32 + Or(time % TWO_32 / period, hw / period) * period + hw % period
  {
    if period == 0x100_0000 {
      var low := time % TWO_32;
      Pow2Values();
      assert low - low % period == low / period * period && hw == hw / period * period + hw % period;
      OrAbove(low / period, hw / period, 24, hw % period);
    }
  }

  lemma SplicedPhase(time: u64, period: nat, hw: u32)
    requires period == 0x100_0000 || period == TWO_32
    ensures Spliced(time, period, hw) % period == hw % period
  {
    hide Spliced, Or;
    SplicedFields(time, period, hw);
    WholePeriods(time / TWO_32, Or(time % TWO_32 / period, hw / period), hw % period, period);
  }

  lemma WholePeriods(k: nat, b: nat, l: nat, period: nat)
    requires (period == 0x100_0000 || period == TWO_32) && l < period
    ensures (k * TWO_32 + b * period + l) % period == l
  {
    var m := if period == TWO_32 then 1 else 0x100;
    QuotientRemainder(k * TWO_32 + b * period + l, period, m * k + b, l);
  }

  lemma RawPhase(c: Clock, s: Setup, hw: u32)
    requires ValidSetup(s)
    ensures Raw(c, s, hw) % s.period == hw % s.period
  {
    SplicedPhase(c.time, s.period, hw);
  }

  lemma OnePeriodOn(x: u64, period: nat)
    requires period == 0x100_0000 || period == TWO_32
    ensures Add64(x, period) % period == x % period
  {
    if x + period < TWO_64 {
      QuotientRemainder(x + period, period, x / period + 1, x % period);
    } else {
      QuotientRemainder(x + period - TWO_64, period, x / period + 1 - TWO_64 / period, x % period);
    }
  }

  lemma ReadingPhase(c: Clock, s: Setup, roll: bool, hw: u32)
    requires ValidSetup(s)
    ensures Reading(c, s, roll, hw) % s.period == hw % s.period
  {
    RawPhase(c, s, hw);
    OnePeriodOn(Raw(c, s, hw), s.period);
  }

  /** Removing the skew a verdict carries gives back the reading it judged. */
  lemma VerdictUnskews(c: Clock, s: Setup, read: u64, last: u64)
    requires ValidSetup(s)
    requires c.time + s.ticks < TWO_64
    requires Judge(c, s, read, last).Believed?
    ensures var v := Judge(c, s, read, last);
            Unskewed(Clock(v.value, 0, v.skew, v.positive)) == read
  {
  }

  lemma ReskewKeepsPhase(c: Clock, s: Setup, v: Verdict, raw: u64, roll: bool, hw: u32)
    requires ValidSetup(s) && v.Believed?
    requires raw % s.period == hw % s.period
    requires Unskewed(Clock(v.value, 0, v.skew, v.positive)) % s.period == hw % s.period
    ensures var (skew, positive) := Reskewed(c, s, v, raw, roll, hw);
            Unskewed(Clock(v.value, 0, skew, positive)) % s.period == hw % s.period
  {
    OnePeriodOn(raw, s.period);
    if v.skew > 0 && roll && !v.positive && v.skew > hw {
      DropWholePeriods(v.value, v.skew, s.period);
    }
  }

  /** However the hardware behaves and whichever corrections a call makes, the
      clock it leaves, with its skew removed, shows the last value read modulo
      the counter period. */
  lemma {:induction false} CallKeepsPhase(c: Clock, s: Setup, values: seq<u32>, last: u64, roll: bool)
    requires ValidSetup(s)
    requires c.time + s.ticks < TWO_64
    requires Query(c, s, values, last, roll).Some?
    ensures var a := Query(c, s, values, last, roll).value;
            && 1 <= a.used <= |values|
            && Unskewed(a.clock) % s.period == values[a.used - 1] % s.period
    decreases |values|
  {
    hide Reading, Raw, Judge, Reskewed, RollsOver;
    var hw := values[0];
    var roll' := roll || RollsOver(c, s, hw);
    var read := Reading(c, s, roll', hw);
    var v := Judge(c, s, read, last);
    if v.Reread? {
      CallKeepsPhase(c, s, values[1..], read, roll');
    } else {
      VerdictUnskews(c, s, read, last);
      ReadingPhase(c, s, roll', hw);
      RawPhase(c, s, hw);
      ReskewKeepsPhase(c, s, v, Raw(c, s, hw), roll', hw);
    }
  }

  /** So the rollover test of the next call compares two hardware values, no
      matter how far the reported time is from the hardware. */
  lemma RolloverComparesHardware(c: Clock, s: Setup, values: seq<u32>, s': Setup, hw: u32)
    requires ValidSetup(s) && ValidSetup(s') && s.period == s'.period
    requires c.time + s.ticks < TWO_64
    requires Call(c, s, values).Some?
    ensures var a := Call(c, s, values).value;
            && 1 <= a.used <= |values|
            && (RollsOver(a.clock, s', hw) <==>
                  values[a.used - 1] % s.period > hw && hw < s'.ticks / 2)
  {
    CallKeepsPhase(c, s, values, 0, false);
    ModOfPeriod(Unskewed(Call(c, s, values).value.clock), s.period);
  }

  // ----- Exactness on healthy hardware

  lemma SplicedIsAligned(time: u64, period: nat, hw: u32)
    requires period == 0x100_0000 || period == TWO_32
    requires hw < period
    ensures Spliced(time, period, hw) == time - time % period + hw
  {
    hide Spliced;
    SplicedFields(time, period, hw);
    assert Or(time % TWO_32 / period, 0) == time % TWO_32 / period;
    ModOfPeriod(time, period);
  }

  /** The raw reading moves the counter value into the period of the last
      time. */
  lemma RawIsAligned(c: Clock, s: Setup, hw: u32)
    requires ValidSetup(s) && hw < s.period
    ensures Raw(c, s, hw) == c.time - c.time % s.period + hw
  {
    SplicedIsAligned(c.time, s.period, hw);
  }

  /** Within one period after `t0` the counter either has not rolled over and
      shows at least as much, or has rolled over once and shows less. */
  lemma WithinOnePeriod(t0: nat, t: nat, period: nat)
    requires period == 0x100_0000 || period == TWO_32
    requires t0 <= t < t0 + period
    ensures t0 % TWO_32 % period == t0 % period
    ensures t / period == t0 / period ==>
              t % period >= t0 % period && t0 - t0 % period + t % period == t
    ensures t / period != t0 / period ==>
              t % period < t0 % period && t0 - t0 % period + t % period == t - period
  {
    ModOfPeriod(t0, period);
  }

  /** What the first read of a call yields on a healthy counter with no skew:
      the true time, or one period less when a rollover goes undetected. */
  lemma HealthyReading(c: Clock, s: Setup, t: u64)
    requires ValidSetup(s)
    requires c.skew == 0
    requires c.time <= t < c.time + s.period
    ensures var hw := t % s.period;
            Reading(c, s, RollsOver(c, s, hw), hw) ==
            if t / s.period == c.time / s.period || hw < s.ticks / 2 then t else t - s.period
  {
    RawIsAligned(c, s, t % s.period);
    WithinOnePeriod(c.time, t, s.period);
  }

  /** On a healthy counter, less than one period after the last call, the
      first read is believed at its true value exactly when it is within the
      bound and, if the counter has rolled over since, it shows less than half
      the table entry. */
  lemma HealthyReadIsExact(c: Clock, s: Setup, t: u64)
    requires ValidSetup(s)
    requires c.skew == 0 && c.bound == c.time + s.ticks
    requires c.time <= t < c.time + s.period
    ensures var hw := t % s.period;
            var read := Reading(c, s, RollsOver(c, s, hw), hw);
            Judge(c, s, read, 0) == Believed(t, 0, c.positive)
            <==>
            t <= c.bound && (t / s.period == c.time / s.period || hw < s.ticks / 2)
  {
    HealthyReading(c, s, t);
    WithinOnePeriod(c.time, t, s.period);
  }

  /** True times of a run of calls on a healthy counter: each call comes no
      later than half its own table entry, and no later than the whole entry
      of the call before it. */
  ghost predicate Timely(t0: u64, bound: nat, calls: seq<Request>, times: seq<u64>)
    requires ValidRequests(calls)
    decreases |times|
  {
    && |calls| == |times|
    && (times != [] ==>
          var s := calls[0].setup;
          && t0 <= times[0] <= bound
          && times[0] - t0 <= s.ticks / 2
          && times[0] + s.ticks < TWO_64
          && calls[0].values != [] && calls[0].values[0] == times[0] % s.period
          && Timely(times[0], times[0] + s.ticks, calls[1..], times[1..]))
  }

  lemma HealthyCall(c: Clock, s: Setup, values: seq<u32>, t: u64)
    requires ValidSetup(s)
    requires c.skew == 0
    requires c.time <= t <= c.bound && t - c.time <= s.ticks / 2
    requires values != [] && values[0] == t % s.period
    ensures Call(c, s, values) == Some(Answer(Clock(t, Add64(t, s.ticks), 0, c.positive), 1))
  {
    HealthyReading(c, s, t);
    WithinOnePeriod(c.time, t, s.period);
  }

  /** Call `i` returned the true time, without skew. */
  ghost predicate ExactAt(r: seq<Clock>, times: seq<u64>, i: nat) {
    i < |times| && i + 1 < |r| && r[i + 1].time == times[i] && r[i + 1].skew == 0
  }

  /** Every call of every timely run on healthy hardware returns the true
      64-bit time, across rollovers, and no skew ever appears. */
  lemma {:induction false} HealthyRunIsExact(c: Clock, calls: seq<Request>, times: seq<u64>)
    requires ValidRequests(calls)
    requires c.skew == 0
    requires Timely(c.time, c.bound, calls, times)
    ensures |Clocks(c, calls)| == |times| + 1
    ensures forall i | 0 <= i < |times| :: ExactAt(Clocks(c, calls), times, i)
    decreases |times|
  {
    hide Call, ValidSetup;
    if times != [] {
      HealthyCall(c, calls[0].setup, calls[0].values, times[0]);
      var c' := Call(c, calls[0].setup, calls[0].values).value.clock;
      HealthyRunIsExact(c', calls[1..], times[1..]);
      var rest := Clocks(c', calls[1..]);
      assert Clocks(c, calls) == [c] + rest;
      forall i | 0 <= i < |times| ensures ExactAt([c] + rest, times, i) {
        if i > 0 {
          assert ExactAt(rest, times[1..], i - 1);
        }
      }
    }
  }

  /** On healthy hardware, with any skew: a call whose true time is within the
      bounds and in the period of the last time believes its first read as the
      true time and drops the skew, if and only if the counter does not seem to
      have rolled over, that is, if it shows no less than at the last read or at
      least half a table entry. */
  lemma SkewIsDropped(c: Clock, s: Setup, t: u64)
    requires ValidSetup(s) && c.bound == c.time + s.ticks
    requires c.time <= t <= c.bound && t / s.period == c.time / s.period
    ensures var hw := t % s.period;
            Judge(c, s, Reading(c, s, RollsOver(c, s, hw), hw), 0) == Believed(t, 0, c.positive)
            <==> hw >= Unskewed(c) % s.period || hw >= s.ticks / 2
  {
    hide Spliced, Unskewed;
    RawIsAligned(c, s, t % s.period);
    SamePeriod(c.time, t, s.period);
    ModOfPeriod(Unskewed(c), s.period);
  }

  /** And so the call returns the true time, without skew. */
  lemma RecoveredCall(c: Clock, s: Setup, values: seq<u32>, t: u64)
    requires ValidSetup(s) && c.bound == c.time + s.ticks
    requires c.time <= t <= c.bound && t / s.period == c.time / s.period
    requires values != [] && values[0] == t % s.period
    requires values[0] >= Unskewed(c) % s.period || values[0] >= s.ticks / 2
    ensures Call(c, s, values) == Some(Answer(Clock(t, Add64(t, s.ticks), 0, c.positive), 1))
  {
    hide Raw, Judge, RollsOver, Unskewed;
    SkewIsDropped(c, s, t);
  }

  lemma SamePeriod(x: nat, y: nat, period: nat)
    requires period > 0 && x / period == y / period
    ensures x - x % period + y % period == y
  {
    assert x == x / period * period + x % period;
    assert y == y / period * period + y % period;
  }

  /** From there every timely run is exact. */
  lemma RecoveredRunIsExact(c: Clock, calls: seq<Request>, times: seq<u64>)
    requires ValidRequests(calls) && times != [] && |calls| == |times|
    requires var s := calls[0].setup;
             && c.bound == c.time + s.ticks
             && c.time <= times[0] <= c.bound && times[0] / s.period == c.time / s.period
             && times[0] + s.ticks < TWO_64
             && calls[0].values != [] && calls[0].values[0] == times[0] % s.period
             && (calls[0].values[0] >= Unskewed(c) % s.period || calls[0].values[0] >= s.ticks / 2)
             && Timely(times[0], times[0] + s.ticks, calls[1..], times[1..])
    ensures |Clocks(c, calls)| == |times| + 1
    ensures forall i | 0 <= i < |times| :: ExactAt(Clocks(c, calls), times, i)
  {
    RecoveredCall(c, calls[0].setup, calls[0].values, times[0]);
    hide Call, ValidSetup, Unskewed;
    var c' := Call(c, calls[0].setup, calls[0].values).value.clock;
    HealthyRunIsExact(c', calls[1..], times[1..]);
    var rest := Clocks(c', calls[1..]);
    assert Clocks(c, calls) == [c] + rest;
    forall i | 0 <= i < |times| ensures ExactAt([c] + rest, times, i) {
      if i > 0 {
        assert ExactAt(rest, times[1..], i - 1);
      }
    }
  }

  // ----- A skew in force

  /** The last time without its skew, as an integer. */
  function Plain(c: Clock): int {
    if c.skew == 0 then c.time else if c.positive then c.time - c.skew else c.time + c.skew
  }

  /** The last time with and without its skew are in one period of the counter:
      then the next reading, which is put into the period of the last time, is
      where the skew expects it. */
  ghost predicate Aligned(c: Clock, period: nat)
    requires period > 0
  {
    0 <= Plain(c) < TWO_64 && Plain(c) / period == c.time / period
  }

  /** A clock that follows a healthy counter, which showed the true time `t0` at
      the last call, at some other time than the true one. */
  ghost predicate Follows(c: Clock, period: nat, t0: u64)
    requires period > 0
  {
    c.skew > 0 && Aligned(c, period) && Plain(c) % period == t0 % period
  }

  /** The skew is less than a period. */
  lemma AlignedSkew(c: Clock, period: nat)
    requires period > 0 && Aligned(c, period)
    ensures c.skew < period && Unskewed(c) == Plain(c)
    ensures c.time - c.time % period == Plain(c) - Plain(c) % period
  {
    SamePeriod(c.time, Plain(c), period);
    SamePeriod(Plain(c), c.time, period);
  }

  lemma SameAdvance(u: nat, t0: nat, d: nat, period: nat)
    requires period > 0 && u % period == t0 % period
    ensures (u + d) % period == (t0 + d) % period
  {
    ModSum(d, u, period);
    ModSum(d, t0, period);
  }

  lemma RolledShowsLess(u: nat, d: nat, period: nat)
    requires period == 0x100_0000 || period == TWO_32
    requires d < period && (u + d) / period != u / period
    ensures (u + d) % period < d
  {
    WithinOnePeriod(u, u + d, period);
  }

  /** The first read of a timely call of a clock that follows: the plain time,
      moved on by as much as the true time, across a rollover of the counter,
      which is seen exactly when it takes the reading out of the period. */
  lemma FollowedReading(c: Clock, s: Setup, t0: u64, t: u64)
    requires ValidSetup(s) && Follows(c, s.period, t0)
    requires t0 <= t && t - t0 <= s.ticks / 2 && Plain(c) + (t - t0) < TWO_64
    ensures var hw, x := t % s.period, Plain(c) + (t - t0);
            && (RollsOver(c, s, hw) <==> x / s.period != c.time / s.period)
            && Reading(c, s, RollsOver(c, s, hw), hw) == x && hw == x % s.period
            && Raw(c, s, hw) == if RollsOver(c, s, hw) then x - s.period else x
  {
    var p, u, d := s.period, Plain(c), t - t0;
    AlignedSkew(c, p);
    SameAdvance(u, t0, d, p);
    FollowedPhase(u, d, p);
    ModOfPeriod(u, p);
    RawIsAligned(c, s, t % p);
    hide Raw, Unskewed, Follows, Plain;
  }

  /** A plain time moved on by less than a period. */
  lemma FollowedPhase(u: nat, d: nat, period: nat)
    requires (period == 0x100_0000 || period == TWO_32) && d < period
    ensures var x := u + d;
            && (x / period == u / period ==> x % period >= u % period && u - u % period + x % period == x)
            && (x / period != u / period ==> x % period < u % period && x % period < d
                                             && u - u % period + x % period == x - period)
  {
    WithinOnePeriod(u, u + d, period);
    if (u + d) / period != u / period {
      RolledShowsLess(u, d, period);
    }
  }

  /** Where a later time lies, by the start of the period of a given one. */
  lemma PeriodAt(y: nat, time: nat, period: nat)
    requires period == 0x100_0000 || period == TWO_32
    ensures var b := time - time % period;
            && (y / period == time / period <==> b <= y < b + period)
            && (y / period == time / period + 1 <==> b + period <= y < b + 2 * period)
  {
    if period == 0x100_0000 {
      assert time - time % 0x100_0000 == time / 0x100_0000 * 0x100_0000;
    } else {
      assert time - time % TWO_32 == time / TWO_32 * TWO_32;
    }
  }

  /** The comparison of two times above the counter bits sees all of them: with
      32-bit pointers it sees none above bit 31. */
  predicate Sees(s: Setup, x: u64, y: u64) {
    s.wide || (s.period == 0x100_0000 && x / TWO_32 == y / TWO_32)
  }

  /** Whether that comparison finds a time in the period after that of another. */
  lemma BlockCompares(s: Setup, x: u64, y: u64)
    requires ValidSetup(s) && (x / s.period == y / s.period || x / s.period == y / s.period + 1)
    ensures Block(s, x) > Block(s, y) <==> x / s.period != y / s.period && Sees(s, x, y)
  {
    if s.period == 0x100_0000 {
      BlockOfDay(x);
      BlockOfDay(y);
    }
  }

  lemma BlockOfDay(x: u64)
    ensures x % TWO_32 - x % TWO_32 % 0x100_0000 == x - x % 0x100_0000 - x / TWO_32 * TWO_32
    ensures x - x % 0x100_0000 == x / 0x100_0000 * 0x100_0000
    ensures x / 0x100_0000 / 0x100 == x / TWO_32
  {
    ModOfPeriod(x, 0x100_0000);
  }

  /** The skew a call leaves: as it was while the reported and the plain time are
      in one period; otherwise its complement, with the other sign, if the
      comparison of the periods sees it. */
  function NextSkew(c: Clock, s: Setup, x: int, v: u64): (u64, bool)
    requires ValidSetup(s) && c.skew <= s.period
  {
    if OnePeriod(v, x, s.period) || (c.positive && !Sees(s, v, c.time)) then (c.skew, c.positive)
    else (s.period - c.skew, !c.positive)
  }

  /** Two times are in one period of the counter. */
  predicate OnePeriod(x: int, y: int, period: nat)
    requires period > 0
  {
    x / period == y / period
  }

  /** The corrections, in terms of the start `b` of the next period. */
  lemma CorrectionCases(c: Clock, s: Setup, x: u64, v: u64, hw: u32, raw: u64, roll: bool, b: nat, sees: bool)
    requires ValidSetup(s) && 0 < c.skew < s.period && c.time <= v && c.time < b && v + s.period < TWO_64
    requires x == if c.positive then v - c.skew else v + c.skew
    requires roll == (x >= b) && raw == (if roll then x - s.period else x) && (roll ==> hw == x - b)
    requires Block(s, v) > Block(s, c.time) <==> v >= b && sees
    ensures Reskewed(c, s, Believed(v, c.skew, c.positive), raw, roll, hw)
         == if (v >= b) == (x >= b) || (c.positive && !sees) then (c.skew, c.positive)
            else (s.period - c.skew, !c.positive)
  {
    hide Block, ValidSetup;
  }

  lemma FollowedSkew(c: Clock, s: Setup, x: u64, v: u64, hw: u32, raw: u64, roll: bool)
    requires ValidSetup(s) && 0 < c.skew < s.period && c.time <= v < c.time + s.period
    requires x == if c.positive then v - c.skew else v + c.skew
    requires x / s.period == c.time / s.period || x / s.period == c.time / s.period + 1
    requires roll == (x / s.period != c.time / s.period)
    requires hw == x % s.period && raw == if roll then x - s.period else x
    requires v + s.period < TWO_64
    ensures Reskewed(c, s, Believed(v, c.skew, c.positive), raw, roll, hw) == NextSkew(c, s, x, v)
  {
    var p := s.period;
    var b := c.time - c.time % p + p;
    OnePeriodApart(c.time, v, p);
    PeriodAt(v, c.time, p);
    PeriodAt(x, c.time, p);
    BlockCompares(s, v, c.time);
    if roll {
      StartOf(x, c.time, p);
    }
    assert c.time < b && (OnePeriod(v, x, p) <==> (v >= b) == (x >= b));
    hide Block, Sees, Reskewed, OnePeriod, ValidSetup;
    CorrectionCases(c, s, x, v, hw, raw, roll, b, Sees(s, v, c.time));
  }

  lemma StartOf(x: nat, time: nat, period: nat)
    requires period == 0x100_0000 || period == TWO_32
    requires x / period == time / period + 1
    ensures x % period == x - (time - time % period + period)
  {
    PeriodAt(x, time, period);
  }

  /** A timely call on healthy hardware, by a clock that follows at an offset: as
      long as the plain time is outside the bounds, the first read is believed
      with the skew applied, and the reported time moves on by exactly as much as
      the true time. */
  lemma FollowedCall(c: Clock, s: Setup, values: seq<u32>, t0: u64, t: u64)
    requires ValidSetup(s) && Follows(c, s.period, t0)
    requires t0 <= t && t - t0 <= s.ticks / 2
    requires c.time + (t - t0) <= c.bound && c.time + (t - t0) + s.period + s.ticks < TWO_64
    requires !(c.time <= Plain(c) + (t - t0) <= c.bound)
    requires values != [] && values[0] == t % s.period
    ensures c.skew < s.period
    ensures var v := c.time + (t - t0);
            var (skew, positive) := NextSkew(c, s, Plain(c) + (t - t0), v);
            Call(c, s, values) == Some(Answer(Clock(v, v + s.ticks, skew, positive), 1))
  {
    hide Raw, RollsOver, Reading, Reskewed, NextSkew, Call, Judge;
    var x, v := Plain(c) + (t - t0), c.time + (t - t0);
    AlignedSkew(c, s.period);
    FollowedReading(c, s, t0, t);
    OnePeriodApart(Plain(c), x, s.period);
    var hw := values[0];
    var roll := RollsOver(c, s, hw);
    FollowedSkew(c, s, x, v, hw, Raw(c, s, hw), roll);
    JudgeSkewed(c, s, x, v);
    OneRead(c, s, values, v, c.skew, c.positive);
  }

  lemma JudgeSkewed(c: Clock, s: Setup, x: u64, v: u64)
    requires ValidSetup(s) && c.skew > 0 && x == if c.positive then v - c.skew else v + c.skew
    requires c.time <= v <= c.bound && !(c.time <= x <= c.bound)
    ensures Judge(c, s, x, 0) == Believed(v, c.skew, c.positive)
  {
  }

  /** A call whose first read is believed. */
  lemma OneRead(c: Clock, s: Setup, values: seq<u32>, v: u64, skew: u64, positive: bool)
    requires ValidSetup(s) && values != []
    requires var roll := RollsOver(c, s, values[0]);
             Judge(c, s, Reading(c, s, roll, values[0]), 0) == Believed(v, skew, positive)
    ensures var (skew', positive') :=
              Reskewed(c, s, Believed(v, skew, positive), Raw(c, s, values[0]), RollsOver(c, s, values[0]), values[0]);
            Call(c, s, values) == Some(Answer(Clock(v, Add64(v, s.ticks), skew', positive'), 1))
  {
    hide Raw, RollsOver, Reading, Reskewed, Judge;
  }

  /** The clock that such a call leaves follows the counter on, if and only if
      the reported time did not carry a positive skew into a new period unseen. */
  lemma FollowsOn(c: Clock, s: Setup, t0: u64, t: u64)
    requires ValidSetup(s) && Follows(c, s.period, t0)
    requires t0 <= t && t - t0 <= s.ticks / 2 && c.time + (t - t0) + s.period + s.ticks < TWO_64
    ensures c.skew < s.period
    ensures var x, v := Plain(c) + (t - t0), c.time + (t - t0);
            var (skew, positive) := NextSkew(c, s, x, v);
            Follows(Clock(v, v + s.ticks, skew, positive), s.period, t)
            <==> OnePeriod(v, x, s.period) || !c.positive || Sees(s, v, c.time)
  {
    hide NextSkew, Sees, OnePeriod, SamePhase, Follows, Plain;
    FollowsParts(c, s.period, t0, t);
    KeepsFollowing(c, s, Plain(c) + (t - t0), c.time + (t - t0), t);
  }

  lemma FollowsParts(c: Clock, period: nat, t0: u64, t: u64)
    requires period > 0 && Follows(c, period, t0) && t0 <= t
    ensures 0 < c.skew < period && 0 <= Plain(c)
    ensures Plain(c) == if c.positive then c.time - c.skew else c.time + c.skew
    ensures SamePhase(Plain(c) + (t - t0), t, period)
  {
    AlignedSkew(c, period);
    SameAdvance(Plain(c), t0, t - t0, period);
  }

  lemma KeepsFollowing(c: Clock, s: Setup, x: nat, v: u64, t: u64)
    requires ValidSetup(s) && 0 < c.skew < s.period && v + s.period + s.ticks < TWO_64
    requires x == (if c.positive then v - c.skew else v + c.skew) && SamePhase(x, t, s.period)
    ensures var (skew, positive) := NextSkew(c, s, x, v);
            Follows(Clock(v, v + s.ticks, skew, positive), s.period, t)
            <==> OnePeriod(v, x, s.period) || !c.positive || Sees(s, v, c.time)
  {
    hide Sees, Follows, OnePeriod, SamePhase;
    var p := s.period;
    if c.positive {
      NextPeriod(x, v, t, p);
      PlainIs(Clock(v, v + s.ticks, c.skew, true), p, t, x);
      PlainIs(Clock(v, v + s.ticks, p - c.skew, false), p, t, x + p);
    } else {
      NextPeriod(v, x, t, p);
      PlainIs(Clock(v, v + s.ticks, c.skew, false), p, t, x);
      if !OnePeriod(v, x, p) {
        PlainIs(Clock(v, v + s.ticks, p - c.skew, true), p, t, x - p);
      }
    }
  }

  /** Two times show the same value of the counter. */
  predicate SamePhase(x: int, y: int, period: nat)
    requires period > 0
  {
    x % period == y % period
  }

  /** Of two times less than a period apart in different periods, the earlier one
      a period later, and the later one a period earlier, is in the period of the
      other. */
  lemma NextPeriod(x: nat, y: nat, t: nat, period: nat)
    requires (period == 0x100_0000 || period == TWO_32) && x <= y < x + period
    ensures OnePeriod(x, y, period) <==> OnePeriod(y, x, period)
    ensures !OnePeriod(x, y, period) ==>
              OnePeriod(y, x + period, period) && OnePeriod(x, y - period, period) && y >= period
    ensures SamePhase(x, t, period) ==> SamePhase(x + period, t, period)
    ensures SamePhase(y, t, period) ==> SamePhase(y - period, t, period)
  {
    OnePeriodApart(x, y, period);
    OnePeriodBack(y, period);
  }

  lemma PlainIs(d: Clock, period: nat, t: u64, y: int)
    requires period > 0 && d.skew > 0 && 0 <= y < TWO_64 && SamePhase(y, t, period)
    requires y == if d.positive then d.time - d.skew else d.time + d.skew
    ensures Follows(d, period, t) <==> OnePeriod(d.time, y, period)
  {
  }

  lemma OnePeriodApart(x: nat, y: nat, period: nat)
    requires (period == 0x100_0000 || period == TWO_32) && x <= y < x + period
    ensures y / period == x / period || y / period == x / period + 1
    ensures (x + period) / period == x / period + 1 && (x + period) % period == x % period
  {
    PeriodAt(y, x, period);
    QuotientRemainder(x + period, period, x / period + 1, x % period);
  }

  lemma OnePeriodBack(x: nat, period: nat)
    requires period > 0
    ensures (x - period) / period == x / period - 1 && (x - period) % period == x % period
  {
    QuotientRemainder(x - period, period, x / period - 1, x % period);
  }

  /** The reported time less the true time, modulo the period. */
  function Offset(c: Clock, period: nat): int {
    if c.positive then c.skew else period - c.skew
  }

  /** Call `i` returned the true time plus the offset, with a skew in force. */
  ghost predicate OffsetAt(r: seq<Clock>, times: seq<u64>, i: nat, offset: int) {
    i < |times| && i + 1 < |r| && r[i + 1].time == times[i] + offset && r[i + 1].skew > 0
  }

  /** The calls use one counter and see the periods of the times they report,
      from the one after `last`, and those times do not come near 2^64. */
  ghost predicate InView(calls: seq<Request>, times: seq<u64>, period: nat, offset: int, last: u64)
    decreases |times|
  {
    |calls| == |times| && (times != [] ==>
      && calls[0].setup.period == period && 0 <= times[0] + offset < TWO_64 - 2 * TWO_32
      && Sees(calls[0].setup, times[0] + offset, last)
      && InView(calls[1..], times[1..], period, offset, times[0] + offset))
  }

  /** One call of a run at an offset of more than a table entry. */
  lemma FollowedStep(c: Clock, s: Setup, values: seq<u32>, t0: u64, t: u64)
    requires ValidSetup(s) && Follows(c, s.period, t0)
    requires MAX_TICKS < Offset(c, s.period) < s.period - MAX_TICKS
    requires t0 <= t && t - t0 <= s.ticks / 2 && c.time + (t - t0) < TWO_64 - 2 * TWO_32
    requires c.time + (t - t0) <= c.bound <= c.time + MAX_TICKS && Sees(s, c.time + (t - t0), c.time)
    requires values != [] && values[0] == t % s.period
    ensures var a := Call(c, s, values);
            && a.Some? && a.value.clock.time == c.time + (t - t0) && a.value.clock.bound == c.time + (t - t0) + s.ticks
            && Follows(a.value.clock, s.period, t) && Offset(a.value.clock, s.period) == Offset(c, s.period)
  {
    hide Call, Sees, OnePeriod;
    AlignedSkew(c, s.period);
    FollowedCall(c, s, values, t0, t);
    FollowsOn(c, s, t0, t);
    hide Follows;
  }

  /** Every call of every timely run on healthy hardware, by a clock that follows
      at an offset of more than a table entry from the true time, returns the
      true time plus that offset, across rollovers of the counter and of the
      reported time. */
  lemma {:induction false} FollowedRunIsExact(c: Clock, calls: seq<Request>, times: seq<u64>, t0: u64, period: nat,
                                              offset: int)
    requires ValidRequests(calls) && (period == 0x100_0000 || period == TWO_32)
    requires Follows(c, period, t0) && c.time <= c.bound <= c.time + MAX_TICKS && c.time == t0 + offset
    requires MAX_TICKS < Offset(c, period) < period - MAX_TICKS
    requires Timely(t0, t0 + (c.bound - c.time), calls, times) && InView(calls, times, period, offset, c.time)
    ensures |Clocks(c, calls)| == |times| + 1
    ensures forall i | 0 <= i < |times| :: OffsetAt(Clocks(c, calls), times, i, offset)
    decreases |times|
  {
    hide Call, Follows, Sees, Offset;
    if times != [] {
      FollowedStep(c, calls[0].setup, calls[0].values, t0, times[0]);
      hide ValidSetup;
      var d := Call(c, calls[0].setup, calls[0].values).value.clock;
      FollowedRunIsExact(d, calls[1..], times[1..], times[0], period, offset);
      assert d.skew > 0 by { FollowsSkew(d, period, times[0]); }
      var rest := Clocks(d, calls[1..]);
      assert Clocks(c, calls) == [c] + rest;
      forall i | 0 <= i < |times| ensures OffsetAt([c] + rest, times, i, offset) {
        if i > 0 {
          assert OffsetAt(rest, times[1..], i - 1, offset);
        }
      }
    }
  }

  lemma FollowsSkew(c: Clock, period: nat, t: u64)
    requires period > 0 && Follows(c, period, t)
    ensures c.skew > 0
  {
  }

  /** Any skew, without asking that the clock follows: a first read in the period
      of the last time with no rollover seen, out of bounds as it is but in
      bounds with the skew applied, is believed with the skew applied, and the
      skew is kept unless the time enters a new period. */
  lemma SkewIsApplied(c: Clock, s: Setup, values: seq<u32>, t: u64)
    requires ValidSetup(s) && c.skew > 0 && t / s.period == c.time / s.period
    requires values != [] && values[0] == t % s.period
    requires values[0] >= Unskewed(c) % s.period || values[0] >= s.ticks / 2
    requires !(c.time <= t <= c.bound) && c.time <= (if c.positive then t + c.skew else t - c.skew) <= c.bound
    ensures var v := if c.positive then t + c.skew else t - c.skew;
            var a := Call(c, s, values);
            && a.Some? && a.value.used == 1
            && a.value.clock.time == v && a.value.clock.bound == Add64(v, s.ticks)
            && (v / s.period == c.time / s.period ==>
                  a.value.clock.skew == c.skew && a.value.clock.positive == c.positive)
  {
    var v: u64 := if c.positive then t + c.skew else t - c.skew;
    RawIsAligned(c, s, values[0]);
    SamePeriod(c.time, t, s.period);
    ModOfPeriod(Unskewed(c), s.period);
    if v / s.period == c.time / s.period {
      BlockCompares(s, v, c.time);
    }
    hide Spliced, Unskewed, Block;
  }

  /** What a call does with two consistent reads out of bounds: it adds 3 ticks if
      time stepped back by less than 0x40, an eighth of the table entry if it
      stepped back further, and a quarter if it jumped ahead; and the clock then
      follows the counter at that offset. */
  lemma GlitchedCall(c: Clock, s: Setup, values: seq<u32>, t: u64, t': u64)
    requires ValidSetup(s) && c.skew == 0 && |values| >= 2 && c.time + s.period + s.ticks < TWO_64
    requires t / s.period == c.time / s.period && t' / s.period == c.time / s.period
    requires values[0] == t % s.period && values[1] == t' % s.period
    requires forall i | 0 <= i < 2 :: values[i] >= c.time % s.period || values[i] >= s.ticks / 2
    requires 0xfff < t <= t' <= t + 0xfff && !(c.time <= t <= c.bound) && !(c.time <= t' <= c.bound)
    ensures var v := c.time + Correction(c.time, t', s.ticks);
            var a := Call(c, s, values);
            && a.Some? && a.value.used == 2
            && a.value.clock.time == v && a.value.clock.bound == v + s.ticks
            && (v / s.period == c.time / s.period && (t' < c.time || v < t') ==> Follows(a.value.clock, s.period, t'))
  {
    PlainRead(c, s, t);
    PlainRead(c, s, t');
    var rest := values[1..];
    assert rest[0] == values[1];
    JudgeGlitch(c, s, t, t');
    hide Raw, Reading, RollsOver, Judge, Reskewed;
    assert Query(c, s, rest, t, false) == Some(GlitchAnswer(c, s, t', values[1]).(used := 1));
    assert Call(c, s, values) == Some(GlitchAnswer(c, s, t', values[1]));
    GlitchFollows(c, s, t', values[1]);
  }

  /** A read in the period of the last time, with no rollover seen and no skew. */
  lemma PlainRead(c: Clock, s: Setup, t: u64)
    requires ValidSetup(s) && c.skew == 0 && t / s.period == c.time / s.period
    requires t % s.period >= c.time % s.period || t % s.period >= s.ticks / 2
    ensures var hw := t % s.period;
            !RollsOver(c, s, hw) && Reading(c, s, false, hw) == Raw(c, s, hw) == t
  {
    RawIsAligned(c, s, t % s.period);
    SamePeriod(c.time, t, s.period);
    ModOfPeriod(c.time, s.period);
    hide Raw;
  }

  lemma JudgeGlitch(c: Clock, s: Setup, t: u64, t': u64)
    requires ValidSetup(s) && c.skew == 0 && c.time + s.period + s.ticks < TWO_64
    requires 0xfff < t <= t' <= t + 0xfff && !(c.time <= t <= c.bound) && !(c.time <= t' <= c.bound)
    ensures Judge(c, s, t, 0) == Reread
    ensures Judge(c, s, t', t) == GlitchVerdict(c, s, t')
    ensures GlitchVerdict(c, s, t').value == c.time + Correction(c.time, t', s.ticks)
  {
  }

  /** How far a call moves on from the last time, for a consistent reading `r`
      that it does not believe. */
  function Correction(time: u64, r: u64, ticks: u32): nat {
    if r >= time then ticks / 4 else if time - r < 0x40 then 3 else ticks / 8
  }

  function GlitchVerdict(c: Clock, s: Setup, r: u64): (v: Verdict)
    requires ValidSetup(s)
    ensures v.Believed?
  {
    var v := Add64(c.time, Correction(c.time, r, s.ticks));
    if r < c.time then Believed(v, Sub64(v, r), true) else Believed(v, Sub64(r, v), false)
  }

  function GlitchAnswer(c: Clock, s: Setup, r: u64, hw: u32): Answer
    requires ValidSetup(s)
  {
    var v := GlitchVerdict(c, s, r);
    var (skew, positive) := Reskewed(c, s, v, r, false, hw);
    Answer(Clock(v.value, Add64(v.value, s.ticks), skew, positive), 2)
  }

  lemma GlitchFollows(c: Clock, s: Setup, r: u64, hw: u32)
    requires ValidSetup(s) && c.time + s.period + s.ticks < TWO_64 && r / s.period == c.time / s.period
    ensures var v, d := c.time + Correction(c.time, r, s.ticks), GlitchAnswer(c, s, r, hw).clock;
            v / s.period == c.time / s.period && (r < c.time || v < r) ==> Follows(d, s.period, r)
  {
    var v := c.time + Correction(c.time, r, s.ticks);
    if OnePeriod(v, r, s.period) && (r < c.time || v < r) {
      BlockCompares(s, v, c.time);
      hide Block, ValidSetup;
      var d := GlitchAnswer(c, s, r, hw).clock;
      assert d.time == v && d.skew > 0 && r == if d.positive then v - d.skew else v + d.skew;
      PlainIs(d, s.period, r, r);
    }
  }

  // ----- What the corrections of the skew achieve

  /** The clock after a reading is believed. */
  function Believing(c: Clock, s: Setup, v: Verdict, raw: u64, roll: bool, hw: u32): Clock
    requires ValidSetup(s) && v.Believed?
  {
    var (skew, positive) := Reskewed(c, s, v, raw, roll, hw);
    Clock(v.value, Add64(v.value, s.ticks), skew, positive)
  }

  lemma ModOnce(x: nat, period: nat)
    requires 0 < period <= x < 2 * period
    ensures x % period == x - period
  {
    QuotientRemainder(x, period, 1, x - period);
  }

  /** The last time, its plain time and a raw reading are all in the period that
      ends at `b`. */
  predicate InPeriod(c: Clock, s: Setup, raw: u64, hw: u32, b: nat) {
    && b - s.period <= c.time < b && b - s.period <= Plain(c) < b && b - s.period <= raw < b
    && hw == raw - (b - s.period) && c.skew < s.period
    && c.bound <= c.time + MAX_TICKS && b + 2 * TWO_32 < TWO_64
  }

  /** A verdict on a reading: in bounds or at most a quarter of a table entry
      ahead, and with a skew that leads back to the reading. */
  predicate Verdicts(c: Clock, v: Verdict, read: u64) {
    && v.Believed? && c.time <= v.value <= c.time + MAX_TICKS
    && (v.skew == 0 || (if v.positive then v.value - v.skew == read
                        else v.value + v.skew == read || v.value + v.skew == read + TWO_64))
  }

  lemma JudgeShape(c: Clock, s: Setup, read: u64, last: u64)
    requires ValidSetup(s) && c.skew < s.period && c.bound <= c.time + MAX_TICKS && c.time + 4 * TWO_32 < TWO_64
    requires read < c.time + 2 * TWO_32
    requires Judge(c, s, read, last).Believed?
    ensures Verdicts(c, Judge(c, s, read, last), read)
  {
  }

  /** A believed time is less than a period ahead of the reading, and under
      negative skew not ahead of it at all. */
  predicate NotAhead(s: Setup, v: Verdict, read: u64) {
    v.Believed? && (v.skew == 0 || v.value - read < if v.positive then s.period else 1)
  }

  /** In terms of that period: which skews come out below a period, and that they
      leave the believed time and its plain time on the same side of its end. */
  lemma CorrectedSide(c: Clock, s: Setup, v: Verdict, raw: u64, roll: bool, hw: u32, b: nat)
    requires ValidSetup(s) && InPeriod(c, s, raw, hw, b)
    requires Verdicts(c, v, if roll then raw + s.period else raw)
    requires Block(s, v.value) > Block(s, c.time) <==> v.value >= b
    ensures var d := Believing(c, s, v, raw, roll, hw);
            && c.time <= d.time < b + s.period
            && (d.skew < s.period <==> NotAhead(s, v, if roll then raw + s.period else raw))
            && (d.skew < s.period ==>
                  b - s.period <= Plain(d) < b + s.period && (d.time >= b <==> Plain(d) >= b))
  {
    hide Block;
    if s.period <= v.skew < 2 * s.period {
      ModOnce(v.skew, s.period);
    }
  }

  /** One read that is believed: the clock is aligned with the counter again if
      and only if its skew is below a period, and that is so if and only if the
      believed time does not run ahead of the reading. */
  lemma ReadAligns(c: Clock, s: Setup, last: u64, roll: bool, hw: u32)
    requires ValidSetup(s) && s.wide && Aligned(c, s.period) && hw < s.period
    requires c.bound <= c.time + MAX_TICKS && c.time + 4 * TWO_32 < TWO_64
    requires Judge(c, s, Reading(c, s, roll, hw), last).Believed?
    ensures var d := Believing(c, s, Judge(c, s, Reading(c, s, roll, hw), last), Raw(c, s, hw), roll, hw);
            && (Aligned(d, s.period) <==> d.skew < s.period)
            && (Aligned(d, s.period) <==>
                  NotAhead(s, Judge(c, s, Reading(c, s, roll, hw), last), Reading(c, s, roll, hw)))
  {
    var p, raw, read := s.period, Raw(c, s, hw), Reading(c, s, roll, hw);
    var b := c.time - c.time % p + p;
    AlignedInPeriod(c, s, hw);
    hide Raw, Judge, Reskewed, Plain, Aligned;
    var v := Judge(c, s, read, last);
    JudgeShape(c, s, read, last);
    EndsAfter(c.time, v.value, s);
    hide Block;
    CorrectedSide(c, s, v, raw, roll, hw, b);
    AlignedIffSmall(Believing(c, s, v, raw, roll, hw), c.time, p, b);
  }

  lemma AlignedInPeriod(c: Clock, s: Setup, hw: u32)
    requires ValidSetup(s) && Aligned(c, s.period) && hw < s.period
    requires c.bound <= c.time + MAX_TICKS && c.time + 4 * TWO_32 < TWO_64
    ensures InPeriod(c, s, Raw(c, s, hw), hw, c.time - c.time % s.period + s.period)
  {
    AlignedSkew(c, s.period);
    RawIsAligned(c, s, hw);
    PeriodAt(Plain(c), c.time, s.period);
    hide Raw, Plain;
  }

  lemma EndsAfter(time: u64, v: u64, s: Setup)
    requires ValidSetup(s) && s.wide && time <= v < time + s.period
    ensures Block(s, v) > Block(s, time) <==> v >= time - time % s.period + s.period
  {
    OnePeriodApart(time, v, s.period);
    PeriodAt(v, time, s.period);
    BlockCompares(s, v, time);
    hide Block;
  }

  lemma AlignedIffSmall(d: Clock, time: nat, period: nat, b: nat)
    requires (period == 0x100_0000 || period == TWO_32) && b == time - time % period + period
    requires time <= d.time < b + period && b + period < TWO_64
    requires d.skew < period ==> b - period <= Plain(d) < b + period && (d.time >= b <==> Plain(d) >= b)
    ensures Aligned(d, period) <==> d.skew < period
  {
    PeriodAt(d.time, time, period);
    if d.skew < period {
      PeriodAt(Plain(d), time, period);
    }
    if Aligned(d, period) {
      AlignedSkew(d, period);
    }
  }

  /** Whatever the hardware does, as long as its reads are counter values, a call
      of an aligned clock leaves an aligned clock if and only if the skew it
      leaves is below a period: that is what the corrections are for. */
  lemma {:induction false} CallAligns(c: Clock, s: Setup, values: seq<u32>, last: u64, roll: bool)
    requires ValidSetup(s) && s.wide && Aligned(c, s.period)
    requires c.bound <= c.time + MAX_TICKS && c.time + 4 * TWO_32 < TWO_64
    requires forall i | 0 <= i < |values| :: values[i] < s.period
    requires Query(c, s, values, last, roll).Some?
    ensures var d := Query(c, s, values, last, roll).value.clock;
            Aligned(d, s.period) <==> d.skew < s.period
    decreases |values|
  {
    hide Raw, Reading, Judge, Reskewed, RollsOver, Aligned;
    var hw := values[0];
    var roll' := roll || RollsOver(c, s, hw);
    var read := Reading(c, s, roll', hw);
    if Judge(c, s, read, last).Reread? {
      CallAligns(c, s, values[1..], read, roll');
    } else {
      ReadAligns(c, s, last, roll', hw);
    }
  }

  /** With 32-bit pointers and a 32-bit counter the new period is not seen: a
      clock that follows keeps its skew into it, does not follow any more, and
      its next read is not believed. */
  lemma NarrowBuildLosesOffset()
    ensures var s, t0 := Setup(TWO_32, 14318, false), TWO_32 - 1000010;
            var c := Clock(TWO_32 - 10, TWO_32 + 14308, 1000000, true);
            var d := Clock(TWO_32 + 10, TWO_32 + 14328, 1000000, true);
            && Follows(c, TWO_32, t0) && Call(c, s, [t0 + 20]) == Some(Answer(d, 1))
            && !Follows(d, TWO_32, t0 + 20) && Call(d, s, [t0 + 40]) == None
  {
    var s, t0: u64 := Setup(TWO_32, 14318, false), TWO_32 - 1000010;
    var c := Clock(TWO_32 - 10, TWO_32 + 14308, 1000000, true);
    var d := Clock(TWO_32 + 10, TWO_32 + 14328, 1000000, true);
    FollowedCall(c, s, [t0 + 20], t0, t0 + 20);
    RawIsAligned(d, s, t0 + 40);
    hide Raw;
    assert Query(d, s, [], TWO_32 + t0 + 40, false) == None;
    assert [t0 + 40][1..] == [];
  }

  // ----- Exit from the reread loop

  /** The bits of a value above those the counter has; the port is not masked,
      so a read of a 24-bit counter can have some. */
  function Above(s: Setup, hw: u32): nat
    requires ValidSetup(s)
  {
    hw / s.period
  }

  /** Two non-decreasing reads in a row get the same rollover treatment, and if
      they agree above the counter the readings differ by exactly as much. */
  lemma ConsecutiveReadings(c: Clock, s: Setup, roll: bool, h: u32, g: u32)
    requires ValidSetup(s) && h <= g
    ensures var roll1 := roll || RollsOver(c, s, h);
            var roll2 := roll1 || RollsOver(c, s, g);
            && roll1 == roll2
            && (Above(s, h) == Above(s, g) ==> Sub64(Reading(c, s, roll2, g), Reading(c, s, roll1, h)) == g - h)
  {
    hide Spliced, Or;
    SplicedFields(c.time, s.period, h);
    SplicedFields(c.time, s.period, g);
    if Above(s, h) == Above(s, g) {
      SameAbove(h, g, s.period);
    }
  }

  lemma SameAbove(h: nat, g: nat, period: nat)
    requires period > 0 && h / period == g / period
    ensures g % period - h % period == g - h
  {
    assert h == h / period * period + h % period;
    assert g == g / period * period + g % period;
  }

  predicate Close(h: u32, g: u32) {
    h <= g && g - h <= 0xfff
  }

  /** A call returns no later than the second of the first two consecutive
      non-decreasing reads that differ by at most 0xfff and agree above the bits
      of the counter. */
  lemma {:induction false} LoopExits(c: Clock, s: Setup, values: seq<u32>, last: u64, roll: bool, k: nat)
    requires ValidSetup(s)
    requires k + 1 < |values|
    requires Close(values[k], values[k + 1]) && Above(s, values[k]) == Above(s, values[k + 1])
    ensures Query(c, s, values, last, roll).Some?
    ensures Query(c, s, values, last, roll).value.used <= k + 2
    decreases k
  {
    hide RollsOver, Reading, Reskewed, Raw;
    var roll' := roll || RollsOver(c, s, values[0]);
    var read := Reading(c, s, roll', values[0]);
    if Judge(c, s, read, last).Reread? {
      if k > 0 {
        LoopExits(c, s, values[1..], read, roll', k - 1);
      } else {
        ConsecutiveReadings(c, s, roll, values[0], values[1]);
        assert values[1..][0] == values[1];
      }
    }
  }

  /** A clock that reads past any two such values that do not agree there: its
      last time has all those bits set, so both readings fall into one period,
      the first near its end and the second near its start. */
  function Trap(s: Setup): Clock
    requires ValidSetup(s) && s.period == 0x100_0000
  {
    Clock(0xFF00_1000, 0xFF00_1000 + s.ticks as int, 0, true)
  }

  lemma TrapReading(s: Setup, hw: u32)
    requires ValidSetup(s) && s.period == 0x100_0000
    ensures Raw(Trap(s), s, hw) == 0xFF00_0000 + hw % 0x100_0000
  {
    hide Spliced, Or;
    SplicedFields(0xFF00_1000, 0x100_0000, hw);
    Pow2Values();
    OrOnes(8, hw / 0x100_0000);
  }

  lemma TrapHolds(s: Setup, h: u32, g: u32)
    requires ValidSetup(s) && Close(h, g) && Above(s, h) != Above(s, g)
    ensures s.period == 0x100_0000 && Call(Trap(s), s, [h, g]) == None
  {
    hide Spliced, Raw, Reskewed;
    assert s.period == 0x100_0000;
    var c := Trap(s);
    TrapReading(s, h);
    TrapReading(s, g);
    assert h % 0x100_0000 >= 0x100_0000 - 0xfff && g % 0x100_0000 < 0xfff;
    assert !RollsOver(c, s, h) && !RollsOver(c, s, g);
    assert Judge(c, s, Reading(c, s, false, h), 0).Reread?;
    assert Judge(c, s, Reading(c, s, false, g), Reading(c, s, false, h)).Reread?;
    assert [h, g][1..] == [g] && [g][1..] == [];
    assert Query(c, s, [], Reading(c, s, false, g), false) == None;
    assert Query(c, s, [g], Reading(c, s, false, h), false) == None;
  }

  /** For two non-decreasing reads at most 0xfff apart, every call returns by the
      second of them if and only if they agree above the bits of the counter. */
  lemma LoopExitIsExact(s: Setup, h: u32, g: u32)
    requires ValidSetup(s) && Close(h, g)
    ensures (forall c: Clock, last: u64, roll: bool :: Query(c, s, [h, g], last, roll).Some?)
            <==> Above(s, h) == Above(s, g)
    ensures (forall c: Clock :: Call(c, s, [h, g]).Some?) <==> Above(s, h) == Above(s, g)
  {
    hide Query;
    if Above(s, h) == Above(s, g) {
      forall c: Clock, last: u64, roll: bool ensures Query(c, s, [h, g], last, roll).Some? {
        LoopExits(c, s, [h, g], last, roll, 0);
      }
    } else {
      TrapHolds(s, h, g);
      assert Query(Trap(s), s, [h, g], 0, false) == None;
    }
  }

  /** Reads one apart that do not end the loop. */
  lemma AdjacentReadsDoNotExit()
    ensures var s := Setup(0x100_0000, 14318, true);
            Call(Clock(0x100_0010, 0x100_0010 + 14318, 0, true), s, [0xFF_FFFF, 0x100_0000]) == None
  {
    hide Spliced, Reskewed, Or;
    var s := Setup(0x100_0000, 14318, true);
    var c := Clock(0x100_0010, 0x100_0010 + 14318, 0, true);
    SplicedFields(c.time, s.period, 0xFF_FFFF);
    SplicedFields(c.time, s.period, 0x100_0000);
    OneOrOne();
    assert Raw(c, s, 0xFF_FFFF) == 0x1FF_FFFF && Raw(c, s, 0x100_0000) == 0x100_0000;
    var values: seq<u32> := [0xFF_FFFF, 0x100_0000];
    assert values[1..] == [0x100_0000] && values[1..][1..] == [];
    assert Query(c, s, [], 0x100_0000, false) == None;
    assert Query(c, s, values[1..], 0x1FF_FFFF, false) == None;
  }

  lemma OneOrOne()
    ensures Or(1, 0) == 1 && Or(1, 1) == 1
  {
  }

  // ----- The code

  /** An answer that came `k` reads later. */
  ghost function Later(a: Option<Answer>, k: nat): Option<Answer> {
    if a.None? then None else Some(a.value.(used := a.value.used + k))
  }

  class Timer {
    var timeLow: u32
    var timeHigh1: u32
    var timeHigh2: u32
    var upperBoundLow: u32
    var upperBoundHigh1: u32
    var upperBoundHigh2: u32
    var msbMask: u32
    var clockSkew: u64
    var positiveSkew: bool
    var rateIndex: nat
    const upperBoundTable: array<u32>
    const wide: bool

    ghost predicate Valid()
      reads this, upperBoundTable
    {
      && (msbMask == 0x80_0000 || msbMask == TWO_31)
      && timeHigh1 == timeHigh2 && upperBoundHigh1 == upperBoundHigh2
      && rateIndex < upperBoundTable.Length == 15
      && forall i | 0 <= i < 15 :: MIN_TICKS <= upperBoundTable[i] <= MAX_TICKS
    }

    ghost function State(): Clock
      reads this
    {
      Clock(timeHigh2 * TWO_32 + timeLow, upperBoundHigh2 * TWO_32 + upperBoundLow, clockSkew, positiveSkew)
    }

    ghost function Current(): (s: Setup)
      requires Valid()
      reads this, upperBoundTable
      ensures ValidSetup(s)
    {
      Setup(2 * msbMask, upperBoundTable[rateIndex], wide)
    }

    constructor (extended: bool, wide: bool)
      ensures Valid()
      ensures State() == Clock(0, 0, 0, true)
      ensures Current() == Setup(if extended then TWO_32 else 0x100_0000, 14318, wide)
      ensures upperBoundTable[..] == [14318, 28636, 42954, 57272, 71590, 85908, 100226, 114544,
                                      128862, 143180, 157498, 171818, 186136, 200454, 214772]
    {
      timeLow, timeHigh1, timeHigh2 := 0, 0, 0;
      upperBoundLow, upperBoundHigh1, upperBoundHigh2 := 0, 0, 0;
      msbMask := if extended then TWO_31 else 0x80_0000;
      clockSkew, positiveSkew := 0, true;
      rateIndex := 0;
      this.wide := wide;
      upperBoundTable := new u32[] [14318, 28636, 42954, 57272, 71590, 85908, 100226, 114544,
                                    128862, 143180, 157498, 171818, 186136, 200454, 214772];
    }

    /** Doubles every entry of the table, for a timer that runs at twice its
        nominal rate. */
    method AdjustUpperBoundTable2X()
      requires upperBoundTable.Length == 15
      modifies upperBoundTable
      ensures forall i | 0 <= i < 15 :: upperBoundTable[i] == 2 * old(upperBoundTable[i]) as int % TWO_32
      ensures old(Valid() && forall i | 0 <= i < 15 :: 2 * upperBoundTable[i] as int <= MAX_TICKS) ==> Valid()
    {
      for looper := 0 to 15
        invariant forall i | 0 <= i < looper :: upperBoundTable[i] == 2 * old(upperBoundTable[i]) as int % TWO_32
        invariant forall i | looper <= i < 15 :: upperBoundTable[i] == old(upperBoundTable[i])
      {
        upperBoundTable[looper] := 2 * upperBoundTable[looper] as int % TWO_32;
      }
    }

    /** One call; `values` are what the port returns, read by read. When they
        run out first, the call is still rereading and no global has changed. */
    method QueryBrokenPiix4(values: seq<u32>) returns (time: Option<u64>, ghost used: nat)
      requires Valid()
      modifies this
      ensures Valid() && Current() == old(Current())
      ensures var a := Call(old(State()), old(Current()), values);
              if a.None? then time.None? && State() == old(State())
              else time == Some(a.value.clock.time) && State() == a.value.clock && used == a.value.used
    {
      hide Judge, Reskewed, Raw, RollsOver, Reading;
      ghost var c, s := State(), Current();
      var minTime: u64 := timeHigh2 * TWO_32 + timeLow;
      var lastRead: u64, rollOver := 0, false;
      var k := 0;
      while k < |values|
        invariant 0 <= k <= |values|
        invariant unchanged(this)
        invariant Call(c, s, values) == Later(Query(c, s, values[k..], lastRead, rollOver), k)
      {
        assert values[k..][0] == values[k] && values[k..][1..] == values[k + 1..];
        var currentRead0, currentRead;
        currentRead0, currentRead, rollOver := AdjustRead(minTime, values[k], rollOver);
        var believed, value := Believe(minTime, currentRead, lastRead);
        if believed {
          AdjustSkew(c, s, minTime, value, currentRead0, rollOver, values[k]);
          SetBounds(value);
          return Some(value), k + 1;
        }
        lastRead := currentRead;
        k := k + 1;
      }
      return None, k;
    }

    /** A hardware value placed in the period of the last time, and moved on by
        one period once a rollover has been seen in this call. */
    method AdjustRead(minTime: u64, hardwareVal: u32, rolled: bool)
      returns (currentRead0: u64, currentRead: u64, rollOver: bool)
      requires Valid() && minTime == State().time
      ensures currentRead0 == Raw(State(), Current(), hardwareVal)
      ensures rollOver == (rolled || RollsOver(State(), Current(), hardwareVal))
      ensures currentRead == Reading(State(), Current(), rollOver, hardwareVal)
    {
      var period: nat := 2 * msbMask;
      currentRead0 := Spliced(minTime, period, hardwareVal);
      currentRead := currentRead0;
      rollOver := rolled;
      if rollOver {
        currentRead := Add64(currentRead, period);
      } else {
        var skewedTime := minTime;
        if clockSkew > 0 {
          skewedTime := if positiveSkew then Sub64(skewedTime, clockSkew) else Add64(skewedTime, clockSkew);
        }
        if skewedTime % TWO_32 % period > hardwareVal && hardwareVal < upperBoundTable[rateIndex] / 2 {
          rollOver := true;
          currentRead := Add64(currentRead, period);
        }
      }
    }

    /** Whether a reading can be believed, and as what time: as it is, with the
        skew applied, or, when two consistent readings are out of bounds, a
        little after the last time with a new skew. */
    method Believe(minTime: u64, currentRead: u64, lastRead: u64) returns (believed: bool, value: u64)
      requires Valid() && minTime == State().time
      modifies `clockSkew, `positiveSkew
      ensures var v := Judge(old(State()), old(Current()), currentRead, lastRead);
              if believed then v == Believed(value, clockSkew, positiveSkew) else v == Reread && unchanged(this)
    {
      var upperBound: u64 := upperBoundHigh2 * TWO_32 + upperBoundLow;
      if minTime <= currentRead <= upperBound {
        clockSkew := 0;
        return true, currentRead;
      }
      if clockSkew > 0 {
        var skewedTime := if positiveSkew then Add64(currentRead, clockSkew) else Sub64(currentRead, clockSkew);
        if minTime <= skewedTime <= upperBound {
          return true, skewedTime;
        }
      }
      if Sub64(currentRead, lastRead) > 0xfff {
        return false, currentRead;
      }
      var ticks := upperBoundTable[rateIndex];
      if currentRead < minTime {
        value := Add64(minTime, if minTime - currentRead < 0x40 then A_FEW_TICKS else ticks / 8);
        positiveSkew := true;
        clockSkew := Sub64(value, currentRead);
      } else {
        value := Add64(minTime, ticks / 4);
        positiveSkew := false;
        clockSkew := Sub64(currentRead, value);
      }
      believed := true;
    }

    /** The corrections of the skew after the loop: a rollover under negative
        skew is turned into positive skew, and positive skew that carries the
        time into the next period into negative skew. */
    method AdjustSkew(ghost c: Clock, ghost s: Setup, minTime: u64, currentRead: u64, read0: u64,
                      rollOver: bool, hardwareVal: u32)
      requires Valid() && s == Current() && c.time == minTime
      modifies `clockSkew, `positiveSkew
      ensures (clockSkew, positiveSkew) ==
              Reskewed(c, s, Believed(currentRead, old(clockSkew), old(positiveSkew)), read0, rollOver, hardwareVal)
    {
      var period: nat := 2 * msbMask;
      var currentRead0 := read0;
      if clockSkew > 0 && rollOver && !positiveSkew && clockSkew > hardwareVal {
        if currentRead >= currentRead0 {
          clockSkew := currentRead - currentRead0;
          positiveSkew := true;
        } else if clockSkew > period - 1 {
          currentRead0 := Add64(currentRead, clockSkew % period);
          if currentRead0 != 0 {
            clockSkew := clockSkew % period;
          }
        }
      }
      var setup := Setup(period, upperBoundTable[rateIndex], wide);
      if clockSkew > 0 && !rollOver && positiveSkew && Block(setup, currentRead) > Block(setup, minTime) {
        if Add64(currentRead0, period) > currentRead {
          clockSkew := Add64(currentRead0, period) - currentRead;
          positiveSkew := false;
        }
      }
    }

    method SetBounds(currentRead: u64)
      requires Valid()
      modifies this
      ensures Valid() && Current() == old(Current())
      ensures State() == Clock(currentRead, Add64(currentRead, Current().ticks), old(clockSkew), old(positiveSkew))
    {
      var upperBound := Add64(currentRead, upperBoundTable[rateIndex]);
      timeHigh1, timeLow, timeHigh2 := currentRead / TWO_32, currentRead % TWO_32, currentRead / TWO_32;
      upperBoundHigh1, upperBoundLow, upperBoundHigh2 :=
        upperBound / TWO_32, upperBound % TWO_32, upperBound / TWO_32;
    }
  }
}
