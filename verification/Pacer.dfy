/** The arrival-rate schedule and the open-model pacer of the emitted locustfile
    (internal/emit/loadgen.go). Rates and times are reals where Go and Python
    have floats; parsing a rate or duration is taken as done. */
module Pacer {
  import opened Sequences

  /** When tick n falls: n*TICK, TICK being 0.1 s. */
  function Time(n: nat): real { n as real / 10.0 }

  // ---------------------------------------------------------- the schedule

  /** A load.stages entry after parseRPS and parseStageSeconds; None is a value they reject. */
  datatype Stage = Hold(rate: Option<real>, secs: Option<real>) | Ramp(rate: Option<real>, secs: Option<real>)

  datatype LoadStep = LoadStep(from: real, to: real, secs: real, ramp: bool)

  predicate Parsed(s: Stage) {
    s.rate.Some? && s.secs.Some? && s.rate.value >= 0.0 && s.secs.value >= 0.0
  }

  /** The rate in force when stage i begins. */
  function RateBefore(stages: seq<Stage>, i: nat): real
    requires i <= |stages| && forall j :: 0 <= j < i ==> Parsed(stages[j])
  {
    if i == 0 then 0.0 else assert Parsed(stages[i - 1]); stages[i - 1].rate.value
  }

  /** Neither parser yields a negative number: both patterns begin with a digit. */
  predicate NoNegatives(stages: seq<Stage>) {
    forall i :: 0 <= i < |stages| ==>
      (stages[i].rate.Some? ==> stages[i].rate.value >= 0.0) && (stages[i].secs.Some? ==> stages[i].secs.value >= 0.0)
  }

  ghost predicate AllParsed(stages: seq<Stage>) {
    forall i :: 0 <= i < |stages| ==> Parsed(stages[i])
  }

  /** Stage i as the Locust and Gatling emitters drive it: a ramp from the rate
      in force, a hold flat at its own rate. */
  function StepAt(stages: seq<Stage>, i: nat): LoadStep
    requires i < |stages| && forall j :: 0 <= j <= i ==> Parsed(stages[j])
  {
    var s := stages[i];
    assert Parsed(s);
    LoadStep(if s.Hold? then s.rate.value else RateBefore(stages, i), s.rate.value, s.secs.value, s.Ramp?)
  }

  /** Stage i as k6's ramping-arrival-rate executor drives the script Compile
      renders: from the previous target (startRate 0) to this one, holds included. */
  function K6StepAt(stages: seq<Stage>, i: nat): LoadStep
    requires i < |stages| && forall j :: 0 <= j <= i ==> Parsed(stages[j])
  {
    assert Parsed(stages[i]);
    LoadStep(RateBefore(stages, i), stages[i].rate.value, stages[i].secs.value, stages[i].Ramp?)
  }

  /** Every step has its stage's own rate and length, as a ramp or a hold. */
  predicate StepsOfStages(stages: seq<Stage>, steps: seq<LoadStep>) {
    && |steps| == |stages|
    && (forall i :: 0 <= i < |steps| ==> steps[i] == LoadStep(steps[i].from, steps[i].to, steps[i].secs, stages[i].Ramp?))
    && (forall i :: 0 <= i < |steps| ==> stages[i].rate == Some(steps[i].to) && stages[i].secs == Some(steps[i].secs))
  }

  /** Every step begins where the one before it ended, the first at nothing. */
  predicate Continuous(steps: seq<LoadStep>) {
    forall i :: 0 <= i < |steps| ==> steps[i].from == if i == 0 then 0.0 else steps[i - 1].to
  }

  /** Every hold is flat, and every ramp begins where the step before it ended. */
  predicate FlatOrContinuous(steps: seq<LoadStep>) {
    forall i :: 0 <= i < |steps| ==>
      steps[i].from == if !steps[i].ramp then steps[i].to else if i == 0 then 0.0 else steps[i - 1].to
  }

  /** buildSteps: carries the running rate from stage to stage. */
  method BuildSteps(stages: seq<Stage>) returns (r: Option<seq<LoadStep>>)
    requires NoNegatives(stages)
    ensures r.Some? <==> AllParsed(stages)
    ensures r.Some? ==> |r.value| == |stages| && Offers(r.value)
    ensures r.Some? ==> StepsOfStages(stages, r.value) && FlatOrContinuous(r.value)
    ensures r.Some? ==> forall i :: 0 <= i < |stages| ==> r.value[i] == StepAt(stages, i)
  {
    var steps: seq<LoadStep> := [];
    var current := 0.0;
    for i := 0 to |stages|
      invariant |steps| == i && Offers(steps)
      invariant forall j :: 0 <= j < i ==> Parsed(stages[j])
      invariant current == RateBefore(stages, i) && current >= 0.0
      invariant forall j :: 0 <= j < i ==> steps[j] == StepAt(stages, j)
    {
      var s := stages[i];
      if s.rate.None? || s.secs.None? {
        assert !Parsed(stages[i]);
        return None;
      }
      var from := if s.Hold? then s.rate.value else current;
      steps := steps + [LoadStep(from, s.rate.value, s.secs.value, s.Ramp?)];
      current := s.rate.value;
    }
    return Some(steps);
  }

  predicate Offers(steps: seq<LoadStep>) {
    forall i :: 0 <= i < |steps| ==> steps[i].from >= 0.0 && steps[i].to >= 0.0 && steps[i].secs >= 0.0
  }

  // ------------------------------------------------- the emitted STAGES table

  datatype Span = Span(start: real, end: real, from: real, to: real)

  function Table(steps: seq<LoadStep>, cursor: real): seq<Span> {
    if steps == [] then []
    else
      var end := cursor + steps[0].secs;
      [Span(cursor, end, steps[0].from, steps[0].to)] + Table(steps[1..], end)
  }

  /** A row's rate at t: linear between its two rates. */
  function RowRate(s: Span, t: real): real {
    var frac := if s.end - s.start <= 0.0 then 1.0 else (t - s.start) / (s.end - s.start);
    s.from + (s.to - s.from) * frac
  }

  /** rate_at: the first row whose end lies ahead; None once the run ends. */
  function RateAt(table: seq<Span>, t: real): Option<real> {
    if table == [] then None
    else if t < table[0].end then Some(RowRate(table[0], t))
    else RateAt(table[1..], t)
  }

  function RunEnd(steps: seq<LoadStep>): real {
    if steps == [] then 0.0 else steps[0].secs + RunEnd(steps[1..])
  }

  lemma {:induction false} RateWhileRunning(steps: seq<LoadStep>, cursor: real, t: real)
    requires Offers(steps) && cursor <= t
    ensures RateAt(Table(steps, cursor), t).Some? <==> t < cursor + RunEnd(steps)
    ensures RateAt(Table(steps, cursor), t).Some? ==> RateAt(Table(steps, cursor), t).value >= 0.0
  {
    if steps != [] {
      var end := cursor + steps[0].secs;
      assert Table(steps, cursor)[1..] == Table(steps[1..], end);
      assert Offers(steps[1..]);
      if t < end {
        RunEndNonNegative(steps[1..]);
        Between(steps[0].from, steps[0].to, (t - cursor) / (end - cursor));
      } else {
        RateWhileRunning(steps[1..], end, t);
      }
    }
  }

  lemma {:induction false} RunEndNonNegative(steps: seq<LoadStep>)
    requires Offers(steps)
    ensures RunEnd(steps) >= 0.0
  {
    if steps != [] {
      assert Offers(steps[1..]);
      RunEndNonNegative(steps[1..]);
    }
  }

  lemma Between(from: real, to: real, frac: real)
    requires 0.0 <= from && 0.0 <= to && 0.0 <= frac <= 1.0
    ensures from + (to - from) * frac >= 0.0
  {
    assert from * (1.0 - frac) >= 0.0 && to * frac >= 0.0;
    assert from * (1.0 - frac) == from - from * frac;
    assert (to - from) * frac == to * frac - from * frac;
  }

  // ------------------------------------------------------------ two engines

  ghost function LocustSteps(stages: seq<Stage>): seq<LoadStep>
    requires AllParsed(stages)
  {
    seq(|stages|, i requires 0 <= i < |stages| => StepAt(stages, i))
  }

  ghost function K6Steps(stages: seq<Stage>): seq<LoadStep>
    requires AllParsed(stages)
  {
    seq(|stages|, i requires 0 <= i < |stages| => K6StepAt(stages, i))
  }

  /** The two engines' steps: the same stages, k6's without a jump and Locust's flat
      where they hold. */
  lemma StepsAreTheStages(stages: seq<Stage>)
    requires AllParsed(stages)
    ensures StepsOfStages(stages, LocustSteps(stages)) && FlatOrContinuous(LocustSteps(stages))
    ensures StepsOfStages(stages, K6Steps(stages)) && Continuous(K6Steps(stages))
  {
    assert forall i :: 0 <= i < |stages| ==> Parsed(stages[i]);
  }

  ghost predicate SameSpans(a: seq<LoadStep>, b: seq<LoadStep>) {
    |a| == |b| && forall i :: 0 <= i < |a| ==> a[i].secs == b[i].secs >= 0.0
  }

  /** Rows of no length never show. */
  lemma {:induction false} RatesAgree(a: seq<LoadStep>, b: seq<LoadStep>, cursor: real, t: real)
    requires SameSpans(a, b) && cursor <= t
    requires forall i :: 0 <= i < |a| && a[i].secs > 0.0 ==> a[i].from == b[i].from && a[i].to == b[i].to
    ensures RateAt(Table(a, cursor), t) == RateAt(Table(b, cursor), t)
  {
    if a != [] && t >= cursor + a[0].secs {
      assert Table(a, cursor)[1..] == Table(a[1..], cursor + a[0].secs);
      assert Table(b, cursor)[1..] == Table(b[1..], cursor + b[0].secs);
      assert SameSpans(a[1..], b[1..]);
      RatesAgree(a[1..], b[1..], cursor + a[0].secs, t);
    }
  }

  /** When row i begins. */
  function RowStart(steps: seq<LoadStep>, cursor: real, i: nat): real
    requires i < |steps|
  {
    if i == 0 then cursor else RowStart(steps[1..], cursor + steps[0].secs, i - 1)
  }

  lemma {:induction false} SameStarts(a: seq<LoadStep>, b: seq<LoadStep>, cursor: real, i: nat)
    requires SameSpans(a, b) && i < |a|
    ensures RowStart(a, cursor, i) == RowStart(b, cursor, i)
  {
    if i > 0 {
      assert SameSpans(a[1..], b[1..]);
      SameStarts(a[1..], b[1..], cursor + a[0].secs, i - 1);
    }
  }

  lemma {:induction false} RateAtRowStart(steps: seq<LoadStep>, cursor: real, i: nat)
    requires SameSpans(steps, steps) && i < |steps| && steps[i].secs > 0.0
    ensures cursor <= RowStart(steps, cursor, i)
    ensures RateAt(Table(steps, cursor), RowStart(steps, cursor, i)) == Some(steps[i].from)
  {
    if i > 0 {
      var end := cursor + steps[0].secs;
      assert Table(steps, cursor)[1..] == Table(steps[1..], end);
      assert SameSpans(steps[1..], steps[1..]);
      RateAtRowStart(steps[1..], end, i - 1);
    } else {
      RateOnEntry(Table(steps, cursor)[0]);
    }
  }

  lemma RateOnEntry(s: Span)
    requires s.start < s.end
    ensures RowRate(s, s.start) == s.from
  {
    assert (s.start - s.start) / (s.end - s.start) == 0.0;
  }

  /** The declared rate t seconds in, as each engine drives it. */
  ghost function LocustRate(stages: seq<Stage>, t: real): Option<real>
    requires AllParsed(stages)
  {
    RateAt(Table(LocustSteps(stages), 0.0), t)
  }

  ghost function K6Rate(stages: seq<Stage>, t: real): Option<real>
    requires AllParsed(stages)
  {
    RateAt(Table(K6Steps(stages), 0.0), t)
  }

  /** Every hold that lasts keeps the rate already in force. */
  ghost predicate HoldsDoNotJump(stages: seq<Stage>)
    requires AllParsed(stages)
  {
    forall i :: 0 <= i < |stages| && stages[i].Hold? && StepAt(stages, i).secs > 0.0 ==>
      StepAt(stages, i).from == RateBefore(stages, i)
  }

  lemma StepsSpanAlike(stages: seq<Stage>)
    requires AllParsed(stages)
    ensures SameSpans(LocustSteps(stages), K6Steps(stages))
    ensures SameSpans(LocustSteps(stages), LocustSteps(stages)) && SameSpans(K6Steps(stages), K6Steps(stages))
  {
    forall i | 0 <= i < |stages| ensures StepAt(stages, i).secs == K6StepAt(stages, i).secs >= 0.0 {
      assert Parsed(stages[i]);
    }
  }

  /** One profile, two engines: k6 and the Locust pacer drive the same rate at
      every instant exactly when every hold that lasts keeps the rate already in
      force; k6 spends any other hold ramping. */
  lemma EnginesAgreeIffHoldsDoNotJump(stages: seq<Stage>)
    requires AllParsed(stages)
    ensures (forall t :: t >= 0.0 ==> LocustRate(stages, t) == K6Rate(stages, t)) <==> HoldsDoNotJump(stages)
  {
    var a, b := LocustSteps(stages), K6Steps(stages);
    StepsSpanAlike(stages);
    if HoldsDoNotJump(stages) {
      forall t | t >= 0.0 ensures LocustRate(stages, t) == K6Rate(stages, t) {
        RatesAgree(a, b, 0.0, t);
      }
    }
    if forall t :: t >= 0.0 ==> LocustRate(stages, t) == K6Rate(stages, t) {
      forall i | 0 <= i < |stages| && stages[i].Hold? && StepAt(stages, i).secs > 0.0
        ensures StepAt(stages, i).from == RateBefore(stages, i)
      {
        var t := RowStart(a, 0.0, i);
        SameStarts(a, b, 0.0, i);
        RateAtRowStart(a, 0.0, i);
        RateAtRowStart(b, 0.0, i);
        assert LocustRate(stages, t) == K6Rate(stages, t);
      }
    }
  }

  /** Half each hold's jump in rate for as long as it lasts, from stage i on. */
  ghost function HoldJumps(stages: seq<Stage>, i: nat): real
    requires AllParsed(stages) && i <= |stages|
    decreases |stages| - i
  {
    if i == |stages| then 0.0
    else
      var s := StepAt(stages, i);
      HoldJumps(stages, i + 1) + if stages[i].Hold? then s.secs * (s.from - RateBefore(stages, i)) / 2.0 else 0.0
  }

  lemma {:induction false} AreasFrom(stages: seq<Stage>, i: nat)
    requires AllParsed(stages) && i <= |stages|
    ensures Area(LocustSteps(stages)[i..]) - Area(K6Steps(stages)[i..]) == HoldJumps(stages, i)
    decreases |stages| - i
  {
    if i < |stages| {
      AreasFrom(stages, i + 1);
      var a, b := LocustSteps(stages)[i..], K6Steps(stages)[i..];
      assert a[0] == StepAt(stages, i) && a[1..] == LocustSteps(stages)[i + 1..];
      assert b[0] == K6StepAt(stages, i) && b[1..] == K6Steps(stages)[i + 1..];
      if stages[i].Hold? { HoldJump(a[0].secs, a[0].from, b[0].from); }
    }
  }

  lemma HoldJump(secs: real, rate: real, before: real)
    ensures secs * (rate + rate) / 2.0 - secs * (before + rate) / 2.0 == secs * (rate - before) / 2.0
  {
  }

  /** Over the whole profile the two loads differ by half of every hold's jump for
      the length of that hold. */
  lemma EnginesDifferByHoldJumps(stages: seq<Stage>)
    requires AllParsed(stages)
    ensures Area(LocustSteps(stages)) - Area(K6Steps(stages)) == HoldJumps(stages, 0)
  {
    AreasFrom(stages, 0);
    assert LocustSteps(stages)[0..] == LocustSteps(stages) && K6Steps(stages)[0..] == K6Steps(stages);
  }

  /** The failing case: hold 100 rps for 10 s from the start. Locust drives 100 rps
      at once; k6 begins at none and offers 500 requests fewer. */
  lemma FirstHoldIsRamped()
    ensures var stages := [Hold(Some(100.0), Some(10.0))];
      && AllParsed(stages)
      && LocustRate(stages, 0.0) == Some(100.0) && K6Rate(stages, 0.0) == Some(0.0)
      && Area(LocustSteps(stages)) - Area(K6Steps(stages)) == 500.0
  {
    var stages := [Hold(Some(100.0), Some(10.0))];
    assert Parsed(stages[0]);
    StepsSpanAlike(stages);
    RateAtRowStart(LocustSteps(stages), 0.0, 0);
    RateAtRowStart(K6Steps(stages), 0.0, 0);
    EnginesDifferByHoldJumps(stages);
    assert HoldJumps(stages, 1) == 0.0;
  }

  // ---------------------------------------------------------------- the pacer

  /** rate_at(i*TICK)*TICK summed over the ticks start .. start+n-1. */
  function Offered(table: seq<Span>, start: nat, n: nat): real {
    if n == 0 then 0.0
    else
      var r := RateAt(table, Time(start + n - 1));
      Offered(table, start, n - 1) + if r.Some? then r.value / 10.0 else 0.0
  }

  /** The arrivals of the first n ticks. */
  function Dispatched(counts: seq<nat>, n: nat): nat
    requires n <= |counts|
  {
    if n == 0 then 0 else Dispatched(counts, n - 1) + counts[n - 1]
  }

  /** counts[i] arrivals are dispatched at tick i: after every tick the arrivals
      so far are the floor of what the schedule has offered, and the ticks are
      those that fall before the end of the run. */
  ghost predicate PacedBy(steps: seq<LoadStep>, counts: seq<nat>) {
    && (forall n: nat :: n <= |counts| ==> Dispatched(counts, n) == Offered(Table(steps, 0.0), 0, n).Floor)
    && (forall n: nat :: n < |counts| <==> Time(n) < RunEnd(steps))
  }

  ghost predicate OnSchedule(table: seq<Span>, counts: seq<nat>) {
    forall n: nat :: n <= |counts| ==> Dispatched(counts, n) == Offered(table, 0, n).Floor
  }

  lemma {:induction false} DispatchedPrefix(counts: seq<nat>, count: nat, n: nat)
    requires n <= |counts|
    ensures Dispatched(counts + [count], n) == Dispatched(counts, n)
  {
    if n > 0 { DispatchedPrefix(counts, count, n - 1); }
  }

  lemma OneMoreTick(table: seq<Span>, counts: seq<nat>, count: nat)
    requires OnSchedule(table, counts)
    requires Dispatched(counts, |counts|) + count == Offered(table, 0, |counts| + 1).Floor
    ensures OnSchedule(table, counts + [count])
    ensures Dispatched(counts + [count], |counts| + 1) == Dispatched(counts, |counts|) + count
  {
    var longer := counts + [count];
    DispatchedPrefix(counts, count, |counts|);
    forall n: nat | n <= |longer| ensures Dispatched(longer, n) == Offered(table, 0, n).Floor {
      if n <= |counts| { DispatchedPrefix(counts, count, n); }
    }
  }

  method Pace(steps: seq<LoadStep>) returns (counts: seq<nat>)
    requires Offers(steps)
    ensures PacedBy(steps, counts)
  {
    var table := Table(steps, 0.0);
    counts := [];
    var tick: nat := 0;
    var credit := 0.0;
    while true
      invariant |counts| == tick
      invariant 0.0 <= credit < 1.0
      invariant Dispatched(counts, tick) as real + credit == Offered(table, 0, tick)
      invariant OnSchedule(table, counts)
      invariant forall n: nat :: n < tick ==> Time(n) < RunEnd(steps)
      decreases (RunEnd(steps) * 10.0).Floor + 1 - tick
    {
      RateWhileRunning(steps, 0.0, Time(tick));
      var rate := RateAt(table, Time(tick));
      if rate.None? { return; }
      credit := credit + rate.value / 10.0;
      var count := credit.Floor;
      credit := credit - count as real;
      assert Offered(table, 0, tick + 1) == Offered(table, 0, tick) + rate.value / 10.0;
      OneMoreTick(table, counts, count);
      counts := counts + [count];
      tick := tick + 1;
    }
  }

  // ------------------------------------------------------------- exact areas

  function Abs(x: real): real { if x < 0.0 then -x else x }

  /** The area under the stages: what an ideal open-model generator would send. */
  function Area(steps: seq<LoadStep>): real {
    if steps == [] then 0.0
    else StageArea(steps[0]) + Area(steps[1..])
  }

  function StageArea(s: LoadStep): real {
    s.secs * (s.from + s.to) / 2.0
  }

  /** What the left sum of a stage's ticks falls short of its area by. */
  function Shortfall(s: LoadStep, ticks: nat): real {
    if ticks == 0 then 0.0 else (s.to - s.from) / 20.0
  }

  function Swing(steps: seq<LoadStep>): real {
    if steps == [] then 0.0 else Abs(steps[0].to - steps[0].from) + Swing(steps[1..])
  }

  /** Every stage lasts a whole number of ticks. */
  ghost predicate OnTicks(steps: seq<LoadStep>, ticks: seq<nat>) {
    |ticks| == |steps| && forall i :: 0 <= i < |steps| ==> steps[i].secs == Time(ticks[i])
  }

  function Sum(ticks: seq<nat>): nat {
    if ticks == [] then 0 else ticks[0] + Sum(ticks[1..])
  }

  lemma {:induction false} OfferedSplits(table: seq<Span>, start: nat, n: nat, m: nat)
    ensures Offered(table, start, n + m) == Offered(table, start, n) + Offered(table, start + n, m)
  {
    if m > 0 { OfferedSplits(table, start, n, m - 1); }
  }

  lemma {:induction false} OfferedAfterRow(table: seq<Span>, start: nat, n: nat)
    requires table != [] && table[0].end <= Time(start)
    ensures Offered(table, start, n) == Offered(table[1..], start, n)
  {
    if n > 0 { OfferedAfterRow(table, start, n - 1); }
  }

  /** Table row of n ticks from tick c. */
  predicate RowAt(table: seq<Span>, c: nat, n: nat) {
    table != [] && n > 0 && table[0].start == Time(c) && table[0].end == Time(c + n)
  }

  lemma Fraction(i: nat, n: nat)
    requires n > 0
    ensures (Time(i)) / (Time(n)) == i as real / n as real
  {
    var x := (Time(i)) / (Time(n));
    assert x * (Time(n)) == Time(i);
    assert x * n as real == i as real;
  }

  lemma Rescaled(d: real, i: real, n: real)
    requires n > 0.0
    ensures d * (i / n) == d / n * i
  {
    assert d * (i / n) * n == d * (i / n * n) == d * i;
    assert d / n * i * n == d / n * n * i == d * i;
  }

  /** The rate at the i-th tick of a row. */
  lemma RateInRow(table: seq<Span>, c: nat, n: nat, i: nat)
    requires RowAt(table, c, n) && i < n
    ensures RateAt(table, Time(c + i)).Some?
    ensures RateAt(table, Time(c + i)).value == table[0].from + (table[0].to - table[0].from) / n as real * i as real
  {
    var s := table[0];
    var t := Time(c + i);
    assert t < s.end && s.end - s.start == Time(n) > 0.0 && t - s.start == Time(i);
    Fraction(i, n);
    RowRateIs(s, t, i as real, n as real);
  }

  lemma RowRateIs(s: Span, t: real, i: real, n: real)
    requires s.end - s.start > 0.0 && n > 0.0 && (t - s.start) / (s.end - s.start) == i / n
    ensures RowRate(s, t) == s.from + (s.to - s.from) / n * i
  {
    Rescaled(s.to - s.from, i, n);
  }

  /** f + (f+g) + ... over k terms. */
  function LeftSum(f: real, g: real, k: nat): real {
    if k == 0 then 0.0 else LeftSum(f, g, k - 1) + (f + g * (k - 1) as real)
  }

  lemma {:induction false} LeftSumClosed(f: real, g: real, k: nat)
    ensures LeftSum(f, g, k) == k as real * f + g * (k as real * (k as real - 1.0) / 2.0)
  {
    if k > 0 {
      LeftSumClosed(f, g, k - 1);
      var r := k as real;
      assert (k - 1) as real == r - 1.0;
      assert (r - 1.0) * f == r * f - f;
      assert g * ((r - 1.0) * (r - 2.0) / 2.0) + g * (r - 1.0) == g * ((r - 1.0) * (r - 2.0) / 2.0 + (r - 1.0));
      assert (r - 1.0) * (r - 2.0) / 2.0 + (r - 1.0) == r * (r - 1.0) / 2.0;
    }
  }

  lemma {:induction false} RowSum(table: seq<Span>, c: nat, n: nat, k: nat)
    requires RowAt(table, c, n) && k <= n
    ensures Offered(table, c, k) == LeftSum(table[0].from, (table[0].to - table[0].from) / n as real, k) / 10.0
  {
    if k > 0 {
      RowSum(table, c, n, k - 1);
      RateInRow(table, c, n, k - 1);
    }
  }

  /** A row offers its area less half a tick of its change of rate. */
  lemma WholeRow(table: seq<Span>, c: nat, n: nat)
    requires RowAt(table, c, n)
    ensures var s := table[0];
      Offered(table, c, n) == Time(n) * (s.from + s.to) / 2.0 - (s.to - s.from) / 20.0
  {
    RowSum(table, c, n, n);
    WholeSum(table[0].from, table[0].to, n);
  }

  lemma WholeSum(from: real, to: real, n: nat)
    requires n > 0
    ensures LeftSum(from, (to - from) / n as real, n) / 10.0
         == Time(n) * (from + to) / 2.0 - (to - from) / 20.0
  {
    var r, d := n as real, to - from;
    LeftSumClosed(from, d / r, n);
    assert d / r * (r * (r - 1.0) / 2.0) == d * (r - 1.0) / 2.0 by {
      assert d / r * r == d;
      assert d / r * (r * (r - 1.0)) == d / r * r * (r - 1.0);
    }
    assert d * (r - 1.0) == d * r - d;
    assert r * from + d * r / 2.0 == r * (from + to) / 2.0;
  }

  lemma {:induction false} OfferedNearArea(steps: seq<LoadStep>, ticks: seq<nat>, c: nat)
    requires Offers(steps) && OnTicks(steps, ticks)
    ensures Abs(Offered(Table(steps, Time(c)), c, Sum(ticks)) - Area(steps)) <= Swing(steps) / 20.0
  {
    if steps != [] {
      var n := ticks[0];
      assert Offers(steps[1..]) && OnTicks(steps[1..], ticks[1..]);
      OfferedNearArea(steps[1..], ticks[1..], c + n);
      FirstRowAndRest(steps, ticks, c);
    }
  }

  lemma FirstRowAndRest(steps: seq<LoadStep>, ticks: seq<nat>, c: nat)
    requires steps != [] && OnTicks(steps, ticks)
    ensures Offered(Table(steps, Time(c)), c, Sum(ticks))
         == Offered(Table(steps[1..], Time(c + ticks[0])), c + ticks[0], Sum(ticks[1..]))
          + StageArea(steps[0]) - Shortfall(steps[0], ticks[0])
  {
    var n, m := ticks[0], Sum(ticks[1..]);
    var table := Table(steps, Time(c));
    assert steps[0].secs == Time(n);
    assert table[0].end == Time(c + n) && table[1..] == Table(steps[1..], Time(c + n));
    OfferedSplits(table, c, n, m);
    OfferedAfterRow(table, c + n, m);
    RowArea(table, steps[0], c, n);
  }

  lemma RowArea(table: seq<Span>, s: LoadStep, c: nat, n: nat)
    requires table != [] && table[0] == Span(Time(c), Time(c + n), s.from, s.to) && s.secs == Time(n)
    ensures Offered(table, c, n) == StageArea(s) - Shortfall(s, n)
  {
    if n > 0 {
      WholeRow(table, c, n);
    } else {
      assert 0.0 * (s.from + s.to) == 0.0;
    }
  }

  lemma FloorNear(x: real, area: real, bound: real)
    requires Abs(x - area) <= bound
    ensures Abs(x.Floor as real - area) < 1.0 + bound
  {
  }

  lemma {:induction false} RunEndOnTicks(steps: seq<LoadStep>, ticks: seq<nat>)
    requires OnTicks(steps, ticks)
    ensures RunEnd(steps) == Time(Sum(ticks))
  {
    if steps != [] {
      assert OnTicks(steps[1..], ticks[1..]);
      RunEndOnTicks(steps[1..], ticks[1..]);
    }
  }

  /** Less than one arrival, plus half a tick of every change of rate. */
  predicate NearArea(steps: seq<LoadStep>, arrivals: nat) {
    Abs(arrivals as real - Area(steps)) < 1.0 + Swing(steps) / 20.0
  }

  /** Over a whole run whose stages end on ticks, the arrivals dispatched are
      near the area under the declared profile. */
  lemma ArrivalsNearArea(steps: seq<LoadStep>, ticks: seq<nat>, counts: seq<nat>)
    requires Offers(steps) && OnTicks(steps, ticks) && PacedBy(steps, counts)
    ensures |counts| == Sum(ticks)
    ensures NearArea(steps, Dispatched(counts, |counts|))
  {
    TicksOfRun(steps, ticks, counts);
    FloorOfOffered(steps, ticks, Dispatched(counts, |counts|));
  }

  lemma TicksOfRun(steps: seq<LoadStep>, ticks: seq<nat>, counts: seq<nat>)
    requires OnTicks(steps, ticks) && PacedBy(steps, counts)
    ensures |counts| == Sum(ticks)
    ensures Dispatched(counts, |counts|) == Offered(Table(steps, 0.0), 0, |counts|).Floor
  {
    RunEndOnTicks(steps, ticks);
    assert Sum(ticks) < |counts| <==> Time(Sum(ticks)) < RunEnd(steps);
    assert |counts| < |counts| <==> Time(|counts|) < RunEnd(steps);
  }

  lemma FloorOfOffered(steps: seq<LoadStep>, ticks: seq<nat>, arrivals: nat)
    requires Offers(steps) && OnTicks(steps, ticks)
    requires arrivals == Offered(Table(steps, 0.0), 0, Sum(ticks)).Floor
    ensures NearArea(steps, arrivals)
  {
    assert Time(0) == 0.0;
    OfferedNearArea(steps, ticks, 0);
    FloorNear(Offered(Table(steps, 0.0), 0, Sum(ticks)), Area(steps), Swing(steps) / 20.0);
  }

  // --------------------------------------------- stages that end between ticks

  /** The rate t seconds in; none is driven once the run ends. */
  function Rate(steps: seq<LoadStep>, cursor: real, t: real): real {
    var r := RateAt(Table(steps, cursor), t);
    if r.Some? then r.value else 0.0
  }

  function Slope(s: LoadStep): real
    requires s.secs > 0.0
  {
    (s.to - s.from) / s.secs
  }

  /** The area under the stages up to t. */
  function AreaUntil(steps: seq<LoadStep>, cursor: real, t: real): real {
    if steps == [] then 0.0
    else if t < cursor + steps[0].secs then (t - cursor) * (steps[0].from + Rate(steps, cursor, t)) / 2.0
    else StageArea(steps[0]) + AreaUntil(steps[1..], cursor + steps[0].secs, t)
  }

  function FirstRate(steps: seq<LoadStep>): real {
    if steps == [] then 0.0 else steps[0].from
  }

  /** How much the rate has moved by t, ramps and jumps alike, and the drop to
      nothing once the run ends. */
  function MovedUntil(steps: seq<LoadStep>, cursor: real, t: real): real {
    if steps == [] then 0.0
    else if t < cursor + steps[0].secs then Abs(Rate(steps, cursor, t) - steps[0].from)
    else Abs(steps[0].to - steps[0].from) + Abs(FirstRate(steps[1..]) - steps[0].to)
         + MovedUntil(steps[1..], cursor + steps[0].secs, t)
  }

  function Moved(steps: seq<LoadStep>): real {
    if steps == [] then 0.0
    else Abs(steps[0].to - steps[0].from) + Abs(FirstRate(steps[1..]) - steps[0].to) + Moved(steps[1..])
  }

  lemma RateInFirst(steps: seq<LoadStep>, cursor: real, t: real)
    requires steps != [] && cursor <= t < cursor + steps[0].secs
    ensures Rate(steps, cursor, t) == steps[0].from + Slope(steps[0]) * (t - cursor)
  {
    Rescaled(steps[0].to - steps[0].from, t - cursor, steps[0].secs);
  }

  lemma RateAfterFirst(steps: seq<LoadStep>, cursor: real, t: real)
    requires steps != [] && cursor + steps[0].secs <= t
    ensures Rate(steps, cursor, t) == Rate(steps[1..], cursor + steps[0].secs, t)
  {
    assert Table(steps, cursor)[1..] == Table(steps[1..], cursor + steps[0].secs);
  }

  /** Zero-length stages only: what the rate is at an instant, against where it began. */
  lemma {:induction false} RateAtOnce(steps: seq<LoadStep>, cursor: real)
    requires Offers(steps)
    ensures Abs(Rate(steps, cursor, cursor) - FirstRate(steps)) <= MovedUntil(steps, cursor, cursor)
    ensures AreaUntil(steps, cursor, cursor) == 0.0
  {
    if steps != [] {
      if steps[0].secs > 0.0 {
        RateInFirst(steps, cursor, cursor);
      } else {
        assert Offers(steps[1..]);
        RateAfterFirst(steps, cursor, cursor);
        RateAtOnce(steps[1..], cursor);
        assert 0.0 * (steps[0].from + steps[0].to) == 0.0;
      }
    }
  }

  /** Holding a rate for w seconds errs by at most w*moved of the area. */
  predicate Near(w: real, rate: real, area: real, moved: real) {
    Abs(w * rate - area) <= w * moved
  }

  lemma NearOfAverage(w: real, p: real, q: real, moved: real)
    requires w >= 0.0 && Abs(q - p) <= moved
    ensures Near(w, p, w * (p + q) / 2.0, moved)
  {
    NearByRate(w, p, (p + q) / 2.0, moved);
    assert w * ((p + q) / 2.0) == w * (p + q) / 2.0;
  }

  lemma NearByRate(w: real, p: real, q: real, moved: real)
    requires w >= 0.0 && Abs(p - q) <= moved
    ensures Near(w, p, w * q, moved)
  {
    var low, high := moved - (p - q), moved + (p - q);
    NotNegative(w, low);
    NotNegative(w, high);
    assert w * low == w * moved - w * p + w * q;
    assert w * high == w * moved + w * p - w * q;
  }

  lemma NotNegative(w: real, x: real)
    requires w >= 0.0 && x >= 0.0
    ensures w * x >= 0.0
  {
  }

  /** A rate near another that is near. */
  lemma NearThrough(w: real, p: real, q: real, area: real, between: real, moved: real)
    requires w >= 0.0 && Near(w, q, area, moved) && Abs(p - q) <= between
    ensures Near(w, p, area, between + moved)
  {
    NearByRate(w, p, q, between);
    Distribute(w, between, moved);
  }

  lemma Distribute(w: real, x: real, y: real)
    ensures w * (x + y) == w * x + w * y
  {
  }

  /** Two stretches of time held at one rate. */
  lemma NearTogether(w: real, v: real, p: real, area: real, more: real, moved: real)
    requires Near(w, p, area, moved) && Near(v, p, more, moved)
    ensures Near(w + v, p, area + more, moved)
  {
    assert (w + v) * p == w * p + v * p;
    assert (w + v) * moved == w * moved + v * moved;
  }

  /** x <= y seconds into a ramp of slope g, where it reaches p and q: the area
      between, and how far the rate moves. */
  lemma LinearPiece(from: real, g: real, x: real, y: real, p: real, q: real)
    requires 0.0 <= x <= y && p == from + g * x && q == from + g * y
    ensures y * (from + q) / 2.0 - x * (from + p) / 2.0 == (y - x) * (p + q) / 2.0
    ensures Abs(q - from) - Abs(p - from) == Abs(q - p)
  {
    assert g * y - g * x == g * (y - x);
    if g >= 0.0 {
      NotNegative(g, x);
      NotNegative(g, y - x);
    } else {
      NotNegative(-g, x);
      NotNegative(-g, y - x);
      assert -g * x == -(g * x) && -g * (y - x) == -(g * (y - x));
    }
    assert y * (g * y) - x * (g * x) == (y - x) * (g * x + g * y);
  }

  function AreaBetween(steps: seq<LoadStep>, cursor: real, a: real, b: real): real {
    AreaUntil(steps, cursor, b) - AreaUntil(steps, cursor, a)
  }

  function MovedBetween(steps: seq<LoadStep>, cursor: real, a: real, b: real): real {
    MovedUntil(steps, cursor, b) - MovedUntil(steps, cursor, a)
  }

  lemma UntilInFirst(steps: seq<LoadStep>, cursor: real, t: real, x: real, p: real)
    requires steps != [] && cursor <= t < cursor + steps[0].secs && x == t - cursor && p == Rate(steps, cursor, t)
    ensures p == steps[0].from + Slope(steps[0]) * x
    ensures AreaUntil(steps, cursor, t) == x * (steps[0].from + p) / 2.0
    ensures MovedUntil(steps, cursor, t) == Abs(p - steps[0].from)
  {
    RateInFirst(steps, cursor, t);
  }

  /** Within the first stage. */
  lemma InFirst(steps: seq<LoadStep>, cursor: real, a: real, b: real, p: real, q: real)
    requires steps != [] && cursor <= a <= b < cursor + steps[0].secs
    requires p == Rate(steps, cursor, a) && q == Rate(steps, cursor, b)
    ensures AreaBetween(steps, cursor, a, b) == (b - a) * (p + q) / 2.0
    ensures MovedBetween(steps, cursor, a, b) == Abs(q - p)
  {
    UntilInFirst(steps, cursor, a, a - cursor, p);
    UntilInFirst(steps, cursor, b, b - cursor, q);
    LinearPiece(steps[0].from, Slope(steps[0]), a - cursor, b - cursor, p, q);
    assert (b - cursor) - (a - cursor) == b - a;
  }

  lemma HalfOut(w: real, x: real)
    ensures w * x / 2.0 == w * (x / 2.0)
  {
  }

  /** The rate from a to the end of the first stage, on average. */
  function Average(steps: seq<LoadStep>, cursor: real, a: real): real
    requires steps != []
  {
    (Rate(steps, cursor, a) + steps[0].to) / 2.0
  }

  lemma ToTheEnd(s: LoadStep, x: real, p: real)
    requires 0.0 <= x < s.secs && p == s.from + Slope(s) * x
    ensures StageArea(s) - x * (s.from + p) / 2.0 == (s.secs - x) * ((p + s.to) / 2.0)
    ensures Abs(s.to - s.from) - Abs(p - s.from) == Abs(s.to - p)
  {
    assert Slope(s) * s.secs == s.to - s.from;
    LinearPiece(s.from, Slope(s), x, s.secs, p, s.to);
    HalfOut(s.secs - x, p + s.to);
  }

  /** From within the first stage to beyond it. */
  lemma BeyondFirst(steps: seq<LoadStep>, cursor: real, a: real, b: real)
    requires steps != [] && cursor <= a < cursor + steps[0].secs <= b
    ensures var p, end := Rate(steps, cursor, a), cursor + steps[0].secs;
      && AreaBetween(steps, cursor, a, b) == (end - a) * Average(steps, cursor, a) + AreaUntil(steps[1..], end, b)
      && MovedBetween(steps, cursor, a, b)
         == Abs(steps[0].to - p) + Abs(FirstRate(steps[1..]) - steps[0].to) + MovedUntil(steps[1..], end, b)
  {
    var p := Rate(steps, cursor, a);
    UntilInFirst(steps, cursor, a, a - cursor, p);
    ToTheEnd(steps[0], a - cursor, p);
    assert steps[0].secs - (a - cursor) == cursor + steps[0].secs - a;
  }

  lemma AfterFirst(steps: seq<LoadStep>, cursor: real, a: real, b: real)
    requires steps != [] && cursor + steps[0].secs <= a <= b
    ensures var rest, end := steps[1..], cursor + steps[0].secs;
      && Rate(steps, cursor, a) == Rate(rest, end, a)
      && AreaBetween(steps, cursor, a, b) == AreaBetween(rest, end, a, b)
      && MovedBetween(steps, cursor, a, b) == MovedBetween(rest, end, a, b)
  {
    RateAfterFirst(steps, cursor, a);
  }

  lemma {:induction false} MovedNonNegative(steps: seq<LoadStep>, cursor: real, t: real)
    ensures MovedUntil(steps, cursor, t) >= 0.0
  {
    if steps != [] && t >= cursor + steps[0].secs { MovedNonNegative(steps[1..], cursor + steps[0].secs, t); }
  }

  /** Holding the rate of one instant until another errs by at most the movement between. */
  predicate TickNear(steps: seq<LoadStep>, cursor: real, a: real, b: real) {
    Near(b - a, Rate(steps, cursor, a), AreaBetween(steps, cursor, a, b), MovedBetween(steps, cursor, a, b))
  }

  lemma NearAs(w: real, p: real, area: real, moved: real, w': real, p': real, area': real, moved': real)
    requires Near(w, p, area, moved) && w == w' && p == p' && area == area' && moved == moved'
    ensures Near(w', p', area', moved')
  {
  }

  lemma TickNearAs(steps: seq<LoadStep>, cursor: real, a: real, b: real, w: real, p: real, area: real, moved: real)
    requires w == b - a && p == Rate(steps, cursor, a)
    requires area == AreaBetween(steps, cursor, a, b) && moved == MovedBetween(steps, cursor, a, b)
    ensures Near(w, p, area, moved) <==> TickNear(steps, cursor, a, b)
  {
  }

  lemma NearInFirst(w: real, p: real, q: real, area: real, moved: real)
    requires w >= 0.0 && area == w * (p + q) / 2.0 && moved == Abs(q - p)
    ensures Near(w, p, area, moved)
  {
    NearOfAverage(w, p, q, moved);
  }

  lemma TickInFirst(steps: seq<LoadStep>, cursor: real, a: real, b: real)
    requires steps != [] && cursor <= a <= b < cursor + steps[0].secs
    ensures TickNear(steps, cursor, a, b)
  {
    var w, p, area, moved := b - a, Rate(steps, cursor, a), AreaBetween(steps, cursor, a, b), MovedBetween(steps, cursor, a, b);
    TickNearAs(steps, cursor, a, b, w, p, area, moved);
    InFirst(steps, cursor, a, b, p, Rate(steps, cursor, b));
    NearInFirst(w, p, Rate(steps, cursor, b), area, moved);
  }

  /** A stretch of time: the rate held over it, and the area and movement it has. */
  datatype Piece = Piece(secs: real, rate: real, area: real, moved: real)

  predicate PieceNear(x: Piece) { Near(x.secs, x.rate, x.area, x.moved) }

  /** The whole interval is a first part at this average rate and the later one. */
  predicate Leaves(first: real, average: real, move: real, later: Piece, whole: Piece) {
    && first >= 0.0 && later.secs >= 0.0 && whole.secs == first + later.secs
    && whole.area == first * average + later.area && whole.moved == move + later.moved
    && Abs(whole.rate - later.rate) <= move && Abs(whole.rate - average) <= whole.moved
  }

  /** An interval that leaves the first stage: holding its first rate is near if,
      over the later part, holding that part's own first rate is. */
  lemma NearLeaving(first: real, average: real, move: real, later: Piece, whole: Piece)
    requires PieceNear(later) && Leaves(first, average, move, later, whole)
    ensures PieceNear(whole)
  {
    match later case Piece(secs, here, area, moved) =>
      var p := whole.rate;
      NearByRate(first, p, average, move + moved);
      NearThrough(secs, p, here, area, move, moved);
      NearTogether(first, secs, p, first * average, area, move + moved);
      NearAs(first + secs, p, first * average + area, move + moved, whole.secs, p, whole.area, whole.moved);
  }

  /** How far the rate moves from a until just past the end of the first stage. */
  function MoveOut(steps: seq<LoadStep>, cursor: real, a: real): real
    requires steps != []
  {
    var rest, end := steps[1..], cursor + steps[0].secs;
    Abs(steps[0].to - Rate(steps, cursor, a)) + Abs(FirstRate(rest) - steps[0].to) + MovedUntil(rest, end, end)
  }

  function TickPiece(steps: seq<LoadStep>, cursor: real, a: real, b: real): Piece {
    Piece(b - a, Rate(steps, cursor, a), AreaBetween(steps, cursor, a, b), MovedBetween(steps, cursor, a, b))
  }

  lemma LeavingAddsUp(steps: seq<LoadStep>, cursor: real, a: real, b: real)
    requires Offers(steps) && steps != [] && cursor <= a < cursor + steps[0].secs <= b
    ensures var rest, end := steps[1..], cursor + steps[0].secs;
      Leaves(end - a, Average(steps, cursor, a), MoveOut(steps, cursor, a), TickPiece(rest, end, end, b), TickPiece(steps, cursor, a, b))
  {
    var rest, end := steps[1..], cursor + steps[0].secs;
    assert Offers(rest);
    RateAtOnce(rest, end);
    MovedNonNegative(rest, end, b);
    BeyondFirst(steps, cursor, a, b);
  }

  lemma TickLeavesFirst(steps: seq<LoadStep>, cursor: real, a: real, b: real)
    requires Offers(steps) && steps != [] && cursor <= a < cursor + steps[0].secs <= b
    requires TickNear(steps[1..], cursor + steps[0].secs, cursor + steps[0].secs, b)
    ensures TickNear(steps, cursor, a, b)
  {
    var rest, end := steps[1..], cursor + steps[0].secs;
    LeavingAddsUp(steps, cursor, a, b);
    NearLeaving(end - a, Average(steps, cursor, a), MoveOut(steps, cursor, a), TickPiece(rest, end, end, b), TickPiece(steps, cursor, a, b));
  }

  lemma TickAfterFirst(steps: seq<LoadStep>, cursor: real, a: real, b: real)
    requires steps != [] && cursor + steps[0].secs <= a <= b
    requires TickNear(steps[1..], cursor + steps[0].secs, a, b)
    ensures TickNear(steps, cursor, a, b)
  {
    var rest, end := steps[1..], cursor + steps[0].secs;
    AfterFirst(steps, cursor, a, b);
    NearAs(b - a, Rate(rest, end, a), AreaBetween(rest, end, a, b), MovedBetween(rest, end, a, b),
           b - a, Rate(steps, cursor, a), AreaBetween(steps, cursor, a, b), MovedBetween(steps, cursor, a, b));
  }

  lemma TickAfterAll(cursor: real, a: real, b: real)
    ensures TickNear([], cursor, a, b)
  {
    assert (b - a) * 0.0 == 0.0;
  }

  lemma {:induction false} EveryTickIsNear(steps: seq<LoadStep>, cursor: real, a: real, b: real)
    requires Offers(steps) && cursor <= a <= b
    ensures TickNear(steps, cursor, a, b)
  {
    if steps == [] {
      TickAfterAll(cursor, a, b);
    } else {
      var end := cursor + steps[0].secs;
      assert Offers(steps[1..]);
      if end <= a {
        EveryTickIsNear(steps[1..], end, a, b);
        TickAfterFirst(steps, cursor, a, b);
      } else if b < end {
        TickInFirst(steps, cursor, a, b);
      } else {
        EveryTickIsNear(steps[1..], end, end, b);
        TickLeavesFirst(steps, cursor, a, b);
      }
    }
  }

  lemma NearTick(rate: real, area: real, moved: real)
    requires Near(0.1, rate, area, moved)
    ensures Abs(rate / 10.0 - area) <= moved / 10.0
  {
  }

  lemma {:induction false} OfferedNearAreaUntil(steps: seq<LoadStep>, n: nat)
    requires Offers(steps)
    ensures Abs(Offered(Table(steps, 0.0), 0, n) - AreaUntil(steps, 0.0, Time(n))) <= MovedUntil(steps, 0.0, Time(n)) / 10.0
  {
    if n == 0 {
      RateAtOnce(steps, 0.0);
      MovedNonNegative(steps, 0.0, 0.0);
    } else {
      OfferedNearAreaUntil(steps, n - 1);
      var a, b := Time(n - 1), Time(n);
      EveryTickIsNear(steps, 0.0, a, b);
      assert b - a == 0.1;
      NearTick(Rate(steps, 0.0, a), AreaBetween(steps, 0.0, a, b), MovedBetween(steps, 0.0, a, b));
    }
  }

  lemma {:induction false} AfterTheRun(steps: seq<LoadStep>, cursor: real, t: real)
    requires Offers(steps) && cursor + RunEnd(steps) <= t
    ensures AreaUntil(steps, cursor, t) == Area(steps) && MovedUntil(steps, cursor, t) == Moved(steps)
  {
    if steps != [] {
      assert Offers(steps[1..]);
      RunEndNonNegative(steps[1..]);
      AfterTheRun(steps[1..], cursor + steps[0].secs, t);
    }
  }

  /** Over any whole run, wherever its stages end, the arrivals dispatched differ
      from the area under the declared profile by less than one, plus a tick's
      worth of everything the rate has moved. */
  lemma ArrivalsNearAreaAnywhere(steps: seq<LoadStep>, counts: seq<nat>)
    requires Offers(steps) && PacedBy(steps, counts)
    ensures Abs(Dispatched(counts, |counts|) as real - Area(steps)) < 1.0 + Moved(steps) / 10.0
  {
    assert |counts| < |counts| <==> Time(|counts|) < RunEnd(steps);
    AfterTheRun(steps, 0.0, Time(|counts|));
    OfferedNearAreaUntil(steps, |counts|);
    FloorNear(Offered(Table(steps, 0.0), 0, |counts|), Area(steps), Moved(steps) / 10.0);
  }
}
