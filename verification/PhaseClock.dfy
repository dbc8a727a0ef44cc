/** One load profile read by four clocks: k6's phase markers (internal/k6/k6.go),
    the co-driven tools' duration bound (internal/run/drive.go), and the phase
    offset of the observability emitters (internal/emit/observability.go), over
    the stages the parser accepts (internal/config/config.go). */
module PhaseClock {
  import opened Sequences

  datatype Unit = Ms | S | M | H

  /** A duration as written. Whole is a whole number of one of the four units,
      the only form every reader takes; Other is anything else time.ParseDuration
      reads, such as "1m30s" or "1.5s"; Malformed is what it rejects. */
  datatype Duration = Absent | Whole(n: nat, unit: Unit) | Other(ns: int) | Malformed

  const SECOND: int := 1_000_000_000

  /** time.ParseDuration, in nanoseconds. */
  function ParseDuration(d: Duration): Option<int> {
    match d
    case Whole(n, Ms) => Some(n * 1_000_000)
    case Whole(n, S) => Some(n * 1_000_000_000)
    case Whole(n, M) => Some(n * 60_000_000_000)
    case Whole(n, H) => Some(n * 3_600_000_000_000)
    case Other(ns) => Some(ns)
    case _ => None
  }

  /** obsDuration, in whole seconds; milliseconds are cut to seconds. */
  function ObsDuration(d: Duration): Option<nat> {
    match d
    case Whole(n, Ms) => Some(n / 1000)
    case Whole(n, S) => Some(n)
    case Whole(n, M) => Some(n * 60)
    case Whole(n, H) => Some(n * 3600)
    case _ => None
  }

  /** The units mean what they say, for both readers: a thousand milliseconds are a
      second, sixty of each a unit of the next, and a second a billion nanoseconds. */
  lemma UnitsAgree(n: nat)
    ensures ParseDuration(Whole(n, S)) == Some(n * 1_000_000_000) && ObsDuration(Whole(n, S)) == Some(n)
    ensures ParseDuration(Whole(1000 * n, Ms)) == ParseDuration(Whole(n, S)) && ObsDuration(Whole(1000 * n, Ms)) == ObsDuration(Whole(n, S))
    ensures ParseDuration(Whole(60 * n, S)) == ParseDuration(Whole(n, M)) && ObsDuration(Whole(60 * n, S)) == ObsDuration(Whole(n, M))
    ensures ParseDuration(Whole(60 * n, M)) == ParseDuration(Whole(n, H)) && ObsDuration(Whole(60 * n, M)) == ObsDuration(Whole(n, H))
    ensures ParseDuration(Whole(n, Ms)).Some? && 1000 * ParseDuration(Whole(n, Ms)).value == ParseDuration(Whole(n, S)).value
    ensures ObsDuration(Whole(n, Ms)).Some? && 1000 * ObsDuration(Whole(n, Ms)).value <= n < 1000 * (ObsDuration(Whole(n, Ms)).value + 1)
  {
  }

  /** A load.stages entry; to and hold say which of the two rates it gives. */
  datatype Stage = Stage(phase: string, to: bool, hold: bool, over: Duration, wait: Duration)

  /** Parse's loop over load.stages. */
  ghost predicate Accepted(stages: seq<Stage>) {
    && (forall i, j :: 0 <= i < j < |stages| ==> stages[i].phase != stages[j].phase)
    && (forall i :: 0 <= i < |stages| ==> stages[i].to != stages[i].hold)
  }

  method CheckStages(stages: seq<Stage>) returns (ok: bool)
    ensures ok <==> Accepted(stages)
  {
    var seen: set<string> := {};
    for i := 0 to |stages|
      invariant seen == set j | 0 <= j < i :: stages[j].phase
      invariant Accepted(stages[..i])
    {
      assert stages[..i + 1] == stages[..i] + [stages[i]];
      if stages[i].phase in seen { return false; }
      seen := seen + {stages[i].phase};
      if stages[i].to == stages[i].hold { return false; }
    }
    assert stages[..|stages|] == stages;
    return true;
  }

  // ------------------------------------------------- which duration is read

  /** resolveStages: over: for a ramp, for: for a hold. */
  function K6Spec(s: Stage): Duration { if s.to then s.over else s.wait }

  /** driveDuration: over: if it is given, else for:. */
  function DriveSpec(s: Stage): Duration { if s.over == Absent then s.wait else s.over }

  /** obsPhaseOffset: for: if it is given, else over:. */
  function ObsSpec(s: Stage): Duration { if s.wait == Absent then s.over else s.wait }

  // ------------------------------------------------------------ the clocks

  /** What each clock advances by over a stage; an unreadable duration by nothing. */
  function K6Ns(s: Stage): int {
    var d := ParseDuration(K6Spec(s));
    if d.Some? then d.value else 0
  }

  function DriveNs(s: Stage): int {
    var d := ParseDuration(DriveSpec(s));
    if d.Some? then d.value else 0
  }

  function ObsSeconds(s: Stage): nat {
    var d := ObsDuration(ObsSpec(s));
    if d.Some? then d.value else 0
  }

  /** The instant stage i begins on k6's clock. */
  function StartAt(stages: seq<Stage>, i: nat): int
    requires i <= |stages|
  {
    if i == 0 then 0 else StartAt(stages, i - 1) + K6Ns(stages[i - 1])
  }

  predicate K6Readable(s: Stage) { ParseDuration(K6Spec(s)).Some? }

  /** Stage i lasts its over:, for a ramp, or its for:, for a hold. */
  predicate Lasts(s: Stage, ns: int) {
    ParseDuration(if s.to then s.over else s.wait) == Some(ns)
  }

  /** The first stage starts the run, each other when the one before it has lasted. */
  predicate EachAfterTheLast(stages: seq<Stage>, starts: seq<int>, end: int) {
    var instants := starts + [end];
    && |starts| == |stages| && instants[0] == 0
    && forall i {:trigger stages[i]} :: 0 <= i < |stages| ==> Lasts(stages[i], instants[i + 1] - instants[i])
  }

  lemma OneStageLater(stages: seq<Stage>, starts: seq<int>, end: int, s: Stage, next: int)
    requires EachAfterTheLast(stages, starts, end) && Lasts(s, next - end)
    ensures EachAfterTheLast(stages + [s], starts + [end], next)
  {
    var instants, longer := starts + [end], starts + [end] + [next];
    forall i {:trigger (stages + [s])[i]} | 0 <= i < |stages + [s]|
      ensures Lasts((stages + [s])[i], longer[i + 1] - longer[i])
    {
      if i < |stages| {
        assert (stages + [s])[i] == stages[i];
        assert longer[i] == instants[i] && longer[i + 1] == instants[i + 1];
      }
    }
  }

  /** resolveStages: each stage's marker starts where the earlier ones end. */
  method ResolveStages(stages: seq<Stage>) returns (starts: Option<seq<int>>, end: int)
    ensures starts.Some? <==> forall i :: 0 <= i < |stages| ==> K6Readable(stages[i])
    ensures starts.Some? ==> |starts.value| == |stages| && end == StartAt(stages, |stages|)
    ensures starts.Some? ==> forall i :: 0 <= i < |stages| ==> starts.value[i] == StartAt(stages, i)
    ensures starts.Some? ==> EachAfterTheLast(stages, starts.value, end)
  {
    var out: seq<int> := [];
    var cursor := 0;
    for i := 0 to |stages|
      invariant |out| == i && cursor == StartAt(stages, i)
      invariant forall j :: 0 <= j < i ==> K6Readable(stages[j])
      invariant forall j {:trigger out[j]} :: 0 <= j < i ==> out[j] == StartAt(stages, j)
      invariant EachAfterTheLast(stages[..i], out, cursor)
    {
      var s := stages[i];
      var spec := s.over;
      if !s.to { spec := s.wait; }
      var d := ParseDuration(spec);
      assert d == ParseDuration(K6Spec(s));
      if d.None? { return None, 0; }
      OneStageLater(stages[..i], out, cursor, s, cursor + d.value);
      assert stages[..i + 1] == stages[..i] + [s];
      out := out + [cursor];
      cursor := cursor + d.value;
    }
    assert stages[..|stages|] == stages;
    return Some(out), cursor;
  }

  function ObsSum(stages: seq<Stage>, i: nat): nat
    requires i <= |stages|
  {
    if i == 0 then 0 else ObsSum(stages, i - 1) + ObsSeconds(stages[i - 1])
  }

  /** The at: forms of a fault. */
  datatype Anchor = AtPhase(phase: string) | AtPhasePlus(phase: string, plus: Duration) | AtTime(t: Duration)

  ghost predicate FirstPhase(stages: seq<Stage>, phase: string, i: nat) {
    i < |stages| && stages[i].phase == phase && forall j :: 0 <= j < i ==> stages[j].phase != phase
  }

  /** obsPhaseOffset. A value is given only for a declared phase with readable
      stages before it, and is the sum of their whole seconds plus the offset. */
  method ObsPhaseOffset(stages: seq<Stage>, at: Anchor) returns (r: Option<nat>)
    ensures at.AtTime? ==> r == ObsDuration(at.t)
    ensures at.AtPhasePlus? && ObsDuration(at.plus).None? ==> r == None
    ensures !at.AtTime? && r.Some? ==> exists i :: FirstPhase(stages, at.phase, i)
    ensures !at.AtTime? ==> forall i: nat :: FirstPhase(stages, at.phase, i) && r.Some? ==>
      && (forall j :: 0 <= j < i ==> ObsDuration(ObsSpec(stages[j])).Some?)
      && r.value == ObsSum(stages, i) + if at.AtPhasePlus? then ObsDuration(at.plus).value else 0
    ensures !at.AtTime? && (at.AtPhasePlus? ==> ObsDuration(at.plus).Some?) ==>
      forall i: nat :: FirstPhase(stages, at.phase, i) && r.None? ==>
        exists j :: 0 <= j < i && ObsDuration(ObsSpec(stages[j])).None?
  {
    if at.AtTime? { return ObsDuration(at.t); }
    var extra := 0;
    if at.AtPhasePlus? {
      var e := ObsDuration(at.plus);
      if e.None? { return None; }
      extra := e.value;
    }
    var offset := 0;
    for i := 0 to |stages|
      invariant offset == ObsSum(stages, i)
      invariant forall j :: 0 <= j < i ==> stages[j].phase != at.phase && ObsDuration(ObsSpec(stages[j])).Some?
    {
      var st := stages[i];
      if st.phase == at.phase {
        assert FirstPhase(stages, at.phase, i);
        return Some(offset + extra);
      }
      var d := st.wait;
      if d == Absent { d := st.over; }
      var secs := ObsDuration(d);
      if secs.None? { return None; }
      offset := offset + secs.value;
    }
    return None;
  }

  const DRIVE_SLACK: int := 30 * SECOND
  const DRIVE_MIN: int := 10 * SECOND

  function DriveSum(stages: seq<Stage>, i: nat): int
    requires i <= |stages|
  {
    if i == 0 then 0 else DriveSum(stages, i - 1) + DriveNs(stages[i - 1])
  }

  /** A stage that gives only the duration its own rate uses, and no negative one. */
  predicate Plain(s: Stage) {
    && s.to != s.hold
    && (if s.to then s.wait == Absent else s.over == Absent)
    && K6Readable(s) && ParseDuration(K6Spec(s)).value >= 0
  }

  lemma {:induction false} DriveSumIsTheProfile(stages: seq<Stage>, i: nat)
    requires i <= |stages| && forall j :: 0 <= j < i ==> Plain(stages[j])
    ensures DriveSum(stages, i) == StartAt(stages, i) >= 0
  {
    if i > 0 {
      DriveSumIsTheProfile(stages, i - 1);
      assert Plain(stages[i - 1]);
    }
  }

  /** driveDuration. Over plain stages the co-driven tools are bounded by exactly
      30 s past the end of the last one; the floor is never what decides. */
  method DriveDuration(stages: seq<Stage>) returns (bound: int)
    ensures (forall i :: 0 <= i < |stages| ==> Plain(stages[i])) ==> bound == StartAt(stages, |stages|) + 30_000_000_000
    ensures DriveSum(stages, |stages|) >= -20_000_000_000 ==> bound == DriveSum(stages, |stages|) + 30_000_000_000
    ensures DriveSum(stages, |stages|) < -20_000_000_000 ==> bound == 10_000_000_000
  {
    var total := 0;
    for i := 0 to |stages|
      invariant total == DriveSum(stages, i)
    {
      var spec := stages[i].over;
      if spec == Absent { spec := stages[i].wait; }
      var d := ParseDuration(spec);
      if d.Some? { total := total + d.value; }
    }
    if forall i :: 0 <= i < |stages| ==> Plain(stages[i]) { DriveSumIsTheProfile(stages, |stages|); }
    if total + DRIVE_SLACK < DRIVE_MIN { return DRIVE_MIN; }
    return total + DRIVE_SLACK;
  }

  // ----------------------------------------------------------- the theorems

  /** The emitters' clock is k6's at every stage exactly when each stage lasts as
      many nanoseconds for k6 as whole seconds for them. */
  lemma {:induction false} OffsetIsMarkerIff(stages: seq<Stage>, n: nat)
    requires n <= |stages|
    ensures (forall i :: 0 <= i <= n ==> StartAt(stages, i) == ObsSum(stages, i) * SECOND)
       <==> (forall j :: 0 <= j < n ==> K6Ns(stages[j]) == ObsSeconds(stages[j]) * SECOND)
  {
    if n > 0 {
      OffsetIsMarkerIff(stages, n - 1);
      assert StartAt(stages, n) == StartAt(stages, n - 1) + K6Ns(stages[n - 1]);
      assert ObsSum(stages, n) == ObsSum(stages, n - 1) + ObsSeconds(stages[n - 1]);
    }
  }

  /** The same of the sum that bounds the co-driven tools. */
  lemma {:induction false} DriveSumIsProfileIff(stages: seq<Stage>, n: nat)
    requires n <= |stages|
    ensures (forall i :: 0 <= i <= n ==> DriveSum(stages, i) == StartAt(stages, i))
       <==> (forall j :: 0 <= j < n ==> DriveNs(stages[j]) == K6Ns(stages[j]))
  {
    if n > 0 {
      DriveSumIsProfileIff(stages, n - 1);
      assert StartAt(stages, n) == StartAt(stages, n - 1) + K6Ns(stages[n - 1]);
      assert DriveSum(stages, n) == DriveSum(stages, n - 1) + DriveNs(stages[n - 1]);
    }
  }

  /** Where both read one duration, however written, the stage lasts alike exactly
      when the emitters do not cut it: unless it is in milliseconds and not a whole
      number of seconds. */
  lemma LastsAlikeIff(s: Stage)
    requires ObsSpec(s).Whole? && ParseDuration(ObsSpec(s)) == ParseDuration(K6Spec(s))
    ensures K6Ns(s) == ObsSeconds(s) * SECOND <==> (ObsSpec(s).unit == Ms ==> ObsSpec(s).n % 1000 == 0)
  {
  }

  /** Stages before i on which k6 and the emitters read one duration, however written. */
  ghost predicate ReadAlike(stages: seq<Stage>, i: nat)
    requires i <= |stages|
  {
    forall j :: 0 <= j < i ==> ObsSpec(stages[j]).Whole? && ParseDuration(ObsSpec(stages[j])) == ParseDuration(K6Spec(stages[j]))
  }

  function MsStages(stages: seq<Stage>, i: nat): nat
    requires i <= |stages|
  {
    if i == 0 then 0
    else MsStages(stages, i - 1) + if ObsSpec(stages[i - 1]).Whole? && ObsSpec(stages[i - 1]).unit == Ms then 1 else 0
  }

  /** The emitted offset then never lies past k6's marker, and lags it by less than
      a second for each earlier stage written in milliseconds: not at all if there
      is none. */
  lemma {:induction false} OffsetTracksMarker(stages: seq<Stage>, i: nat)
    requires i <= |stages| && ReadAlike(stages, i)
    ensures var lag := StartAt(stages, i) - ObsSum(stages, i) * SECOND;
      && 0 <= lag
      && (MsStages(stages, i) == 0 ==> lag == 0)
      && (MsStages(stages, i) > 0 ==> lag < MsStages(stages, i) * SECOND)
  {
    if i > 0 {
      OffsetTracksMarker(stages, i - 1);
      var s := stages[i - 1];
      assert ObsSpec(s).Whole? && ParseDuration(ObsSpec(s)) == ParseDuration(K6Spec(s));
    }
  }

  /** With the duration a ramp does not use also set, the emitters read the other
      field and the offset can pass the marker: the accepted profile of a 10s ramp
      that also says for: 60s puts its second phase at 60 s against k6's 10. */
  lemma OffsetCanPassMarker()
    ensures var stages := [Stage("warm", true, false, Whole(10, S), Whole(60, S)), Stage("peak", false, true, Absent, Whole(5, S))];
      Accepted(stages) && ObsSum(stages, 1) * SECOND == 60 * SECOND && StartAt(stages, 1) == 10 * SECOND
  {
    var stages := [Stage("warm", true, false, Whole(10, S), Whole(60, S)), Stage("peak", false, true, Absent, Whole(5, S))];
    assert ObsSum(stages, 1) == 60 by { assert ObsSum(stages, 0) == 0; }
    assert StartAt(stages, 1) == 10 * SECOND by { assert StartAt(stages, 0) == 0; }
  }

  /** The bound reads over: first, also for a hold, and ignores for: where both are
      given: a hold for: 5s that also says over: 60s counts as a minute, and a ramp
      over: 10s that also says for: 60s as ten seconds. */
  lemma BoundCanPassProfile()
    ensures var hold := Stage("hold", false, true, Whole(60, S), Whole(5, S));
      DriveNs(hold) == 60 * SECOND && K6Ns(hold) == ObsSeconds(hold) * SECOND == 5 * SECOND
    ensures var ramp := Stage("ramp", true, false, Whole(10, S), Whole(60, S));
      DriveNs(ramp) == K6Ns(ramp) == 10 * SECOND && ObsSeconds(ramp) == 60
  {
  }
}
