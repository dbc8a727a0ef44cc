/** When each declared fault is applied: the goroutine of scheduleFaultsWithQueue
    (internal/run/scheduler.go) over the marker stream k6 drives. Anchors arrive
    cut at "t=" and "+", with their durations parsed where they can be; what is due
    of an anchor is stated apart from the goroutine's loop. */
module Scheduler {
  import opened Sequences

  /** t=<duration>, or <phase> with an optional +<duration>. */
  datatype Anchor = AtTime(d: Option<int>) | AtPhase(phase: string) | AfterPhase(phase: string, offset: Option<int>)

  datatype Marker = Marker(phase: string, at: int)

  /** What becomes of a fault: applied at an instant, or one of the two errors. */
  datatype Outcome = Applied(at: int) | BadAnchor | NeverFired

  /** The fault's place in torture.yaml, and what became of it. */
  datatype Record = Record(fault: nat, outcome: Outcome)

  predicate Waits(a: Anchor, m: Marker) {
    !a.AtTime? && a.phase != m.phase
  }

  /** The first marker, from this one on, that does not keep the anchor waiting. */
  function FirstMarker(a: Anchor, markers: seq<Marker>, from: nat := 0): (r: Option<nat>)
    requires from <= |markers|
    ensures r.Some? ==> from <= r.value < |markers| && !Waits(a, markers[r.value])
    ensures forall j :: from <= j < |markers| && (r.None? || j < r.value) ==> Waits(a, markers[j])
    decreases |markers| - from
  {
    if from == |markers| then None
    else if !Waits(a, markers[from]) then Some(from)
    else FirstMarker(a, markers, from + 1)
  }

  /** A phase-anchored fault met by its marker. */
  function AtMarker(a: Anchor, m: Marker): Outcome
    requires !a.AtTime?
  {
    match a
    case AtPhase(_) => Applied(m.at)
    case AfterPhase(_, Some(d)) => Applied(m.at + d)
    case AfterPhase(_, None) => BadAnchor
  }

  /** What is owed to a fault: t= counts from the run's start; a phase from the first
      marker that names it; and a phase that never starts is reported. */
  function Due(a: Anchor, start: int, markers: seq<Marker>): Outcome {
    match a
    case AtTime(Some(d)) => Applied(start + d)
    case AtTime(None) => BadAnchor
    case _ =>
      var m := FirstMarker(a, markers);
      if m.Some? then AtMarker(a, markers[m.value]) else NeverFired
  }

  /** Marker k is the first to name this phase. */
  predicate FirstOf(markers: seq<Marker>, k: nat, phase: string) {
    k < |markers| && markers[k].phase == phase && forall j :: 0 <= j < k ==> markers[j].phase != phase
  }

  predicate Unnamed(markers: seq<Marker>, phase: string) {
    forall j :: 0 <= j < |markers| ==> markers[j].phase != phase
  }

  /** The declared schedule, in its own words: t=d is d after the start; a phase is its
      first marker, and d after that with +d; what cannot be read is refused, when it
      would be due; and a phase that no marker names never fires. */
  ghost predicate AsDeclared(a: Anchor, o: Outcome, start: int, markers: seq<Marker>) {
    match a
    case AtTime(d) => o == if d.Some? then Applied(start + d.value) else BadAnchor
    case AtPhase(p) =>
      if Unnamed(markers, p) then o == NeverFired
      else exists k: nat :: FirstOf(markers, k, p) && o == Applied(markers[k].at)
    case AfterPhase(p, d) =>
      if Unnamed(markers, p) then o == NeverFired
      else if d.None? then o == BadAnchor
      else exists k: nat :: FirstOf(markers, k, p) && o == Applied(markers[k].at + d.value)
  }

  lemma DueIsAsDeclared(a: Anchor, start: int, markers: seq<Marker>)
    ensures AsDeclared(a, Due(a, start, markers), start, markers)
  {
    if !a.AtTime? {
      var r := FirstMarker(a, markers);
      if r.Some? {
        assert FirstOf(markers, r.value, a.phase);
      } else {
        forall j | 0 <= j < |markers| ensures markers[j].phase != a.phase { assert Waits(a, markers[j]); }
      }
    }
  }

  function FaultsOf(log: seq<Record>): seq<nat> {
    seq(|log|, j requires 0 <= j < |log| => log[j].fault)
  }

  lemma FaultsOfSnoc(log: seq<Record>, r: Record)
    ensures FaultsOf(log + [r]) == FaultsOf(log) + [r.fault]
  {
  }

  /** Every record is of a fault that met what is due. */
  ghost predicate RecordsAreDue(log: seq<Record>, anchors: seq<Anchor>, start: int, markers: seq<Marker>) {
    forall j :: 0 <= j < |log| ==>
      log[j].fault < |anchors| && log[j].outcome == Due(anchors[log[j].fault], start, markers)
  }

  /** These faults are anchored to a phase that none of the first read markers starts. */
  ghost predicate AllWait(waiting: seq<nat>, anchors: seq<Anchor>, markers: seq<Marker>, read: nat)
    requires read <= |markers|
  {
    forall j :: 0 <= j < |waiting| ==>
      && waiting[j] < |anchors| && !anchors[waiting[j]].AtTime?
      && forall m :: 0 <= m < read ==> Waits(anchors[waiting[j]], markers[m])
  }

  /** The log and the faults still waiting are together the first n faults, each once. */
  ghost predicate Accounted(log: seq<Record>, waiting: seq<nat>, n: nat) {
    forall f: nat :: multiset(FaultsOf(log))[f] + multiset(waiting)[f] == if f < n then 1 else 0
  }

  lemma DueAtMarker(a: Anchor, start: int, markers: seq<Marker>, read: nat)
    requires !a.AtTime? && read < |markers| && !Waits(a, markers[read])
    requires forall m :: 0 <= m < read ==> Waits(a, markers[m])
    ensures Due(a, start, markers) == AtMarker(a, markers[read])
  {
  }

  /** One fault gets its record, and no longer waits. */
  lemma Recorded(log: seq<Record>, r: Record, waiting: seq<nat>, rest: seq<nat>, n: nat, anchors: seq<Anchor>, start: int, markers: seq<Marker>)
    requires RecordsAreDue(log, anchors, start, markers) && Accounted(log, waiting, n)
    requires multiset(waiting) == multiset(rest) + multiset{r.fault}
    requires r.fault < |anchors| && r.outcome == Due(anchors[r.fault], start, markers)
    ensures RecordsAreDue(log + [r], anchors, start, markers) && Accounted(log + [r], rest, n)
  {
    FaultsOfSnoc(log, r);
  }

  /** One more fault is looked at. */
  lemma OneMoreFault(log: seq<Record>, waiting: seq<nat>, n: nat)
    requires Accounted(log, waiting, n)
    ensures Accounted(log, waiting + [n], n + 1)
  {
  }

  lemma StartsToWait(anchors: seq<Anchor>, markers: seq<Marker>, waiting: seq<nat>, i: nat)
    requires AllWait(waiting, anchors, markers, 0) && i < |anchors| && !anchors[i].AtTime?
    ensures AllWait(waiting + [i], anchors, markers, 0)
  {
  }

  lemma WithoutLast(waiting: seq<nat>, i: nat)
    ensures multiset(waiting + [i]) == multiset(waiting) + multiset{i}
  {
  }

  /** The loop over the declared faults: t= faults are scheduled at once. */
  method ScheduleTimed(anchors: seq<Anchor>, start: int, markers: seq<Marker>) returns (log: seq<Record>, waiting: seq<nat>)
    ensures RecordsAreDue(log, anchors, start, markers) && AllWait(waiting, anchors, markers, 0)
    ensures Accounted(log, waiting, |anchors|)
  {
    log, waiting := [], [];
    for i := 0 to |anchors|
      invariant RecordsAreDue(log, anchors, start, markers) && AllWait(waiting, anchors, markers, 0)
      invariant Accounted(log, waiting, i)
    {
      OneMoreFault(log, waiting, i);
      match anchors[i] {
        case AtTime(d) =>
          var r := Record(i, if d.Some? then Applied(start + d.value) else BadAnchor);
          WithoutLast(waiting, i);
          Recorded(log, r, waiting + [i], waiting, i + 1, anchors, start, markers);
          log := log + [r];
        case _ =>
          StartsToWait(anchors, markers, waiting, i);
          waiting := waiting + [i];
      }
    }
  }

  lemma FirstTaken(remaining: seq<nat>, f: nat, tail: seq<nat>)
    ensures multiset(remaining + ([f] + tail)) == multiset(remaining + tail) + multiset{f}
    ensures remaining + ([f] + tail) == remaining + [f] + tail
  {
  }

  lemma WaitsOn(anchors: seq<Anchor>, markers: seq<Marker>, read: nat, waiting: seq<nat>, k: nat, remaining: seq<nat>)
    requires read < |markers| && k < |waiting|
    requires AllWait(waiting, anchors, markers, read) && AllWait(remaining, anchors, markers, read + 1)
    ensures waiting[k] < |anchors| && !anchors[waiting[k]].AtTime?
    ensures Waits(anchors[waiting[k]], markers[read]) ==> AllWait(remaining + [waiting[k]], anchors, markers, read + 1)
    ensures !Waits(anchors[waiting[k]], markers[read]) ==>
      forall start :: Due(anchors[waiting[k]], start, markers) == AtMarker(anchors[waiting[k]], markers[read])
  {
    var a := anchors[waiting[k]];
    if !Waits(a, markers[read]) {
      forall start ensures Due(a, start, markers) == AtMarker(a, markers[read]) { DueAtMarker(a, start, markers, read); }
    }
  }

  /** The body of the marker loop: the faults this marker starts, and those that wait on. */
  method MeetMarker(anchors: seq<Anchor>, start: int, ghost markers: seq<Marker>, ghost read: nat, m: Marker, log0: seq<Record>, waiting: seq<nat>)
    returns (log: seq<Record>, remaining: seq<nat>)
    requires read < |markers| && m == markers[read] && AllWait(waiting, anchors, markers, read)
    requires RecordsAreDue(log0, anchors, start, markers) && Accounted(log0, waiting, |anchors|)
    ensures RecordsAreDue(log, anchors, start, markers) && AllWait(remaining, anchors, markers, read + 1)
    ensures Accounted(log, remaining, |anchors|)
  {
    log, remaining := log0, [];
    assert [] + waiting[0..] == waiting;
    for k := 0 to |waiting|
      invariant RecordsAreDue(log, anchors, start, markers) && AllWait(remaining, anchors, markers, read + 1)
      invariant Accounted(log, remaining + waiting[k..], |anchors|)
    {
      var f := waiting[k];
      assert waiting[k..] == [f] + waiting[k + 1..];
      FirstTaken(remaining, f, waiting[k + 1..]);
      WaitsOn(anchors, markers, read, waiting, k, remaining);
      if Waits(anchors[f], m) {
        remaining := remaining + [f];
      } else {
        var r := Record(f, AtMarker(anchors[f], m));
        Recorded(log, r, remaining + waiting[k..], remaining + waiting[k + 1..], |anchors|, anchors, start, markers);
        log := log + [r];
      }
    }
    assert remaining + waiting[|waiting|..] == remaining;
  }

  /** What the load's end leaves waiting is recorded as never fired. */
  method ReportNeverFired(anchors: seq<Anchor>, start: int, ghost markers: seq<Marker>, log0: seq<Record>, waiting: seq<nat>)
    returns (log: seq<Record>)
    requires AllWait(waiting, anchors, markers, |markers|)
    requires RecordsAreDue(log0, anchors, start, markers) && Accounted(log0, waiting, |anchors|)
    ensures RecordsAreDue(log, anchors, start, markers) && Accounted(log, [], |anchors|)
  {
    log := log0;
    for k := 0 to |waiting|
      invariant RecordsAreDue(log, anchors, start, markers)
      invariant Accounted(log, waiting[k..], |anchors|)
    {
      var r := Record(waiting[k], NeverFired);
      assert waiting[k..] == [waiting[k]] + waiting[k + 1..];
      Recorded(log, r, waiting[k..], waiting[k + 1..], |anchors|, anchors, start, markers);
      log := log + [r];
    }
  }

  /** The whole goroutine, over a marker stream that ends. It reads no marker once
      nothing waits. Every declared fault has exactly one record, and it is what is
      due: none fires twice, none disappears. */
  method ScheduleFaults(anchors: seq<Anchor>, start: int, markers: seq<Marker>) returns (log: seq<Record>)
    ensures RecordsAreDue(log, anchors, start, markers)
    ensures forall j :: 0 <= j < |log| ==>
      log[j].fault < |anchors| && AsDeclared(anchors[log[j].fault], log[j].outcome, start, markers)
    ensures forall f: nat :: multiset(FaultsOf(log))[f] == if f < |anchors| then 1 else 0
  {
    var waiting: seq<nat>;
    log, waiting := ScheduleTimed(anchors, start, markers);
    var read := 0;
    while waiting != [] && read < |markers|
      invariant read <= |markers|
      invariant RecordsAreDue(log, anchors, start, markers) && AllWait(waiting, anchors, markers, read)
      invariant Accounted(log, waiting, |anchors|)
      decreases |markers| - read
    {
      log, waiting := MeetMarker(anchors, start, markers, read, markers[read], log, waiting);
      read := read + 1;
    }
    if waiting != [] { log := ReportNeverFired(anchors, start, markers, log, waiting); }
    forall j | 0 <= j < |log|
      ensures log[j].fault < |anchors| && AsDeclared(anchors[log[j].fault], log[j].outcome, start, markers)
    {
      DueIsAsDeclared(anchors[log[j].fault], start, markers);
    }
  }

  /** Which faults never fire: those whose phase no marker names. More markers never
      take back an outcome other than that one. */
  lemma NeverFiresIff(a: Anchor, start: int, markers: seq<Marker>, more: seq<Marker>)
    ensures Due(a, start, markers) == NeverFired <==> !a.AtTime? && forall m :: m in markers ==> m.phase != a.phase
    ensures Due(a, start, markers) != NeverFired ==> Due(a, start, markers + more) == Due(a, start, markers)
  {
    if !a.AtTime? {
      var r := FirstMarker(a, markers);
      if r.Some? {
        assert markers[r.value] in markers && (markers + more)[r.value] == markers[r.value];
        var q := FirstMarker(a, markers + more);
        assert forall j :: 0 <= j < r.value ==> (markers + more)[j] == markers[j];
        assert q == r;
      } else {
        forall m | m in markers ensures m.phase != a.phase {
          var j :| 0 <= j < |markers| && markers[j] == m;
          assert Waits(a, markers[j]);
        }
      }
    }
  }
}
