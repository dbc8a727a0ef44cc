/** Several duplicate faults on one topic, each with its own consumer group and loop
    (internal/applier/broker_applier.go). Every loop reads what all of them append. */
module SharedTopic {
  import opened Redelivery

  /** Loop i sees the log, and its own offset, batch and history, as in Redelivery;
      the loops share the log. others counts what everyone else produced. */
  datatype Shared = Shared(log: seq<Bytes>, loops: seq<State>, others: nat)

  function Start(k: nat): Shared {
    Shared([], seq(k, i => INIT), 0)
  }

  datatype SharedAction = Other(value: Bytes) | Loop(i: nat, step: Action)

  predicate CanStep(s: Shared, a: SharedAction) {
    match a
    case Other(_) => true
    case Loop(i, step) => i < |s.loops| && !step.Produce? && Enabled(s.loops[i], step)
  }

  function OnLog(loops: seq<State>, log: seq<Bytes>): (r: seq<State>)
    ensures |r| == |loops| && forall j :: 0 <= j < |loops| ==> r[j] == loops[j].(log := log)
  {
    seq(|loops|, j requires 0 <= j < |loops| => loops[j].(log := log))
  }

  /** A loop's step is its step alone; what it appends, every other loop finds there. */
  function Step(rates: seq<real>, s: Shared, a: SharedAction): Shared
    requires |rates| == |s.loops| && CanStep(s, a)
  {
    match a
    case Other(v) => Shared(s.log + [v], OnLog(s.loops, s.log + [v]), s.others + 1)
    case Loop(i, step) =>
      var n := Next(rates[i], s.loops[i], step);
      Shared(n.log, OnLog(s.loops[i := n], n.log), s.others)
  }

  predicate Runs(rates: seq<real>, s: Shared, steps: seq<SharedAction>, t: Shared)
    requires |rates| == |s.loops|
    decreases |steps|
  {
    if steps == [] then t == s
    else CanStep(s, steps[0]) && Runs(rates, Step(rates, s, steps[0]), steps[1..], t)
  }

  /** How many copies the loops have appended in all. */
  function AllCopies(loops: seq<State>): nat {
    if loops == [] then 0 else AllCopies(loops[..|loops| - 1]) + |loops[|loops| - 1].mine|
  }

  ghost predicate SharedInv(s: Shared) {
    && (forall i :: 0 <= i < |s.loops| ==> s.loops[i].log == s.log && Inv(s.loops[i]))
    && |s.log| == s.others + AllCopies(s.loops)
    && Unmarked(s.log) <= s.others
  }

  lemma {:induction false} CopiesOnLog(loops: seq<State>, log: seq<Bytes>)
    ensures AllCopies(OnLog(loops, log)) == AllCopies(loops)
  {
    if loops != [] {
      var n := |loops| - 1;
      CopiesOnLog(loops[..n], log);
      assert OnLog(loops, log)[..n] == OnLog(loops[..n], log);
    }
  }

  lemma {:induction false} CopiesUpdate(loops: seq<State>, i: nat, n: State)
    requires i < |loops|
    ensures AllCopies(loops[i := n]) == AllCopies(loops) - |loops[i].mine| + |n.mine|
  {
    var last := |loops| - 1;
    if i < last {
      CopiesUpdate(loops[..last], i, n);
      assert loops[i := n][..last] == loops[..last][i := n];
    } else {
      assert loops[i := n][..last] == loops[..last];
    }
  }

  lemma UnmarkedAppend(log: seq<Bytes>, v: Bytes)
    ensures Unmarked(log + [v]) == Unmarked(log) + if IsDuplicateMarked(v) then 0 else 1
  {
    assert (log + [v])[..|log|] == log;
  }

  /** What one step of a loop does to the log: nothing, or one copy. */
  lemma LoopStepAppends(rate: real, s: State, step: Action)
    requires Inv(s) && Enabled(s, step) && !step.Produce?
    ensures var n := Next(rate, s, step);
      || (n.log == s.log && n.mine == s.mine)
      || (|n.mine| == |s.mine| + 1 && exists v :: IsDuplicateMarked(v) && n.log == s.log + [v])
  {
  }

  /** A loop that has not moved finds one record more, as if anyone had produced it. */
  lemma BystanderKeeps(s: State, v: Bytes)
    requires Inv(s)
    ensures Inv(s.(log := s.log + [v]))
  {
    Preserved(0.0, s, Produce(v));
  }

  lemma LoopStepKeeps(rates: seq<real>, s: Shared, i: nat, step: Action)
    requires |rates| == |s.loops| && SharedInv(s) && CanStep(s, Loop(i, step))
    ensures SharedInv(Step(rates, s, Loop(i, step)))
  {
    var n, t := Next(rates[i], s.loops[i], step), Step(rates, s, Loop(i, step));
    Preserved(rates[i], s.loops[i], step);
    LoopStepAppends(rates[i], s.loops[i], step);
    CopiesUpdate(s.loops, i, n);
    CopiesOnLog(s.loops[i := n], n.log);
    if n.log != s.log {
      var v :| IsDuplicateMarked(v) && n.log == s.log + [v];
      UnmarkedAppend(s.log, v);
      forall j | 0 <= j < |s.loops| && j != i ensures Inv(t.loops[j]) { BystanderKeeps(s.loops[j], v); }
    }
    assert t.loops[i] == n;
    forall j | 0 <= j < |s.loops| && j != i ensures Inv(t.loops[j]) {
      if n.log == s.log { assert t.loops[j] == s.loops[j]; }
    }
  }

  lemma OtherStepKeeps(rates: seq<real>, s: Shared, v: Bytes)
    requires |rates| == |s.loops| && SharedInv(s)
    ensures SharedInv(Step(rates, s, Other(v)))
  {
    UnmarkedAppend(s.log, v);
    CopiesOnLog(s.loops, s.log + [v]);
    forall j | 0 <= j < |s.loops| ensures Inv(Step(rates, s, Other(v)).loops[j]) { BystanderKeeps(s.loops[j], v); }
  }

  lemma {:induction false} RunsKeepInv(rates: seq<real>, s: Shared, steps: seq<SharedAction>, t: Shared)
    requires |rates| == |s.loops| && SharedInv(s) && Runs(rates, s, steps, t)
    ensures SharedInv(t) && |t.loops| == |s.loops|
    decreases |steps|
  {
    if steps != [] {
      match steps[0] {
        case Other(v) => OtherStepKeeps(rates, s, v);
        case Loop(i, step) => LoopStepKeeps(rates, s, i, step);
      }
      RunsKeepInv(rates, Step(rates, s, steps[0]), steps[1..], t);
    }
  }

  lemma {:induction false} CopiesBound(loops: seq<State>, bound: nat)
    requires forall i :: 0 <= i < |loops| ==> |loops[i].mine| <= bound
    ensures AllCopies(loops) <= |loops| * bound
  {
    if loops != [] {
      var n := |loops| - 1;
      CopiesBound(loops[..n], bound);
      assert |loops| * bound == n * bound + bound;
    }
  }

  lemma {:induction false} NoCopiesYet(k: nat)
    ensures AllCopies(seq(k, i => INIT)) == 0
  {
    if k > 0 {
      NoCopiesYet(k - 1);
      assert seq(k, i => INIT)[..k - 1] == seq(k - 1, i => INIT);
    }
  }

  lemma StartIsInv(k: nat)
    ensures SharedInv(Start(k))
  {
    NoCopiesYet(k);
  }

  /** The loop's j-th copy is of an unmarked record, so of no loop's copy. */
  predicate CopiesOriginals(log: seq<Bytes>, loop: State) {
    && |loop.mine| == |loop.sources| && Increasing(loop.sources)
    && (forall j :: 0 <= j < |loop.mine| ==> IsCopyOf(log, loop.sources[j], loop.mine[j]))
  }

  lemma LoopCopiesOriginals(s: Shared, i: nat)
    requires SharedInv(s) && i < |s.loops|
    ensures CopiesOriginals(s.log, s.loops[i]) && |s.loops[i].mine| <= s.others
  {
    var loop := s.loops[i];
    assert Inv(loop) && loop.log == s.log;
    assert forall j :: 0 <= j < |loop.mine| ==> IsCopyOf(s.log, loop.sources[j], loop.mine[j]);
    PositionsBound(s.log, loop.sources);
  }

  /** k loops on one topic, at any rates and in any interleaving: each copies a
      record at most once and never a copy, its own or another's, and the log is at
      most k + 1 times what everyone else produced. */
  lemma SharedAmplificationIsBounded(rates: seq<real>, steps: seq<SharedAction>, s: Shared)
    requires Runs(rates, Start(|rates|), steps, s)
    ensures |s.loops| == |rates|
    ensures forall i :: 0 <= i < |s.loops| ==> CopiesOriginals(s.log, s.loops[i])
    ensures |s.log| == s.others + AllCopies(s.loops)
    ensures |s.log| <= (|rates| + 1) * s.others
  {
    StartIsInv(|rates|);
    RunsKeepInv(rates, Start(|rates|), steps, s);
    forall i | 0 <= i < |s.loops| ensures CopiesOriginals(s.log, s.loops[i]) && |s.loops[i].mine| <= s.others {
      LoopCopiesOriginals(s, i);
    }
    CopiesBound(s.loops, s.others);
    assert (|rates| + 1) * s.others == |rates| * s.others + s.others;
  }
}
