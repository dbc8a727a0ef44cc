/** The fault managers (internal/fault/manager.go, internal/queuefault/manager.go):
    any number of Apply and Teardown calls at once, and the signal goroutine. Steps
    are what the mutex makes atomic; an undo is named by the rank of its apply. */
module FaultLifecycle {
  import opened Sequences

  /** One call of Teardown: the list it swapped out, and the undos it has run. */
  datatype TeardownCall = TeardownCall(list: seq<nat>, ran: seq<nat>, failed: seq<nat>)
  {
    predicate Complete() { |ran| == |list| }

    /** The part of the private list not yet run. */
    function Waiting(): seq<nat> {
      if |ran| <= |list| then list[..|list| - |ran|] else []
    }
  }

  /** The goroutine WatchSignals starts. */
  datatype Watcher = Armed | Received | TearingDown(call: nat) | Reported(call: nat) | Disarmed

  datatype State = State(
    issued: nat,               // applies that have succeeded
    untracked: seq<nat>,       // applied, track not yet called
    undos: seq<nat>,           // the manager's field
    calls: seq<TeardownCall>,  // Teardown calls in the order they swapped
    watcher: Watcher,
    tracked: seq<nat>)         // every track so far, in order

  const INIT := State(0, [], [], [], Armed, [])

  datatype Action =
    | ApplySucceeds
    | ApplyFails
    | Track(i: nat)
    | Swap
    | RunUndo(c: nat, ok: bool)
    | Signal
    | SignalSwap
    | SignalReport
    | Disarm

  predicate Enabled(s: State, a: Action) {
    match a
    case ApplySucceeds => true
    case ApplyFails => true
    case Track(i) => i < |s.untracked|
    case Swap => true
    case RunUndo(c, _) => c < |s.calls| && |s.calls[c].ran| < |s.calls[c].list|
    case Signal => s.watcher == Armed
    case SignalSwap => s.watcher == Received
    case SignalReport => s.watcher.TearingDown? && s.watcher.call < |s.calls| && s.calls[s.watcher.call].Complete()
    case Disarm => s.watcher == Armed
  }

  function SwapOut(s: State): State {
    s.(undos := [], calls := s.calls + [TeardownCall(s.undos, [], [])])
  }

  function Next(s: State, a: Action): State
    requires Enabled(s, a)
  {
    match a
    case ApplySucceeds => s.(issued := s.issued + 1, untracked := s.untracked + [s.issued])
    case ApplyFails => s
    case Track(i) =>
      s.(untracked := s.untracked[..i] + s.untracked[i + 1..],
         undos := s.undos + [s.untracked[i]],
         tracked := s.tracked + [s.untracked[i]])
    case Swap => SwapOut(s)
    case RunUndo(c, ok) =>
      var t := s.calls[c];
      var u := t.list[|t.list| - 1 - |t.ran|];
      s.(calls := s.calls[c := t.(ran := t.ran + [u], failed := if ok then t.failed else t.failed + [u])])
    case Signal => s.(watcher := Received)
    case SignalSwap => SwapOut(s).(watcher := TearingDown(|s.calls|))
    case SignalReport => s.(watcher := Reported(s.watcher.call))
    case Disarm => s.(watcher := Disarmed)
  }

  /** These steps, in this order, lead from s to t. */
  predicate Leads(s: State, steps: seq<Action>, t: State)
    decreases |steps|
  {
    if steps == [] then t == s
    else Enabled(s, steps[0]) && Leads(Next(s, steps[0]), steps[1..], t)
  }

  ghost predicate Reachable(s: State) {
    exists steps :: Leads(INIT, steps, s)
  }

  // -------------------------------------------------------------- invariant

  function AllWaiting(calls: seq<TeardownCall>): seq<nat> {
    if calls == [] then [] else calls[0].Waiting() + AllWaiting(calls[1..])
  }

  function AllRan(calls: seq<TeardownCall>): seq<nat> {
    if calls == [] then [] else calls[0].ran + AllRan(calls[1..])
  }

  function AllLists(calls: seq<TeardownCall>): seq<nat> {
    if calls == [] then [] else calls[0].list + AllLists(calls[1..])
  }

  ghost predicate CallOk(t: TeardownCall) {
    && |t.ran| <= |t.list|
    && t.ran == Reverse(t.list)[..|t.ran|]
    && multiset(t.failed) <= multiset(t.ran)
  }

  ghost predicate Inv(s: State) {
    && (forall c :: 0 <= c < |s.calls| ==> CallOk(s.calls[c]))
    && AllLists(s.calls) + s.undos == s.tracked
    && (forall u: nat :: multiset(s.tracked)[u] + multiset(s.untracked)[u] == if u < s.issued then 1 else 0)
    && (match s.watcher
        case TearingDown(c) => c < |s.calls|
        case Reported(c) => c < |s.calls| && s.calls[c].Complete()
        case _ => true)
  }

  lemma {:induction false} AllListsAppend(calls: seq<TeardownCall>, t: TeardownCall)
    ensures AllLists(calls + [t]) == AllLists(calls) + t.list
  {
    if calls == [] {
      assert calls + [t] == [t];
      assert AllLists([t]) == t.list + AllLists([]);
    } else {
      assert (calls + [t])[1..] == calls[1..] + [t];
      AllListsAppend(calls[1..], t);
    }
  }

  lemma {:induction false} AllListsUpdate(calls: seq<TeardownCall>, c: nat, t: TeardownCall)
    requires c < |calls| && t.list == calls[c].list
    ensures AllLists(calls[c := t]) == AllLists(calls)
  {
    if c > 0 {
      assert calls[c := t][1..] == calls[1..][c - 1 := t];
      AllListsUpdate(calls[1..], c - 1, t);
    } else {
      assert calls[c := t][1..] == calls[1..];
    }
  }

  lemma ReverseNext(t: TeardownCall)
    requires CallOk(t) && |t.ran| < |t.list|
    ensures t.ran + [t.list[|t.list| - 1 - |t.ran|]] == Reverse(t.list)[..|t.ran| + 1]
  {
  }

  lemma TrackPreserves(s: State, i: nat)
    requires Inv(s) && Enabled(s, Track(i))
    ensures Inv(Next(s, Track(i)))
  {
    var s' := Next(s, Track(i));
    var u := s.untracked;
    assert u == u[..i] + [u[i]] + u[i + 1..];
    assert multiset(u) == multiset(s'.untracked) + multiset{u[i]};
    assert multiset(s'.tracked) == multiset(s.tracked) + multiset{u[i]};
    assert AllLists(s.calls) + (s.undos + [u[i]]) == (AllLists(s.calls) + s.undos) + [u[i]];
  }

  lemma SwapPreserves(s: State)
    requires Inv(s)
    ensures Inv(SwapOut(s))
    ensures SwapOut(s).calls[|s.calls|] == TeardownCall(s.undos, [], [])
  {
    AllListsAppend(s.calls, TeardownCall(s.undos, [], []));
  }

  lemma RunUndoPreserves(s: State, c: nat, ok: bool)
    requires Inv(s) && Enabled(s, RunUndo(c, ok))
    ensures Inv(Next(s, RunUndo(c, ok)))
  {
    var t := Next(s, RunUndo(c, ok)).calls[c];
    ReverseNext(s.calls[c]);
    assert CallOk(t);
    AllListsUpdate(s.calls, c, t);
  }

  lemma Preserved(s: State, a: Action)
    requires Inv(s) && Enabled(s, a)
    ensures Inv(Next(s, a))
  {
    match a {
      case Track(i) => TrackPreserves(s, i);
      case Swap => SwapPreserves(s);
      case SignalSwap => SwapPreserves(s);
      case RunUndo(c, ok) => RunUndoPreserves(s, c, ok);
      case ApplySucceeds =>
        assert multiset(Next(s, a).untracked) == multiset(s.untracked) + multiset{s.issued};
      case _ =>
    }
  }

  lemma {:induction false} LeadsKeepsInv(s: State, steps: seq<Action>, t: State)
    requires Inv(s) && Leads(s, steps, t)
    ensures Inv(t)
    decreases |steps|
  {
    if steps == [] {
    } else {
      Preserved(s, steps[0]);
      LeadsKeepsInv(Next(s, steps[0]), steps[1..], t);
    }
  }

  lemma ReachableInv(s: State)
    requires Reachable(s)
    ensures Inv(s)
  {
    var steps :| Leads(INIT, steps, s);
    LeadsKeepsInv(INIT, steps, s);
  }

  lemma {:induction false} LeadsOneMore(s: State, steps: seq<Action>, t: State, a: Action)
    requires Leads(s, steps, t) && Enabled(t, a)
    ensures Leads(s, steps + [a], Next(t, a))
    decreases |steps|
  {
    if steps == [] {
      assert [a][1..] == [];
      assert steps + [a] == [a];
    } else {
      LeadsOneMore(Next(s, steps[0]), steps[1..], t, a);
      assert (steps + [a])[1..] == steps[1..] + [a];
    }
  }

  // ----------------------------------------------------------- the theorems

  lemma {:induction false} ListsSplit(calls: seq<TeardownCall>, u: nat)
    requires forall c :: 0 <= c < |calls| ==> CallOk(calls[c])
    ensures multiset(AllLists(calls))[u] == multiset(AllWaiting(calls))[u] + multiset(AllRan(calls))[u]
  {
    if calls == [] {
    } else {
      ListsSplit(calls[1..], u);
      var t := calls[0];
      RanIsTail(t);
    }
  }

  lemma {:induction false} ReversePermutes<T>(s: seq<T>)
    ensures multiset(Reverse(s)) == multiset(s)
  {
    if s != [] {
      ReversePermutes(s[1..]);
      assert s == [s[0]] + s[1..];
    }
  }

  lemma RanIsTail(t: TeardownCall)
    requires CallOk(t)
    ensures multiset(t.list) == multiset(t.Waiting()) + multiset(t.ran)
  {
    var n := |t.list| - |t.ran|;
    assert t.ran == Reverse(t.list[n..]);
    ReversePermutes(t.list[n..]);
    assert t.list == t.list[..n] + t.list[n..];
  }

  /** Wherever the steps interleave, the undo of each successful apply is in
      exactly one place, once: not yet tracked, in the manager's list, on some
      Teardown's private list, or already run. */
  lemma ExactlyOnePlace(s: State, u: nat)
    requires Reachable(s)
    ensures multiset(s.untracked)[u] + multiset(s.undos)[u]
          + multiset(AllWaiting(s.calls))[u] + multiset(AllRan(s.calls))[u]
         == if u < s.issued then 1 else 0
  {
    ReachableInv(s);
    ListsSplit(s.calls, u);
    assert multiset(s.tracked) == multiset(AllLists(s.calls)) + multiset(s.undos);
  }

  /** Each Teardown runs a prefix of its list's reverse, failing undos included;
      its list is one contiguous stretch of the tracking order. */
  lemma ReverseTrackingOrder(s: State, c: nat)
    requires Reachable(s) && c < |s.calls|
    ensures |s.calls[c].ran| <= |s.calls[c].list|
    ensures s.calls[c].ran == Reverse(s.calls[c].list)[..|s.calls[c].ran|]
    ensures s.calls[c].Complete() ==> s.calls[c].ran == Reverse(s.calls[c].list)
    ensures s.tracked == AllLists(s.calls[..c]) + s.calls[c].list + AllLists(s.calls[c + 1..]) + s.undos
  {
    ReachableInv(s);
    AllListsAt(s.calls, c);
  }

  lemma {:induction false} AllListsAt(calls: seq<TeardownCall>, c: nat)
    requires c < |calls|
    ensures AllLists(calls) == AllLists(calls[..c]) + calls[c].list + AllLists(calls[c + 1..])
  {
    if c > 0 {
      AllListsAt(calls[1..], c - 1);
      assert calls[1..][..c - 1] == calls[..c][1..];
      assert calls[1..][c..] == calls[c + 1..];
    }
  }

  /** A value on `caught` means that the signal's own Teardown has run every undo it took. */
  lemma CaughtAfterTeardown(s: State)
    requires Reachable(s) && s.watcher.Reported?
    ensures s.watcher.call < |s.calls| && s.calls[s.watcher.call].ran == Reverse(s.calls[s.watcher.call].list)
  {
    ReachableInv(s);
  }

  /** Once nothing is in flight and the list is empty, every undo has run exactly once. */
  lemma DrainedRanOnce(s: State, u: nat)
    requires Reachable(s) && s.untracked == [] && s.undos == []
    requires forall c :: 0 <= c < |s.calls| ==> s.calls[c].Complete()
    ensures multiset(AllRan(s.calls))[u] == if u < s.issued then 1 else 0
  {
    ExactlyOnePlace(s, u);
    NothingWaits(s.calls);
  }

  lemma {:induction false} NothingWaits(calls: seq<TeardownCall>)
    requires forall c :: 0 <= c < |calls| ==> calls[c].Complete()
    ensures AllWaiting(calls) == []
  {
    if calls != [] {
      assert forall c :: 0 <= c < |calls[1..]| ==> calls[1..][c] == calls[c + 1];
      NothingWaits(calls[1..]);
    }
  }

  /** Teardown promises to remove every fault applied so far. When it takes its
      list, that list and the earlier ones hold every successful apply's undo
      if and only if no Apply is between its applier call and its track. */
  lemma SwapTakesEveryAppliedFault(s: State)
    requires Reachable(s)
    ensures (forall u: nat :: u < s.issued ==> u in AllLists(Next(s, Swap).calls)) <==> s.untracked == []
  {
    ReachableInv(s);
    AllListsAppend(s.calls, TeardownCall(s.undos, [], []));
    assert AllLists(Next(s, Swap).calls) == s.tracked;
    if s.untracked == [] {
      forall u: nat | u < s.issued ensures u in s.tracked {
        assert multiset(s.tracked)[u] == 1;
      }
    } else {
      var u := s.untracked[0];
      assert u in multiset(s.untracked);
      assert multiset(s.tracked)[u] == 0;
      assert u !in s.tracked;
    }
  }

  /** The stranded undo is real: an apply whose track loses the race to the last
      swap stays applied through any further run that has no other Teardown. */
  lemma {:induction false} StrandedUntilAnotherTeardown(s: State, rest: seq<Action>, s': State, u: nat)
    requires Reachable(s) && (u in s.untracked || u in s.undos)
    requires Leads(s, rest, s')
    requires forall i :: 0 <= i < |rest| ==> rest[i] != Swap && rest[i] != SignalSwap
    ensures u in s'.untracked || u in s'.undos
    ensures u !in AllRan(s'.calls)
    decreases |rest|
  {
    if rest == [] {
      ExactlyOnePlace(s, u);
      assert u in s.untracked <==> u in multiset(s.untracked);
      assert u in s.undos <==> u in multiset(s.undos);
      assert u in AllRan(s.calls) <==> u in multiset(AllRan(s.calls));
    } else {
      var n := Next(s, rest[0]);
      assert Reachable(n) by {
        var steps :| Leads(INIT, steps, s);
        LeadsOneMore(INIT, steps, s, rest[0]);
      }
      assert rest[0] != Swap && rest[0] != SignalSwap;
      if rest[0].Track? && u in s.untracked {
        var i :| 0 <= i < |s.untracked| && s.untracked[i] == u;
        var t := rest[0].i;
        if i < t { assert n.untracked[i] == u; }
        else if i > t { assert n.untracked[i - 1] == u; }
        else { assert n.undos[|s.undos|] == u; }
      }
      forall i | 0 <= i < |rest[1..]| ensures rest[1..][i] != Swap && rest[1..][i] != SignalSwap {
        assert rest[1..][i] == rest[i + 1];
      }
      StrandedUntilAnotherTeardown(n, rest[1..], s', u);
    }
  }

  lemma {:induction false} IncompleteWaits(calls: seq<TeardownCall>, c: nat)
    requires c < |calls| && CallOk(calls[c]) && !calls[c].Complete()
    ensures AllWaiting(calls) != []
  {
    if c > 0 { IncompleteWaits(calls[1..], c - 1); }
  }

  /** At any moment, the one at which a caller receives from caught included,
      every applied fault has been undone if and only if none is untracked, none
      is listed, and every Teardown, not the signal's alone, has finished. */
  lemma AllUndoneIff(s: State)
    requires Reachable(s)
    ensures (forall u: nat :: u < s.issued ==> u in AllRan(s.calls))
       <==> s.untracked == [] && s.undos == [] && forall c :: 0 <= c < |s.calls| ==> s.calls[c].Complete()
  {
    ReachableInv(s);
    if s.untracked != [] {
      StillApplied(s, s.untracked[0]);
    } else if s.undos != [] {
      StillApplied(s, s.undos[0]);
    } else if c :| 0 <= c < |s.calls| && !s.calls[c].Complete() {
      IncompleteWaits(s.calls, c);
      StillApplied(s, AllWaiting(s.calls)[0]);
    } else {
      forall u: nat | u < s.issued ensures u in AllRan(s.calls) {
        DrainedRanOnce(s, u);
        assert u in multiset(AllRan(s.calls));
      }
    }
  }

  lemma StillApplied(s: State, u: nat)
    requires Reachable(s) && (u in s.untracked || u in s.undos || u in AllWaiting(s.calls))
    ensures u < s.issued && u !in AllRan(s.calls)
  {
    ExactlyOnePlace(s, u);
    assert u in multiset(s.untracked) || u in multiset(s.undos) || u in multiset(AllWaiting(s.calls));
    assert u in AllRan(s.calls) <==> u in multiset(AllRan(s.calls));
  }

  // ---------------------------------------------------------- what is reported

  /** How the undos of call c went, in the order they were run. */
  function Outcomes(steps: seq<Action>, c: nat): seq<bool> {
    if steps == [] then []
    else (if steps[0].RunUndo? && steps[0].c == c then [steps[0].ok] else []) + Outcomes(steps[1..], c)
  }

  /** Those of ran that did not go well. */
  function Failing(ran: seq<nat>, oks: seq<bool>): seq<nat>
    requires |ran| == |oks|
  {
    if ran == [] then [] else (if oks[0] then [] else [ran[0]]) + Failing(ran[1..], oks[1..])
  }

  function CallAt(s: State, c: nat): TeardownCall {
    if c < |s.calls| then s.calls[c] else TeardownCall([], [], [])
  }

  lemma {:induction false} OutcomesFollow(s: State, steps: seq<Action>, t: State, c: nat) returns (more: seq<nat>)
    requires Leads(s, steps, t)
    ensures |more| == |Outcomes(steps, c)|
    ensures CallAt(t, c).ran == CallAt(s, c).ran + more
    ensures CallAt(t, c).failed == CallAt(s, c).failed + Failing(more, Outcomes(steps, c))
    decreases |steps|
  {
    if steps == [] {
      more := [];
    } else {
      var a, n := steps[0], Next(s, steps[0]);
      var rest := OutcomesFollow(n, steps[1..], t, c);
      if a.RunUndo? && a.c == c {
        var u := n.calls[c].ran[|s.calls[c].ran|];
        more := [u] + rest;
        assert n.calls[c].ran == s.calls[c].ran + [u];
        assert n.calls[c].failed == s.calls[c].failed + if a.ok then [] else [u];
        assert Outcomes(steps, c) == [a.ok] + Outcomes(steps[1..], c);
        assert more[1..] == rest && Outcomes(steps, c)[1..] == Outcomes(steps[1..], c);
      } else {
        more := rest;
        assert CallAt(n, c).ran == CallAt(s, c).ran && CallAt(n, c).failed == CallAt(s, c).failed;
        assert Outcomes(steps, c) == Outcomes(steps[1..], c);
      }
    }
  }

  /** Each Teardown reports exactly the undos of its own that failed, in the order it
      ran them. */
  lemma FailuresAreReported(steps: seq<Action>, s: State, c: nat)
    requires Leads(INIT, steps, s) && c < |s.calls|
    ensures |s.calls[c].ran| == |Outcomes(steps, c)|
    ensures s.calls[c].failed == Failing(s.calls[c].ran, Outcomes(steps, c))
  {
    var more := OutcomesFollow(INIT, steps, s, c);
    assert s.calls[c].ran == more;
  }

  // ------------------------------------------------------------ failing runs

  /** caught has fired, and no undo has run of the one fault applied. */
  predicate CaughtTooEarly(s: State) {
    s.watcher.Reported? && s.issued == 1 && forall c :: 0 <= c < |s.calls| ==> s.calls[c].ran == []
  }

  /** Every Teardown is over, and a tracked fault waits for another. */
  predicate LeftListed(s: State) {
    CaughtTooEarly(s) && s.undos != [] && forall c :: 0 <= c < |s.calls| ==> s.calls[c].Complete()
  }

  /** The stranded apply happens: the signal's Teardown runs between an apply's
      success and its track, and reports. */
  lemma SignalCanStrandAnApply()
    ensures exists steps, s :: Leads(INIT, steps, s) && LeftListed(s)
  {
    var steps, s := Snoc([], INIT, ApplySucceeds);
    steps, s := Snoc(steps, s, Signal);
    steps, s := Snoc(steps, s, SignalSwap);
    steps, s := Snoc(steps, s, SignalReport);
    steps, s := Snoc(steps, s, Track(0));
    assert LeftListed(s);
  }

  /** And the signal can report while another Teardown, with nothing left for the
      signal's to take, has yet to run its first undo. */
  lemma CaughtCanComeBeforeAnUndo()
    ensures exists steps, s :: Leads(INIT, steps, s) && CaughtTooEarly(s) && s.untracked == [] && s.undos == []
  {
    var steps, s := Snoc([], INIT, ApplySucceeds);
    steps, s := Snoc(steps, s, Track(0));
    steps, s := Snoc(steps, s, Swap);
    steps, s := Snoc(steps, s, Signal);
    steps, s := Snoc(steps, s, SignalSwap);
    steps, s := Snoc(steps, s, SignalReport);
    assert CaughtTooEarly(s);
  }

  lemma Snoc(steps: seq<Action>, s: State, a: Action) returns (steps': seq<Action>, s': State)
    requires Leads(INIT, steps, s) && Enabled(s, a)
    ensures Leads(INIT, steps', s') && s' == Next(s, a)
  {
    LeadsOneMore(INIT, steps, s, a);
    steps', s' := steps + [a], Next(s, a);
  }
}
