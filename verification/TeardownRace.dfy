/** One container limit under concurrent applies (internal/run/docker_applier.go,
    internal/run/scheduler.go), any number of Teardowns, the signal's among them
    (internal/fault/manager.go), and the expiry of faults with a for: duration. */
module TeardownRace {
  import L = ContainerLimits

  /** What an apply read; late says that some apply had updated before. */
  datatype Reading = Reading(value: nat, late: bool)

  /** The last write to the limit: an apply's, or an undo's of what was read. */
  datatype Write = Nothing | Limit | Back(late: bool)

  /** prev[a] is what apply a read; updated holds those that have written; a call
      lists what that Teardown has yet to write back, last first; timed lists the
      undos of for: faults that neither their timer nor the tracker's teardown has
      run. dirty (some apply has updated) and last are history. */
  datatype State = State(
    slot: L.Slot,
    value: nat,
    prev: map<nat, Reading>,
    updated: set<nat>,
    undos: seq<Reading>,
    calls: seq<seq<Reading>>,
    timed: seq<Reading>,
    dirty: bool,
    last: Write)

  function Init(slot: L.Slot, original: nat): State {
    State(slot, original, map[], {}, [], [], [], false, Nothing)
  }

  datatype Action =
    | Inspect(a: nat)
    | Refused(a: nat)               // the update fails: nothing is written or tracked
    | Update(a: nat, limit: nat)
    | Track(a: nat)
    | Swap                          // a Teardown, or the signal's, takes the list
    | Undo(c: nat, ok: bool, halfUp: bool)
    | Arm(a: nat)                   // a for: fault: its undo goes to the expiry tracker
    | Expire(i: nat, ok: bool, halfUp: bool)   // timer or tracker, whichever is first

  predicate Enabled(s: State, a: Action) {
    match a
    case Inspect(n) => n !in s.prev
    case Refused(n) => n in s.prev && n !in s.updated
    case Update(n, _) => n in s.prev && n !in s.updated
    case Track(n) => n in s.prev && n in s.updated
    case Swap => true
    case Undo(c, _, _) => c < |s.calls| && s.calls[c] != []
    case Arm(n) => n in s.prev && n in s.updated
    case Expire(i, _, _) => i < |s.timed|
  }

  /** What an undo writes back of a value read. */
  function Rewritten(slot: L.Slot, value: nat, halfUp: bool): nat {
    L.Restored(L.Undo(slot, value, halfUp))
  }

  /** An undo runs; a failing one writes nothing and is not run again. */
  function RunUndo(s: State, r: Reading, ok: bool, halfUp: bool): State {
    if ok then s.(value := Rewritten(s.slot, r.value, halfUp), last := Back(r.late)) else s
  }

  function Next(s: State, a: Action): State
    requires Enabled(s, a)
  {
    match a
    case Inspect(n) => s.(prev := s.prev[n := Reading(s.value, s.dirty)])
    case Refused(n) => s.(prev := s.prev - {n})
    case Update(n, limit) => s.(value := limit, updated := s.updated + {n}, dirty := true, last := Limit)
    case Track(n) => s.(prev := s.prev - {n}, updated := s.updated - {n}, undos := s.undos + [s.prev[n]])
    case Swap => s.(undos := [], calls := s.calls + [s.undos])
    case Undo(c, ok, halfUp) =>
      var list := s.calls[c];
      RunUndo(s.(calls := s.calls[c := list[..|list| - 1]]), list[|list| - 1], ok, halfUp)
    case Arm(n) => s.(prev := s.prev - {n}, updated := s.updated - {n}, timed := s.timed + [s.prev[n]])
    case Expire(i, ok, halfUp) => RunUndo(s.(timed := s.timed[..i] + s.timed[i + 1..]), s.timed[i], ok, halfUp)
  }

  predicate Leads(s: State, steps: seq<Action>, t: State)
    decreases |steps|
  {
    if steps == [] then t == s
    else Enabled(s, steps[0]) && Leads(Next(s, steps[0]), steps[1..], t)
  }

  /** No apply is between its inspect and its track. */
  predicate NoneInFlight(s: State) { s.prev == map[] }

  predicate TeardownsDone(s: State) {
    forall c :: 0 <= c < |s.calls| ==> s.calls[c] == []
  }

  /** The undo of everything applied has been run. */
  predicate Drained(s: State) {
    NoneInFlight(s) && s.updated == {} && s.undos == [] && TeardownsDone(s) && s.timed == []
  }

  // ------------------------------------------------------------ orderly runs

  /** An apply starts only when no other apply, no Teardown and no for: fault is at
      work on the limit; a Teardown takes the list only when neither an apply nor a
      for: fault is; and the undo that returns the limit succeeds. */
  predicate Orderly(s: State, a: Action) {
    match a
    case Inspect(_) => NoneInFlight(s) && TeardownsDone(s) && s.timed == []
    case Swap => NoneInFlight(s) && s.timed == []
    case Undo(c, ok, _) => ok || (c < |s.calls| && |s.calls[c]| > 1)
    case Expire(_, ok, _) => ok || s.undos != []
    case _ => true
  }

  /** The steps of a run that are out of order. */
  function Disorders(s: State, steps: seq<Action>): seq<Action>
    decreases |steps|
  {
    if steps == [] || !Enabled(s, steps[0]) then []
    else (if Orderly(s, steps[0]) then [] else [steps[0]]) + Disorders(Next(s, steps[0]), steps[1..])
  }

  /** The original, or the original as an undo writes it. */
  predicate Near(slot: L.Slot, original: nat, v: nat) {
    v == original || v == Rewritten(slot, original, true) || v == Rewritten(slot, original, false)
  }

  /** However often a value is read and written back, it is rounded only once. */
  lemma RewritingStaysNear(slot: L.Slot, original: nat, v: nat, halfUp: bool)
    requires Near(slot, original, v)
    ensures Near(slot, original, Rewritten(slot, v, halfUp))
  {
    if slot.Cpu? && v != original {
      assert v % L.NANO_PER_HUNDREDTH == 0;
      assert Rewritten(slot, v, halfUp) == v;
    }
  }

  /** c is the one Teardown with something left to do. */
  predicate OnlyPending(s: State, c: nat) {
    && c < |s.calls| && s.calls[c] != []
    && (forall d :: 0 <= d < |s.calls| && d != c ==> s.calls[d] == [])
  }

  /** What is still to be undone ends with the original: through the list, the
      apply in flight, the for: fault, or the one Teardown at work. */
  ghost predicate Inv(original: nat, s: State) {
    && s.updated <= s.prev.Keys
    && (forall a, b :: a in s.prev && b in s.prev ==> a == b)
    && (if TeardownsDone(s) then OpenStack(original, s) else ClosedStack(original, s))
  }

  ghost predicate OpenStack(original: nat, s: State) {
    && |s.timed| <= 1 && (s.timed != [] ==> NoneInFlight(s))
    && (s.undos != [] ==> Near(s.slot, original, s.undos[0].value))
    && (s.undos == [] && s.updated == {} && s.timed == [] ==> Near(s.slot, original, s.value))
    && (s.undos == [] ==> forall a :: a in s.prev ==> Near(s.slot, original, s.prev[a].value))
    && (s.undos == [] && s.timed != [] ==> Near(s.slot, original, s.timed[0].value))
  }

  ghost predicate ClosedStack(original: nat, s: State) {
    && NoneInFlight(s) && s.undos == [] && s.timed == []
    && exists c: nat :: OnlyPending(s, c) && Near(s.slot, original, s.calls[c][0].value)
  }

  lemma SwapPreserves(original: nat, s: State)
    requires Inv(original, s) && Orderly(s, Swap)
    ensures Inv(original, Next(s, Swap))
  {
    var n := Next(s, Swap);
    var last := |s.calls|;
    assert n.calls[last] == s.undos && forall c :: 0 <= c < last ==> n.calls[c] == s.calls[c];
    if TeardownsDone(s) {
      if s.undos != [] { assert OnlyPending(n, last); }
    } else {
      var c: nat :| OnlyPending(s, c) && Near(s.slot, original, s.calls[c][0].value);
      assert OnlyPending(n, c) && Near(n.slot, original, n.calls[c][0].value);
    }
  }

  lemma ExpirePreserves(original: nat, s: State, i: nat, ok: bool, halfUp: bool)
    requires Inv(original, s) && Enabled(s, Expire(i, ok, halfUp)) && Orderly(s, Expire(i, ok, halfUp))
    ensures Inv(original, Next(s, Expire(i, ok, halfUp)))
  {
    assert TeardownsDone(s) && i == 0 && |s.timed| == 1;
    if s.undos == [] { RewritingStaysNear(s.slot, original, s.timed[0].value, halfUp); }
  }

  lemma UndoPreserves(original: nat, s: State, c: nat, ok: bool, halfUp: bool)
    requires Inv(original, s) && Enabled(s, Undo(c, ok, halfUp)) && Orderly(s, Undo(c, ok, halfUp))
    ensures Inv(original, Next(s, Undo(c, ok, halfUp)))
  {
    var n := Next(s, Undo(c, ok, halfUp));
    var p: nat :| OnlyPending(s, p) && Near(s.slot, original, s.calls[p][0].value);
    assert p == c;
    if |s.calls[c]| > 1 {
      assert OnlyPending(n, c) && Near(n.slot, original, n.calls[c][0].value);
    } else {
      RewritingStaysNear(s.slot, original, s.calls[c][0].value, halfUp);
    }
  }

  lemma ApplyPreserves(original: nat, s: State, a: Action)
    requires Inv(original, s) && Enabled(s, a) && Orderly(s, a) && !a.Swap? && !a.Undo? && !a.Expire?
    ensures Inv(original, Next(s, a))
  {
    assert TeardownsDone(s);
    assert Next(s, a).calls == s.calls;
  }

  lemma {:induction false} OrderlyKeepsInv(original: nat, s: State, steps: seq<Action>, t: State)
    requires Inv(original, s) && Leads(s, steps, t) && Disorders(s, steps) == []
    ensures Inv(original, t) && t.slot == s.slot
    decreases |steps|
  {
    if steps != [] {
      match steps[0] {
        case Swap => SwapPreserves(original, s);
        case Undo(c, ok, halfUp) => UndoPreserves(original, s, c, ok, halfUp);
        case Expire(i, ok, halfUp) => ExpirePreserves(original, s, i, ok, halfUp);
        case _ => ApplyPreserves(original, s, steps[0]);
      }
      OrderlyKeepsInv(original, Next(s, steps[0]), steps[1..], t);
    }
  }

  /** What restored means: memory exactly, CPU to within 0.005 core. */
  predicate Within(slot: L.Slot, original: nat, v: nat) {
    if slot.Memory? then v == original else -5_000_000 <= v - original <= 5_000_000
  }

  lemma NearIsWithin(slot: L.Slot, original: nat, v: nat)
    requires Near(slot, original, v)
    ensures Within(slot, original, v)
  {
    L.RestoredIsNear(L.Undo(slot, original, true));
    L.RestoredIsNear(L.Undo(slot, original, false));
  }

  /** Over any orderly run, with any number of applies, refusals, expiries, failing
      undos and Teardowns in any number of rounds, the limit is restored whenever
      all is undone. */
  lemma OrderlyRunsRestore(slot: L.Slot, original: nat, s: State, steps: seq<Action>, t: State)
    requires s == Init(slot, original) && Leads(s, steps, t) && Disorders(s, steps) == []
    ensures Drained(t) ==> Within(slot, original, t.value)
  {
    OrderlyKeepsInv(original, s, steps, t);
    if Drained(t) { NearIsWithin(slot, original, t.value); }
  }

  // ------------------------------------------------------ the exact condition

  /** A value that no undo, writing it back, brings within 0.005 core of the original. */
  predicate Away(slot: L.Slot, original: nat, v: nat) {
    if slot.Memory? then v != original
    else
      || v - original > 10_000_000 || original - v > 10_000_000
      || ((v - original > 5_000_000 || original - v > 5_000_000) && v % L.NANO_PER_HUNDREDTH == 0)
  }

  lemma RewritingStaysAway(slot: L.Slot, original: nat, v: nat, halfUp: bool)
    requires Away(slot, original, v)
    ensures Away(slot, original, Rewritten(slot, v, halfUp)) && !Within(slot, original, Rewritten(slot, v, halfUp))
  {
    L.RestoredIsNear(L.Undo(slot, v, halfUp));
    if slot.Cpu? { assert Rewritten(slot, v, halfUp) % L.NANO_PER_HUNDREDTH == 0; }
  }

  /** No fault sets a limit that could pass for the original. */
  predicate LimitsAway(slot: L.Slot, original: nat, steps: seq<Action>) {
    forall i :: 0 <= i < |steps| && steps[i].Update? ==> Away(slot, original, steps[i].limit)
  }

  const MARK: nat := L.NANO_PER_HUNDREDTH

  /** The bare schedule of a run: every update writes the mark. */
  function Bare(a: Action): Action {
    if a.Update? then Update(a.a, MARK) else a
  }

  function BareSteps(steps: seq<Action>): seq<Action> {
    if steps == [] then [] else [Bare(steps[0])] + BareSteps(steps[1..])
  }

  /** Where the steps end. */
  function End(s: State, steps: seq<Action>): State
    decreases |steps|
  {
    if steps == [] || !Enabled(s, steps[0]) then s else End(Next(s, steps[0]), steps[1..])
  }

  /** v descends from the original when w, in the bare run, is 0; and, if the limits
      are away from it, v is away from it otherwise. */
  predicate SameValue(slot: L.Slot, original: nat, away: bool, v: nat, w: nat) {
    && (w == 0 || w == MARK)
    && (w == 0 ==> Near(slot, original, v)) && (away && w != 0 ==> Away(slot, original, v))
  }

  predicate SameReading(slot: L.Slot, original: nat, away: bool, r: Reading, q: Reading) {
    SameValue(slot, original, away, r.value, q.value) && r.late == q.late
  }

  predicate SameReadings(slot: L.Slot, original: nat, away: bool, rs: seq<Reading>, qs: seq<Reading>) {
    |rs| == |qs| && forall i :: 0 <= i < |rs| ==> SameReading(slot, original, away, rs[i], qs[i])
  }

  ghost predicate Same(original: nat, away: bool, s: State, z: State) {
    && s.slot == z.slot && s.updated == z.updated && s.dirty == z.dirty && s.last == z.last
    && SameValue(s.slot, original, away, s.value, z.value)
    && s.prev.Keys == z.prev.Keys
    && (forall a :: a in s.prev ==> SameReading(s.slot, original, away, s.prev[a], z.prev[a]))
    && SameReadings(s.slot, original, away, s.undos, z.undos)
    && SameReadings(s.slot, original, away, s.timed, z.timed)
    && |s.calls| == |z.calls|
    && (forall c :: 0 <= c < |s.calls| ==> SameReadings(s.slot, original, away, s.calls[c], z.calls[c]))
  }

  lemma SameRewritten(slot: L.Slot, original: nat, away: bool, v: nat, w: nat, halfUp: bool)
    requires SameValue(slot, original, away, v, w)
    ensures SameValue(slot, original, away, Rewritten(slot, v, halfUp), Rewritten(slot, w, halfUp))
  {
    assert Rewritten(slot, w, halfUp) == w;
    if w == 0 { RewritingStaysNear(slot, original, v, halfUp); }
    if away && w != 0 { RewritingStaysAway(slot, original, v, halfUp); }
  }

  lemma SameApplyStep(original: nat, away: bool, s: State, z: State, a: Action)
    requires Same(original, away, s, z) && Enabled(s, a) && !a.Undo? && !a.Swap? && !a.Expire?
    requires a.Update? && away ==> Away(s.slot, original, a.limit)
    ensures Enabled(z, Bare(a)) && Same(original, away, Next(s, a), Next(z, Bare(a)))
  {
    var n, m := Next(s, a), Next(z, Bare(a));
    assert n.calls == s.calls && m.calls == z.calls;
    if a.Track? {
      assert SameReadings(s.slot, original, away, n.undos, m.undos);
    } else if a.Arm? {
      assert SameReadings(s.slot, original, away, n.timed, m.timed);
    }
  }

  lemma SameSwapStep(original: nat, away: bool, s: State, z: State)
    requires Same(original, away, s, z)
    ensures Same(original, away, Next(s, Swap), Next(z, Swap))
  {
  }

  lemma SameRunUndo(original: nat, away: bool, s: State, z: State, r: Reading, q: Reading, ok: bool, halfUp: bool)
    requires Same(original, away, s, z) && SameReading(s.slot, original, away, r, q)
    ensures Same(original, away, RunUndo(s, r, ok, halfUp), RunUndo(z, q, ok, halfUp))
  {
    SameRewritten(s.slot, original, away, r.value, q.value, halfUp);
  }

  lemma SameUndoStep(original: nat, away: bool, s: State, z: State, c: nat, ok: bool, halfUp: bool)
    requires Same(original, away, s, z) && Enabled(s, Undo(c, ok, halfUp))
    ensures Enabled(z, Undo(c, ok, halfUp)) && Same(original, away, Next(s, Undo(c, ok, halfUp)), Next(z, Undo(c, ok, halfUp)))
  {
    var rs, qs := s.calls[c], z.calls[c];
    assert SameReadings(s.slot, original, away, rs, qs);
    var last := |rs| - 1;
    assert SameReading(s.slot, original, away, rs[last], qs[last]);
    assert SameReadings(s.slot, original, away, rs[..last], qs[..last]);
    SameRunUndo(original, away, s.(calls := s.calls[c := rs[..last]]), z.(calls := z.calls[c := qs[..last]]), rs[last], qs[last], ok, halfUp);
  }

  lemma SameExpireStep(original: nat, away: bool, s: State, z: State, i: nat, ok: bool, halfUp: bool)
    requires Same(original, away, s, z) && Enabled(s, Expire(i, ok, halfUp))
    ensures Enabled(z, Expire(i, ok, halfUp)) && Same(original, away, Next(s, Expire(i, ok, halfUp)), Next(z, Expire(i, ok, halfUp)))
  {
    var rs, qs := s.timed, z.timed;
    assert SameReading(s.slot, original, away, rs[i], qs[i]);
    assert SameReadings(s.slot, original, away, rs[..i] + rs[i + 1..], qs[..i] + qs[i + 1..]);
    SameRunUndo(original, away, s.(timed := rs[..i] + rs[i + 1..]), z.(timed := qs[..i] + qs[i + 1..]), rs[i], qs[i], ok, halfUp);
  }

  lemma SameStep(original: nat, away: bool, s: State, z: State, a: Action)
    requires Same(original, away, s, z) && Enabled(s, a)
    requires a.Update? && away ==> Away(s.slot, original, a.limit)
    ensures Enabled(z, Bare(a)) && Same(original, away, Next(s, a), Next(z, Bare(a)))
  {
    match a {
      case Swap => SameSwapStep(original, away, s, z);
      case Undo(c, ok, halfUp) => SameUndoStep(original, away, s, z, c, ok, halfUp);
      case Expire(i, ok, halfUp) => SameExpireStep(original, away, s, z, i, ok, halfUp);
      case _ => SameApplyStep(original, away, s, z, a);
    }
  }

  lemma {:induction false} SameRun(original: nat, away: bool, s: State, z: State, steps: seq<Action>, t: State)
    requires Same(original, away, s, z) && Leads(s, steps, t) && (away ==> LimitsAway(s.slot, original, steps))
    ensures Leads(z, BareSteps(steps), End(z, BareSteps(steps)))
    ensures Same(original, away, t, End(z, BareSteps(steps))) && t.slot == s.slot
    decreases |steps|
  {
    if steps != [] {
      var a := steps[0];
      SameStep(original, away, s, z, a);
      assert BareSteps(steps)[1..] == BareSteps(steps[1..]);
      SameRun(original, away, Next(s, a), Next(z, Bare(a)), steps[1..], t);
    }
  }

  lemma SameDrained(original: nat, away: bool, s: State, z: State)
    requires Same(original, away, s, z)
    ensures Drained(s) <==> Drained(z)
  {
    assert s.prev == map[] <==> s.prev.Keys == {};
    assert z.prev == map[] <==> z.prev.Keys == {};
    assert forall c :: 0 <= c < |s.calls| ==> SameReadings(s.slot, original, away, s.calls[c], z.calls[c]);
  }

  /** The exact condition, for any run at all, overlaps, expiries and failing undos
      included, and any limits: if the bare schedule, run from no limit, ends with
      none, the limit ends as the original or as one undo writes it, so restored;
      and, unless some fault sets what could pass for the original, only then. */
  lemma RestoredIff(slot: L.Slot, original: nat, steps: seq<Action>, t: State)
    requires Leads(Init(slot, original), steps, t)
    ensures var bare := End(Init(slot, 0), BareSteps(steps));
      && Leads(Init(slot, 0), BareSteps(steps), bare)
      && (Drained(t) <==> Drained(bare))
      && (bare.value == 0 ==> Near(slot, original, t.value) && Within(slot, original, t.value))
      && (LimitsAway(slot, original, steps) ==> (Within(slot, original, t.value) <==> bare.value == 0))
  {
    var away := LimitsAway(slot, original, steps);
    SameRun(original, away, Init(slot, original), Init(slot, 0), steps, t);
    var bare := End(Init(slot, 0), BareSteps(steps));
    SameDrained(original, away, t, bare);
    if bare.value == 0 { NearIsWithin(slot, original, t.value); }
  }

  /** A value that an undo writes back as it was read: any memory limit, and a CPU
      limit of whole hundredths of a core. */
  predicate Whole(slot: L.Slot, v: nat) {
    slot.Memory? || v % L.NANO_PER_HUNDREDTH == 0
  }

  /** Where the limits are whole and none is the original, restored is equal. */
  lemma WholeLimitsRestoredIff(slot: L.Slot, original: nat, steps: seq<Action>, t: State)
    requires Leads(Init(slot, original), steps, t) && Whole(slot, original)
    requires forall i :: 0 <= i < |steps| && steps[i].Update? ==> steps[i].limit != original && Whole(slot, steps[i].limit)
    ensures t.value == original <==> End(Init(slot, 0), BareSteps(steps)).value == 0
  {
    RestoredIff(slot, original, steps, t);
    assert Near(slot, original, t.value) ==> t.value == original;
  }

  // --------------------------------------------------------------- one round

  predicate WritesBack(a: Action) { a.Undo? || a.Expire? }

  predicate NoInspect(steps: seq<Action>) {
    forall i :: 0 <= i < |steps| ==> !steps[i].Inspect?
  }

  /** No apply begins once something has begun to be undone. */
  predicate OneRound(steps: seq<Action>) {
    forall i, j :: 0 <= i < j < |steps| && WritesBack(steps[i]) ==> !steps[j].Inspect?
  }

  predicate UndosSucceed(steps: seq<Action>) {
    forall i :: 0 <= i < |steps| ==> (steps[i].Undo? ==> steps[i].ok) && (steps[i].Expire? ==> steps[i].ok)
  }

  /** A reading is the original exactly when it came before every update. */
  predicate RightReading(slot: L.Slot, original: nat, away: bool, r: Reading) {
    if r.late then away ==> Away(slot, original, r.value) else r.value == original
  }

  ghost predicate RightValue(slot: L.Slot, original: nat, away: bool, v: nat, last: Write) {
    match last
    case Nothing => v == original
    case Limit => away ==> Away(slot, original, v)
    case Back(late) => if late then away ==> Away(slot, original, v) else L.BackTo(slot, original, v)
  }

  ghost predicate Traced(original: nat, away: bool, s: State) {
    && RightValue(s.slot, original, away, s.value, s.last)
    && (!s.last.Back? ==> (s.dirty <==> s.last == Limit))
    && (forall a :: a in s.prev ==> RightReading(s.slot, original, away, s.prev[a]))
    && (forall i :: 0 <= i < |s.undos| ==> RightReading(s.slot, original, away, s.undos[i]))
    && (forall i :: 0 <= i < |s.timed| ==> RightReading(s.slot, original, away, s.timed[i]))
    && (forall c, i :: 0 <= c < |s.calls| && 0 <= i < |s.calls[c]| ==> RightReading(s.slot, original, away, s.calls[c][i]))
  }

  lemma TracedUndo(original: nat, away: bool, s: State, r: Reading, ok: bool, halfUp: bool)
    requires Traced(original, away, s) && RightReading(s.slot, original, away, r)
    ensures Traced(original, away, RunUndo(s, r, ok, halfUp))
  {
    if r.late {
      if away { RewritingStaysAway(s.slot, original, r.value, halfUp); }
    } else {
      L.RestoredIsNear(L.Undo(s.slot, original, halfUp));
    }
  }

  lemma TracedUndoStep(original: nat, away: bool, s: State, c: nat, ok: bool, halfUp: bool)
    requires Traced(original, away, s) && Enabled(s, Undo(c, ok, halfUp))
    ensures Traced(original, away, Next(s, Undo(c, ok, halfUp)))
  {
    var list := s.calls[c];
    var last := |list| - 1;
    var rest := s.(calls := s.calls[c := list[..last]]);
    assert RightReading(s.slot, original, away, list[last]);
    assert forall d, i :: 0 <= d < |rest.calls| && 0 <= i < |rest.calls[d]| ==> rest.calls[d][i] == s.calls[d][i];
    TracedUndo(original, away, rest, list[last], ok, halfUp);
  }

  lemma TracedExpireStep(original: nat, away: bool, s: State, i: nat, ok: bool, halfUp: bool)
    requires Traced(original, away, s) && Enabled(s, Expire(i, ok, halfUp))
    ensures Traced(original, away, Next(s, Expire(i, ok, halfUp)))
  {
    TracedUndo(original, away, s.(timed := s.timed[..i] + s.timed[i + 1..]), s.timed[i], ok, halfUp);
  }

  lemma TracedStep(original: nat, away: bool, s: State, a: Action)
    requires Traced(original, away, s) && Enabled(s, a)
    requires a.Update? && away ==> Away(s.slot, original, a.limit)
    requires a.Inspect? ==> !s.last.Back?
    ensures Traced(original, away, Next(s, a))
  {
    match a {
      case Undo(c, ok, halfUp) => TracedUndoStep(original, away, s, c, ok, halfUp);
      case Expire(i, ok, halfUp) => TracedExpireStep(original, away, s, i, ok, halfUp);
      case _ =>
    }
  }

  lemma {:induction false} TracedRun(original: nat, away: bool, s: State, steps: seq<Action>, t: State)
    requires Traced(original, away, s) && Leads(s, steps, t) && (away ==> LimitsAway(s.slot, original, steps))
    requires OneRound(steps) && (s.last.Back? ==> NoInspect(steps))
    ensures Traced(original, away, t) && t.slot == s.slot
    decreases |steps|
  {
    if steps != [] {
      var rest := steps[1..];
      TracedStep(original, away, s, steps[0]);
      assert forall i :: 0 <= i < |rest| ==> rest[i] == steps[i + 1];
      TracedRun(original, away, Next(s, steps[0]), rest, t);
    }
  }

  /** Something is applied that has yet to be undone. */
  predicate Pending(s: State) {
    s.updated != {} || s.undos != [] || !TeardownsDone(s) || s.timed != []
  }

  lemma PendingStep(s: State, a: Action)
    requires Enabled(s, a) && (a.Undo? ==> a.ok) && (a.Expire? ==> a.ok) && (s.last == Limit ==> Pending(s))
    ensures Next(s, a).last == Limit ==> Pending(Next(s, a))
  {
    var n := Next(s, a);
    if a.Swap? {
      assert n.calls[|s.calls|] == s.undos && forall c :: 0 <= c < |s.calls| ==> n.calls[c] == s.calls[c];
    } else if a.Update? {
      assert a.a in n.updated;
    }
  }

  lemma {:induction false} LimitLeavesPending(s: State, steps: seq<Action>, t: State)
    requires Leads(s, steps, t) && UndosSucceed(steps) && (s.last == Limit ==> Pending(s))
    ensures t.last == Limit ==> Pending(t)
    decreases |steps|
  {
    if steps != [] {
      PendingStep(s, steps[0]);
      assert forall i :: 0 <= i < |steps[1..]| ==> steps[1..][i] == steps[i + 1];
      LimitLeavesPending(Next(s, steps[0]), steps[1..], t);
    }
  }

  /** One round of applies, overlapping in any way each other, expiries and any
      number of Teardowns: the limit is restored if the undo that wrote last had
      read it before every update, and, unless some fault sets what could pass for
      the original, only then. */
  lemma OneRoundRestoresIff(slot: L.Slot, original: nat, steps: seq<Action>, t: State)
    requires Leads(Init(slot, original), steps, t) && OneRound(steps)
    ensures t.last == Nothing ==> t.value == original
    ensures t.last == Back(false) ==> L.BackTo(slot, original, t.value)
    ensures LimitsAway(slot, original, steps) ==>
      (Within(slot, original, t.value) <==> t.last == Nothing || t.last == Back(false))
    ensures Drained(t) && UndosSucceed(steps) ==> t.last != Limit
  {
    TracedRun(original, LimitsAway(slot, original, steps), Init(slot, original), steps, t);
    if UndosSucceed(steps) { LimitLeavesPending(Init(slot, original), steps, t); }
  }

  /** late says what it should: a reading is late exactly if an update came before it. */
  lemma {:induction false} DirtyIff(s: State, steps: seq<Action>, t: State)
    requires Leads(s, steps, t)
    ensures t.dirty <==> s.dirty || exists i :: 0 <= i < |steps| && steps[i].Update?
    decreases |steps|
  {
    if steps != [] {
      DirtyIff(Next(s, steps[0]), steps[1..], t);
      assert forall i :: 0 <= i < |steps[1..]| ==> steps[1..][i] == steps[i + 1];
      assert steps[0].Update? || forall i :: 0 <= i < |steps| && steps[i].Update? ==> steps[1..][i - 1].Update?;
    }
  }

  // ------------------------------------------------------------ one Teardown

  predicate OnlyApplies(steps: seq<Action>) {
    forall i :: 0 <= i < |steps| ==> steps[i].Inspect? || steps[i].Refused? || steps[i].Update? || steps[i].Track?
  }

  /** The steps of one Teardown, the c-th, whose undos all succeed. */
  function UndoAll(c: nat, rounding: seq<bool>): seq<Action> {
    if rounding == [] then [] else [Undo(c, true, rounding[0])] + UndoAll(c, rounding[1..])
  }

  lemma {:induction false} UndoAllSteps(c: nat, rounding: seq<bool>)
    ensures |UndoAll(c, rounding)| == |rounding|
    ensures forall i :: 0 <= i < |rounding| ==> UndoAll(c, rounding)[i] == Undo(c, true, rounding[i])
  {
    if rounding != [] { UndoAllSteps(c, rounding[1..]); }
  }

  lemma {:induction false} ListIsUnwound(s: State, c: nat, rounding: seq<bool>, t: State)
    requires c < |s.calls| && |rounding| == |s.calls[c]| && Leads(s, UndoAll(c, rounding), t)
    ensures rounding != [] ==> t.last == Back(s.calls[c][0].late)
    ensures t == s.(calls := s.calls[c := []], value := t.value, last := t.last)
    decreases |rounding|
  {
    if rounding != [] {
      var a := Undo(c, true, rounding[0]);
      assert UndoAll(c, rounding)[1..] == UndoAll(c, rounding[1..]);
      ListIsUnwound(Next(s, a), c, rounding[1..], t);
    } else {
      assert s.calls[c := []] == s.calls;
    }
  }

  lemma {:induction false} AppliesOnly(s: State, steps: seq<Action>, t: State)
    requires Leads(s, steps, t) && OnlyApplies(steps)
    ensures t.calls == s.calls && t.timed == s.timed
    decreases |steps|
  {
    if steps != [] {
      assert steps[0].Inspect? || steps[0].Refused? || steps[0].Update? || steps[0].Track?;
      assert forall i :: 0 <= i < |steps[1..]| ==> steps[1..][i] == steps[i + 1];
      AppliesOnly(Next(s, steps[0]), steps[1..], t);
    }
  }

  lemma {:induction false} LeadsOn(s: State, steps: seq<Action>, u: State, more: seq<Action>, t: State)
    requires Leads(s, steps, u) && Leads(u, more, t)
    ensures Leads(s, steps + more, t)
    decreases |steps|
  {
    if steps == [] {
      assert steps + more == more;
    } else {
      LeadsOn(Next(s, steps[0]), steps[1..], u, more, t);
      assert (steps + more)[1..] == steps[1..] + more;
    }
  }

  /** Applies overlap each other in any way, and then one Teardown undoes them all:
      the limit is restored if the first apply to be tracked had read it before
      every update, and, unless some fault sets what could pass for the original,
      only then. */
  lemma OverlapRestoresIff(slot: L.Slot, original: nat, applies: seq<Action>, s: State, rounding: seq<bool>, t: State)
    requires Leads(Init(slot, original), applies, s) && OnlyApplies(applies) && s.undos != []
    requires |rounding| == |s.undos| && Leads(Next(s, Swap), UndoAll(0, rounding), t)
    ensures !s.undos[0].late ==> L.BackTo(slot, original, t.value)
    ensures LimitsAway(slot, original, applies) ==> (Within(slot, original, t.value) <==> !s.undos[0].late)
  {
    var undone := [Swap] + UndoAll(0, rounding);
    AppliesOnly(Init(slot, original), applies, s);
    assert Next(s, Swap).calls == [s.undos];
    ListIsUnwound(Next(s, Swap), 0, rounding, t);
    assert undone[1..] == UndoAll(0, rounding);
    LeadsOn(Init(slot, original), applies, s, undone, t);
    UndoAllSteps(0, rounding);
    var steps := applies + undone;
    assert forall i :: 0 <= i < |steps| && WritesBack(steps[i]) ==> i >= |applies|;
    assert forall i :: |applies| <= i < |steps| ==> !steps[i].Inspect? && !steps[i].Update?;
    assert LimitsAway(slot, original, applies) ==> LimitsAway(slot, original, steps);
    OneRoundRestoresIff(slot, original, steps, t);
  }

  // ------------------------------------------------------------ failing runs

  /** Every undo has run and a fault's limit is still in force. */
  predicate LeftLimited(original: nat, t: State) {
    Drained(t) && t.value != original
  }

  const MEMORY: L.Slot := L.Memory("c")

  /** Some run from no limit ends in t, with just these steps out of order. */
  ghost predicate Reaches(disorders: seq<Action>, t: State) {
    exists steps :: Leads(Init(MEMORY, 0), steps, t) && Disorders(Init(MEMORY, 0), steps) == disorders
  }

  ghost predicate FailsBy(disorder: Action) {
    exists t :: Reaches([disorder], t) && LeftLimited(0, t)
  }

  /** Every part of the order is needed. A Teardown, say the signal's, swaps while a
      second apply is between update and track: the second undo runs after the
      first and reinstates the first fault's limit for good. */
  lemma SwapDuringApplyCanLeaveALimit()
    ensures FailsBy(Swap)
  {
    SecondUpdated();
    assert 1 in SECOND_UPDATED.prev;
    var t := Then([], SECOND_UPDATED, Swap);
    t := Then([Swap], t, Track(1));
    SecondUndoneLast([Swap], t);
  }

  /** Likewise when the second apply inspects after the swap and before the undo. */
  lemma ApplyDuringTeardownCanLeaveALimit()
    ensures FailsBy(Inspect(1))
  {
    InspectedAfterSwap();
    var t := Then([Inspect(1)], INSPECTED_AFTER_SWAP, Update(1, 8));
    t := Then([Inspect(1)], t, Track(1));
    SecondUndoneLast([Inspect(1)], t);
  }

  const SECOND_UPDATED: State :=
    State(MEMORY, 8, map[1 := Reading(7, true)], {1}, [Reading(0, false)], [], [], true, Limit)

  lemma SecondUpdated()
    ensures Reaches([], SECOND_UPDATED)
  {
    FirstFaultApplied();
    var t := Then([], FIRST_APPLIED, Inspect(1));
    t := Then([], t, Update(1, 8));
    assert t == SECOND_UPDATED;
  }

  const INSPECTED_AFTER_SWAP: State :=
    State(MEMORY, 7, map[1 := Reading(7, true)], {}, [], [[Reading(0, false)]], [], true, Limit)

  lemma InspectedAfterSwap()
    ensures Reaches([Inspect(1)], INSPECTED_AFTER_SWAP)
  {
    FirstFaultApplied();
    var t := Then([], FIRST_APPLIED, Swap);
    assert t.calls == [[Reading(0, false)]] && t.calls[0] != [];
    t := Then([], t, Inspect(1));
    assert t == INSPECTED_AFTER_SWAP;
  }

  /** The first undo is with one Teardown, the second waits for another. */
  lemma SecondUndoneLast(disorders: seq<Action>, s: State)
    requires Reaches(disorders, s)
    requires s == State(MEMORY, 8, map[], {}, [Reading(7, true)], [[Reading(0, false)]], [], true, Limit)
    ensures exists t :: Reaches(disorders, t) && LeftLimited(0, t)
  {
    var t := Then(disorders, s, Undo(0, true, false));
    t := Then(disorders, t, Swap);
    t := Then(disorders, t, Undo(1, true, false));
    assert LeftLimited(0, t);
  }

  /** Likewise when two applies overlap and the second is tracked first, although
      one Teardown undoes both. */
  lemma OverlapCanLoseTheOriginal()
    ensures FailsBy(Inspect(1))
  {
    BothUpdated();
    var t := Then([Inspect(1)], BOTH_UPDATED, Track(1));
    t := Then([Inspect(1)], t, Track(0));
    t := Then([Inspect(1)], t, Swap);
    t := Then([Inspect(1)], t, Undo(0, true, false));
    t := Then([Inspect(1)], t, Undo(0, true, false));
    assert LeftLimited(0, t);
  }

  /** Likewise when two for: faults overlap and the first to start is the first to
      expire, with no Teardown at all: 0 to 10 s and 5 to 15 s, say. */
  lemma OverlappingForFaultsLeaveALimit()
    ensures FailsBy(Inspect(1))
  {
    BothUpdated();
    var t := Then([Inspect(1)], BOTH_UPDATED, Arm(0));
    t := Then([Inspect(1)], t, Arm(1));
    t := Then([Inspect(1)], t, Expire(0, true, false));
    t := Then([Inspect(1)], t, Expire(0, true, false));
    assert LeftLimited(0, t);
  }

  const FIRST_APPLIED: State := State(MEMORY, 7, map[], {}, [Reading(0, false)], [], [], true, Limit)

  lemma FirstFaultApplied()
    ensures Reaches([], FIRST_APPLIED)
  {
    var init := Init(MEMORY, 0);
    assert Leads(init, [], init) && Disorders(init, []) == [];
    var t := Then([], init, Inspect(0));
    t := Then([], t, Update(0, 7));
    t := Then([], t, Track(0));
    assert t == FIRST_APPLIED;
  }

  /** Both applies have updated, the second having read the first one's limit. */
  const BOTH_UPDATED: State :=
    State(MEMORY, 8, map[0 := Reading(0, false), 1 := Reading(7, true)], {0, 1}, [], [], [], true, Limit)

  lemma BothUpdated()
    ensures Reaches([Inspect(1)], BOTH_UPDATED)
  {
    var init := Init(MEMORY, 0);
    assert Leads(init, [], init) && Disorders(init, []) == [];
    var t := Then([], init, Inspect(0));
    t := Then([], t, Update(0, 7));
    assert 0 in t.prev;
    t := Then([], t, Inspect(1));
    t := Then([Inspect(1)], t, Update(1, 8));
    assert t == BOTH_UPDATED;
  }

  lemma Then(disorders: seq<Action>, s: State, a: Action) returns (t: State)
    requires Reaches(disorders, s) && Enabled(s, a)
    ensures t == Next(s, a)
    ensures Reaches(if Orderly(s, a) then disorders else disorders + [a], t)
  {
    t := Next(s, a);
    var steps :| Leads(Init(MEMORY, 0), steps, s) && Disorders(Init(MEMORY, 0), steps) == disorders;
    OneMoreStep(Init(MEMORY, 0), steps, s, a);
    OneMoreDisorder(Init(MEMORY, 0), steps, s, a);
  }

  lemma {:induction false} OneMoreStep(s: State, steps: seq<Action>, t: State, a: Action)
    requires Leads(s, steps, t) && Enabled(t, a)
    ensures Leads(s, steps + [a], Next(t, a))
    decreases |steps|
  {
    if steps == [] {
      assert steps + [a] == [a] && [a][1..] == [];
    } else {
      OneMoreStep(Next(s, steps[0]), steps[1..], t, a);
      assert (steps + [a])[1..] == steps[1..] + [a];
    }
  }

  lemma {:induction false} OneMoreDisorder(s: State, steps: seq<Action>, t: State, a: Action)
    requires Leads(s, steps, t) && Enabled(t, a)
    ensures Disorders(s, steps + [a]) == Disorders(s, steps) + if Orderly(t, a) then [] else [a]
    decreases |steps|
  {
    if steps == [] {
      assert steps + [a] == [a] && [a][1..] == [];
    } else {
      OneMoreDisorder(Next(s, steps[0]), steps[1..], t, a);
      assert (steps + [a])[1..] == steps[1..] + [a];
    }
  }
}
