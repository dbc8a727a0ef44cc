/** cpu_limit and mem_limit faults and their undo (internal/run/docker_applier.go)
    under the fault manager (internal/fault/manager.go). Docker is a table of
    limits: inspect reads one, update writes one, and either may fail. */
module ContainerLimits {
  import opened Sequences

  /** What a fault limits. CPU limits are docker's NanoCpus, memory limits bytes; 0 is no limit. */
  datatype Slot = Cpu(container: string) | Memory(container: string)

  type World = map<Slot, nat>

  /** One ApplyDocker call and how the daemon answers it. halfUp says which way
      the float64 quotient prints when the captured CPU limit lies exactly half
      way between two hundredths of a core. */
  datatype Attempt = Attempt(slot: Slot, limit: nat, inspectOk: bool, updateOk: bool, halfUp: bool)

  /** The undo closure: what it captured. */
  datatype Undo = Undo(slot: Slot, prev: nat, halfUp: bool)

  const NANO_PER_HUNDREDTH: nat := 10_000_000

  /** cpusFromNanoCPUs: the captured limit as "%.2f" cores, here in hundredths. */
  function Hundredths(nano: nat, halfUp: bool): nat {
    var q, r := nano / NANO_PER_HUNDREDTH, nano % NANO_PER_HUNDREDTH;
    if 2 * r < NANO_PER_HUNDREDTH || (2 * r == NANO_PER_HUNDREDTH && !halfUp) then q else q + 1
  }

  /** What running the undo writes back. */
  function Restored(u: Undo): nat {
    if u.slot.Cpu? then Hundredths(u.prev, u.halfUp) * NANO_PER_HUNDREDTH else u.prev
  }

  function ApplyDocker(w: World, a: Attempt): (World, Option<Undo>) {
    if a.slot in w && a.inspectOk && a.updateOk
    then (w[a.slot := a.limit], Some(Undo(a.slot, w[a.slot], a.halfUp)))
    else (w, None)
  }

  function RunUndo(w: World, u: Undo, ok: bool): World {
    if ok && u.slot in w then w[u.slot := Restored(u)] else w
  }

  function ApplyAll(w: World, undos: seq<Undo>, attempts: seq<Attempt>): (World, seq<Undo>)
    decreases |attempts|
  {
    if attempts == [] then (w, undos)
    else
      var (w', u) := ApplyDocker(w, attempts[0]);
      ApplyAll(w', if u.Some? then undos + [u.value] else undos, attempts[1..])
  }

  /** Undos run last to first; oks[i] says whether undos[i] succeeds. */
  function Unwind(w: World, undos: seq<Undo>, oks: seq<bool>): World
    requires |undos| == |oks|
  {
    if undos == [] then w
    else
      var n := |undos| - 1;
      Unwind(RunUndo(w, undos[n], oks[n]), undos[..n], oks[..n])
  }

  /** The undos that failed, in the order they ran. */
  function Failures(undos: seq<Undo>, oks: seq<bool>): seq<Undo>
    requires |undos| == |oks|
  {
    if undos == [] then []
    else
      var n := |undos| - 1;
      (if oks[n] then [] else [undos[n]]) + Failures(undos[..n], oks[..n])
  }

  /** The errors are those of the failed undos, each once, the last tracked first. */
  ghost predicate ReportsFailures(undos: seq<Undo>, oks: seq<bool>, errs: seq<Undo>, at: seq<nat>)
    requires |undos| == |oks|
  {
    && |at| == |errs|
    && (forall j :: 0 <= j < |at| ==> at[j] < |undos| && !oks[at[j]] && errs[j] == undos[at[j]])
    && (forall i, j :: 0 <= i < j < |at| ==> at[i] > at[j])
    && (forall i: nat :: i < |undos| && !oks[i] ==> i in at)
  }

  lemma {:induction false} FailuresAreReported(undos: seq<Undo>, oks: seq<bool>) returns (at: seq<nat>)
    requires |undos| == |oks|
    ensures ReportsFailures(undos, oks, Failures(undos, oks), at)
  {
    if undos == [] {
      at := [];
    } else {
      var n := |undos| - 1;
      var rest := FailuresAreReported(undos[..n], oks[..n]);
      at := if oks[n] then rest else [n] + rest;
      OneMoreReported(undos, oks, Failures(undos[..n], oks[..n]), rest);
      assert Failures(undos, oks) == if oks[n] then Failures(undos[..n], oks[..n]) else [undos[n]] + Failures(undos[..n], oks[..n]);
    }
  }

  lemma OneMoreReported(undos: seq<Undo>, oks: seq<bool>, errs: seq<Undo>, at: seq<nat>)
    requires |undos| == |oks| > 0
    requires var n := |undos| - 1; ReportsFailures(undos[..n], oks[..n], errs, at)
    ensures var n := |undos| - 1;
      if oks[n] then ReportsFailures(undos, oks, errs, at) else ReportsFailures(undos, oks, [undos[n]] + errs, [n] + at)
  {
    var n := |undos| - 1;
    forall i: nat | i < n && !oks[i] ensures i in at { assert !oks[..n][i]; }
    forall j | 0 <= j < |at| ensures at[j] < n && !oks[at[j]] && errs[j] == undos[at[j]] {
      assert undos[..n][at[j]] == undos[at[j]] && oks[..n][at[j]] == oks[at[j]];
    }
    if !oks[n] { LastReported(undos, oks, errs, at); }
  }

  lemma LastReported(undos: seq<Undo>, oks: seq<bool>, errs: seq<Undo>, at: seq<nat>)
    requires |undos| == |oks| > 0 && !oks[|undos| - 1] && |at| == |errs|
    requires forall j :: 0 <= j < |at| ==> at[j] < |undos| - 1 && !oks[at[j]] && errs[j] == undos[at[j]]
    requires forall i, j :: 0 <= i < j < |at| ==> at[i] > at[j]
    requires forall i: nat :: i < |undos| - 1 && !oks[i] ==> i in at
    ensures ReportsFailures(undos, oks, [undos[|undos| - 1]] + errs, [|undos| - 1] + at)
  {
    var n := |undos| - 1;
    var more := [n] + at;
    assert more[0] == n && forall j :: 1 <= j < |more| ==> more[j] == at[j - 1];
  }

  // ------------------------------------------------------------ the objects

  class Docker {
    var world: World

    constructor (world: World)
      ensures this.world == world
    {
      this.world := world;
    }

    method Inspect(slot: Slot, ok: bool) returns (r: Option<nat>)
      ensures r == if ok && slot in world then Some(world[slot]) else None
    {
      r := if ok && slot in world then Some(world[slot]) else None;
    }

    method Update(slot: Slot, value: nat, ok: bool) returns (done: bool)
      modifies this
      ensures done <==> ok && slot in old(world)
      ensures world == if done then old(world)[slot := value] else old(world)
    {
      done := ok && slot in world;
      if done { world := world[slot := value]; }
    }
  }

  class Manager {
    var undos: seq<Undo>

    constructor ()
      ensures undos == []
    {
      undos := [];
    }

    method Track(u: Undo)
      modifies this
      ensures undos == old(undos) + [u]
    {
      undos := undos + [u];
    }

    /** Apply through the docker applier: the declared limit is in force and what was
        there before is tracked, or nothing changes and nothing is tracked. */
    method Apply(docker: Docker, a: Attempt) returns (ok: bool)
      modifies this, docker
      ensures ok <==> a.slot in old(docker.world) && a.inspectOk && a.updateOk
      ensures ok ==> docker.world == old(docker.world)[a.slot := a.limit]
      ensures ok ==> undos == old(undos) + [Undo(a.slot, old(docker.world)[a.slot], a.halfUp)]
      ensures !ok ==> docker.world == old(docker.world) && undos == old(undos)
      ensures (docker.world, undos) == ApplyAll(old(docker.world), old(undos), [a])
    {
      assert [a][1..] == [];
      var prev := docker.Inspect(a.slot, a.inspectOk);
      if prev.None? { return false; }
      ok := docker.Update(a.slot, a.limit, a.updateOk);
      if ok { Track(Undo(a.slot, prev.value, a.halfUp)); }
    }

    /** Teardown empties the list first, then runs it backwards past failures. */
    method Teardown(docker: Docker, oks: seq<bool>) returns (errs: seq<Undo>)
      requires |oks| == |undos|
      modifies this, docker
      ensures undos == []
      ensures docker.world == Unwind(old(docker.world), old(undos), oks)
      ensures errs == Failures(old(undos), oks)
      ensures exists at :: ReportsFailures(old(undos), oks, errs, at)
    {
      var list := undos;
      undos := [];
      errs := [];
      var i := |list|;
      assert list[..i] == list && oks[..i] == oks;
      while i > 0
        invariant 0 <= i <= |list|
        invariant Unwind(docker.world, list[..i], oks[..i]) == Unwind(old(docker.world), list, oks)
        invariant errs + Failures(list[..i], oks[..i]) == Failures(list, oks)
        invariant undos == []
      {
        assert list[..i][..i - 1] == list[..i - 1] && oks[..i][..i - 1] == oks[..i - 1];
        i := i - 1;
        var done := docker.Update(list[i].slot, Restored(list[i]), oks[i]);
        if !oks[i] { errs := errs + [list[i]]; }
      }
      var at := FailuresAreReported(list, oks);
    }
  }

  // ----------------------------------------------------------- the theorems

  /** attempts[i] is the last apply to the slot that the daemon carries out. */
  ghost predicate LastSuccess(attempts: seq<Attempt>, slot: Slot, i: nat) {
    && i < |attempts| && Succeeds(attempts[i], slot)
    && (forall j :: i < j < |attempts| ==> !Succeeds(attempts[j], slot))
  }

  predicate Succeeds(a: Attempt, slot: Slot) {
    a.slot == slot && a.inspectOk && a.updateOk
  }

  /** While faults are stacked, each limit is that of the last apply that succeeded,
      and the original if none did. */
  lemma {:induction false} LastAppliedIsInForce(w: World, undos: seq<Undo>, attempts: seq<Attempt>, slot: Slot)
    requires slot in w
    ensures var (w', all) := ApplyAll(w, undos, attempts);
      && w'.Keys == w.Keys
      && (forall i: nat :: LastSuccess(attempts, slot, i) ==> w'[slot] == attempts[i].limit)
      && ((forall i :: 0 <= i < |attempts| ==> !Succeeds(attempts[i], slot)) ==> w'[slot] == w[slot])
    decreases |attempts|
  {
    if attempts != [] {
      var (w1, u) := ApplyDocker(w, attempts[0]);
      var rest := attempts[1..];
      LastAppliedIsInForce(w1, if u.Some? then undos + [u.value] else undos, rest, slot);
      assert forall i :: 0 <= i < |rest| ==> rest[i] == attempts[i + 1];
      forall i: nat | LastSuccess(attempts, slot, i)
        ensures ApplyAll(w, undos, attempts).0[slot] == attempts[i].limit
      {
        if i > 0 { assert LastSuccess(rest, slot, i - 1); }
      }
    }
  }

  /** undos[i] is the first undo tracked for the slot. */
  ghost predicate FirstFor(undos: seq<Undo>, slot: Slot, i: nat) {
    i < |undos| && undos[i].slot == slot && forall j :: 0 <= j < i ==> undos[j].slot != slot
  }

  ghost predicate Untouched(undos: seq<Undo>, slot: Slot) {
    forall j :: 0 <= j < |undos| ==> undos[j].slot != slot
  }

  /** However deep the stack, the first undo of a slot holds its original value. */
  lemma {:induction false} FirstUndoCapturesOriginal(w: World, undos: seq<Undo>, attempts: seq<Attempt>, slot: Slot, original: nat)
    requires slot in w && (Untouched(undos, slot) ==> w[slot] == original)
    requires forall i: nat :: FirstFor(undos, slot, i) ==> undos[i].prev == original
    ensures var (w', all) := ApplyAll(w, undos, attempts);
      && w'.Keys == w.Keys && undos <= all
      && (Untouched(all, slot) ==> w'[slot] == original)
      && forall i: nat :: FirstFor(all, slot, i) ==> all[i].prev == original
    decreases |attempts|
  {
    if attempts != [] {
      var (w1, u) := ApplyDocker(w, attempts[0]);
      var undos1 := if u.Some? then undos + [u.value] else undos;
      if u.Some? {
        forall i: nat | FirstFor(undos1, slot, i) ensures undos1[i].prev == original {
          if i < |undos| {
            assert forall j :: 0 <= j <= i ==> undos1[j] == undos[j];
            assert FirstFor(undos, slot, i);
          } else {
            assert forall j :: 0 <= j < i ==> undos1[j] == undos[j];
            assert Untouched(undos, slot);
          }
        }
        if Untouched(undos1, slot) {
          assert undos1[|undos|] == u.value;
          assert forall j :: 0 <= j < |undos| ==> undos1[j] == undos[j];
          assert Untouched(undos, slot);
        }
      }
      FirstUndoCapturesOriginal(w1, undos1, attempts[1..], slot, original);
    }
  }

  /** undos[i] is the earliest-tracked undo of the slot that succeeds. */
  ghost predicate FirstSuccess(undos: seq<Undo>, oks: seq<bool>, slot: Slot, i: nat)
    requires |undos| == |oks|
  {
    && i < |undos| && undos[i].slot == slot && oks[i]
    && forall j :: 0 <= j < i && undos[j].slot == slot ==> !oks[j]
  }

  ghost predicate NoSuccess(undos: seq<Undo>, oks: seq<bool>, slot: Slot)
    requires |undos| == |oks|
  {
    forall i :: 0 <= i < |undos| && undos[i].slot == slot ==> !oks[i]
  }

  /** The successful undo that was tracked earliest decides the slot. */
  lemma {:induction false} EarliestSuccessDecides(w: World, undos: seq<Undo>, oks: seq<bool>, slot: Slot)
    requires |undos| == |oks| && slot in w
    ensures Unwind(w, undos, oks).Keys == w.Keys
    ensures NoSuccess(undos, oks, slot) ==> Unwind(w, undos, oks)[slot] == w[slot]
    ensures forall i: nat :: FirstSuccess(undos, oks, slot, i) ==> Unwind(w, undos, oks)[slot] == Restored(undos[i])
  {
    if undos != [] {
      var n := |undos| - 1;
      var w1 := RunUndo(w, undos[n], oks[n]);
      EarliestSuccessDecides(w1, undos[..n], oks[..n], slot);
      assert forall j :: 0 <= j < n ==> undos[..n][j] == undos[j] && oks[..n][j] == oks[j];
      forall i: nat | FirstSuccess(undos, oks, slot, i)
        ensures Unwind(w, undos, oks)[slot] == Restored(undos[i])
      {
        if i < n {
          assert FirstSuccess(undos[..n], oks[..n], slot, i);
        } else {
          assert NoSuccess(undos[..n], oks[..n], slot);
        }
      }
    }
  }

  /** What "restored" means for a slot: memory exactly, CPU to within 0.005
      core, and exactly when the original is a whole number of hundredths. */
  ghost predicate BackTo(slot: Slot, original: nat, after: int) {
    if slot.Memory? then after == original
    else
      && -5_000_000 <= after - original <= 5_000_000
      && (after == original <==> original % NANO_PER_HUNDREDTH == 0)
  }

  lemma RestoredIsNear(u: Undo)
    ensures BackTo(u.slot, u.prev, Restored(u))
  {
    if u.slot.Cpu? {
      assert u.prev == u.prev / NANO_PER_HUNDREDTH * NANO_PER_HUNDREDTH + u.prev % NANO_PER_HUNDREDTH;
    }
  }

  /** Stack any limits on any containers, with any failing applies, then tear
      down. A slot whose first undo succeeds gets its original value back,
      whatever the other undos do; an untouched slot never changed. */
  lemma StackedLimitsAreRestored(w: World, attempts: seq<Attempt>, oks: seq<bool>, slot: Slot)
    requires slot in w && |oks| == |ApplyAll(w, [], attempts).1|
    ensures var (w1, undos) := ApplyAll(w, [], attempts);
      var after := Unwind(w1, undos, oks);
      && slot in after
      && (Untouched(undos, slot) ==> after[slot] == w[slot])
      && (forall i: nat :: FirstFor(undos, slot, i) && oks[i] ==> BackTo(slot, w[slot], after[slot]))
  {
    var (w1, undos) := ApplyAll(w, [], attempts);
    FirstUndoCapturesOriginal(w, [], attempts, slot, w[slot]);
    EarliestSuccessDecides(w1, undos, oks, slot);
    forall i: nat | FirstFor(undos, slot, i) && oks[i]
      ensures BackTo(slot, w[slot], Unwind(w1, undos, oks)[slot])
    {
      assert FirstSuccess(undos, oks, slot, i);
      RestoredIsNear(undos[i]);
    }
  }

  /** The two-decimal text can lose a limit altogether: restoring writes 0, no
      limit, for exactly the captured limits at or below half a hundredth. */
  lemma RestoreForgetsTinyLimit(u: Undo)
    requires u.slot.Cpu? && u.prev > 0
    ensures Restored(u) == 0 <==> u.prev < 5_000_000 || (u.prev == 5_000_000 && !u.halfUp)
  {
    var q := u.prev / NANO_PER_HUNDREDTH;
    assert u.prev == q * NANO_PER_HUNDREDTH + u.prev % NANO_PER_HUNDREDTH;
  }
}
