/** The duplicate fault's redelivery loop (internal/applier/broker_applier.go). It
    consumes and produces on one topic, and only a marker prefix keeps a copy from
    being copied. The topic is a log; the consumer group has an offset into it. */
module Redelivery {
  import Percentile
  import Weights

  type Bytes = seq<char>

  const DUPLICATE_PREFIX: Bytes := "\0TORTUREU_DUPLICATE\0"

  function MarkDuplicate(value: Bytes): (r: Bytes)
    ensures IsDuplicateMarked(r) && |r| == |DUPLICATE_PREFIX| + |value|
  {
    DUPLICATE_PREFIX + value
  }

  predicate IsDuplicateMarked(value: Bytes) {
    DUPLICATE_PREFIX <= value
  }

  predicate ShouldDuplicate(rate: real, roll: real) {
    roll < rate
  }

  /** Marking hides nothing: the prefix can be taken off again, and what is
      marked is exactly what some value was marked into. */
  lemma MarkRoundTrip(value: Bytes, marked: Bytes)
    ensures MarkDuplicate(value)[|DUPLICATE_PREFIX|..] == value
    ensures IsDuplicateMarked(marked) <==> exists v :: marked == MarkDuplicate(v)
  {
    if IsDuplicateMarked(marked) {
      assert marked == MarkDuplicate(marked[|DUPLICATE_PREFIX|..]);
    }
  }

  /** Only what begins with the marker's zero byte can pass for a copy. */
  lemma OrdinaryRecordsAreUnmarked(value: Bytes)
    requires value == [] || value[0] != '\0'
    ensures !IsDuplicateMarked(value)
  {
    assert DUPLICATE_PREFIX[0] == '\0';
  }

  /** A rate is the share of the rolls that duplicate: what [0, 1) yields below it. */
  lemma RateIsTheShare(rate: real)
    requires 0.0 <= rate <= 1.0
    ensures Weights.HasShare(roll => ShouldDuplicate(rate, roll), rate)
  {
    assert Weights.IsStretch(roll => ShouldDuplicate(rate, roll), 0.0, rate);
  }

  // ------------------------------------------------- the loop and its rivals

  /** The goroutine: waiting on its ticker or stop, or in the middle of a batch
      (log positions still to handle), or returned, which closes done. */
  datatype Loop = Waiting | InBatch(next: nat, end: nat) | Returned

  /** undo: not called, stop closed, or returned after receiving from done. */
  datatype UndoCall = NotCalled | Stopping | UndoReturned

  /** mine and sources are history: mine[j] is where the loop's j-th copy stands
      in the log and sources[j] the position of the record it copies. */
  datatype State = State(
    log: seq<Bytes>,
    offset: nat,
    loop: Loop,
    undo: UndoCall,
    mine: seq<nat>,
    sources: seq<nat>)

  const INIT := State([], 0, Waiting, NotCalled, [], [])

  datatype Action =
    | Produce(value: Bytes)            // anyone else appends a record
    | PollFails                        // the poll request fails; nothing is consumed
    | Poll(count: nat)                 // a batch is consumed
    | PollLost(count: nat)             // a batch is consumed but its body does not decode
    | Handle(decodes: bool, roll: real, postOk: bool)
    | BatchDone
    | CallUndo
    | SeeStop
    | ReturnFromUndo

  predicate Enabled(s: State, a: Action) {
    match a
    case Produce(_) => true
    case PollFails => s.loop == Waiting
    case Poll(n) => s.loop == Waiting && s.offset + n <= |s.log|
    case PollLost(n) => s.loop == Waiting && s.offset + n <= |s.log|
    case Handle(_, roll, _) => s.loop.InBatch? && s.loop.next < s.loop.end <= |s.log| && 0.0 <= roll < 1.0
    case BatchDone => s.loop.InBatch? && s.loop.next == s.loop.end
    case CallUndo => s.undo == NotCalled
    case SeeStop => s.loop == Waiting && s.undo == Stopping
    case ReturnFromUndo => s.undo == Stopping && s.loop == Returned
  }

  /** One record of redeliverOnce's loop: whether it is posted. */
  predicate Copies(value: Bytes, rate: real, decodes: bool, roll: real, postOk: bool) {
    decodes && !IsDuplicateMarked(value) && ShouldDuplicate(rate, roll) && postOk
  }

  function Next(rate: real, s: State, a: Action): State
    requires Enabled(s, a)
  {
    match a
    case Produce(v) => s.(log := s.log + [v])
    case PollFails => s
    case Poll(n) => s.(offset := s.offset + n, loop := InBatch(s.offset, s.offset + n))
    case PollLost(n) => s.(offset := s.offset + n)
    case Handle(decodes, roll, postOk) =>
      var i := s.loop.next;
      var s' := s.(loop := InBatch(i + 1, s.loop.end));
      if Copies(s.log[i], rate, decodes, roll, postOk)
      then s'.(log := s.log + [MarkDuplicate(s.log[i])], mine := s.mine + [|s.log|], sources := s.sources + [i])
      else s'
    case BatchDone => s.(loop := Waiting)
    case CallUndo => s.(undo := Stopping)
    case SeeStop => s.(loop := Returned)
    case ReturnFromUndo => s.(undo := UndoReturned)
  }

  predicate Leads(rate: real, s: State, steps: seq<Action>, t: State)
    decreases |steps|
  {
    if steps == [] then t == s
    else Enabled(s, steps[0]) && Leads(rate, Next(rate, s, steps[0]), steps[1..], t)
  }

  // -------------------------------------------------------------- invariant

  predicate Increasing(a: seq<nat>) {
    forall i, j :: 0 <= i < j < |a| ==> a[i] < a[j]
  }

  /** Everything below this position has been dealt with and is never read again. */
  function Handled(s: State): nat {
    if s.loop.InBatch? then s.loop.next else s.offset
  }

  /** at holds a copy of the unmarked record at from. */
  predicate IsCopyOf(log: seq<Bytes>, from: nat, at: nat) {
    from < at < |log| && !IsDuplicateMarked(log[from]) && log[at] == MarkDuplicate(log[from])
  }

  ghost predicate Inv(s: State) {
    && s.offset <= |s.log|
    && (s.loop.InBatch? ==> s.loop.next <= s.loop.end == s.offset)
    && (s.undo == UndoReturned ==> s.loop == Returned)
    && |s.mine| == |s.sources|
    && Increasing(s.mine) && Increasing(s.sources)
    && (forall j :: 0 <= j < |s.mine| ==> IsCopyOf(s.log, s.sources[j], s.mine[j]))
    && (forall j :: 0 <= j < |s.sources| ==> s.sources[j] < Handled(s))
  }

  lemma IncreasingAppend(a: seq<nat>, x: nat)
    requires Increasing(a) && forall j :: 0 <= j < |a| ==> a[j] < x
    ensures Increasing(a + [x])
  {
  }

  lemma HandlePreserves(rate: real, s: State, decodes: bool, roll: real, postOk: bool)
    requires Inv(s) && Enabled(s, Handle(decodes, roll, postOk))
    ensures Inv(Next(rate, s, Handle(decodes, roll, postOk)))
  {
    var n := Next(rate, s, Handle(decodes, roll, postOk));
    var i := s.loop.next;
    if Copies(s.log[i], rate, decodes, roll, postOk) {
      IncreasingAppend(s.mine, |s.log|);
      IncreasingAppend(s.sources, i);
      forall j | 0 <= j < |n.mine| ensures IsCopyOf(n.log, n.sources[j], n.mine[j]) {
        if j < |s.mine| { assert IsCopyOf(s.log, s.sources[j], s.mine[j]); }
      }
    }
  }

  lemma Preserved(rate: real, s: State, a: Action)
    requires Inv(s) && Enabled(s, a)
    ensures Inv(Next(rate, s, a))
  {
    match a {
      case Handle(decodes, roll, postOk) => HandlePreserves(rate, s, decodes, roll, postOk);
      case Produce(v) =>
        forall j | 0 <= j < |s.mine| ensures IsCopyOf(s.log + [v], s.sources[j], s.mine[j]) {
          assert IsCopyOf(s.log, s.sources[j], s.mine[j]);
        }
      case _ =>
    }
  }

  lemma {:induction false} LeadsKeepsInv(rate: real, s: State, steps: seq<Action>, t: State)
    requires Inv(s) && Leads(rate, s, steps, t)
    ensures Inv(t)
    decreases |steps|
  {
    if steps != [] {
      Preserved(rate, s, steps[0]);
      LeadsKeepsInv(rate, Next(rate, s, steps[0]), steps[1..], t);
    }
  }

  // ------------------------------------------------------- bounded amplification

  function Unmarked(log: seq<Bytes>): nat {
    if log == [] then 0
    else Unmarked(log[..|log| - 1]) + if IsDuplicateMarked(log[|log| - 1]) then 0 else 1
  }

  /** Distinct positions of unmarked records are at most as many as those records. */
  lemma {:induction false} PositionsBound(log: seq<Bytes>, at: seq<nat>)
    requires Increasing(at)
    requires forall j :: 0 <= j < |at| ==> at[j] < |log| && !IsDuplicateMarked(log[at[j]])
    ensures |at| <= Unmarked(log)
  {
    if log == [] {
    } else if at != [] && at[|at| - 1] == |log| - 1 {
      var front := at[..|at| - 1];
      forall j | 0 <= j < |front| ensures front[j] < |log| - 1 { assert at[j] < at[|at| - 1]; }
      PositionsBound(log[..|log| - 1], front);
    } else {
      forall j | 0 <= j < |at| ensures at[j] < |log| - 1 { assert at[j] <= at[|at| - 1]; }
      PositionsBound(log[..|log| - 1], at);
    }
  }

  /** The records among the first n that are not the loop's own copies. */
  function OthersBelow(n: nat, mine: seq<nat>): nat {
    if n == 0 then 0 else OthersBelow(n - 1, mine) + if n - 1 in mine then 0 else 1
  }

  lemma {:induction false} OthersPlusMine(n: nat, mine: seq<nat>)
    requires Increasing(mine) && forall j :: 0 <= j < |mine| ==> mine[j] < n
    ensures OthersBelow(n, mine) + |mine| == n
  {
    if n > 0 {
      if mine != [] && mine[|mine| - 1] == n - 1 {
        var front := mine[..|mine| - 1];
        forall j | 0 <= j < |front| ensures front[j] < n - 1 { assert mine[j] < mine[|mine| - 1]; }
        OthersPlusMine(n - 1, front);
        OthersAgree(n - 1, mine, front);
      } else {
        forall j | 0 <= j < |mine| ensures mine[j] < n - 1 { assert mine[j] <= mine[|mine| - 1]; }
        OthersPlusMine(n - 1, mine);
      }
    }
  }

  lemma {:induction false} OthersAgree(n: nat, a: seq<nat>, b: seq<nat>)
    requires forall k: nat :: k < n ==> (k in a <==> k in b)
    ensures OthersBelow(n, a) == OthersBelow(n, b)
  {
    if n > 0 { OthersAgree(n - 1, a, b); }
  }

  lemma {:induction false} UnmarkedAreOthers(log: seq<Bytes>, mine: seq<nat>)
    requires forall k: nat :: k < |log| && k in mine ==> IsDuplicateMarked(log[k])
    ensures Unmarked(log) <= OthersBelow(|log|, mine)
  {
    if log != [] {
      var front := log[..|log| - 1];
      assert forall k: nat :: k < |front| ==> front[k] == log[k];
      UnmarkedAreOthers(front, mine);
    }
  }

  /** However the loop, its polls and other producers interleave: each copy is of
      a different record, none is a copy of a marked record (so none of a copy),
      and the log never exceeds twice what others produced. */
  lemma AmplificationIsBounded(rate: real, steps: seq<Action>, s: State)
    requires Leads(rate, INIT, steps, s)
    ensures |s.mine| == |s.sources| && Increasing(s.sources)
    ensures forall j :: 0 <= j < |s.mine| ==> IsCopyOf(s.log, s.sources[j], s.mine[j])
    ensures forall j :: 0 <= j < |s.mine| ==> s.sources[j] !in s.mine
    ensures |s.mine| <= Unmarked(s.log) <= OthersBelow(|s.log|, s.mine)
    ensures |s.log| <= 2 * OthersBelow(|s.log|, s.mine)
  {
    LeadsKeepsInv(rate, INIT, steps, s);
    assert forall j :: 0 <= j < |s.mine| ==> IsCopyOf(s.log, s.sources[j], s.mine[j]);
    PositionsBound(s.log, s.sources);
    forall k: nat | k < |s.log| && k in s.mine ensures IsDuplicateMarked(s.log[k]) {
      var j :| 0 <= j < |s.mine| && s.mine[j] == k;
      assert IsCopyOf(s.log, s.sources[j], s.mine[j]);
    }
    UnmarkedAreOthers(s.log, s.mine);
    OthersPlusMine(|s.log|, s.mine);
  }

  // ----------------------------------------------------------- rates 0 and 1

  lemma {:induction false} RateZeroCopiesNothing(s: State, steps: seq<Action>, t: State)
    requires Leads(0.0, s, steps, t)
    ensures t.mine == s.mine
    decreases |steps|
  {
    if steps != [] { RateZeroCopiesNothing(Next(0.0, s, steps[0]), steps[1..], t); }
  }

  ghost predicate AllDelivered(steps: seq<Action>) {
    forall i :: 0 <= i < |steps| ==> !steps[i].PollLost? && (steps[i].Handle? ==> steps[i].decodes && steps[i].postOk)
  }

  ghost predicate EveryUnmarkedCopied(s: State) {
    forall k: nat :: k < Handled(s) && k < |s.log| && !IsDuplicateMarked(s.log[k]) ==> k in s.sources
  }

  lemma {:induction false} RateOneStep(s: State, steps: seq<Action>, t: State)
    requires Inv(s) && EveryUnmarkedCopied(s) && Leads(1.0, s, steps, t) && AllDelivered(steps)
    ensures EveryUnmarkedCopied(t)
    decreases |steps|
  {
    if steps != [] {
      var a := steps[0];
      var n := Next(1.0, s, a);
      assert a == steps[0] && !a.PollLost?;
      Preserved(1.0, s, a);
      RateOneKeeps(s, a);
      forall i | 0 <= i < |steps[1..]|
        ensures !steps[1..][i].PollLost? && (steps[1..][i].Handle? ==> steps[1..][i].decodes && steps[1..][i].postOk)
      {
        assert steps[1..][i] == steps[i + 1];
      }
      RateOneStep(n, steps[1..], t);
    }
  }

  lemma RateOneKeeps(s: State, a: Action)
    requires Inv(s) && EveryUnmarkedCopied(s) && Enabled(s, a) && !a.PollLost?
    requires a.Handle? ==> a.decodes && a.postOk
    ensures EveryUnmarkedCopied(Next(1.0, s, a))
  {
    var n := Next(1.0, s, a);
    if a.Handle? {
      var i := s.loop.next;
      forall k: nat | k < Handled(n) && k < |n.log| && !IsDuplicateMarked(n.log[k]) ensures k in n.sources {
        assert k <= i;
        if k == i {
          assert n.sources[|s.sources|] == i;
        } else {
          assert k in s.sources;
        }
      }
    }
  }

  /** At rate 1, when every consumed record reaches the loop and every post is
      accepted, each unmarked record handled so far has exactly one copy. */
  lemma RateOneCopiesEachOnce(steps: seq<Action>, s: State, k: nat)
    requires Leads(1.0, INIT, steps, s) && AllDelivered(steps)
    requires k < Handled(s) && k < |s.log| && !IsDuplicateMarked(s.log[k])
    ensures multiset(s.sources)[k] == 1
  {
    LeadsKeepsInv(1.0, INIT, steps, s);
    RateOneStep(INIT, steps, s);
    assert k in s.sources;
    var j :| 0 <= j < |s.sources| && s.sources[j] == k;
    IncreasingOnce(s.sources, j);
  }

  lemma IncreasingOnce(a: seq<nat>, j: nat)
    requires Increasing(a) && j < |a|
    ensures multiset(a)[a[j]] == 1
  {
    assert a == a[..j] + [a[j]] + a[j + 1..];
    assert a[j] !in a[..j] && a[j] !in a[j + 1..];
  }

  // ---------------------------------------------------------- undo and rest

  predicate OnlyLoop(steps: seq<Action>) {
    forall i :: 0 <= i < |steps| ==> !steps[i].Produce?
  }

  /** Once undo has returned the loop appends nothing more, whatever happens next. */
  lemma {:induction false} NothingAfterUndo(rate: real, s: State, steps: seq<Action>, t: State)
    requires Inv(s) && s.undo == UndoReturned && Leads(rate, s, steps, t)
    ensures t.mine == s.mine && t.undo == UndoReturned
    decreases |steps|
  {
    if steps != [] {
      Preserved(rate, s, steps[0]);
      NothingAfterUndo(rate, Next(rate, s, steps[0]), steps[1..], t);
    }
  }

  /** With no other producer there is a point of rest: once only marked records
      lie ahead, the log never changes again. */
  lemma {:induction false} RestIsForever(rate: real, s: State, steps: seq<Action>, t: State)
    requires Inv(s) && OnlyLoop(steps) && Leads(rate, s, steps, t)
    requires forall k :: Handled(s) <= k < |s.log| ==> IsDuplicateMarked(s.log[k])
    ensures t.log == s.log
    decreases |steps|
  {
    if steps != [] {
      Preserved(rate, s, steps[0]);
      forall i | 0 <= i < |steps[1..]| ensures !steps[1..][i].Produce? { assert steps[1..][i] == steps[i + 1]; }
      assert !steps[0].Produce?;
      RestIsForever(rate, Next(rate, s, steps[0]), steps[1..], t);
    }
  }

  /** The unmarked records at or beyond a position. */
  function UnmarkedFrom(log: seq<Bytes>, from: nat): nat
    decreases |log| - from
  {
    if from >= |log| then 0 else (if IsDuplicateMarked(log[from]) then 0 else 1) + UnmarkedFrom(log, from + 1)
  }

  lemma {:induction false} UnmarkedAfterCopy(log: seq<Bytes>, v: Bytes, from: nat)
    requires IsDuplicateMarked(v)
    ensures UnmarkedFrom(log + [v], from) == UnmarkedFrom(log, from)
    decreases |log| - from
  {
    if from < |log| {
      UnmarkedAfterCopy(log, v, from + 1);
    } else {
      assert UnmarkedFrom(log + [v], from + 1) == 0;
    }
  }

  lemma {:induction false} UnmarkedShrinks(log: seq<Bytes>, from: nat, to: nat)
    requires from <= to
    ensures UnmarkedFrom(log, to) <= UnmarkedFrom(log, from)
    decreases |log| - from
  {
    if from < to && from < |log| { UnmarkedShrinks(log, from + 1, to); }
  }

  lemma LoopStepGrowth(rate: real, s: State, a: Action)
    requires Inv(s) && Enabled(s, a) && !a.Produce?
    ensures var n := Next(rate, s, a);
      |n.log| + UnmarkedFrom(n.log, Handled(n)) <= |s.log| + UnmarkedFrom(s.log, Handled(s))
  {
    var n := Next(rate, s, a);
    if n.log != s.log {
      UnmarkedAfterCopy(s.log, MarkDuplicate(s.log[s.loop.next]), s.loop.next + 1);
    } else {
      UnmarkedShrinks(s.log, Handled(s), Handled(n));
    }
  }

  /** From any moment on, whatever polls fail or are lost and whatever records do
      not decode, the loop on its own adds at most one record for each unmarked
      one it has yet to handle. */
  lemma {:induction false} GrowthIsBoundedAhead(rate: real, s: State, steps: seq<Action>, t: State)
    requires Inv(s) && OnlyLoop(steps) && Leads(rate, s, steps, t)
    ensures |t.log| + UnmarkedFrom(t.log, Handled(t)) <= |s.log| + UnmarkedFrom(s.log, Handled(s))
    ensures |s.log| <= |t.log|
    decreases |steps|
  {
    if steps != [] {
      assert !steps[0].Produce?;
      Preserved(rate, s, steps[0]);
      LoopStepGrowth(rate, s, steps[0]);
      assert forall i :: 0 <= i < |steps[1..]| ==> steps[1..][i] == steps[i + 1];
      GrowthIsBoundedAhead(rate, Next(rate, s, steps[0]), steps[1..], t);
    }
  }

  /** Work left: a marked record costs one step, an unmarked one may also add a copy. */
  function Work(log: seq<Bytes>): nat {
    if log == [] then 0 else Work(log[1..]) + if IsDuplicateMarked(log[0]) then 1 else 2
  }

  lemma {:induction false} WorkAppend(a: seq<Bytes>, v: Bytes)
    ensures Work(a + [v]) == Work(a) + if IsDuplicateMarked(v) then 1 else 2
  {
    if a == [] {
      assert a + [v] == [v] && [v][1..] == [];
    } else {
      assert (a + [v])[1..] == a[1..] + [v];
      WorkAppend(a[1..], v);
    }
  }

  /** redeliverOnce's effect on a quiet topic: the copies one batch appends. */
  function BatchCopies(batch: seq<Bytes>, decodes: seq<bool>, rate: real, rolls: seq<real>, posts: seq<bool>): seq<Bytes>
    requires |decodes| == |rolls| == |posts| == |batch|
  {
    if batch == [] then []
    else
      var n := |batch| - 1;
      BatchCopies(batch[..n], decodes[..n], rate, rolls[..n], posts[..n]) +
      if Copies(batch[n], rate, decodes[n], rolls[n], posts[n]) then [MarkDuplicate(batch[n])] else []
  }

  lemma BatchCopiesStep(batch: seq<Bytes>, decodes: seq<bool>, rate: real, rolls: seq<real>, posts: seq<bool>, i: nat)
    requires |decodes| == |rolls| == |posts| == |batch| && i < |batch|
    ensures BatchCopies(batch[..i + 1], decodes[..i + 1], rate, rolls[..i + 1], posts[..i + 1])
         == BatchCopies(batch[..i], decodes[..i], rate, rolls[..i], posts[..i]) +
            if Copies(batch[i], rate, decodes[i], rolls[i], posts[i]) then [MarkDuplicate(batch[i])] else []
  {
    assert batch[..i + 1][..i] == batch[..i] && decodes[..i + 1][..i] == decodes[..i];
    assert rolls[..i + 1][..i] == rolls[..i] && posts[..i + 1][..i] == posts[..i];
  }

  /** Record i of a batch is to be duplicated, and its copy accepted. */
  predicate Chosen(batch: seq<Bytes>, decodes: seq<bool>, rate: real, rolls: seq<real>, posts: seq<bool>, i: nat)
    requires |decodes| == |rolls| == |posts| == |batch| && i < |batch|
  {
    decodes[i] && !(DUPLICATE_PREFIX <= batch[i]) && rolls[i] < rate && posts[i]
  }

  /** out is the chosen records, each once, in order, behind the prefix. */
  ghost predicate Republished(batch: seq<Bytes>, decodes: seq<bool>, rate: real, rolls: seq<real>, posts: seq<bool>, out: seq<Bytes>, at: seq<nat>)
    requires |decodes| == |rolls| == |posts| == |batch|
  {
    && |at| == |out|
    && (forall j :: 0 <= j < |at| ==> at[j] < |batch| && Chosen(batch, decodes, rate, rolls, posts, at[j]) && out[j] == DUPLICATE_PREFIX + batch[at[j]])
    && (forall i, j :: 0 <= i < j < |at| ==> at[i] < at[j])
    && (forall i: nat :: i < |batch| && Chosen(batch, decodes, rate, rolls, posts, i) ==> i in at)
  }

  lemma {:induction false} BatchIsRepublished(batch: seq<Bytes>, decodes: seq<bool>, rate: real, rolls: seq<real>, posts: seq<bool>) returns (at: seq<nat>)
    requires |decodes| == |rolls| == |posts| == |batch|
    ensures Republished(batch, decodes, rate, rolls, posts, BatchCopies(batch, decodes, rate, rolls, posts), at)
  {
    if batch == [] {
      at := [];
    } else {
      var n := |batch| - 1;
      at := BatchIsRepublished(batch[..n], decodes[..n], rate, rolls[..n], posts[..n]);
      OneMoreRepublished(batch, decodes, rate, rolls, posts, BatchCopies(batch[..n], decodes[..n], rate, rolls[..n], posts[..n]), at);
      if Chosen(batch, decodes, rate, rolls, posts, n) { at := at + [n]; }
    }
  }

  lemma OneMoreRepublished(batch: seq<Bytes>, decodes: seq<bool>, rate: real, rolls: seq<real>, posts: seq<bool>, out: seq<Bytes>, at: seq<nat>)
    requires |decodes| == |rolls| == |posts| == |batch| > 0
    requires var n := |batch| - 1; Republished(batch[..n], decodes[..n], rate, rolls[..n], posts[..n], out, at)
    ensures var n := |batch| - 1;
      if Chosen(batch, decodes, rate, rolls, posts, n)
      then Republished(batch, decodes, rate, rolls, posts, out + [DUPLICATE_PREFIX + batch[n]], at + [n])
      else Republished(batch, decodes, rate, rolls, posts, out, at)
  {
    var n := |batch| - 1;
    forall i: nat | i < n
      ensures Chosen(batch[..n], decodes[..n], rate, rolls[..n], posts[..n], i) == Chosen(batch, decodes, rate, rolls, posts, i)
    { }
    var more := at + [n];
    assert more[|at|] == n && forall j :: 0 <= j < |at| ==> more[j] == at[j];
  }

  /** n copyable records whose rolls are 0/n .. (n-1)/n in any order, at rate k/n. */
  ghost predicate EvenBatch(batch: seq<Bytes>, decodes: seq<bool>, rate: real, rolls: seq<real>, posts: seq<bool>, k: nat) {
    && |decodes| == |rolls| == |posts| == |batch| > 0 && k <= |batch|
    && (forall i :: 0 <= i < |batch| ==> decodes[i] && posts[i] && !(DUPLICATE_PREFIX <= batch[i]))
    && rate == k as real / |batch| as real
    && multiset(rolls) == multiset(Grid(|batch|, |batch|))
  }

  /** 0/n, 1/n, and so on, m of them. */
  function Grid(n: nat, m: nat): (s: seq<real>)
    requires n > 0
    ensures |s| == m
  {
    if m == 0 then [] else Grid(n, m - 1) + [(m - 1) as real / n as real]
  }

  function Below(rolls: seq<real>, rate: real): int {
    |rolls| - Percentile.CountGe(rolls, rate)
  }

  lemma BelowAppend(rolls: seq<real>, roll: real, rate: real)
    ensures Below(rolls + [roll], rate) == Below(rolls, rate) + if roll < rate then 1 else 0
  {
    Percentile.CountConcat(rolls, [roll], rate);
    assert [roll][1..] == [];
  }

  lemma {:induction false} BelowOnGrid(n: nat, m: nat, k: nat)
    requires n > 0
    ensures Below(Grid(n, m), k as real / n as real) == if m <= k then m else k
  {
    if m > 0 {
      BelowOnGrid(n, m - 1, k);
      SameDenominator(m - 1, k, n);
      BelowAppend(Grid(n, m - 1), (m - 1) as real / n as real, k as real / n as real);
    }
  }

  lemma SameDenominator(a: nat, b: nat, n: nat)
    requires n > 0
    ensures a as real / n as real < b as real / n as real <==> a < b
  {
    var p, q := a as real / n as real, b as real / n as real;
    assert p * n as real == a as real && q * n as real == b as real;
  }

  lemma {:induction false} CopiesAreBelow(batch: seq<Bytes>, decodes: seq<bool>, rate: real, rolls: seq<real>, posts: seq<bool>)
    requires |decodes| == |rolls| == |posts| == |batch|
    requires forall i :: 0 <= i < |batch| ==> decodes[i] && posts[i] && !(DUPLICATE_PREFIX <= batch[i])
    ensures |BatchCopies(batch, decodes, rate, rolls, posts)| == Below(rolls, rate)
  {
    if batch != [] {
      var n := |batch| - 1;
      CopiesAreBelow(batch[..n], decodes[..n], rate, rolls[..n], posts[..n]);
      BelowAppend(rolls[..n], rolls[n], rate);
      assert rolls == rolls[..n] + [rolls[n]];
    }
  }

  /** At rate k/n, of n records whose rolls are spread evenly exactly k are copied. */
  lemma EvenRollsCopyTheRate(batch: seq<Bytes>, decodes: seq<bool>, rate: real, rolls: seq<real>, posts: seq<bool>, k: nat)
    requires EvenBatch(batch, decodes, rate, rolls, posts, k)
    ensures |BatchCopies(batch, decodes, rate, rolls, posts)| == k
  {
    CopiesAreBelow(batch, decodes, rate, rolls, posts);
    Percentile.CountPermutes(rolls, Grid(|batch|, |batch|), rate);
    BelowOnGrid(|batch|, |batch|, k);
  }

  /** What is owed to a batch: exactly the chosen records, and so k of n at rate k/n
      over even rolls. */
  ghost predicate DuplicatesRight(batch: seq<Bytes>, decodes: seq<bool>, rate: real, rolls: seq<real>, posts: seq<bool>, out: seq<Bytes>)
    requires |decodes| == |rolls| == |posts| == |batch|
  {
    && (exists at :: Republished(batch, decodes, rate, rolls, posts, out, at))
    && (forall k: nat :: EvenBatch(batch, decodes, rate, rolls, posts, k) ==> |out| == k)
  }

  lemma BatchDuplicatesRight(batch: seq<Bytes>, decodes: seq<bool>, rate: real, rolls: seq<real>, posts: seq<bool>)
    requires |decodes| == |rolls| == |posts| == |batch|
    ensures DuplicatesRight(batch, decodes, rate, rolls, posts, BatchCopies(batch, decodes, rate, rolls, posts))
  {
    var at := BatchIsRepublished(batch, decodes, rate, rolls, posts);
    forall k: nat | EvenBatch(batch, decodes, rate, rolls, posts, k) ensures |BatchCopies(batch, decodes, rate, rolls, posts)| == k {
      EvenRollsCopyTheRate(batch, decodes, rate, rolls, posts, k);
    }
  }

  lemma {:induction false} CopiesCost(batch: seq<Bytes>, decodes: seq<bool>, rate: real, rolls: seq<real>, posts: seq<bool>)
    requires |decodes| == |rolls| == |posts| == |batch|
    ensures Work(BatchCopies(batch, decodes, rate, rolls, posts)) + |batch| <= Work(batch)
  {
    if batch != [] {
      var n := |batch| - 1;
      CopiesCost(batch[..n], decodes[..n], rate, rolls[..n], posts[..n]);
      assert batch == batch[..n] + [batch[n]];
      WorkAppend(batch[..n], batch[n]);
      var copies := BatchCopies(batch[..n], decodes[..n], rate, rolls[..n], posts[..n]);
      assert copies + [] == copies;
      WorkAppend(copies, MarkDuplicate(batch[n]));
    }
  }

  lemma BatchShrinksWork(log: seq<Bytes>, start: nat, count: nat, decodes: seq<bool>, rate: real, rolls: seq<real>, posts: seq<bool>)
    requires start + count <= |log| && |decodes| == |rolls| == |posts| == count
    ensures var copies := BatchCopies(log[start..start + count], decodes, rate, rolls, posts);
      Work((log + copies)[start + count..]) + count <= Work(log[start..])
  {
    var batch := log[start..start + count];
    var copies := BatchCopies(batch, decodes, rate, rolls, posts);
    CopiesCost(batch, decodes, rate, rolls, posts);
    WorkSplit(log, start, count);
    assert (log + copies)[start + count..] == log[start + count..] + copies;
    WorkConcat(log[start + count..], copies);
  }

  class Topic {
    var log: seq<Bytes>
    var offset: nat

    ghost predicate Valid() reads this { offset <= |log| }

    constructor (log: seq<Bytes>)
      ensures Valid() && this.log == log && offset == 0
    {
      this.log, offset := log, 0;
    }

    /** One poll, and the loop over its records. A refused poll consumes nothing,
        a lost one consumes its records without the loop seeing them. */
    method RedeliverOnce(poll: PollAnswer, decodes: seq<bool>, rate: real, rolls: seq<real>, posts: seq<bool>)
      requires Valid() && offset + Consumed(poll) <= |log| && |decodes| == |rolls| == |posts| == Consumed(poll)
      modifies this
      ensures Valid() && offset == old(offset) + Consumed(poll)
      ensures log == old(log) +
        if poll.Records? then BatchCopies(old(log)[old(offset)..offset], decodes, rate, rolls, posts) else []
      ensures old(log) <= log
      ensures poll.Records? ==> DuplicatesRight(old(log)[old(offset)..offset], decodes, rate, rolls, posts, log[|old(log)|..])
      ensures Work(log[offset..]) + Consumed(poll) <= Work(old(log)[old(offset)..])
    {
      assert log + [] == log;
      match poll {
        case Refused =>
        case Lost(count) =>
          LostShrinksWork(log, offset, count);
          offset := offset + count;
        case Records(count) =>
          ReadBatch(count, decodes, rate, rolls, posts);
      }
    }

    /** A batch that the loop does see. */
    method ReadBatch(count: nat, decodes: seq<bool>, rate: real, rolls: seq<real>, posts: seq<bool>)
      requires Valid() && offset + count <= |log| && |decodes| == |rolls| == |posts| == count
      modifies this
      ensures Valid() && offset == old(offset) + count
      ensures log == old(log) + BatchCopies(old(log)[old(offset)..offset], decodes, rate, rolls, posts)
      ensures DuplicatesRight(old(log)[old(offset)..offset], decodes, rate, rolls, posts, log[|old(log)|..])
      ensures Work(log[offset..]) + count <= Work(old(log)[old(offset)..])
    {
      var batch := log[offset..offset + count];
      BatchShrinksWork(log, offset, count, decodes, rate, rolls, posts);
      offset := offset + count;
      Republish(batch, decodes, rate, rolls, posts);
    }

    /** The loop over one batch. */
    method Republish(batch: seq<Bytes>, decodes: seq<bool>, rate: real, rolls: seq<real>, posts: seq<bool>)
      requires |decodes| == |rolls| == |posts| == |batch|
      modifies this
      ensures offset == old(offset) && log == old(log) + BatchCopies(batch, decodes, rate, rolls, posts)
      ensures DuplicatesRight(batch, decodes, rate, rolls, posts, log[|old(log)|..])
    {
      ghost var before := log;
      for i := 0 to |batch|
        invariant offset == old(offset)
        invariant log == before + BatchCopies(batch[..i], decodes[..i], rate, rolls[..i], posts[..i])
      {
        var raw := batch[i];
        BatchCopiesStep(batch, decodes, rate, rolls, posts, i);
        if decodes[i] && !IsDuplicateMarked(raw) && ShouldDuplicate(rate, rolls[i]) && posts[i] {
          log := log + [MarkDuplicate(raw)];
        }
      }
      var n := |batch|;
      assert batch[..n] == batch && decodes[..n] == decodes && rolls[..n] == rolls && posts[..n] == posts;
      BatchDuplicatesRight(batch, decodes, rate, rolls, posts);
      assert log[|before|..] == BatchCopies(batch, decodes, rate, rolls, posts);
    }

    /** Polls that bring nothing: refused, or answered with no records. */
    method Idle(polls: nat, refused: nat -> bool, rate: real)
      requires Valid()
      modifies this
      ensures Valid() && offset == old(offset) && log == old(log)
    {
      for i := 0 to polls
        invariant Valid() && offset == old(offset) && log == old(log)
      {
        RedeliverOnce(if refused(i) then Refused else Records(0), [], rate, [], []);
      }
    }

    /** Polling with no other producer reaches the end of the log it feeds, in no
        more consumed records than the work there was to begin with, however many
        polls bring nothing in between. */
    method Drain(idle: nat -> nat, refused: nat -> bool, count: nat -> nat, lost: nat -> bool,
                 decode: nat -> bool, rate: real, roll: nat -> real, post: nat -> bool)
      returns (consumed: nat)
      requires Valid()
      modifies this
      ensures Valid() && offset == |log| && old(log) <= log
      ensures consumed <= Work(old(log)[old(offset)..])
    {
      consumed := 0;
      while offset < |log|
        invariant Valid() && old(log) <= log
        invariant consumed + Work(log[offset..]) <= Work(old(log)[old(offset)..])
        decreases Work(log[offset..])
      {
        Idle(idle(consumed), refused, rate);
        var n := count(consumed);
        if n == 0 || offset + n > |log| { n := 1; }
        var decodes := seq(n, i requires 0 <= i < n => decode(consumed + i));
        var rolls := seq(n, i requires 0 <= i < n => roll(consumed + i));
        var posts := seq(n, i requires 0 <= i < n => post(consumed + i));
        RedeliverOnce(if lost(consumed) then Lost(n) else Records(n), decodes, rate, rolls, posts);
        consumed := consumed + n;
      }
    }
  }

  /** How the server answers a poll. */
  datatype PollAnswer = Refused | Lost(count: nat) | Records(count: nat)

  function Consumed(poll: PollAnswer): nat {
    if poll.Refused? then 0 else poll.count
  }

  lemma LostShrinksWork(log: seq<Bytes>, start: nat, count: nat)
    requires start + count <= |log|
    ensures Work(log[start + count..]) + count <= Work(log[start..])
  {
    WorkSplit(log, start, count);
    WorkCounts(log[start..start + count]);
  }

  lemma {:induction false} WorkCounts(a: seq<Bytes>)
    ensures |a| <= Work(a)
  {
    if a != [] { WorkCounts(a[1..]); }
  }

  lemma WorkSplit(log: seq<Bytes>, start: nat, count: nat)
    requires start + count <= |log|
    ensures Work(log[start..]) == Work(log[start..start + count]) + Work(log[start + count..])
  {
    WorkConcat(log[start..start + count], log[start + count..]);
    assert log[start..] == log[start..start + count] + log[start + count..];
  }

  lemma {:induction false} WorkConcat(a: seq<Bytes>, b: seq<Bytes>)
    ensures Work(a + b) == Work(a) + Work(b)
  {
    if a == [] {
      assert a + b == b;
    } else {
      assert (a + b)[1..] == a[1..] + b;
      WorkConcat(a[1..], b);
    }
  }
}
