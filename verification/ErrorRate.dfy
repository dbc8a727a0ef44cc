/** error_rate on a WireMock host (internal/applier/mock_applier.go): a proportion
    approximated by a deterministic cycle of stubs, registered all or nothing.
    Rates are reals where the source has float64. */
module ErrorRate {
  import opened Sequences

  const CYCLE_LEN: nat := 20
  const EPSILON: real := 0.000000001

  function Abs(x: real): real { if x < 0.0 then -x else x }

  datatype Approximation = Approximation(errorCount: int, applied: real, approximated: bool)

  function ApproximateErrorRate(rate: real): Approximation {
    var errorCount := (rate * 20.0 + 0.5).Floor;
    var applied := errorCount as real / 20.0;
    Approximation(errorCount, applied, Abs(applied - rate) > EPSILON)
  }

  /** The rate of k failing states in the cycle. */
  function Step(k: int): real { k as real / 20.0 }

  /** A legal rate is applied to within half a step, halves up, and is reported as
      approximated exactly when no step of the cycle stands for it. */
  lemma ApproximationIsNearest(rate: real)
    requires 0.0 <= rate <= 1.0
    ensures var a := ApproximateErrorRate(rate);
      && 0 <= a.errorCount <= CYCLE_LEN
      && -1.0 / 40.0 < a.applied - rate <= 1.0 / 40.0
      && (a.approximated <==> forall k: int :: Abs(Step(k) - rate) > EPSILON)
  {
    var a := ApproximateErrorRate(rate);
    assert a.applied == Step(a.errorCount);
    assert a.errorCount as real <= rate * 20.0 + 0.5 < a.errorCount as real + 1.0;
    forall k: int | Abs(Step(k) - rate) <= EPSILON ensures k == a.errorCount {
      assert (k - a.errorCount) as real == k as real - a.errorCount as real;
    }
  }

  // ------------------------------------------------------------- the states

  function Digit(d: nat): char
    requires d < 10
  {
    ['0', '1', '2', '3', '4', '5', '6', '7', '8', '9'][d]
  }

  function Decimal(n: nat): (s: string)
    ensures s != []
  {
    if n < 10 then [Digit(n)] else Decimal(n / 10) + [Digit(n % 10)]
  }

  lemma {:induction false} DecimalInjective(a: nat, b: nat)
    requires Decimal(a) == Decimal(b)
    ensures a == b
  {
    var s := Decimal(a);
    assert s[|s| - 1] == Digit(a % 10) && s[|s| - 1] == Digit(b % 10);
    assert a >= 10 ==> |s| == |Decimal(a / 10)| + 1 >= 2;
    assert b >= 10 ==> |s| == |Decimal(b / 10)| + 1 >= 2;
    if a >= 10 && b >= 10 {
      assert Decimal(a / 10) == s[..|s| - 1] && Decimal(b / 10) == s[..|s| - 1];
      DecimalInjective(a / 10, b / 10);
    }
  }

  /** errorRateStateName: state 0 must be WireMock's own initial state. */
  function StateName(fault: string, i: nat): string {
    if i == 0 then "Started" else fault + "_s" + Decimal(i)
  }

  lemma StateNamesDistinct(fault: string, i: nat, j: nat)
    requires StateName(fault, i) == StateName(fault, j)
    ensures i == j
  {
    if i != 0 && j != 0 {
      assert StateName(fault, i)[|fault| + 2..] == Decimal(i);
      assert StateName(fault, j)[|fault| + 2..] == Decimal(j);
      DecimalInjective(i, j);
    } else if i != 0 {
      NotStarted(fault, i);
    } else if j != 0 {
      NotStarted(fault, j);
    }
  }

  lemma NotStarted(fault: string, i: nat)
    requires i != 0
    ensures StateName(fault, i) != "Started"
  {
    var s := StateName(fault, i);
    assert s[|s| - 1] == Decimal(i)[|Decimal(i)| - 1] == Digit(i % 10);
    assert "Started"[|"Started"| - 1] == 'd';
  }

  // -------------------------------------------------------------- the cycle

  datatype Mapping = Mapping(scenario: string, required: string, next: string, status: int)

  function MappingAt(fault: string, errorCount: int, status: int, i: nat): Mapping {
    Mapping("tortureu_error_rate_" + fault, StateName(fault, i), StateName(fault, (i + 1) % CYCLE_LEN),
            if i < errorCount then status else 200)
  }

  function Cycle(fault: string, errorCount: int, status: int): seq<Mapping> {
    seq(CYCLE_LEN, i requires 0 <= i < CYCLE_LEN => MappingAt(fault, errorCount, status, i))
  }

  /** The stubs of one fault share a scenario, and no other fault's. */
  lemma ScenarioIsTheFaults(f: string, g: string, m: int, n: int, status: int, other: int, i: nat, j: nat)
    requires i < CYCLE_LEN && j < CYCLE_LEN
    ensures Cycle(f, m, status)[i].scenario == Cycle(g, n, other)[j].scenario <==> f == g
  {
    var prefix := "tortureu_error_rate_";
    assert (prefix + f)[|prefix|..] == f && (prefix + g)[|prefix|..] == g;
  }

  method ErrorRateMappings(fault: string, rate: real, status: int) returns (mappings: seq<Mapping>)
    ensures mappings == Cycle(fault, ApproximateErrorRate(rate).errorCount, status)
  {
    var errorCount := ApproximateErrorRate(rate).errorCount;
    mappings := [];
    for i := 0 to CYCLE_LEN
      invariant mappings == Cycle(fault, errorCount, status)[..i]
    {
      var answer := 200;
      if i < errorCount { answer := status; }
      mappings := mappings + [Mapping("tortureu_error_rate_" + fault, StateName(fault, i),
                                      StateName(fault, (i + 1) % CYCLE_LEN), answer)];
    }
  }

  /** The scenario's state after n requests, each answered by an enabled stub. */
  ghost function StateAfter(m: seq<Mapping>, n: nat): string {
    if n == 0 then "Started"
    else
      var s := StateAfter(m, n - 1);
      if i: nat :| i < |m| && m[i].required == s then m[i].next else s
  }

  /** The stub that answers the n-th request (from 0). */
  ghost function StubFor(m: seq<Mapping>, n: nat): Option<nat> {
    var s := StateAfter(m, n);
    if i: nat :| i < |m| && m[i].required == s then Some(i) else None
  }

  /** The status the n-th request gets. */
  ghost function StatusOf(m: seq<Mapping>, n: nat): Option<int> {
    var i := StubFor(m, n);
    if i.Some? && i.value < |m| then Some(m[i.value].status) else None
  }

  /** Stub i and no other is enabled in state s. */
  ghost predicate OnlyEnabled(m: seq<Mapping>, s: string, i: nat) {
    i < |m| && forall j :: 0 <= j < |m| ==> (m[j].required == s <==> j == i)
  }

  lemma EnabledInState(fault: string, errorCount: int, status: int, i: nat)
    requires i < CYCLE_LEN
    ensures OnlyEnabled(Cycle(fault, errorCount, status), StateName(fault, i), i)
  {
    var m := Cycle(fault, errorCount, status);
    forall j | 0 <= j < |m| ensures m[j].required == StateName(fault, i) <==> j == i {
      if m[j].required == StateName(fault, i) { StateNamesDistinct(fault, j, i); }
    }
  }

  lemma StateFollows(m: seq<Mapping>, n: nat, r: nat)
    requires n > 0 && OnlyEnabled(m, StateAfter(m, n - 1), r)
    ensures StateAfter(m, n) == m[r].next
  {
    assert m[r].required == StateAfter(m, n - 1);
  }

  /** Each state enables its own stub, which leads to the next. */
  ghost predicate TakesTurns(m: seq<Mapping>, fault: string) {
    && |m| == CYCLE_LEN
    && (forall i :: 0 <= i < CYCLE_LEN ==> OnlyEnabled(m, StateName(fault, i), i))
    && (forall i :: 0 <= i < CYCLE_LEN ==> m[i].next == StateName(fault, (i + 1) % CYCLE_LEN))
  }

  lemma CycleTakesTurns(fault: string, errorCount: int, status: int)
    ensures TakesTurns(Cycle(fault, errorCount, status), fault)
  {
    forall i | 0 <= i < CYCLE_LEN ensures OnlyEnabled(Cycle(fault, errorCount, status), StateName(fault, i), i) {
      EnabledInState(fault, errorCount, status, i);
    }
  }

  lemma NextTurn(n: nat)
    ensures (n % CYCLE_LEN + 1) % CYCLE_LEN == (n + 1) % CYCLE_LEN
  {
  }

  lemma TurnStep(m: seq<Mapping>, fault: string, n: nat, r: nat)
    requires TakesTurns(m, fault) && n > 0 && r < CYCLE_LEN && StateAfter(m, n - 1) == StateName(fault, r)
    ensures StateAfter(m, n) == StateName(fault, (r + 1) % CYCLE_LEN)
  {
    assert OnlyEnabled(m, StateName(fault, r), r);
    StateFollows(m, n, r);
  }

  lemma {:induction false} StatesInTurn(m: seq<Mapping>, fault: string, n: nat)
    requires TakesTurns(m, fault)
    ensures StateAfter(m, n) == StateName(fault, n % CYCLE_LEN)
  {
    if n > 0 {
      var r := (n - 1) % CYCLE_LEN;
      StatesInTurn(m, fault, n - 1);
      NextTurn(n - 1);
      TurnStep(m, fault, n, r);
      assert (r + 1) % CYCLE_LEN == n % CYCLE_LEN;
    }
  }

  /** Exactly one stub is enabled in every state the cycle reaches, the next in
      turn; the first errorCount of them answer with the fault's status. */
  lemma OneStubEnabled(fault: string, errorCount: int, status: int, n: nat)
    ensures var m := Cycle(fault, errorCount, status);
      && OnlyEnabled(m, StateAfter(m, n), n % CYCLE_LEN)
      && StubFor(m, n) == Some(n % CYCLE_LEN)
      && StatusOf(m, n) == Some(if n % CYCLE_LEN < errorCount then status else 200)
  {
    var m := Cycle(fault, errorCount, status);
    var r := n % CYCLE_LEN;
    CycleTakesTurns(fault, errorCount, status);
    StatesInTurn(m, fault, n);
    EnabledInState(fault, errorCount, status, r);
    assert m[r].required == StateAfter(m, n);
    assert StubFor(m, n) == Some(r);
  }

  ghost predicate AnsweredInTurn(m: seq<Mapping>) {
    forall n: nat :: StubFor(m, n) == Some(n % CYCLE_LEN)
  }

  /** How many of the first n requests one of the errorCount failing stubs answers. */
  ghost function Failures(m: seq<Mapping>, errorCount: int, n: nat): nat {
    if n == 0 then 0
    else
      var i := StubFor(m, n - 1);
      Failures(m, errorCount, n - 1) + if i.Some? && i.value < errorCount then 1 else 0
  }

  /** How many of the first n requests get this status. */
  ghost function Answered(m: seq<Mapping>, status: int, n: nat): nat {
    if n == 0 then 0 else Answered(m, status, n - 1) + if StatusOf(m, n - 1) == Some(status) then 1 else 0
  }

  lemma {:induction false} FailuresShow(m: seq<Mapping>, errorCount: int, status: int, n: nat)
    requires AnsweredInTurn(m) && |m| == CYCLE_LEN && status != 200
    requires forall i :: 0 <= i < CYCLE_LEN ==> m[i].status == if i < errorCount then status else 200
    ensures Answered(m, status, n) == Failures(m, errorCount, n)
  {
    if n > 0 {
      FailuresShow(m, errorCount, status, n - 1);
      assert StubFor(m, n - 1) == Some((n - 1) % CYCLE_LEN);
    }
  }

  function Min(a: int, b: int): int { if a < b then a else b }

  lemma DivStep(n: nat, e: nat)
    requires n > 0 && e <= CYCLE_LEN
    ensures n / CYCLE_LEN * e + Min(n % CYCLE_LEN, e)
         == (n - 1) / CYCLE_LEN * e + Min((n - 1) % CYCLE_LEN, e) + if (n - 1) % CYCLE_LEN < e then 1 else 0
  {
    var q, r := (n - 1) / CYCLE_LEN, (n - 1) % CYCLE_LEN;
    if r == CYCLE_LEN - 1 {
      assert n / CYCLE_LEN == q + 1 && n % CYCLE_LEN == 0;
      assert (q + 1) * e == q * e + e;
    } else {
      assert n / CYCLE_LEN == q && n % CYCLE_LEN == r + 1;
    }
  }

  lemma {:induction false} FailuresSoFar(m: seq<Mapping>, errorCount: int, n: nat)
    requires AnsweredInTurn(m) && 0 <= errorCount <= CYCLE_LEN
    ensures Failures(m, errorCount, n) == n / CYCLE_LEN * errorCount + Min(n % CYCLE_LEN, errorCount)
  {
    if n > 0 {
      FailuresSoFar(m, errorCount, n - 1);
      assert StubFor(m, n - 1) == Some((n - 1) % CYCLE_LEN);
      DivStep(n, errorCount);
    }
  }

  lemma ProportionBound(q: nat, r: nat, e: nat)
    requires r < 20 && e <= 20
    ensures 0 <= 20 * (q * e + Min(r, e)) - (20 * q + r) * e <= e * (20 - e)
  {
    assert (20 * q + r) * e == 20 * (q * e) + r * e;
    if r <= e {
      assert 20 * r - r * e == r * (20 - e);
      assert r * (20 - e) <= e * (20 - e);
    } else {
      assert 20 * e - r * e == e * (20 - r);
      assert e * (20 - r) <= e * (20 - e);
    }
  }

  lemma BlockArithmetic(n: nat, e: nat)
    requires e <= CYCLE_LEN
    ensures var f := n / CYCLE_LEN * e + Min(n % CYCLE_LEN, e);
      && 0 <= 20 * f - n * e <= e * (20 - e)
      && (n + 20) / CYCLE_LEN * e + Min((n + 20) % CYCLE_LEN, e) == f + e
  {
    var q, r := n / CYCLE_LEN, n % CYCLE_LEN;
    ProportionBound(q, r, e);
    assert n == 20 * q + r;
    assert (n + 20) / CYCLE_LEN == q + 1 && (n + 20) % CYCLE_LEN == r;
    assert (q + 1) * e == q * e + e;
  }

  lemma TurnsKeepTheProportion(m: seq<Mapping>, errorCount: int, n: nat)
    requires AnsweredInTurn(m) && 0 <= errorCount <= CYCLE_LEN
    ensures 0 <= 20 * Failures(m, errorCount, n) - n * errorCount <= errorCount * (20 - errorCount)
    ensures Failures(m, errorCount, n + 20) - Failures(m, errorCount, n) == errorCount
  {
    FailuresSoFar(m, errorCount, n);
    FailuresSoFar(m, errorCount, n + 20);
    BlockArithmetic(n, errorCount);
  }

  /** From Started, failures never fall behind the declared proportion and never
      run ahead of it by more than one block's worth; any 20 requests in a row
      contain exactly errorCount of them. A caller sees them as the fault's status,
      unless that is the 200 of the other stubs. */
  lemma CycleKeepsTheProportion(fault: string, errorCount: int, status: int, n: nat)
    requires 0 <= errorCount <= CYCLE_LEN
    ensures var m := Cycle(fault, errorCount, status);
      && 0 <= 20 * Failures(m, errorCount, n) - n * errorCount <= errorCount * (20 - errorCount)
      && Failures(m, errorCount, n + 20) - Failures(m, errorCount, n) == errorCount
      && (status != 200 ==> Answered(m, status, n) == Failures(m, errorCount, n))
  {
    var m := Cycle(fault, errorCount, status);
    forall k: nat ensures StubFor(m, k) == Some(k % CYCLE_LEN) {
      OneStubEnabled(fault, errorCount, status, k);
    }
    TurnsKeepTheProportion(m, errorCount, n);
    if status != 200 { FailuresShow(m, errorCount, status, n); }
  }

  /** The applied rate is the density of failing stubs, and any 20 requests show it. */
  lemma AppliedIsTheDensity(fault: string, rate: real, status: int, n: nat)
    requires 0.0 <= rate <= 1.0
    ensures var a := ApproximateErrorRate(rate);
      var m := Cycle(fault, a.errorCount, status);
      a.applied == (Failures(m, a.errorCount, n + 20) - Failures(m, a.errorCount, n)) as real / 20.0
  {
    ApproximationIsNearest(rate);
    CycleKeepsTheProportion(fault, ApproximateErrorRate(rate).errorCount, status, n);
  }

  // ---------------------------------------------------------- all or nothing

  type Stubs = map<string, Mapping>

  /** How the server answers one create. StubWithoutId covers a stub that was
      made but whose response was lost, had another status, or carried no id. */
  datatype Answer = Created(id: string) | NoStub | StubWithoutId(id: string)

  /** The server hands out ids it does not already use. */
  ghost predicate FreshIds(answers: seq<Answer>, stubs: Stubs) {
    && (forall i :: 0 <= i < |answers| && !answers[i].NoStub? ==> answers[i].id !in stubs && answers[i].id != "")
    && (forall i, j :: 0 <= i < j < |answers| && !answers[i].NoStub? && !answers[j].NoStub? ==>
          answers[i].id != answers[j].id)
  }

  function IdsOf(answers: seq<Answer>): seq<string> {
    if answers == [] then []
    else
      var n := |answers| - 1;
      IdsOf(answers[..n]) + if answers[n].Created? then [answers[n].id] else []
  }

  /** The server's stubs after these creates. */
  function Registered(stubs: Stubs, mappings: seq<Mapping>, answers: seq<Answer>): Stubs
    requires |answers| <= |mappings|
  {
    if answers == [] then stubs
    else
      var n := |answers| - 1;
      var before := Registered(stubs, mappings, answers[..n]);
      if answers[n].NoStub? then before else before[answers[n].id := mappings[n]]
  }

  ghost predicate AllCreated(answers: seq<Answer>) {
    forall i :: 0 <= i < |answers| ==> answers[i].Created?
  }

  class WireMock {
    var stubs: Stubs

    constructor (stubs: Stubs)
      ensures this.stubs == stubs
    {
      this.stubs := stubs;
    }

    method Create(m: Mapping, answer: Answer) returns (id: Option<string>)
      modifies this
      ensures stubs == if answer.NoStub? then old(stubs) else old(stubs)[answer.id := m]
      ensures id == if answer.Created? then Some(answer.id) else None
    {
      if !answer.NoStub? { stubs := stubs[answer.id := m]; }
      id := if answer.Created? then Some(answer.id) else None;
    }

    /** The loop of both rollback and undo: delete each id, remembering a failure. */
    method DeleteAll(ids: seq<string>, accepted: seq<bool>) returns (ok: bool)
      requires |ids| == |accepted|
      modifies this
      ensures stubs == old(stubs) - (set i | 0 <= i < |ids| && accepted[i] :: ids[i])
      ensures ok <==> forall i :: 0 <= i < |ids| ==> accepted[i]
    {
      ok := true;
      for n := 0 to |ids|
        invariant stubs == old(stubs) - (set i | 0 <= i < n && accepted[i] :: ids[i])
        invariant ok <==> forall i :: 0 <= i < n ==> accepted[i]
      {
        if accepted[n] { stubs := stubs - {ids[n]}; } else { ok := false; }
      }
    }
  }

  /** The first create that does not answer with an id. */
  ghost predicate FailsAt(answers: seq<Answer>, k: nat) {
    k < |answers| && !answers[k].Created? && AllCreated(answers[..k])
  }

  function IdOf(a: Answer): string {
    if a.NoStub? then "" else a.id
  }

  /** The stubs a failed call leaves: those whose rollback delete was refused, and
      what the failing create made, if anything. */
  ghost function Leftover(answers: seq<Answer>, deletes: seq<bool>, k: nat): set<string>
    requires k < |answers| && k <= |deletes|
  {
    (set i | 0 <= i < k && !deletes[i] :: IdOf(answers[i])) + if answers[k].NoStub? then {} else {IdOf(answers[k])}
  }

  /** The create at k failed: the earlier stubs are untouched, exactly the leftover
      is added to them, and so all is as before just when the failing create left
      nothing and every delete was accepted. */
  ghost predicate RolledBack(before: Stubs, after: Stubs, answers: seq<Answer>, deletes: seq<bool>, k: nat) {
    && FailsAt(answers, k) && k <= |deletes|
    && after.Keys == before.Keys + Leftover(answers, deletes, k)
    && (forall x :: x in before ==> after[x] == before[x])
    && (after == before <==> answers[k].NoStub? && forall i :: 0 <= i < k ==> deletes[i])
  }

  /** ApplyErrorRate; deletes[i] is the server's answer should the i-th id be rolled
      back, which the source ignores. On success the new stubs are exactly the
      cycle's, under the returned ids; on failure at any position everything
      registered before is gone again, as far as the deletes were accepted. */
  method ApplyErrorRate(server: WireMock, fault: string, rate: real, status: int, answers: seq<Answer>, deletes: seq<bool>)
    returns (ids: seq<string>, ok: bool, report: Approximation)
    requires |answers| == |deletes| == CYCLE_LEN && FreshIds(answers, server.stubs)
    modifies server
    ensures ok <==> AllCreated(answers)
    ensures ok ==> ids == IdsOf(answers)
    ensures ok ==> server.stubs == Registered(old(server.stubs), Cycle(fault, ApproximateErrorRate(rate).errorCount, status), answers)
    ensures ok ==> HoldsCycle(old(server.stubs), server.stubs, ids, fault, report.errorCount, status)
    ensures report == ApproximateErrorRate(rate)
    ensures !ok ==> exists k: nat :: RolledBack(old(server.stubs), server.stubs, answers, deletes, k)
  {
    report := ApproximateErrorRate(rate);
    var mappings := ErrorRateMappings(fault, rate, status);
    ids := [];
    ghost var before := server.stubs;
    for i := 0 to CYCLE_LEN
      invariant AllCreated(answers[..i])
      invariant server.stubs == Registered(before, mappings, answers[..i])
      invariant ids == IdsOf(answers[..i])
    {
      OneMoreCreate(before, mappings, answers, i);
      var id := server.Create(mappings[i], answers[i]);
      if id.None? {
        IdsMembers(answers[..i]);
        var _ := server.DeleteAll(ids, deletes[..i]);
        RollbackClears(before, mappings, answers, deletes, i);
        return ids, false, report;
      }
      ids := ids + [id.value];
    }
    assert answers[..CYCLE_LEN] == answers;
    CycleIsHeld(before, answers, fault, report.errorCount, status);
    ok := true;
  }

  /** The i-th id names the stub that answers in the i-th state and leads to the next,
      the first errorCount of them with the fault's status; nothing else is new. */
  ghost predicate HoldsCycle(before: Stubs, after: Stubs, ids: seq<string>, fault: string, errorCount: int, status: int) {
    && |ids| == 20
    && (forall i, j :: 0 <= i < j < 20 ==> ids[i] != ids[j])
    && (forall i :: 0 <= i < 20 ==> ids[i] in after && ids[i] !in before && IsStub(after[ids[i]], fault, i, errorCount, status))
    && (forall x :: x in after <==> x in before || x in ids)
    && (forall x :: x in before ==> after[x] == before[x])
  }

  predicate IsStub(m: Mapping, fault: string, i: nat, errorCount: int, status: int) {
    && m.scenario == "tortureu_error_rate_" + fault
    && m.required == StateName(fault, i) && m.next == StateName(fault, if i == 19 then 0 else i + 1)
    && m.status == if i < errorCount then status else 200
  }

  lemma OneMoreCreate(stubs: Stubs, mappings: seq<Mapping>, answers: seq<Answer>, i: nat)
    requires i < |answers| <= |mappings|
    ensures var before := Registered(stubs, mappings, answers[..i]);
      Registered(stubs, mappings, answers[..i + 1]) == if answers[i].NoStub? then before else before[answers[i].id := mappings[i]]
    ensures IdsOf(answers[..i + 1]) == IdsOf(answers[..i]) + if answers[i].Created? then [answers[i].id] else []
    ensures AllCreated(answers[..i + 1]) <==> AllCreated(answers[..i]) && answers[i].Created?
  {
    var next := answers[..i + 1];
    assert next[..i] == answers[..i] && next[i] == answers[i];
    assert forall j :: 0 <= j < i ==> answers[..i][j] == next[j];
  }

  lemma {:induction false} IdsMembers(answers: seq<Answer>)
    requires AllCreated(answers)
    ensures |IdsOf(answers)| == |answers|
    ensures forall i :: 0 <= i < |answers| ==> IdsOf(answers)[i] == answers[i].id
  {
    if answers != [] { IdsMembers(answers[..|answers| - 1]); }
  }

  lemma {:induction false} RegisteredKeys(stubs: Stubs, mappings: seq<Mapping>, answers: seq<Answer>)
    requires |answers| <= |mappings| && FreshIds(answers, stubs) && AllCreated(answers)
    ensures Registered(stubs, mappings, answers).Keys == stubs.Keys + (set x | x in IdsOf(answers))
    ensures forall x :: x in stubs ==> Registered(stubs, mappings, answers)[x] == stubs[x]
  {
    if answers != [] {
      RegisteredKeys(stubs, mappings, answers[..|answers| - 1]);
      assert answers[|answers| - 1].Created?;
    }
  }

  lemma {:induction false} MappingsById(stubs: Stubs, mappings: seq<Mapping>, answers: seq<Answer>)
    requires |answers| <= |mappings| && FreshIds(answers, stubs) && AllCreated(answers)
    ensures forall i :: 0 <= i < |answers| ==> answers[i].id in Registered(stubs, mappings, answers)
    ensures forall i :: 0 <= i < |answers| ==> Registered(stubs, mappings, answers)[answers[i].id] == mappings[i]
  {
    if answers != [] {
      var n := |answers| - 1;
      var front := answers[..n];
      MappingsById(stubs, mappings, front);
      assert answers[n].Created?;
      forall i | 0 <= i < n
        ensures answers[i].id in Registered(stubs, mappings, answers)
        ensures Registered(stubs, mappings, answers)[answers[i].id] == mappings[i]
      {
        assert front[i] == answers[i] && answers[i].Created?;
        assert answers[i].id != answers[n].id;
      }
    }
  }

  lemma Wraps(i: nat)
    requires i < 20
    ensures (i + 1) % CYCLE_LEN == if i == 19 then 0 else i + 1
  {
  }

  lemma StubsOfCycle(fault: string, errorCount: int, status: int, i: nat)
    requires i < 20
    ensures IsStub(Cycle(fault, errorCount, status)[i], fault, i, errorCount, status)
  {
    Wraps(i);
    var m := MappingAt(fault, errorCount, status, i);
    assert Cycle(fault, errorCount, status)[i] == m;
    var next := (i + 1) % CYCLE_LEN;
    assert m.next == StateName(fault, next);
  }

  lemma CycleIsHeld(before: Stubs, answers: seq<Answer>, fault: string, errorCount: int, status: int)
    requires |answers| == CYCLE_LEN && FreshIds(answers, before) && AllCreated(answers)
    ensures HoldsCycle(before, Registered(before, Cycle(fault, errorCount, status), answers), IdsOf(answers), fault, errorCount, status)
  {
    var mappings := Cycle(fault, errorCount, status);
    var after, ids := Registered(before, mappings, answers), IdsOf(answers);
    IdsAreTheNewStubs(before, mappings, answers);
    MappingsById(before, mappings, answers);
    forall i | 0 <= i < 20 ensures ids[i] in after && ids[i] !in before && IsStub(after[ids[i]], fault, i, errorCount, status) {
      StubsOfCycle(fault, errorCount, status, i);
      assert answers[i].Created? && ids[i] == answers[i].id;
    }
    forall i, j | 0 <= i < j < 20 ensures ids[i] != ids[j] { assert answers[i].Created? && answers[j].Created?; }
    forall x ensures x in after <==> x in before || x in ids { assert x in after <==> x in after.Keys; }
  }

  lemma IdsAreTheNewStubs(stubs: Stubs, mappings: seq<Mapping>, answers: seq<Answer>)
    requires |answers| <= |mappings| && FreshIds(answers, stubs) && AllCreated(answers)
    ensures |IdsOf(answers)| == |answers|
    ensures forall i :: 0 <= i < |answers| ==> IdsOf(answers)[i] == answers[i].id
    ensures Registered(stubs, mappings, answers).Keys == stubs.Keys + (set x | x in IdsOf(answers))
    ensures forall x :: x in stubs ==> Registered(stubs, mappings, answers)[x] == stubs[x]
    ensures forall x :: x in IdsOf(answers) ==> x !in stubs
  {
    IdsMembers(answers);
    RegisteredKeys(stubs, mappings, answers);
  }

  lemma FreshPrefix(stubs: Stubs, answers: seq<Answer>, k: nat)
    requires FreshIds(answers, stubs) && k <= |answers|
    ensures FreshIds(answers[..k], stubs)
  {
  }

  /** The ids whose rollback deletes were accepted. */
  ghost function Deleted(answers: seq<Answer>, deletes: seq<bool>, k: nat): set<string>
    requires k <= |answers| && k <= |deletes|
  {
    set i | 0 <= i < k && deletes[i] :: IdOf(answers[i])
  }

  lemma NewIds(answers: seq<Answer>, k: nat)
    requires k <= |answers| && AllCreated(answers[..k])
    ensures |IdsOf(answers[..k])| == k
    ensures forall i :: 0 <= i < k ==> IdsOf(answers[..k])[i] == IdOf(answers[i])
    ensures (set x | x in IdsOf(answers[..k])) == set i | 0 <= i < k :: IdOf(answers[i])
  {
    IdsMembers(answers[..k]);
    assert forall i :: 0 <= i < k ==> answers[..k][i] == answers[i];
    var ids := IdsOf(answers[..k]);
    assert forall x :: x in ids <==> exists i :: 0 <= i < k && ids[i] == x;
  }

  /** No two creates name one stub, and none an earlier one. */
  lemma IdsDiffer(stubs: Stubs, answers: seq<Answer>, k: nat)
    requires FreshIds(answers, stubs) && FailsAt(answers, k)
    ensures forall i, j :: 0 <= i < j < k ==> IdOf(answers[i]) != IdOf(answers[j])
    ensures !answers[k].NoStub? ==> forall i :: 0 <= i < k ==> IdOf(answers[i]) != IdOf(answers[k])
    ensures forall i :: 0 <= i < k ==> IdOf(answers[i]) !in stubs
    ensures !answers[k].NoStub? ==> IdOf(answers[k]) !in stubs
  {
    forall i | 0 <= i < k ensures answers[i].Created? { assert answers[..k][i] == answers[i]; }
  }

  lemma LeftoverIsWhatRemains(stubs: Stubs, answers: seq<Answer>, deletes: seq<bool>, k: nat)
    requires FreshIds(answers, stubs) && FailsAt(answers, k) && k <= |deletes|
    ensures var made := (set i | 0 <= i < k :: IdOf(answers[i])) + if answers[k].NoStub? then {} else {IdOf(answers[k])};
      stubs.Keys + made - Deleted(answers, deletes, k) == stubs.Keys + Leftover(answers, deletes, k)
    ensures stubs.Keys !! Leftover(answers, deletes, k) && stubs.Keys !! Deleted(answers, deletes, k)
    ensures Leftover(answers, deletes, k) == {} <==> answers[k].NoStub? && forall i :: 0 <= i < k ==> deletes[i]
  {
    IdsDiffer(stubs, answers, k);
    forall i | 0 <= i < k && !deletes[i] ensures IdOf(answers[i]) in Leftover(answers, deletes, k) { }
  }

  lemma MadeByFailedCall(stubs: Stubs, mappings: seq<Mapping>, answers: seq<Answer>, k: nat)
    requires |answers| <= |mappings| && FreshIds(answers, stubs) && FailsAt(answers, k)
    ensures var made := Registered(stubs, mappings, answers[..k + 1]);
      && made.Keys == stubs.Keys + ((set i | 0 <= i < k :: IdOf(answers[i])) + if answers[k].NoStub? then {} else {IdOf(answers[k])})
      && forall x :: x in stubs ==> made[x] == stubs[x]
  {
    NewIds(answers, k);
    FreshPrefix(stubs, answers, k);
    RegisteredKeys(stubs, mappings, answers[..k]);
    OneMoreCreate(stubs, mappings, answers, k);
  }

  lemma RollbackClears(stubs: Stubs, mappings: seq<Mapping>, answers: seq<Answer>, deletes: seq<bool>, k: nat)
    requires |answers| <= |mappings| && FreshIds(answers, stubs) && FailsAt(answers, k) && k <= |deletes|
    ensures |IdsOf(answers[..k])| == k
    ensures var ids := IdsOf(answers[..k]);
      RolledBack(stubs, Registered(stubs, mappings, answers[..k + 1]) - (set i | 0 <= i < k && deletes[..k][i] :: ids[i]), answers, deletes, k)
  {
    NewIds(answers, k);
    var ids := IdsOf(answers[..k]);
    assert (set i | 0 <= i < k && deletes[..k][i] :: ids[i]) == Deleted(answers, deletes, k);
    MadeByFailedCall(stubs, mappings, answers, k);
    LeftoverIsWhatRemains(stubs, answers, deletes, k);
    KeysDecide(stubs, Registered(stubs, mappings, answers[..k + 1]) - Deleted(answers, deletes, k), Leftover(answers, deletes, k));
  }

  lemma KeysDecide(before: Stubs, after: Stubs, added: set<string>)
    requires after.Keys == before.Keys + added && before.Keys !! added
    requires forall x :: x in before ==> after[x] == before[x]
    ensures after == before <==> added == {}
  {
    if after == before { assert before.Keys + added == before.Keys; }
  }

  /** The undo of a successful apply is a genuine reversal: whatever stubs others
      added meanwhile, deleting the returned ids leaves the old ones and those. */
  lemma UndoRemovesExactlyItsStubs(stubs: Stubs, mappings: seq<Mapping>, answers: seq<Answer>, others: Stubs)
    requires |answers| <= |mappings| && FreshIds(answers, stubs) && AllCreated(answers)
    requires others.Keys !! Registered(stubs, mappings, answers).Keys
    ensures Registered(stubs, mappings, answers) + others - (set x | x in IdsOf(answers)) == stubs + others
  {
    IdsAreTheNewStubs(stubs, mappings, answers);
  }
}
