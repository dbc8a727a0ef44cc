/** The co-driven tools of a run and the marker tee that starts them
    (internal/run/drive.go). start runs in its own goroutine, stop is reached
    from several exit paths, and a sync.Once guards each body. */
module CoDrivers {
  import opened Sequences

  /** One tool's runner and handle. */
  datatype Tool = Tool(
    wanted: bool,   // --db-load or --fuzz was given
    starts: nat,    // calls of the runner's Start
    handle: bool,   // Start returned a handle
    failed: bool,   // Start returned an error
    stored: bool,   // start has put both under the mutex
    read: bool,     // stop read a non-nil handle
    stops: nat)     // calls of the handle's Stop

  datatype StartAt = NotStarted | Marked | DBReturned | DBSettled | FuzzReturned | StartDone

  datatype StopAt = NotStopped | HandlesRead | DBStopped | FuzzStopped | StopDone

  /** driveResults: which tools have a result, and which failed to start. */
  datatype Results = Results(db: bool, fuzz: bool, dbErr: bool, fuzzErr: bool)

  datatype State = State(start: StartAt, stop: StopAt, db: Tool, fuzz: Tool, collected: seq<Results>)

  function Init(dbLoad: bool, fuzz: bool): State {
    State(NotStarted, NotStopped,
          Tool(dbLoad, 0, false, false, false, false, 0), Tool(fuzz, 0, false, false, false, false, 0), [])
  }

  datatype Action =
    | CallStart                       // by anyone; only the first call runs the body
    | StartDB(handle: bool, err: bool)
    | SettleDB                        // store under the mutex, or pass over
    | StartFuzz(handle: bool, err: bool)
    | SettleFuzz
    | CallStop                        // by anyone; only the first call runs the body
    | StopDB
    | StopFuzz
    | RecordResults
    | Collect                         // stop has returned inside collect

  predicate Enabled(s: State, a: Action) {
    match a
    case CallStart => true
    case StartDB(_, _) => s.start == Marked && s.db.wanted
    case SettleDB => s.start == DBReturned || (s.start == Marked && !s.db.wanted)
    case StartFuzz(_, _) => s.start == DBSettled && s.fuzz.wanted
    case SettleFuzz => s.start == FuzzReturned || (s.start == DBSettled && !s.fuzz.wanted)
    case CallStop => true
    case StopDB => s.stop == HandlesRead
    case StopFuzz => s.stop == DBStopped
    case RecordResults => s.stop == FuzzStopped
    case Collect => s.stop == StopDone
  }

  function Started(t: Tool, handle: bool, err: bool): Tool {
    t.(starts := t.starts + 1, handle := handle, failed := err)
  }

  function ReadHandle(t: Tool): Tool {
    t.(read := t.stored && t.handle)
  }

  function Stopped(t: Tool): Tool {
    if t.read then t.(stops := t.stops + 1) else t
  }

  /** What collect returns: the stop half once recorded, the start half as stored by then. */
  function CurrentResults(s: State): Results {
    Results(s.stop == StopDone && s.db.read, s.stop == StopDone && s.fuzz.read,
            s.db.stored && s.db.failed, s.fuzz.stored && s.fuzz.failed)
  }

  function Next(s: State, a: Action): State {
    match a
    case CallStart => if s.start == NotStarted then s.(start := Marked) else s
    case StartDB(h, e) => s.(start := DBReturned, db := Started(s.db, h, e))
    case SettleDB => s.(start := DBSettled, db := s.db.(stored := s.db.wanted))
    case StartFuzz(h, e) => s.(start := FuzzReturned, fuzz := Started(s.fuzz, h, e))
    case SettleFuzz => s.(start := StartDone, fuzz := s.fuzz.(stored := s.fuzz.wanted))
    case CallStop =>
      if s.stop == NotStopped then s.(stop := HandlesRead, db := ReadHandle(s.db), fuzz := ReadHandle(s.fuzz)) else s
    case StopDB => s.(stop := DBStopped, db := Stopped(s.db))
    case StopFuzz => s.(stop := FuzzStopped, fuzz := Stopped(s.fuzz))
    case RecordResults => s.(stop := StopDone)
    case Collect => s.(collected := s.collected + [CurrentResults(s)])
  }

  predicate Leads(s: State, steps: seq<Action>, t: State)
    decreases |steps|
  {
    if steps == [] then t == s
    else Enabled(s, steps[0]) && Leads(Next(s, steps[0]), steps[1..], t)
  }

  // -------------------------------------------------------------- invariant

  ghost predicate ToolOk(t: Tool, begun: bool, settled: bool, stopRun: bool, stopBegun: bool) {
    && t.starts == (if t.wanted && begun then 1 else 0)
    && (t.handle || t.failed ==> begun && t.wanted)
    && (t.stored <==> settled && t.wanted)
    && (t.read ==> t.stored && t.handle && stopBegun)
    && t.stops == (if t.read && stopRun then 1 else 0)
  }

  ghost predicate Inv(s: State) {
    && ToolOk(s.db, s.start !in {NotStarted, Marked}, s.start !in {NotStarted, Marked, DBReturned},
              s.stop !in {NotStopped, HandlesRead}, s.stop != NotStopped)
    && ToolOk(s.fuzz, s.start in {FuzzReturned, StartDone}, s.start == StartDone,
              s.stop in {FuzzStopped, StopDone}, s.stop != NotStopped)
    && (s.stop != StopDone ==> s.collected == [])
  }

  lemma Preserved(s: State, a: Action)
    requires Inv(s) && Enabled(s, a)
    ensures Inv(Next(s, a))
  {
  }

  lemma {:induction false} LeadsKeepsInv(s: State, steps: seq<Action>, t: State)
    requires Inv(s) && Leads(s, steps, t)
    ensures Inv(t)
    decreases |steps|
  {
    if steps != [] {
      Preserved(s, steps[0]);
      LeadsKeepsInv(Next(s, steps[0]), steps[1..], t);
    }
  }

  // ----------------------------------------------------------- the theorems

  /** In every interleaving each runner's Start is called at most once, each
      handle's Stop at most once, and no Stop without a Start that returned it. */
  lemma AtMostOnce(dbLoad: bool, fuzz: bool, steps: seq<Action>, s: State)
    requires Leads(Init(dbLoad, fuzz), steps, s)
    ensures s.db.stops <= s.db.starts <= (if dbLoad then 1 else 0)
    ensures s.fuzz.stops <= s.fuzz.starts <= (if fuzz then 1 else 0)
    ensures (s.db.stops > 0 ==> s.db.handle) && (s.fuzz.stops > 0 ==> s.fuzz.handle)
  {
    LeadsKeepsInv(Init(dbLoad, fuzz), steps, s);
    WantedIsConstant(Init(dbLoad, fuzz), steps, s);
  }

  lemma {:induction false} WantedIsConstant(s: State, steps: seq<Action>, t: State)
    requires Leads(s, steps, t)
    ensures t.db.wanted == s.db.wanted && t.fuzz.wanted == s.fuzz.wanted
    decreases |steps|
  {
    if steps != [] { WantedIsConstant(Next(s, steps[0]), steps[1..], t); }
  }

  /** The first CallStop's reading of the two handles is never revised. */
  lemma {:induction false} ReadIsFinal(s: State, steps: seq<Action>, t: State)
    requires s.stop != NotStopped && Leads(s, steps, t)
    ensures t.db.read == s.db.read && t.fuzz.read == s.fuzz.read && t.stop != NotStopped
    decreases |steps|
  {
    if steps != [] { ReadIsFinal(Next(s, steps[0]), steps[1..], t); }
  }

  /** A handle outlives the run exactly when start had not stored it by the time
      the first stop read the handles: once both bodies are over, a tool whose
      Start returned a handle has been stopped if and only if it was stored then.
      Every later stop is a no-op, so a missed handle is never stopped. */
  lemma StoppedIffStoredBeforeStop(s: State, steps: seq<Action>, t: State)
    requires Inv(s) && s.stop == NotStopped
    requires Leads(Next(s, CallStop), steps, t) && t.start == StartDone && t.stop == StopDone
    ensures t.db.handle ==> (t.db.stops == 1 <==> s.db.stored)
    ensures t.fuzz.handle ==> (t.fuzz.stops == 1 <==> s.fuzz.stored)
  {
    Preserved(s, CallStop);
    LeadsKeepsInv(Next(s, CallStop), steps, t);
    ReadIsFinal(Next(s, CallStop), steps, t);
    HandleIsFinal(Next(s, CallStop), steps, t);
  }

  lemma {:induction false} HandleIsFinal(s: State, steps: seq<Action>, t: State)
    requires Inv(s) && Leads(s, steps, t)
    ensures s.db.stored ==> t.db.handle == s.db.handle && t.db.failed == s.db.failed && t.db.stored
    ensures s.fuzz.stored ==> t.fuzz.handle == s.fuzz.handle && t.fuzz.failed == s.fuzz.failed && t.fuzz.stored
    decreases |steps|
  {
    if steps != [] {
      Preserved(s, steps[0]);
      HandleIsFinal(Next(s, steps[0]), steps[1..], t);
    }
  }

  /** Both bodies are over, a Start returned a handle, and no one will stop it. */
  predicate LeakedDB(t: State) {
    t.start == StartDone && t.stop == StopDone && t.db.handle && t.db.stops == 0
  }

  /** The leak happens: a signal between pgbench's Start returning and the store
      uses up stop, and pgbench keeps running with no Stop to come. */
  lemma StopCanMissARunningTool()
    ensures exists steps, t :: Leads(Init(true, false), steps, t) && LeakedDB(t)
  {
    var init := Init(true, false);
    var steps, t := LeadsSnoc(init, [], init, CallStart);
    steps, t := LeadsSnoc(init, steps, t, StartDB(true, false));
    steps, t := LeadsSnoc(init, steps, t, CallStop);
    steps, t := LeadsSnoc(init, steps, t, StopDB);
    steps, t := LeadsSnoc(init, steps, t, StopFuzz);
    steps, t := LeadsSnoc(init, steps, t, RecordResults);
    steps, t := LeadsSnoc(init, steps, t, SettleDB);
    steps, t := LeadsSnoc(init, steps, t, SettleFuzz);
    assert LeakedDB(t);
  }

  lemma {:induction false} LeadsSnoc(s: State, steps: seq<Action>, t: State, a: Action) returns (steps': seq<Action>, t': State)
    requires Leads(s, steps, t) && Enabled(t, a)
    ensures Leads(s, steps', t') && t' == Next(t, a) && steps' == steps + [a]
    decreases |steps|
  {
    steps', t' := steps + [a], Next(t, a);
    if steps == [] {
      assert steps' == [a] && [a][1..] == [];
    } else {
      var rest, _ := LeadsSnoc(Next(s, steps[0]), steps[1..], t, a);
      assert steps'[1..] == rest;
    }
  }

  /** What the runs of pgbench's Start in these steps returned. */
  predicate DBHandle(steps: seq<Action>) {
    exists i :: 0 <= i < |steps| && steps[i].StartDB? && steps[i].handle
  }

  predicate DBError(steps: seq<Action>) {
    exists i :: 0 <= i < |steps| && steps[i].StartDB? && steps[i].err
  }

  predicate FuzzHandle(steps: seq<Action>) {
    exists i :: 0 <= i < |steps| && steps[i].StartFuzz? && steps[i].handle
  }

  predicate FuzzError(steps: seq<Action>) {
    exists i :: 0 <= i < |steps| && steps[i].StartFuzz? && steps[i].err
  }

  lemma {:induction false} DBReturnKept(s: State, steps: seq<Action>, t: State)
    requires Leads(s, steps, t)
    ensures forall i :: 0 <= i < |steps| && steps[i].StartDB? ==> t.db.handle == steps[i].handle && t.db.failed == steps[i].err
    ensures (forall i :: 0 <= i < |steps| ==> !steps[i].StartDB?) ==> t.db.handle == s.db.handle && t.db.failed == s.db.failed
    ensures s.start !in {NotStarted, Marked} ==> forall i :: 0 <= i < |steps| ==> !steps[i].StartDB?
    decreases |steps|
  {
    if steps != [] {
      DBReturnKept(Next(s, steps[0]), steps[1..], t);
      assert forall i :: 1 <= i < |steps| ==> steps[i] == steps[1..][i - 1];
      assert forall i :: 0 <= i < |steps[1..]| ==> steps[1..][i] == steps[i + 1];
    }
  }

  lemma {:induction false} FuzzReturnKept(s: State, steps: seq<Action>, t: State)
    requires Leads(s, steps, t)
    ensures forall i :: 0 <= i < |steps| && steps[i].StartFuzz? ==> t.fuzz.handle == steps[i].handle && t.fuzz.failed == steps[i].err
    ensures (forall i :: 0 <= i < |steps| ==> !steps[i].StartFuzz?) ==> t.fuzz.handle == s.fuzz.handle && t.fuzz.failed == s.fuzz.failed
    ensures s.start in {FuzzReturned, StartDone} ==> forall i :: 0 <= i < |steps| ==> !steps[i].StartFuzz?
    decreases |steps|
  {
    if steps != [] {
      FuzzReturnKept(Next(s, steps[0]), steps[1..], t);
      assert forall i :: 1 <= i < |steps| ==> steps[i] == steps[1..][i - 1];
      assert forall i :: 0 <= i < |steps[1..]| ==> steps[1..][i] == steps[i + 1];
    }
  }

  /** What a runner's Start returned is what the run knows of it ever after; before,
      or without it, the run knows of neither a handle nor an error. */
  lemma ReturnsAreKept(dbLoad: bool, fuzz: bool, steps: seq<Action>, s: State)
    requires Leads(Init(dbLoad, fuzz), steps, s)
    ensures (s.db.handle <==> DBHandle(steps)) && (s.db.failed <==> DBError(steps))
    ensures (s.fuzz.handle <==> FuzzHandle(steps)) && (s.fuzz.failed <==> FuzzError(steps))
  {
    DBReturnKept(Init(dbLoad, fuzz), steps, s);
    FuzzReturnKept(Init(dbLoad, fuzz), steps, s);
  }

  /** If start had returned before stop read the handles, every handle a Start
      returned is stopped exactly once, and every collect reports the same: a result
      for each tool whose Start returned a handle, an error for each whose Start
      returned one. */
  lemma OrderedStopIsComplete(dbLoad: bool, fuzz: bool, before: seq<Action>, s: State, after: seq<Action>, t: State)
    requires Leads(Init(dbLoad, fuzz), before, s) && s.stop == NotStopped && s.start == StartDone
    requires Leads(s, after, t) && t.stop == StopDone
    ensures t.db.stops == (if DBHandle(before) then 1 else 0)
    ensures t.fuzz.stops == (if FuzzHandle(before) then 1 else 0)
    ensures forall i :: 0 <= i < |t.collected| ==>
      t.collected[i] == Results(DBHandle(before), FuzzHandle(before), DBError(before), FuzzError(before))
  {
    LeadsKeepsInv(Init(dbLoad, fuzz), before, s);
    ReturnsAreKept(dbLoad, fuzz, before, s);
    CollectedAgree(s, after, t, Results(s.db.handle, s.fuzz.handle, s.db.failed, s.fuzz.failed));
    DBReturnKept(s, after, t);
    FuzzReturnKept(s, after, t);
  }

  ghost predicate Settled(s: State, r: Results) {
    && s.start == StartDone
    && r == Results(s.db.handle, s.fuzz.handle, s.db.failed, s.fuzz.failed)
    && (s.stop != NotStopped ==> s.db.read == s.db.handle && s.fuzz.read == s.fuzz.handle)
    && (forall i :: 0 <= i < |s.collected| ==> s.collected[i] == r)
  }

  lemma {:induction false} CollectedAgree(s: State, steps: seq<Action>, t: State, r: Results)
    requires Inv(s) && Settled(s, r) && Leads(s, steps, t)
    ensures Inv(t) && Settled(t, r)
    decreases |steps|
  {
    if steps != [] {
      Preserved(s, steps[0]);
      CollectedAgree(Next(s, steps[0]), steps[1..], t, r);
    }
  }

  // -------------------------------------------------------------- teeMarkers

  const OUT_CAPACITY := 8

  /** A phase marker, by its phase name. */
  type Marker = string

  /** source is what k6 has yet to announce; hand is the marker the goroutine has
      received and not yet forwarded; once is spent by the first marker. */
  datatype Tee = Tee(source: seq<Marker>, hand: Option<Marker>, buffer: seq<Marker>, delivered: seq<Marker>,
                     onceSpent: bool, fired: nat, closed: bool)

  function TeeInit(input: seq<Marker>): Tee {
    Tee(input, None, [], [], false, 0, false)
  }

  datatype TeeAction = Receive | Forward | Deliver | Close

  predicate TeeEnabled(t: Tee, a: TeeAction) {
    match a
    case Receive => !t.closed && t.hand.None? && t.source != []
    case Forward => t.hand.Some? && |t.buffer| < OUT_CAPACITY
    case Deliver => t.buffer != []
    case Close => !t.closed && t.hand.None? && t.source == []
  }

  function TeeNext(t: Tee, a: TeeAction): Tee
    requires TeeEnabled(t, a)
  {
    match a
    case Receive =>
      t.(source := t.source[1..], hand := Some(t.source[0]), onceSpent := true,
         fired := if t.onceSpent then t.fired else t.fired + 1)
    case Forward => t.(hand := None, buffer := t.buffer + [t.hand.value])
    case Deliver => t.(buffer := t.buffer[1..], delivered := t.delivered + [t.buffer[0]])
    case Close => t.(closed := true)
  }

  predicate TeeLeads(t: Tee, steps: seq<TeeAction>, u: Tee)
    decreases |steps|
  {
    if steps == [] then u == t
    else TeeEnabled(t, steps[0]) && TeeLeads(TeeNext(t, steps[0]), steps[1..], u)
  }

  /** Received and not yet delivered. */
  function InTransit(t: Tee): seq<Marker> {
    t.buffer + if t.hand.Some? then [t.hand.value] else []
  }

  ghost predicate TeeInv(input: seq<Marker>, t: Tee) {
    && t.delivered + InTransit(t) + t.source == input
    && |t.buffer| <= OUT_CAPACITY
    && t.fired == (if t.onceSpent then 1 else 0)
    && (t.onceSpent <==> t.delivered + InTransit(t) != [])
    && (t.closed ==> t.hand.None? && t.source == [])
  }

  lemma TeePreserved(input: seq<Marker>, t: Tee, a: TeeAction)
    requires TeeInv(input, t) && TeeEnabled(t, a)
    ensures TeeInv(input, TeeNext(t, a))
  {
    var n := TeeNext(t, a);
    match a {
      case Receive =>
        assert t.source == [t.source[0]] + t.source[1..];
        assert n.delivered + InTransit(n) == t.delivered + InTransit(t) + [t.source[0]];
      case Forward => assert InTransit(n) == InTransit(t);
      case Deliver =>
        assert t.buffer == [t.buffer[0]] + t.buffer[1..];
        assert n.delivered + InTransit(n) == t.delivered + InTransit(t);
      case Close =>
    }
  }

  lemma {:induction false} TeeLeadsKeepsInv(input: seq<Marker>, t: Tee, steps: seq<TeeAction>, u: Tee)
    requires TeeInv(input, t) && TeeLeads(t, steps, u)
    ensures TeeInv(input, u)
    decreases |steps|
  {
    if steps != [] {
      TeePreserved(input, t, steps[0]);
      TeeLeadsKeepsInv(input, TeeNext(t, steps[0]), steps[1..], u);
    }
  }

  /** The tee loses no marker and reorders none, holds back at most its buffer
      and one in hand, and starts onFirst exactly once if and only if a marker came. */
  lemma TeeIsTransparent(input: seq<Marker>, steps: seq<TeeAction>, u: Tee)
    requires TeeLeads(TeeInit(input), steps, u)
    ensures u.delivered + InTransit(u) + u.source == input
    ensures |u.buffer| <= 8 && |InTransit(u)| <= 9
    ensures u.fired == if u.delivered + InTransit(u) == [] then 0 else 1
    ensures u.closed && u.buffer == [] ==> u.delivered == input
  {
    TeeLeadsKeepsInv(input, TeeInit(input), steps, u);
  }
}
