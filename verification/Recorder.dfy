/** The capturing proxy's timeline (internal/capture/recorder.go). Concurrent
    exchanges share one epoch, fixed by whichever stamps first; clock readings
    are nanoseconds on one monotonic clock. */
module Recorder {
  import opened Sequences

  /** The instants and number of one cassette line; request names the exchange it came from. */
  datatype Line = Line(request: nat, number: int, callNS: int, returnNS: int)

  /** cassette.Entry.HasHistory. */
  predicate HasHistory(l: Line) {
    l.returnNS > l.callNS && l.callNS > 0
  }

  /** The fields mu guards, and what has been written to Out. */
  datatype Book = Book(epoch: Option<int>, number: int, count: int, out: seq<Line>)

  function Since(b: Book, t: int): (Book, int) {
    var epoch := if b.epoch.Some? then b.epoch.value else t;
    (b.(epoch := Some(epoch)), t - epoch + 1)
  }

  function Commit(b: Book, request: nat, callNS: int, returnNS: int, writeOk: bool): Book {
    var b' := b.(number := b.number + 1);
    if writeOk
    then b'.(out := b.out + [Line(request, b'.number, callNS, returnNS)], count := b.count + 1)
    else b'
  }

  class Recorder {
    var epoch: Option<int>
    var number: int
    var count: int
    var out: seq<Line>

    ghost function View(): Book reads this { Book(epoch, number, count, out) }

    constructor ()
      ensures View() == Book(None, 0, 0, [])
    {
      epoch, number, count, out := None, 0, 0, [];
    }

    method Stamp(t: int) returns (ns: int)
      modifies this
      ensures (View(), ns) == Since(old(View()), t)
    {
      if epoch.None? { epoch := Some(t); }
      ns := t - epoch.value + 1;
    }

    method WriteLine(request: nat, callNS: int, returnNS: int, writeOk: bool)
      modifies this
      ensures View() == Commit(old(View()), request, callNS, returnNS, writeOk)
    {
      number := number + 1;
      if writeOk {
        out := out + [Line(request, number, callNS, returnNS)];
        count := count + 1;
      }
    }
  }

  // -------------------------------------------------- concurrent exchanges

  datatype Phase = Called | CallStamped | Ended | ReturnStamped | Finished

  datatype Exchange = Exchange(phase: Phase, start: int, callNS: int, end: int, returnNS: int)

  datatype State = State(now: int, book: Book, exchanges: seq<Exchange>)

  datatype Action =
    | Advance(ns: nat)            // the monotonic clock moves
    | Arrive                      // ServeHTTP reads the clock
    | StampCall(r: nat)
    | Abandon(r: nat)             // any early return: nothing is written
    | End(r: nat)                 // the response is written; the clock is read again
    | StampReturn(r: nat)
    | Write(r: nat, ok: bool)

  predicate Enabled(s: State, a: Action) {
    match a
    case Advance(_) => true
    case Arrive => true
    case StampCall(r) => r < |s.exchanges| && s.exchanges[r].phase == Called
    case Abandon(r) => r < |s.exchanges| && s.exchanges[r].phase == CallStamped
    case End(r) => r < |s.exchanges| && s.exchanges[r].phase == CallStamped
    case StampReturn(r) => r < |s.exchanges| && s.exchanges[r].phase == Ended
    case Write(r, _) => r < |s.exchanges| && s.exchanges[r].phase == ReturnStamped
  }

  function Next(s: State, a: Action): State
    requires Enabled(s, a)
  {
    match a
    case Advance(ns) => s.(now := s.now + ns)
    case Arrive => s.(exchanges := s.exchanges + [Exchange(Called, s.now, 0, 0, 0)])
    case StampCall(r) =>
      var (b, ns) := Since(s.book, s.exchanges[r].start);
      s.(book := b, exchanges := s.exchanges[r := s.exchanges[r].(phase := CallStamped, callNS := ns)])
    case Abandon(r) => s.(exchanges := s.exchanges[r := s.exchanges[r].(phase := Finished)])
    case End(r) => s.(exchanges := s.exchanges[r := s.exchanges[r].(phase := Ended, end := s.now)])
    case StampReturn(r) =>
      var (b, ns) := Since(s.book, s.exchanges[r].end);
      s.(book := b, exchanges := s.exchanges[r := s.exchanges[r].(phase := ReturnStamped, returnNS := ns)])
    case Write(r, ok) =>
      s.(book := Commit(s.book, r, s.exchanges[r].callNS, s.exchanges[r].returnNS, ok),
         exchanges := s.exchanges[r := s.exchanges[r].(phase := Finished)])
  }

  predicate Leads(s: State, steps: seq<Action>, t: State)
    decreases |steps|
  {
    if steps == [] then t == s
    else Enabled(s, steps[0]) && Leads(Next(s, steps[0]), steps[1..], t)
  }

  function Init(now: int): State {
    State(now, Book(None, 0, 0, []), [])
  }

  // -------------------------------------------------------------- invariant

  predicate ExchangeOk(s: State, x: Exchange) {
    && x.start <= s.now
    && (x.phase !in {Called} ==> s.book.epoch.Some? && x.callNS == x.start - s.book.epoch.value + 1)
    && (x.phase in {Ended, ReturnStamped} ==> x.start <= x.end <= s.now)
    && (x.phase == ReturnStamped ==> x.returnNS == x.end - s.book.epoch.value + 1)
  }

  predicate LineOk(s: State, l: Line) {
    && l.request < |s.exchanges| && s.exchanges[l.request].phase == Finished
    && s.book.epoch.Some?
    && s.exchanges[l.request].start <= s.exchanges[l.request].end
    && l.callNS == s.exchanges[l.request].start - s.book.epoch.value + 1
    && l.returnNS == s.exchanges[l.request].end - s.book.epoch.value + 1
    && 1 <= l.number <= s.book.number
  }

  ghost predicate Inv(s: State) {
    && (forall r :: 0 <= r < |s.exchanges| ==> ExchangeOk(s, s.exchanges[r]))
    && (forall i :: 0 <= i < |s.book.out| ==> LineOk(s, s.book.out[i]))
    && (forall i, j :: 0 <= i < j < |s.book.out| ==> s.book.out[i].number < s.book.out[j].number)
    && (forall i, j :: 0 <= i < j < |s.book.out| ==> s.book.out[i].request != s.book.out[j].request)
    && s.book.count == |s.book.out| && s.book.number >= 0
  }

  lemma WritePreserves(s: State, r: nat, ok: bool)
    requires Inv(s) && Enabled(s, Write(r, ok))
    ensures Inv(Next(s, Write(r, ok)))
  {
    var n := Next(s, Write(r, ok));
    forall i | 0 <= i < |n.book.out| ensures LineOk(n, n.book.out[i]) {
      if i < |s.book.out| { assert LineOk(s, s.book.out[i]); }
    }
    forall i | 0 <= i < |s.book.out| ensures s.book.out[i].request != r && s.book.out[i].number <= s.book.number {
      assert LineOk(s, s.book.out[i]);
    }
  }

  lemma Preserved(s: State, a: Action)
    requires Inv(s) && Enabled(s, a)
    ensures Inv(Next(s, a))
  {
    if a.Write? {
      WritePreserves(s, a.r, a.ok);
    } else {
      var n := Next(s, a);
      forall i | 0 <= i < |n.book.out| ensures LineOk(n, n.book.out[i]) { assert LineOk(s, s.book.out[i]); }
      forall r | 0 <= r < |n.exchanges| ensures ExchangeOk(n, n.exchanges[r]) {
        if r < |s.exchanges| { assert ExchangeOk(s, s.exchanges[r]); }
      }
    }
  }

  lemma {:induction false} LeadsKeepsInv(s: State, steps: seq<Action>, t: State)
    requires Inv(s) && Leads(s, steps, t)
    ensures Inv(t)
    decreases |steps|
  {
    if steps != [] {
      Preserved(s, steps[0]);
      LeadsKeepsInv(Next(s, steps[0]), steps[1..], t);
    }
  }

  // ----------------------------------------------------------- the theorems

  /** Whichever request fixed the epoch, the cassette's instants order exactly as
      the clock did: one line's return precedes another's call just when the one
      exchange had ended before the other started. */
  lemma InstantsKeepRealTimeOrder(now: int, steps: seq<Action>, s: State, i: nat, j: nat)
    requires Leads(Init(now), steps, s) && i < |s.book.out| && j < |s.book.out|
    ensures var a, b := s.book.out[i], s.book.out[j];
      && a.request < |s.exchanges| && b.request < |s.exchanges|
      && (a.returnNS < b.callNS <==> s.exchanges[a.request].end < s.exchanges[b.request].start)
      && a.callNS <= a.returnNS
  {
    LeadsKeepsInv(Init(now), steps, s);
    assert LineOk(s, s.book.out[i]) && LineOk(s, s.book.out[j]);
  }

  // ------------------------------------------------- the clock of the steps

  /** How far these steps move the clock. */
  function Elapsed(steps: seq<Action>): nat {
    if steps == [] then 0 else (if steps[0].Advance? then steps[0].ns else 0) + Elapsed(steps[1..])
  }

  function Arrivals(steps: seq<Action>): nat {
    if steps == [] then 0 else (if steps[0].Arrive? then 1 else 0) + Arrivals(steps[1..])
  }

  lemma {:induction false} ClockAndCount(s: State, steps: seq<Action>, t: State)
    requires Leads(s, steps, t)
    ensures t.now == s.now + Elapsed(steps) && |t.exchanges| == |s.exchanges| + Arrivals(steps)
    decreases |steps|
  {
    if steps != [] { ClockAndCount(Next(s, steps[0]), steps[1..], t); }
  }

  /** An exchange that has ended keeps its two readings. */
  lemma {:induction false} ReadingsAreKept(s: State, steps: seq<Action>, t: State, r: nat)
    requires Leads(s, steps, t) && r < |s.exchanges|
    ensures r < |t.exchanges| && t.exchanges[r].start == s.exchanges[r].start
    ensures s.exchanges[r].phase !in {Called, CallStamped} ==>
      t.exchanges[r].phase !in {Called, CallStamped} && t.exchanges[r].end == s.exchanges[r].end
    decreases |steps|
  {
    if steps != [] { ReadingsAreKept(Next(s, steps[0]), steps[1..], t, r); }
  }

  lemma {:induction false} LeadsThrough(s: State, steps: seq<Action>, t: State, p: nat) returns (u: State)
    requires Leads(s, steps, t) && p < |steps|
    ensures Leads(s, steps[..p], u) && Enabled(u, steps[p]) && Leads(Next(u, steps[p]), steps[p + 1..], t)
    decreases |steps|
  {
    if p == 0 {
      u := s;
      assert steps[..0] == [];
    } else {
      u := LeadsThrough(Next(s, steps[0]), steps[1..], t, p - 1);
      assert steps[..p] == [steps[0]] + steps[1..][..p - 1];
      assert steps[1..][p - 1..][1..] == steps[p + 1..] && steps[1..][p..] == steps[p + 1..];
    }
  }

  /** A request's call instant is the clock when it arrived; requests are numbered as
      they arrive. */
  lemma StartIsTheArrival(now: int, steps: seq<Action>, s: State, p: nat)
    requires Leads(Init(now), steps, s) && p < |steps| && steps[p].Arrive?
    ensures var r := Arrivals(steps[..p]);
      r < |s.exchanges| && s.exchanges[r].start == now + Elapsed(steps[..p])
  {
    var u := LeadsThrough(Init(now), steps, s, p);
    ClockAndCount(Init(now), steps[..p], u);
    ReadingsAreKept(Next(u, Arrive), steps[p + 1..], s, Arrivals(steps[..p]));
  }

  /** And its return instant the clock when its response had been written. */
  lemma EndIsTheReturn(now: int, steps: seq<Action>, s: State, p: nat)
    requires Leads(Init(now), steps, s) && p < |steps| && steps[p].End?
    ensures steps[p].r < |s.exchanges| && s.exchanges[steps[p].r].end == now + Elapsed(steps[..p])
  {
    var u := LeadsThrough(Init(now), steps, s, p);
    ClockAndCount(Init(now), steps[..p], u);
    ReadingsAreKept(Next(u, steps[p]), steps[p + 1..], s, steps[p].r);
  }

  /** The cassette against the clock itself: line i's return precedes line j's call
      exactly when the response of the one was written before the other arrived, and
      a line spans exactly the time its exchange took. */
  lemma CassetteIsTheClock(now: int, steps: seq<Action>, s: State, i: nat, j: nat, p: nat, q: nat)
    requires Leads(Init(now), steps, s) && i < |s.book.out| && j < |s.book.out|
    requires p < |steps| && steps[p] == End(s.book.out[i].request)
    requires q < |steps| && steps[q].Arrive? && Arrivals(steps[..q]) == s.book.out[j].request
    ensures s.book.out[i].returnNS < s.book.out[j].callNS <==> Elapsed(steps[..p]) < Elapsed(steps[..q])
    ensures i == j ==> s.book.out[i].returnNS - s.book.out[i].callNS == Elapsed(steps[..p]) - Elapsed(steps[..q])
  {
    StartIsTheArrival(now, steps, s, q);
    EndIsTheReturn(now, steps, s, p);
    LeadsKeepsInv(Init(now), steps, s);
    assert LineOk(s, s.book.out[i]) && LineOk(s, s.book.out[j]);
  }

  /** Lines come out numbered upwards, one per exchange at most, and Count is
      the number of writes that succeeded. */
  lemma LinesAreNumberedUpwards(now: int, steps: seq<Action>, s: State)
    requires Leads(Init(now), steps, s)
    ensures forall i, j :: 0 <= i < j < |s.book.out| ==>
      s.book.out[i].number < s.book.out[j].number && s.book.out[i].request != s.book.out[j].request
    ensures s.book.count == |s.book.out| == SuccessfulWrites(steps)
    ensures s.book.number == Writes(steps)
    ensures forall i :: 0 <= i < |s.book.out| ==> 1 <= s.book.out[i].number <= Writes(steps)
  {
    LeadsKeepsInv(Init(now), steps, s);
    assert forall i :: 0 <= i < |s.book.out| ==> LineOk(s, s.book.out[i]);
    CountsFollow(Init(now), steps, s);
  }

  function SuccessfulWrites(steps: seq<Action>): nat {
    if steps == [] then 0 else SuccessfulWrites(steps[1..]) + if steps[0].Write? && steps[0].ok then 1 else 0
  }

  function Writes(steps: seq<Action>): nat {
    if steps == [] then 0 else Writes(steps[1..]) + if steps[0].Write? then 1 else 0
  }

  lemma {:induction false} CountsFollow(s: State, steps: seq<Action>, t: State)
    requires Leads(s, steps, t)
    ensures t.book.count == s.book.count + SuccessfulWrites(steps)
    ensures t.book.number == s.book.number + Writes(steps)
    decreases |steps|
  {
    if steps != [] { CountsFollow(Next(s, steps[0]), steps[1..], t); }
  }

  /** ServeHTTP's exchanges, played in any order the lock and the clock allow, on
      one Recorder. What it has written and counted is what the run says, so the
      lines order as the clock did, go up in number, and are Count in all. */
  method Serve(rec: Recorder, now: int, steps: seq<Action>, ghost end: State) returns (exchanges: seq<Exchange>)
    requires rec.View() == Book(None, 0, 0, []) && Leads(Init(now), steps, end)
    modifies rec
    ensures rec.View() == end.book && exchanges == end.exchanges
    ensures rec.count == |rec.out| == SuccessfulWrites(steps)
    ensures forall i :: 0 <= i < |rec.out| ==> rec.out[i].request < |exchanges|
    ensures forall i, j :: 0 <= i < j < |rec.out| ==> rec.out[i].number < rec.out[j].number
    ensures forall i, j :: 0 <= i < |rec.out| && 0 <= j < |rec.out| ==>
      (rec.out[i].returnNS < rec.out[j].callNS <==> exchanges[rec.out[i].request].end < exchanges[rec.out[j].request].start)
  {
    var clock := now;
    exchanges := [];
    for i := 0 to |steps|
      invariant Leads(State(clock, rec.View(), exchanges), steps[i..], end)
    {
      assert steps[i..][0] == steps[i] && steps[i..][1..] == steps[i + 1..];
      match steps[i] {
        case Advance(ns) => clock := clock + ns;
        case Arrive => exchanges := exchanges + [Exchange(Called, clock, 0, 0, 0)];
        case StampCall(r) =>
          var ns := rec.Stamp(exchanges[r].start);
          exchanges := exchanges[r := exchanges[r].(phase := CallStamped, callNS := ns)];
        case Abandon(r) => exchanges := exchanges[r := exchanges[r].(phase := Finished)];
        case End(r) => exchanges := exchanges[r := exchanges[r].(phase := Ended, end := clock)];
        case StampReturn(r) =>
          var ns := rec.Stamp(exchanges[r].end);
          exchanges := exchanges[r := exchanges[r].(phase := ReturnStamped, returnNS := ns)];
        case Write(r, ok) =>
          rec.WriteLine(r, exchanges[r].callNS, exchanges[r].returnNS, ok);
          exchanges := exchanges[r := exchanges[r].(phase := Finished)];
      }
    }
    LinesAreNumberedUpwards(now, steps, end);
    forall i | 0 <= i < |rec.out| ensures rec.out[i].request < |exchanges| {
      InstantsKeepRealTimeOrder(now, steps, end, i, i);
    }
    forall i, j | 0 <= i < |rec.out| && 0 <= j < |rec.out|
      ensures exchanges[rec.out[i].request].end < exchanges[rec.out[j].request].start <==> rec.out[i].returnNS < rec.out[j].callNS
    {
      InstantsKeepRealTimeOrder(now, steps, end, i, j);
    }
  }

  /** since adds one so that a recorded call is never the 0 of a cassette without
      instants. That holds only for exchanges that started no earlier than the
      one that fixed the epoch: a line reads as having a history exactly when its
      exchange started at or after the epoch and took measurable time. */
  lemma HistoryIffStartedAfterEpoch(now: int, steps: seq<Action>, s: State, i: nat)
    requires Leads(Init(now), steps, s) && i < |s.book.out|
    ensures var l := s.book.out[i];
      && l.request < |s.exchanges| && s.book.epoch.Some?
      && (HasHistory(l) <==> s.book.epoch.value <= s.exchanges[l.request].start < s.exchanges[l.request].end)
      && (l.callNS == 0 <==> s.exchanges[l.request].start == s.book.epoch.value - 1)
  {
    LeadsKeepsInv(Init(now), steps, s);
    assert LineOk(s, s.book.out[i]);
  }

  /** Two requests can lose the race that way: the first to read its clock stamps
      second, and its completed exchange is written as one without a history. */
  lemma EarlierReaderCanLoseItsHistory()
    ensures exists steps, s :: Leads(Init(0), steps, s) && LostHistory(s)
  {
    var init := Init(0);
    var steps, s := LeadsSnoc(init, [], init, Arrive);
    steps, s := LeadsSnoc(init, steps, s, Advance(1));
    steps, s := LeadsSnoc(init, steps, s, Arrive);
    steps, s := LeadsSnoc(init, steps, s, StampCall(1));
    steps, s := LeadsSnoc(init, steps, s, StampCall(0));
    steps, s := LeadsSnoc(init, steps, s, Advance(5));
    steps, s := LeadsSnoc(init, steps, s, End(0));
    steps, s := LeadsSnoc(init, steps, s, StampReturn(0));
    steps, s := LeadsSnoc(init, steps, s, Write(0, true));
    assert LostHistory(s);
  }

  predicate LostHistory(s: State) {
    && |s.book.out| == 1 && s.book.out[0].request < |s.exchanges|
    && s.exchanges[s.book.out[0].request].start < s.exchanges[s.book.out[0].request].end
    && !HasHistory(s.book.out[0]) && s.book.out[0].callNS == 0
  }

  lemma {:induction false} LeadsSnoc(s: State, steps: seq<Action>, t: State, a: Action) returns (steps': seq<Action>, t': State)
    requires Leads(s, steps, t) && Enabled(t, a)
    ensures Leads(s, steps', t') && t' == Next(t, a) && steps' == steps + [a]
    decreases |steps|
  {
    steps', t' := steps + [a], Next(t, a);
    if steps == [] {
      assert steps' == [a] && [a][1..] == [];
    } else {
      var rest, _ := LeadsSnoc(Next(s, steps[0]), steps[1..], t, a);
      assert steps'[1..] == rest;
    }
  }
}
