/** The two emitted scenario pickers: the k6 script's (internal/k6/k6.go) and the
    locustfile's (internal/emit/loadgen.go). Weights are any integers, as the parser
    checks none; one left out is 0. A draw is random()*total, a real here. */
module Weights {
  import opened Sequences

  predicate Positive(weights: seq<int>) {
    forall i :: 0 <= i < |weights| ==> weights[i] > 0
  }

  predicate NonNegative(weights: seq<int>) {
    forall i :: 0 <= i < |weights| ==> weights[i] >= 0
  }

  /** The total weight of the scenarios before i. */
  function Before(weights: seq<int>, i: nat): int
    requires i <= |weights|
  {
    if i == 0 then 0 else Before(weights, i - 1) + weights[i - 1]
  }

  function TotalWeight(weights: seq<int>): int { Before(weights, |weights|) }

  lemma {:induction false} BeforeGrows(weights: seq<int>, i: nat, j: nat)
    requires NonNegative(weights) && i <= j <= |weights|
    ensures Before(weights, i) <= Before(weights, j)
    ensures i < j && Positive(weights) ==> Before(weights, i) < Before(weights, j)
  {
    if i < j { BeforeGrows(weights, i, j - 1); }
  }

  // -------------------------------------------------------------------- k6

  /** i is the first scenario whose weights so far exceed the draw. */
  predicate K6Picks(weights: seq<int>, draw: real, i: nat) {
    && i < |weights| && draw < Before(weights, i + 1) as real
    && (forall j :: 1 <= j <= i ==> Before(weights, j) as real <= draw)
  }

  /** i is the scenario an iteration runs: the one picked, else the last. */
  predicate K6Runs(weights: seq<int>, draw: real, i: nat) {
    K6Picks(weights, draw, i) || (i + 1 == |weights| && forall j :: 0 <= j < |weights| ==> !K6Picks(weights, draw, j))
  }

  /** pickScenario: the scenario it returns, and whether by its last line. */
  method PickK6(weights: seq<int>, draw: real) returns (r: Option<nat>, fellThrough: bool)
    ensures r.Some? <==> weights != []
    ensures r.Some? ==> K6Runs(weights, draw, r.value)
    ensures fellThrough <==> forall j :: 0 <= j < |weights| ==> !K6Picks(weights, draw, j)
  {
    var rest := draw;
    for k := 0 to |weights|
      invariant rest == draw - Before(weights, k) as real
      invariant forall j :: 1 <= j <= k ==> Before(weights, j) as real <= draw
    {
      if rest < weights[k] as real {
        assert K6Picks(weights, draw, k);
        return Some(k), false;
      }
      rest := rest - weights[k] as real;
    }
    return if weights == [] then None else Some(|weights| - 1), true;
  }

  lemma {:induction false} FirstPast(weights: seq<int>, draw: real, n: nat) returns (i: nat)
    requires n <= |weights| && exists j :: 1 <= j <= n && draw < Before(weights, j) as real
    ensures K6Picks(weights, draw, i)
  {
    if j :| 1 <= j <= n - 1 && draw < Before(weights, j) as real {
      i := FirstPast(weights, draw, n - 1);
    } else {
      i := n - 1;
    }
  }

  ghost predicate Picked(weights: seq<int>, draw: real) {
    exists i :: K6Picks(weights, draw, i)
  }

  ghost predicate SomeTotalExceeds(weights: seq<int>, draw: real) {
    exists j :: 1 <= j <= |weights| && draw < Before(weights, j) as real
  }

  /** A scenario is picked by weight exactly for a draw that some running total
      exceeds; any other draw reaches the last line. */
  lemma FallbackIff(weights: seq<int>, draw: real)
    ensures Picked(weights, draw) <==> SomeTotalExceeds(weights, draw)
  {
    if SomeTotalExceeds(weights, draw) {
      var i := FirstPast(weights, draw, |weights|);
    }
    if i: nat :| K6Picks(weights, draw, i) {
      assert 1 <= i + 1 <= |weights| && draw < Before(weights, i + 1) as real;
    }
  }

  /** What random() makes of a number below 1. */
  function Draw(u: real, total: real): real { u * total }

  function DrawAt(weights: seq<int>, u: real): real { Draw(u, TotalWeight(weights) as real) }

  /** No draw reaches the last line exactly when some running total is positive;
      without any weight every iteration does, and runs the last scenario. */
  lemma NeverFallsBackIff(weights: seq<int>)
    ensures (forall u :: 0.0 <= u < 1.0 ==> Picked(weights, DrawAt(weights, u))) <==> SomeTotalExceeds(weights, 0.0)
  {
    if forall u :: 0.0 <= u < 1.0 ==> Picked(weights, DrawAt(weights, u)) {
      assert DrawAt(weights, 0.0) == 0.0;
      FallbackIff(weights, 0.0);
    }
    if SomeTotalExceeds(weights, 0.0) {
      forall u | 0.0 <= u < 1.0 ensures Picked(weights, DrawAt(weights, u)) { PickedEverywhere(weights, u); }
    }
  }

  lemma PickedEverywhere(weights: seq<int>, u: real)
    requires SomeTotalExceeds(weights, 0.0) && 0.0 <= u < 1.0
    ensures Picked(weights, DrawAt(weights, u))
  {
    var j :| 1 <= j <= |weights| && 0.0 < Before(weights, j) as real;
    DrawBelow(u, TotalWeight(weights) as real);
    if TotalWeight(weights) > 0 {
      assert DrawAt(weights, u) < Before(weights, |weights|) as real;
    } else {
      assert DrawAt(weights, u) < Before(weights, j) as real;
    }
    FallbackIff(weights, DrawAt(weights, u));
  }

  lemma ProductPositive(a: real, b: real)
    requires a > 0.0 && b > 0.0
    ensures Draw(a, b) > 0.0
  {
  }

  lemma DrawBelow(u: real, total: real)
    requires 0.0 <= u < 1.0
    ensures total > 0.0 ==> Draw(u, total) < total
    ensures total <= 0.0 ==> Draw(u, total) <= 0.0
  {
    if total > 0.0 {
      ProductPositive(1.0 - u, total);
      assert Draw(1.0 - u, total) == total - Draw(u, total);
    } else if u > 0.0 && total < 0.0 {
      ProductPositive(u, -total);
      assert Draw(u, -total) == -Draw(u, total);
    }
  }

  /** How many of the integer draws 0 .. n-1 make k6 choose scenario i. */
  function DrawsFor(weights: seq<int>, i: nat, n: nat): nat {
    if n == 0 then 0 else DrawsFor(weights, i, n - 1) + if K6Picks(weights, (n - 1) as real, i) then 1 else 0
  }

  lemma PickedOnItsStretch(weights: seq<int>, draw: real, i: nat)
    requires NonNegative(weights) && draw >= 0.0 && i < |weights|
    ensures K6Picks(weights, draw, i) <==> Before(weights, i) as real <= draw < Before(weights, i + 1) as real
  {
    if Before(weights, i) as real <= draw {
      forall j | 1 <= j <= i ensures Before(weights, j) as real <= draw { BeforeGrows(weights, j, i); }
    }
  }

  lemma {:induction false} DrawsSoFar(weights: seq<int>, i: nat, n: nat)
    requires NonNegative(weights) && i < |weights|
    ensures var lo, hi := Before(weights, i), Before(weights, i + 1);
      DrawsFor(weights, i, n) == if n <= lo then 0 else if n <= hi then n - lo else hi - lo
  {
    BeforeGrows(weights, 0, i);
    if n > 0 {
      DrawsSoFar(weights, i, n - 1);
      PickedOnItsStretch(weights, (n - 1) as real, i);
    }
  }

  /** The integer draws below the total. */
  function Draws(weights: seq<int>): nat {
    if TotalWeight(weights) < 0 then 0 else TotalWeight(weights)
  }

  /** Of the integer draws 0 .. total-1, exactly weights[i] choose each scenario i,
      if and only if no weight is negative. */
  lemma EachScenarioGetsItsWeightIff(weights: seq<int>)
    ensures (forall i: nat :: i < |weights| ==> DrawsFor(weights, i, Draws(weights)) == weights[i]) <==> NonNegative(weights)
  {
    if NonNegative(weights) {
      forall i: nat | i < |weights| ensures DrawsFor(weights, i, Draws(weights)) == weights[i] {
        BeforeGrows(weights, 0, |weights|);
        BeforeGrows(weights, 0, i);
        BeforeGrows(weights, i + 1, |weights|);
        DrawsSoFar(weights, i, Draws(weights));
      }
    } else {
      var i: nat :| i < |weights| && weights[i] < 0;
      assert DrawsFor(weights, i, Draws(weights)) >= 0;
    }
  }

  // ---------------------------------------------------------------- Locust

  /** The SCENARIOS table: a weight that is not positive is written as 1. */
  function LocustWeights(weights: seq<int>): (ws: seq<int>)
    ensures |ws| == |weights| && Positive(ws)
    ensures ws == weights <==> Positive(weights)
  {
    var ws := seq(|weights|, i requires 0 <= i < |weights| => if weights[i] <= 0 then 1 else weights[i]);
    assert ws == weights ==> forall i :: 0 <= i < |weights| ==> weights[i] == ws[i];
    ws
  }

  /** i is the scenario whose stretch of draws, closed on the right, holds this one. */
  predicate LocustPicks(ws: seq<int>, draw: real, i: nat) {
    i < |ws| && draw <= Before(ws, i + 1) as real && (i > 0 ==> Before(ws, i) as real < draw)
  }

  /** _arrival: nothing to do without scenarios, else the first one's flow unless
      a later one takes the draw. */
  method PickLocust(weights: seq<int>, draw: real) returns (r: Option<nat>)
    requires 0.0 <= draw <= TotalWeight(LocustWeights(weights)) as real
    ensures r.Some? <==> weights != []
    ensures r.Some? ==> LocustPicks(LocustWeights(weights), draw, r.value)
  {
    if weights == [] { return None; }
    var ws := LocustWeights(weights);
    var rest := draw;
    for k := 0 to |ws|
      invariant rest == draw - Before(ws, k) as real
      invariant k > 0 ==> rest > 0.0
    {
      rest := rest - ws[k] as real;
      if rest <= 0.0 { return Some(k); }
    }
    assert false;
  }

  lemma PicksAreUnique(ws: seq<int>, draw: real, i: nat, j: nat)
    requires Positive(ws)
    ensures K6Picks(ws, draw, i) && K6Picks(ws, draw, j) ==> i == j
    ensures LocustPicks(ws, draw, i) && LocustPicks(ws, draw, j) ==> i == j
  {
    if i < j && j < |ws| { BeforeGrows(ws, i + 1, j); }
    if j < i && i < |ws| { BeforeGrows(ws, j + 1, i); }
  }

  /** With positive weights the two engines choose the same scenario for a draw
      exactly when the draw is not the boundary between two scenarios, where k6
      takes the later one and Locust the earlier. */
  lemma PickersAgreeIff(weights: seq<int>, draw: real, i: nat, j: nat)
    requires Positive(weights) && draw >= 0.0
    requires K6Picks(weights, draw, i) && LocustPicks(LocustWeights(weights), draw, j)
    ensures i == j <==> forall k :: 0 < k < |weights| ==> draw != Before(weights, k) as real
    ensures i == j || i == j + 1
  {
    PickedOnItsStretch(weights, draw, i);
    if draw == Before(weights, i) as real && i > 0 {
      BeforeGrows(weights, i - 1, i);
      assert LocustPicks(weights, draw, i - 1);
      PicksAreUnique(weights, draw, i - 1, j);
    } else {
      assert LocustPicks(weights, draw, i);
      PicksAreUnique(weights, draw, i, j);
      forall k | 0 < k < |weights| ensures draw != Before(weights, k) as real {
        if k < i { BeforeGrows(weights, k, i); } else if k > i { BeforeGrows(weights, i + 1, k); }
      }
    }
  }

  // ---------------------------------------------------------------- shares

  /** Of the numbers random() can yield, those for which runs holds make up one
      stretch of this length, its ends aside. */
  ghost predicate HasShare(runs: real -> bool, share: real) {
    exists lo, hi :: IsStretch(runs, lo, hi) && share == hi - lo
  }

  ghost predicate IsStretch(runs: real -> bool, lo: real, hi: real) {
    && 0.0 <= lo <= hi <= 1.0
    && (forall u :: 0.0 < u < 1.0 && u != lo && u != hi ==> (runs(u) <==> lo < u < hi))
  }

  lemma RunsAt(runs: real -> bool, lo: real, hi: real, u: real)
    requires IsStretch(runs, lo, hi) && 0.0 < u < 1.0 && u != lo && u != hi
    ensures runs(u) <==> lo < u < hi
  {
  }

  lemma NoLongerStretch(runs: real -> bool, lo: real, hi: real, lo': real, hi': real)
    requires IsStretch(runs, lo, hi) && IsStretch(runs, lo', hi')
    ensures hi - lo <= hi' - lo'
  {
    if lo < hi && lo < lo' {
      var u := (lo + if lo' < hi then lo' else hi) / 2.0;
      RunsAt(runs, lo', hi', u);
      RunsAt(runs, lo, hi, u);
      assert false;
    }
    if lo < hi && hi' < hi {
      var u := (hi + if lo < hi' then hi' else lo) / 2.0;
      RunsAt(runs, lo', hi', u);
      RunsAt(runs, lo, hi, u);
      assert false;
    }
  }

  /** So a scenario has at most one share. */
  lemma ShareIsUnique(runs: real -> bool, a: real, b: real)
    requires HasShare(runs, a) && HasShare(runs, b)
    ensures a == b
  {
    var lo, hi :| IsStretch(runs, lo, hi) && a == hi - lo;
    var lo', hi' :| IsStretch(runs, lo', hi') && b == hi' - lo';
    NoLongerStretch(runs, lo, hi, lo', hi');
    NoLongerStretch(runs, lo', hi', lo, hi);
  }

  /** The highest running total of the first i scenarios. */
  function Peak(weights: seq<int>, i: nat): int
    requires 1 <= i <= |weights|
  {
    if i == 1 then weights[0]
    else if Peak(weights, i - 1) < Before(weights, i) then Before(weights, i) else Peak(weights, i - 1)
  }

  lemma {:induction false} PeakIsHighest(weights: seq<int>, i: nat)
    requires 1 <= i <= |weights|
    ensures forall j :: 1 <= j <= i ==> Before(weights, j) <= Peak(weights, i)
    ensures exists j :: 1 <= j <= i && Before(weights, j) == Peak(weights, i)
  {
    if i > 1 {
      PeakIsHighest(weights, i - 1);
      if Peak(weights, i) != Before(weights, i) {
        var j :| 1 <= j <= i - 1 && Before(weights, j) == Peak(weights, i - 1);
        assert Before(weights, j) == Peak(weights, i);
      }
    } else {
      assert Before(weights, 1) == Before(weights, 0) + weights[0];
    }
  }

  /** Whatever the weights, a scenario runs from the peak before it up to its own,
      the first from the bottom and the last to the top. */
  lemma RunsBetweenPeaks(weights: seq<int>, draw: real, i: nat)
    requires i < |weights|
    ensures K6Runs(weights, draw, i) <==>
      (i > 0 ==> Peak(weights, i) as real <= draw) && (i + 1 < |weights| ==> draw < Peak(weights, i + 1) as real)
  {
    PeakIsHighest(weights, i + 1);
    if i > 0 { PeakIsHighest(weights, i); }
    FallbackIff(weights, draw);
    if i + 1 == |weights| {
      if !K6Picks(weights, draw, i) && (i > 0 ==> Peak(weights, i) as real <= draw) {
        forall j | 1 <= j <= |weights| ensures Before(weights, j) as real <= draw { }
      }
    }
  }

  function Clip(x: int, lo: int, hi: int): int
    requires lo <= hi
  {
    if x < lo then lo else if x > hi then hi else x
  }

  /** Where a peak falls among the draws, which lie between 0 and the total. */
  function ClipToDraws(weights: seq<int>, x: int): int {
    var total := TotalWeight(weights);
    if total < 0 then Clip(x, total, 0) else Clip(x, 0, total)
  }

  function LowEnd(weights: seq<int>, i: nat): int
    requires i < |weights|
  {
    var total := TotalWeight(weights);
    if i == 0 then (if total < 0 then total else 0) else ClipToDraws(weights, Peak(weights, i))
  }

  function HighEnd(weights: seq<int>, i: nat): int
    requires i < |weights|
  {
    var total := TotalWeight(weights);
    if i + 1 == |weights| then (if total < 0 then 0 else total) else ClipToDraws(weights, Peak(weights, i + 1))
  }

  /** k6's share of scenario i, its fallback included, of this many parts. */
  function K6Parts(weights: seq<int>): int {
    var total := TotalWeight(weights);
    if total == 0 then 1 else if total < 0 then -total else total
  }

  function K6Length(weights: seq<int>, i: nat): int
    requires i < |weights|
  {
    if TotalWeight(weights) == 0 then (if K6Runs(weights, 0.0, i) then 1 else 0)
    else HighEnd(weights, i) - LowEnd(weights, i)
  }

  function K6Share(weights: seq<int>, i: nat): real
    requires i < |weights|
  {
    K6Length(weights, i) as real / K6Parts(weights) as real
  }

  function LocustShare(weights: seq<int>, i: nat): real
    requires i < |weights|
  {
    var ws := LocustWeights(weights);
    BeforeGrows(ws, 0, |ws|);
    ws[i] as real / TotalWeight(ws) as real
  }

  lemma {:induction false} PeaksRise(weights: seq<int>, i: nat, j: nat)
    requires 1 <= i <= j <= |weights|
    ensures Peak(weights, i) <= Peak(weights, j)
  {
    if i < j { PeaksRise(weights, i, j - 1); }
  }

  /** u*total lies above x just when u lies on that side of x/total. */
  lemma Scaled(u: real, total: real, x: real)
    requires total != 0.0
    ensures total > 0.0 ==> (x <= Draw(u, total) <==> x / total <= u)
    ensures total < 0.0 ==> (x <= Draw(u, total) <==> u <= x / total)
  {
    assert x / total * total == x;
  }

  lemma Quotient(x: real, total: real)
    requires total != 0.0 && (0.0 <= x <= total || total <= x <= 0.0)
    ensures 0.0 <= x / total <= 1.0
  {
  }

  lemma EndsInOrder(weights: seq<int>, i: nat)
    requires i < |weights|
    ensures var total := TotalWeight(weights);
      if total < 0 then total <= LowEnd(weights, i) <= HighEnd(weights, i) <= 0
      else 0 <= LowEnd(weights, i) <= HighEnd(weights, i) <= total
  {
    if 0 < i && i + 1 < |weights| { PeaksRise(weights, i, i + 1); }
  }

  lemma RunsBetweenEnds(weights: seq<int>, draw: real, i: nat)
    requires i < |weights|
    requires var total := TotalWeight(weights) as real; 0.0 < draw < total || total < draw < 0.0
    ensures K6Runs(weights, draw, i) <==> LowEnd(weights, i) as real <= draw < HighEnd(weights, i) as real
  {
    RunsBetweenPeaks(weights, draw, i);
  }

  lemma InsideDraws(u: real, total: real)
    requires 0.0 < u < 1.0
    ensures total > 0.0 ==> 0.0 < u * total < total
    ensures total < 0.0 ==> total < u * total < 0.0
  {
  }

  function K6RunsAt(weights: seq<int>, i: nat): real -> bool { u => K6Runs(weights, DrawAt(weights, u), i) }

  function LocustRunsAt(weights: seq<int>, i: nat): real -> bool {
    u => LocustPicks(LocustWeights(weights), DrawAt(LocustWeights(weights), u), i)
  }

  lemma OffTheEnd(u: real, total: real, x: real)
    requires total != 0.0 && u != x / total
    ensures Draw(u, total) != x
  {
    Cancel(u, total);
  }

  lemma Cancel(u: real, total: real)
    requires total != 0.0
    ensures u * total / total == u
  {
  }

  /** A stretch of draws is a stretch of what random() yields. */
  lemma StretchOfDraws(runs: real -> bool, total: real, low: real, high: real)
    requires total != 0.0
    requires if total > 0.0 then 0.0 <= low <= high <= total else total <= low <= high <= 0.0
    requires forall u :: 0.0 < u < 1.0 && Draw(u, total) != low && Draw(u, total) != high ==> (runs(u) <==> low <= Draw(u, total) < high)
    ensures HasShare(runs, (high - low) / if total > 0.0 then total else -total)
  {
    var p, q := low / total, high / total;
    Quotient(low, total);
    Quotient(high, total);
    forall u | 0.0 < u < 1.0 && u != p && u != q ensures runs(u) <==> if total > 0.0 then p < u < q else q < u < p {
      OffTheEnd(u, total, low);
      OffTheEnd(u, total, high);
      Scaled(u, total, low);
      Scaled(u, total, high);
    }
    QuotientsDiffer(high, low, total);
    var lo, hi := if total > 0.0 then p else q, if total > 0.0 then q else p;
    assert IsStretch(runs, lo, hi);
  }

  lemma QuotientsDiffer(a: real, b: real, total: real)
    requires total != 0.0
    ensures a / total - b / total == (a - b) / total
    ensures b / total - a / total == (a - b) / -total
    ensures (a >= b && total > 0.0) ==> a / total >= b / total
    ensures (a >= b && total < 0.0) ==> a / total <= b / total
  {
  }

  lemma DrawInside(weights: seq<int>, u: real)
    requires TotalWeight(weights) != 0 && 0.0 < u < 1.0
    ensures var total := TotalWeight(weights) as real;
      0.0 < DrawAt(weights, u) < total || total < DrawAt(weights, u) < 0.0
  {
    InsideDraws(u, TotalWeight(weights) as real);
  }

  /** The draws from low up to high, not including high, make scenario i run. */
  ghost predicate RunsFromTo(runs: real -> bool, weights: seq<int>, low: int, high: int) {
    forall u :: 0.0 < u < 1.0 && DrawAt(weights, u) != low as real && DrawAt(weights, u) != high as real ==>
      (runs(u) <==> low as real <= DrawAt(weights, u) < high as real)
  }

  lemma K6RunsFromTo(weights: seq<int>, i: nat)
    requires i < |weights| && TotalWeight(weights) != 0
    ensures RunsFromTo(K6RunsAt(weights, i), weights, LowEnd(weights, i), HighEnd(weights, i))
  {
    forall u | 0.0 < u < 1.0
      ensures K6RunsAt(weights, i)(u) <==> LowEnd(weights, i) as real <= DrawAt(weights, u) < HighEnd(weights, i) as real
    {
      DrawInside(weights, u);
      RunsBetweenEnds(weights, DrawAt(weights, u), i);
    }
  }

  lemma ShareOfStretch(runs: real -> bool, weights: seq<int>, low: int, high: int)
    requires TotalWeight(weights) != 0 && RunsFromTo(runs, weights, low, high)
    requires if TotalWeight(weights) > 0 then 0 <= low <= high <= TotalWeight(weights) else TotalWeight(weights) <= low <= high <= 0
    ensures HasShare(runs, (high - low) as real / K6Parts(weights) as real)
  {
    var total := TotalWeight(weights) as real;
    forall u | 0.0 < u < 1.0 && Draw(u, total) != low as real && Draw(u, total) != high as real
      ensures runs(u) <==> low as real <= Draw(u, total) < high as real
    {
      assert DrawAt(weights, u) == Draw(u, total);
    }
    StretchOfDraws(runs, total, low as real, high as real);
  }

  lemma K6ShareOfNothing(weights: seq<int>, i: nat)
    requires i < |weights| && TotalWeight(weights) == 0
    ensures HasShare(K6RunsAt(weights, i), K6Share(weights, i))
  {
    var one := if K6Runs(weights, 0.0, i) then 1.0 else 0.0;
    forall u: real ensures K6RunsAt(weights, i)(u) <==> K6Runs(weights, 0.0, i) {
      assert DrawAt(weights, u) == 0.0;
    }
    assert IsStretch(K6RunsAt(weights, i), 0.0, one);
    assert K6Share(weights, i) == one - 0.0;
  }

  /** k6 runs scenario i on this share of its draws, whatever the weights. */
  lemma K6ShareIsItsStretch(weights: seq<int>, i: nat)
    requires i < |weights|
    ensures HasShare(K6RunsAt(weights, i), K6Share(weights, i))
  {
    if TotalWeight(weights) == 0 {
      K6ShareOfNothing(weights, i);
    } else {
      EndsInOrder(weights, i);
      K6RunsFromTo(weights, i);
      ShareOfStretch(K6RunsAt(weights, i), weights, LowEnd(weights, i), HighEnd(weights, i));
    }
  }

  lemma LocustRunsFromTo(weights: seq<int>, i: nat)
    requires i < |weights| && TotalWeight(LocustWeights(weights)) > 0
    ensures var ws := LocustWeights(weights);
      RunsFromTo(LocustRunsAt(weights, i), ws, Before(ws, i), Before(ws, i + 1))
  {
    var ws := LocustWeights(weights);
    forall u | 0.0 < u < 1.0 ensures DrawAt(ws, u) > 0.0 { DrawInside(ws, u); }
  }

  /** Locust runs scenario i on this share of its draws. */
  lemma LocustShareIsItsStretch(weights: seq<int>, i: nat)
    requires i < |weights|
    ensures HasShare(LocustRunsAt(weights, i), LocustShare(weights, i))
  {
    var ws := LocustWeights(weights);
    BeforeGrows(ws, 0, i);
    BeforeGrows(ws, i, i + 1);
    BeforeGrows(ws, i + 1, |ws|);
    LocustRunsFromTo(weights, i);
    ShareOfStretch(LocustRunsAt(weights, i), ws, Before(ws, i), Before(ws, i + 1));
  }

  // ------------------------------------------------------- one traffic mix

  /** The first and last weights balance the others from below zero: the one
      kind of profile with negative weights that both engines read alike. */
  predicate Mirrored(weights: seq<int>) {
    && |weights| >= 2 && weights[0] == weights[|weights| - 1] < 0
    && (forall i :: 0 < i < |weights| - 1 ==> weights[i] > 0)
    && (|weights| > 2 ==> weights[0] == 1 - TotalWeight(LocustWeights(weights)))
  }

  predicate SameShares(weights: seq<int>) {
    forall i: nat :: i < |weights| ==> K6Share(weights, i) == LocustShare(weights, i)
  }

  lemma CrossMultiply(a: int, b: int, c: int, d: int)
    requires b > 0 && d > 0
    ensures a as real / b as real == c as real / d as real <==> a * d == c * b
  {
    var p, q := a as real / b as real, c as real / d as real;
    assert p * b as real == a as real && q * d as real == c as real;
    assert (a * d) as real == p * b as real * d as real;
    assert (c * b) as real == q * d as real * b as real;
    if a * d == c * b {
      assert (p - q) * (b as real * d as real) == 0.0;
    }
  }

  /** The shares of scenario i are equal, as whole numbers. */
  lemma SharesInParts(weights: seq<int>, i: nat)
    requires i < |weights|
    ensures var ws := LocustWeights(weights);
      && TotalWeight(ws) > 0 && ws[i] > 0
      && (K6Share(weights, i) == LocustShare(weights, i) <==> K6Length(weights, i) * TotalWeight(ws) == ws[i] * K6Parts(weights))
  {
    var ws := LocustWeights(weights);
    BeforeGrows(ws, 0, |ws|);
    CrossMultiply(K6Length(weights, i), K6Parts(weights), ws[i], TotalWeight(ws));
  }

  lemma {:induction false} RisingPeak(weights: seq<int>, i: nat)
    requires 1 <= i <= |weights| && forall j :: 1 <= j < i ==> weights[j] > 0
    ensures Peak(weights, i) == Before(weights, i)
  {
    if i > 1 { RisingPeak(weights, i - 1); }
  }

  lemma {:induction false} RisingTotals(weights: seq<int>, i: nat, j: nat)
    requires 1 <= i <= j <= |weights| && forall k :: i <= k < j ==> weights[k] > 0
    ensures Before(weights, i) <= Before(weights, j)
  {
    if i < j { RisingTotals(weights, i, j - 1); }
  }

  lemma OneScenarioAgrees(weights: seq<int>)
    requires |weights| == 1
    ensures K6Share(weights, 0) == LocustShare(weights, 0)
  {
    SharesInParts(weights, 0);
    RunsBetweenPeaks(weights, 0.0, 0);
    assert TotalWeight(LocustWeights(weights)) == Before(LocustWeights(weights), 0) + LocustWeights(weights)[0];
  }

  lemma PositiveAgrees(weights: seq<int>, i: nat)
    requires Positive(weights) && i < |weights|
    ensures K6Share(weights, i) == LocustShare(weights, i)
  {
    BeforeGrows(weights, 0, i);
    BeforeGrows(weights, i, i + 1);
    BeforeGrows(weights, i + 1, |weights|);
    if i > 0 { RisingPeak(weights, i); }
    RisingPeak(weights, i + 1);
    SharesInParts(weights, i);
  }

  /** Locust's running totals, where the weights between the ends are positive. */
  lemma {:induction false} LocustTotals(weights: seq<int>, i: nat)
    requires 1 <= i < |weights| && weights[0] < 0 && forall j :: 0 < j < i ==> weights[j] > 0
    ensures Before(LocustWeights(weights), i) == 1 + Before(weights, i) - weights[0]
  {
    if i > 1 {
      LocustTotals(weights, i - 1);
    } else {
      assert Before(weights, 1) == Before(weights, 0) + weights[0];
      assert Before(LocustWeights(weights), 1) == Before(LocustWeights(weights), 0) + 1;
    }
  }

  lemma MirroredTotals(weights: seq<int>)
    requires Mirrored(weights)
    ensures var n, ws := |weights|, LocustWeights(weights);
      && TotalWeight(weights) == Before(weights, n - 1) + weights[0]
      && (n > 2 ==> Before(weights, n - 1) == -1 && TotalWeight(weights) == -TotalWeight(ws))
      && (n == 2 ==> Before(weights, n - 1) == weights[0] && TotalWeight(ws) == 2)
  {
    var n, ws := |weights|, LocustWeights(weights);
    LocustTotals(weights, n - 1);
    assert TotalWeight(ws) == Before(ws, n - 1) + 1;
    assert Before(weights, 1) == Before(weights, 0) + weights[0];
  }

  lemma MirroredLengths(weights: seq<int>, i: nat)
    requires Mirrored(weights) && i < |weights|
    ensures TotalWeight(weights) < 0
    ensures K6Length(weights, i) == if |weights| == 2 then -weights[0] else LocustWeights(weights)[i]
  {
    var n := |weights|;
    MirroredTotals(weights);
    assert Before(weights, 1) == Before(weights, 0) + weights[0];
    if 0 < i {
      RisingPeak(weights, i);
      RisingTotals(weights, 1, i);
      RisingTotals(weights, i, n - 1);
    }
    if i + 1 < n {
      RisingPeak(weights, i + 1);
      RisingTotals(weights, 1, i + 1);
      RisingTotals(weights, i + 1, n - 1);
    }
  }

  lemma MirroredAgrees(weights: seq<int>, i: nat)
    requires Mirrored(weights) && i < |weights|
    ensures K6Share(weights, i) == LocustShare(weights, i)
  {
    MirroredTotals(weights);
    MirroredLengths(weights, i);
    SharesInParts(weights, i);
  }

  lemma EveryLengthIsPositive(weights: seq<int>, i: nat)
    requires i < |weights| && SameShares(weights)
    ensures K6Length(weights, i) > 0
  {
    SharesInParts(weights, i);
    var k, l, t, p := K6Length(weights, i), LocustWeights(weights)[i], TotalWeight(LocustWeights(weights)), K6Parts(weights);
    assert l * p > 0;
    assert k * t == l * p;
  }

  lemma InnerWeightIsPositive(weights: seq<int>, i: nat)
    requires 0 < i && i + 1 < |weights| && TotalWeight(weights) != 0 && K6Length(weights, i) > 0
    ensures weights[i] > 0
  {
    assert Peak(weights, i) < Peak(weights, i + 1);
    PeakIsHighest(weights, i);
    assert Before(weights, i) <= Peak(weights, i);
  }

  lemma AgreeAbove(weights: seq<int>)
    requires |weights| >= 2 && SameShares(weights) && TotalWeight(weights) > 0
    ensures Positive(weights)
  {
    var n := |weights|;
    forall i | 0 <= i < n ensures weights[i] > 0 {
      EveryLengthIsPositive(weights, i);
      if 0 < i && i + 1 < n {
        InnerWeightIsPositive(weights, i);
      } else if i > 0 {
        PeakIsHighest(weights, i);
        assert Before(weights, i) <= Peak(weights, i) < TotalWeight(weights);
      }
    }
  }

  /** With inner weights positive and both ends in reach of the draws. */
  ghost predicate ReadFromBelow(weights: seq<int>) {
    && |weights| >= 2 && TotalWeight(weights) < weights[0] < 0
    && (forall i :: 0 < i < |weights| - 1 ==> weights[i] > 0)
    && Before(weights, |weights| - 1) < 0
    && TotalWeight(weights) == Before(weights, |weights| - 1) + weights[|weights| - 1]
  }

  lemma AgreeingReadsFromBelow(weights: seq<int>)
    requires |weights| >= 2 && SameShares(weights) && TotalWeight(weights) < 0
    ensures ReadFromBelow(weights)
    ensures K6Length(weights, 0) == weights[0] - TotalWeight(weights)
    ensures K6Length(weights, |weights| - 1) == -Before(weights, |weights| - 1)
  {
    var n := |weights|;
    forall i | 0 < i < n - 1 ensures weights[i] > 0 {
      EveryLengthIsPositive(weights, i);
      InnerWeightIsPositive(weights, i);
    }
    EveryLengthIsPositive(weights, 0);
    EveryLengthIsPositive(weights, n - 1);
    RisingPeak(weights, n - 1);
    RisingTotals(weights, 1, n - 1);
    assert Before(weights, 1) == Before(weights, 0) + weights[0];
    assert TotalWeight(weights) == Before(weights, n - 1) + weights[n - 1];
  }

  lemma InnerLength(weights: seq<int>)
    requires |weights| > 2 && ReadFromBelow(weights)
    ensures K6Length(weights, 1) == weights[1]
  {
    RisingPeak(weights, 1);
    RisingPeak(weights, 2);
    RisingTotals(weights, 1, 2);
    RisingTotals(weights, 2, |weights| - 1);
    assert Before(weights, 1) == Before(weights, 0) + weights[0];
    assert Before(weights, 2) == Before(weights, 1) + weights[1];
  }

  lemma CancelFactor(a: int, b: int, p: int)
    requires p != 0 && a * p == b * p
    ensures a == b
  {
    assert (a - b) * p == 0;
  }

  /** What an inner scenario says of a negative total. */
  lemma InnerAgrees(weights: seq<int>)
    requires |weights| > 2 && ReadFromBelow(weights) && SameShares(weights)
    ensures TotalWeight(LocustWeights(weights)) == -TotalWeight(weights)
  {
    InnerLength(weights);
    SharesInParts(weights, 1);
    assert LocustWeights(weights)[1] == weights[1];
    CancelFactor(TotalWeight(LocustWeights(weights)), -TotalWeight(weights), weights[1]);
  }

  lemma AgreeBelow(weights: seq<int>)
    requires |weights| >= 2 && SameShares(weights) && TotalWeight(weights) < 0
    ensures Mirrored(weights)
  {
    var n, total, ws := |weights|, TotalWeight(weights), LocustWeights(weights);
    AgreeingReadsFromBelow(weights);
    SharesInParts(weights, 0);
    SharesInParts(weights, n - 1);
    if n == 2 {
      LocustTotals(weights, 1);
      assert Before(weights, 1) == Before(weights, 0) + weights[0];
      assert TotalWeight(ws) == Before(ws, 1) + ws[1] == 2;
    } else {
      InnerAgrees(weights);
      CancelFactor(weights[0] - total, 1, -total);
      CancelFactor(-Before(weights, n - 1), 1, -total);
    }
  }

  lemma NothingIsShared(weights: seq<int>)
    requires |weights| >= 2 && TotalWeight(weights) == 0
    ensures !SameShares(weights)
  {
    RunsBetweenPeaks(weights, 0.0, 0);
    RunsBetweenPeaks(weights, 0.0, 1);
    if SameShares(weights) {
      EveryLengthIsPositive(weights, 0);
      EveryLengthIsPositive(weights, 1);
    }
  }

  lemma SharedByTwo(weights: seq<int>)
    requires |weights| >= 2 && SameShares(weights)
    ensures Positive(weights) || Mirrored(weights)
  {
    if TotalWeight(weights) > 0 {
      AgreeAbove(weights);
    } else if TotalWeight(weights) < 0 {
      AgreeBelow(weights);
    } else {
      NothingIsShared(weights);
    }
  }

  /** One torture.yaml, two engines: every scenario has the same share of the
      traffic on both exactly when there is at most one, or every weight is
      positive, or the weights are mirrored. */
  lemma SharesAgreeIff(weights: seq<int>)
    ensures SameShares(weights) <==> |weights| <= 1 || Positive(weights) || Mirrored(weights)
  {
    if |weights| == 1 {
      OneScenarioAgrees(weights);
    } else if Positive(weights) {
      forall i: nat | i < |weights| ensures K6Share(weights, i) == LocustShare(weights, i) { PositiveAgrees(weights, i); }
    } else if Mirrored(weights) {
      forall i: nat | i < |weights| ensures K6Share(weights, i) == LocustShare(weights, i) { MirroredAgrees(weights, i); }
    } else if |weights| >= 2 && SameShares(weights) {
      SharedByTwo(weights);
    }
  }

  /** The failing case: two scenarios with their weights left out. k6 runs only the
      second, Locust both alike. */
  lemma OmittedWeightsAreReadTwoWays()
    ensures K6Share([0, 0], 0) == 0.0 && K6Share([0, 0], 1) == 1.0
    ensures LocustShare([0, 0], 0) == LocustShare([0, 0], 1) == 0.5
    ensures !SameShares([0, 0])
  {
    var weights := [0, 0];
    assert Before(weights, 1) == Before(weights, 0) + weights[0];
    assert Before(weights, 2) == Before(weights, 1) + weights[1];
    assert Peak(weights, 1) == 0;
    RunsBetweenPeaks(weights, 0.0, 0);
    RunsBetweenPeaks(weights, 0.0, 1);
    var ws := LocustWeights(weights);
    assert Before(ws, 1) == Before(ws, 0) + ws[0] == 1;
    assert Before(ws, 2) == Before(ws, 1) + ws[1] == 2;
    assert K6Share(weights, 0) != LocustShare(weights, 0);
  }
}
