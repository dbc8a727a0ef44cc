/** Nearest-rank percentiles and the replay counters (internal/capture/replay.go),
    with the benchmark's own copy of the rule (benchmarks/b2/result.go). Samples
    are reals where the source has float64, and a percentile is characterised by
    how many samples lie at or below it and how many strictly below. */
module Percentile {
  import opened Sequences

  function Ceil(x: real): int { -((-x).Floor) }

  predicate Le(a: real, b: real) { a <= b }

  lemma SortsSamples(s: seq<real>)
    ensures SortedBy(Sort(s, Le), Le)
    ensures multiset(Sort(s, Le)) == multiset(s) && |Sort(s, Le)| == |s|
  {
    SortSorts(s, Le);
  }

  lemma SameSamplesSortAlike(a: seq<real>, b: seq<real>)
    requires multiset(a) == multiset(b)
    ensures Sort(a, Le) == Sort(b, Le)
  {
    SortsSamples(a);
    SortsSamples(b);
    SortedUnique(Sort(a, Le), Sort(b, Le), Le);
  }

  /** ceil(p*n): how many of n samples the p-th share takes. */
  function Share(p: real, n: nat): int { Ceil(p * n as real) }

  /** The index the rule picks among n sorted samples. */
  function Rank(p: real, n: nat): (idx: nat)
    requires n > 0
    ensures idx < n
  {
    var idx := Share(p, n) - 1;
    if idx < 0 then 0 else if idx >= n then n - 1 else idx
  }

  lemma ShareMonotone(q: real, p: real, n: nat)
    requires q <= p
    ensures Share(q, n) <= Share(p, n)
  {
    var a, b := q * n as real, p * n as real;
    assert a <= b;
    assert (-b).Floor <= (-a).Floor;
  }

  lemma ShareInside(p: real, n: nat)
    requires 0.0 < p <= 1.0 && n > 0
    ensures 1 <= Share(p, n) <= n
  {
    var x := p * n as real;
    assert 0.0 < x <= n as real;
  }

  /** percentile: 0 for no samples, else the p-th by nearest rank. */
  method Percentile(samples: seq<real>, p: real) returns (r: real)
    ensures samples == [] ==> r == 0.0
    ensures samples != [] ==> r in samples
    ensures samples != [] && 0.0 < p <= 1.0 ==> IsPercentile(samples, p, r)
    ensures r == NearestRank(samples, p)
  {
    SortsSamples(samples);
    if |samples| == 0 { return 0.0; }
    var cp := Sort(samples, Le);
    var idx := Share(p, |cp|) - 1;
    if idx < 0 { idx := 0; }
    if idx >= |cp| { idx := |cp| - 1; }
    r := cp[idx];
    RankIsRight(samples, p);
  }

  /** At least the share p of the samples lies at or below v, and less than the share
      p below it: v is the least sample that covers p. */
  predicate IsPercentile(samples: seq<real>, p: real, v: real) {
    var n := |samples|;
    CountLe(samples, v) as real >= p * n as real && (n - CountGe(samples, v)) as real < p * n as real
  }

  lemma ShareIsTheCeiling(p: real, n: nat)
    ensures Share(p, n) as real - 1.0 < p * n as real <= Share(p, n) as real
  {
  }

  function NearestRank(samples: seq<real>, p: real): real {
    var sorted := Sort(samples, Le);
    if |sorted| == 0 then 0.0 else sorted[Rank(p, |sorted|)]
  }

  function CountLe(s: seq<real>, v: real): nat {
    if s == [] then 0 else CountLe(s[1..], v) + if s[0] <= v then 1 else 0
  }

  function CountGe(s: seq<real>, v: real): nat {
    if s == [] then 0 else CountGe(s[1..], v) + if s[0] >= v then 1 else 0
  }

  lemma {:induction false} CountConcat(a: seq<real>, b: seq<real>, v: real)
    ensures CountLe(a + b, v) == CountLe(a, v) + CountLe(b, v)
    ensures CountGe(a + b, v) == CountGe(a, v) + CountGe(b, v)
  {
    if a == [] {
      assert a + b == b;
    } else {
      assert (a + b)[1..] == a[1..] + b;
      CountConcat(a[1..], b, v);
    }
  }

  lemma CountWithout(b: seq<real>, i: nat, v: real)
    requires i < |b|
    ensures var rest := b[..i] + b[i + 1..];
      && multiset(rest) == multiset(b) - multiset{b[i]}
      && CountLe(b, v) == CountLe(rest, v) + (if b[i] <= v then 1 else 0)
      && CountGe(b, v) == CountGe(rest, v) + (if b[i] >= v then 1 else 0)
  {
    assert b == b[..i] + ([b[i]] + b[i + 1..]);
    assert multiset(b) == multiset(b[..i]) + multiset{b[i]} + multiset(b[i + 1..]);
    assert ([b[i]] + b[i + 1..])[1..] == b[i + 1..];
    CountConcat(b[..i], b[i + 1..], v);
    CountConcat(b[..i], [b[i]] + b[i + 1..], v);
  }

  lemma {:induction false} CountPermutes(a: seq<real>, b: seq<real>, v: real)
    requires multiset(a) == multiset(b)
    ensures CountLe(a, v) == CountLe(b, v) && CountGe(a, v) == CountGe(b, v)
  {
    assert |multiset(a)| == |a| && |multiset(b)| == |b|;
    if a != [] {
      assert a[0] in multiset(a);
      assert a[0] in b;
      var i :| 0 <= i < |b| && b[i] == a[0];
      assert a[1..] == a[..0] + a[0 + 1..];
      CountWithout(a, 0, v);
      CountWithout(b, i, v);
      CountPermutes(a[1..], b[..i] + b[i + 1..], v);
    }
  }

  lemma {:induction false} AllLe(s: seq<real>, v: real)
    ensures (forall i :: 0 <= i < |s| ==> s[i] <= v) ==> CountLe(s, v) == |s|
    ensures (forall i :: 0 <= i < |s| ==> s[i] >= v) ==> CountGe(s, v) == |s|
  {
    if s != [] {
      AllLe(s[1..], v);
      assert forall i :: 0 <= i < |s[1..]| ==> s[1..][i] == s[i + 1];
    }
  }

  lemma RankAndBelow(s: seq<real>, k: nat)
    requires SortedBy(s, Le) && k < |s|
    ensures CountLe(s, s[k]) >= k + 1
  {
    var low := s[..k + 1];
    forall i | 0 <= i < |low| ensures low[i] <= s[k] { if i < k { assert Le(s[i], s[k]); } }
    AllLe(low, s[k]);
    assert s == low + s[k + 1..];
    CountConcat(low, s[k + 1..], s[k]);
  }

  lemma RankAndAbove(s: seq<real>, k: nat)
    requires SortedBy(s, Le) && k < |s|
    ensures CountGe(s, s[k]) >= |s| - k
  {
    var high := s[k..];
    forall i | 0 <= i < |high| ensures high[i] >= s[k] { if i > 0 { assert Le(s[k], s[k + i]); } }
    AllLe(high, s[k]);
    assert s == s[..k] + high;
    CountConcat(s[..k], high, s[k]);
  }

  lemma SortedRankIsRight(sorted: seq<real>, samples: seq<real>, p: real)
    requires SortedBy(sorted, Le) && multiset(sorted) == multiset(samples)
    requires |sorted| == |samples| > 0 && 0.0 < p <= 1.0
    ensures IsPercentile(samples, p, sorted[Rank(p, |sorted|)])
  {
    ShareInside(p, |sorted|);
    ShareIsTheCeiling(p, |sorted|);
    var k := Rank(p, |sorted|);
    assert k == Share(p, |sorted|) - 1;
    RankAndBelow(sorted, k);
    RankAndAbove(sorted, k);
    CountPermutes(sorted, samples, sorted[k]);
  }

  /** The rule returns a sample, and one that is the p-th percentile. */
  lemma RankIsRight(samples: seq<real>, p: real)
    requires samples != []
    ensures NearestRank(samples, p) in samples
    ensures 0.0 < p <= 1.0 ==> IsPercentile(samples, p, NearestRank(samples, p))
  {
    SortsSamples(samples);
    var sorted := Sort(samples, Le);
    assert sorted[Rank(p, |sorted|)] in multiset(sorted);
    if 0.0 < p <= 1.0 { SortedRankIsRight(sorted, samples, p); }
  }

  /** A rearranged sample gives the same percentile, and a smaller share never a
      larger one: so P50 <= P95 <= P99. */
  lemma OrderAndShareDoNotMatter(samples: seq<real>, other: seq<real>, q: real, p: real)
    requires multiset(other) == multiset(samples) && q <= p
    ensures NearestRank(other, p) == NearestRank(samples, p)
    ensures NearestRank(other, q) <= NearestRank(samples, p)
  {
    SortsSamples(samples);
    SameSamplesSortAlike(samples, other);
    var sorted := Sort(samples, Le);
    if sorted != [] {
      ShareMonotone(q, p, |sorted|);
      var i, j := Rank(q, |sorted|), Rank(p, |sorted|);
      if i < j { assert Le(sorted[i], sorted[j]); }
    }
  }

  // ------------------------------------------------------------ benchmark B2

  datatype Stats = Stats(n: nat, mean: real, p50: real, p95: real, p99: real, rps: real, workers: int)

  function SumOf(s: seq<real>): real {
    if s == [] then 0.0 else SumOf(s[..|s| - 1]) + s[|s| - 1]
  }

  /** SumOf is the sum: of one sample that sample, and additive. */
  lemma {:induction false} SumIsAdditive(a: seq<real>, b: seq<real>)
    ensures SumOf(a + b) == SumOf(a) + SumOf(b)
    ensures forall x :: SumOf([x]) == x
  {
    forall x ensures SumOf([x]) == x { assert [x][..0] == []; }
    if b == [] {
      assert a + b == a;
    } else {
      var n := |b| - 1;
      SumIsAdditive(a, b[..n]);
      assert (a + b)[..|a| + n] == a + b[..n];
    }
  }

  lemma {:induction false} SumIsBetween(s: seq<real>, lo: real, hi: real)
    requires forall i :: 0 <= i < |s| ==> lo <= s[i] <= hi
    ensures lo * |s| as real <= SumOf(s) <= hi * |s| as real
  {
    if s != [] {
      var n := |s| - 1;
      SumIsBetween(s[..n], lo, hi);
      assert lo * |s| as real == lo * n as real + lo && hi * |s| as real == hi * n as real + hi;
    }
  }

  method RequestsPerSecond(n: nat, wallSeconds: real) returns (rps: real)
    ensures wallSeconds > 0.0 ==> rps * wallSeconds == n as real
    ensures wallSeconds <= 0.0 ==> rps == 0.0
  {
    rps := 0.0;
    if wallSeconds > 0.0 { rps := n as real / wallSeconds; }
  }

  /** The mean and the three percentiles of a non-empty sample. */
  method SampleStats(latencies: seq<real>) returns (mean: real, p50: real, p95: real, p99: real)
    requires latencies != []
    ensures p50 == NearestRank(latencies, 0.50) && p95 == NearestRank(latencies, 0.95) && p99 == NearestRank(latencies, 0.99)
    ensures p50 <= p95 <= p99
    ensures mean == SumOf(Sort(latencies, Le)) / |latencies| as real
  {
    var n := |latencies|;
    var sorted := Sort(latencies, Le);
    SortsSamples(latencies);
    var sum := 0.0;
    for i := 0 to |sorted|
      invariant sum == SumOf(sorted[..i])
    {
      assert sorted[..i + 1][..i] == sorted[..i];
      sum := sum + sorted[i];
    }
    assert sorted[..|sorted|] == sorted;
    OrderAndShareDoNotMatter(latencies, latencies, 0.50, 0.95);
    OrderAndShareDoNotMatter(latencies, latencies, 0.95, 0.99);
    return sum / n as real, sorted[Rank(0.50, n)], sorted[Rank(0.95, n)], sorted[Rank(0.99, n)];
  }

  /** computeStats: its percentiles are replay's, whatever order the latencies come in. */
  method ComputeStats(latencies: seq<real>, wallSeconds: real, workers: int) returns (st: Stats)
    ensures st.n == |latencies| && st.workers == workers
    ensures latencies == [] ==> st == Stats(0, 0.0, 0.0, 0.0, 0.0, 0.0, workers)
    ensures latencies != [] ==>
      st.p50 == NearestRank(latencies, 0.50) && st.p95 == NearestRank(latencies, 0.95) && st.p99 == NearestRank(latencies, 0.99)
    ensures latencies != [] ==> st.p50 <= st.p95 <= st.p99
    ensures latencies != [] ==> st.mean == SumOf(Sort(latencies, Le)) / |latencies| as real
    ensures latencies != [] && wallSeconds > 0.0 ==> st.rps * wallSeconds == |latencies| as real
    ensures latencies != [] && wallSeconds <= 0.0 ==> st.rps == 0.0
  {
    if |latencies| == 0 { return Stats(0, 0.0, 0.0, 0.0, 0.0, 0.0, workers); }
    var mean, p50, p95, p99 := SampleStats(latencies);
    var rps := RequestsPerSecond(|latencies|, wallSeconds);
    return Stats(|latencies|, mean, p50, p95, p99, rps, workers);
  }

  // ------------------------------------------------------------------ Replay

  datatype ReplayResult = ReplayResult(sent: nat, success: nat, failed: nat)

  predicate FirstUndecodable(decodes: seq<bool>, i: nat) {
    i < |decodes| && !decodes[i] && forall j :: 0 <= j < i ==> decodes[j]
  }

  /** decodes[i]: whether entry i's body decodes; answer(k): whether the k-th
      request sent is answered below 500. */
  method Replay(decodes: seq<bool>, repeat: int, answer: nat -> bool, latency: nat -> real)
    returns (res: ReplayResult, latencies: seq<real>, ok: bool)
    ensures res.sent == res.success + res.failed == |latencies|
    ensures ok <==> forall i :: 0 <= i < |decodes| ==> decodes[i]
    ensures ok ==> res.sent == |decodes| * if repeat < 1 then 1 else repeat
    ensures !ok ==> exists i: nat :: FirstUndecodable(decodes, i) && res.sent == i * if repeat < 1 then 1 else repeat
    ensures forall k :: 0 <= k < |latencies| ==> latencies[k] == latency(k)
    ensures res.success == Successes(answer, res.sent)
    ensures res.success == |set k: nat | k < res.sent && answer(k)|
  {
    var times := if repeat < 1 then 1 else repeat;
    res, latencies := ReplayResult(0, 0, 0), [];
    for e := 0 to |decodes|
      invariant res.sent == res.success + res.failed == |latencies| == e * times
      invariant forall j :: 0 <= j < e ==> decodes[j]
      invariant forall k :: 0 <= k < |latencies| ==> latencies[k] == latency(k)
      invariant res.success == Successes(answer, res.sent)
    {
      if !decodes[e] {
        assert FirstUndecodable(decodes, e);
        SuccessesAreCounted(answer, res.sent);
        return res, latencies, false;
      }
      for i := 0 to times
        invariant res.sent == res.success + res.failed == |latencies| == e * times + i
        invariant forall k :: 0 <= k < |latencies| ==> latencies[k] == latency(k)
        invariant res.success == Successes(answer, res.sent)
      {
        var good := answer(res.sent);
        latencies := latencies + [latency(res.sent)];
        res := ReplayResult(res.sent + 1, if good then res.success + 1 else res.success,
                            if good then res.failed else res.failed + 1);
      }
      assert (e + 1) * times == e * times + times;
    }
    SuccessesAreCounted(answer, res.sent);
    return res, latencies, true;
  }

  function Successes(answer: nat -> bool, n: nat): nat {
    if n == 0 then 0 else Successes(answer, n - 1) + if answer(n - 1) then 1 else 0
  }

  lemma {:induction false} SuccessesAreCounted(answer: nat -> bool, n: nat)
    ensures Successes(answer, n) == |set k: nat | k < n && answer(k)|
  {
    if n > 0 {
      SuccessesAreCounted(answer, n - 1);
      var before := set k: nat | k < n - 1 && answer(k);
      assert (set k: nat | k < n && answer(k)) == if answer(n - 1) then before + {n - 1} else before;
    }
  }
}
