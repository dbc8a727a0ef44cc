/** Recomputing k6 thresholds from measured values (internal/k6/summary.go): a
    threshold is split at its operator, its statistic is looked up in the metric,
    and its verdict is replaced. What strconv.ParseFloat makes of the limit is a
    parameter. */
module Thresholds {
  import opened Sequences

  // ------------------------------------------------------------- splitting

  const OPERATORS: seq<string> := ["<=", ">=", "==", "!=", "<", ">"]

  predicate OccursAt(s: string, sub: string, i: nat) {
    i + |sub| <= |s| && s[i..i + |sub|] == sub
  }

  /** strings.Index: the first place sub occurs. */
  function Index(s: string, sub: string, from: nat := 0): (r: Option<nat>)
    requires from <= |s|
    ensures r.Some? ==> from <= r.value && OccursAt(s, sub, r.value)
    ensures forall j :: from <= j <= |s| && (r.None? || j < r.value) ==> !OccursAt(s, sub, j)
    decreases |s| - from
  {
    if OccursAt(s, sub, from) then Some(from)
    else if from == |s| then None
    else Index(s, sub, from + 1)
  }

  /** unicode.IsSpace. */
  predicate IsSpace(c: char) {
    || c in "\t\n\U{0B}\U{0C}\r \U{85}\U{A0}\U{1680}\U{2028}\U{2029}\U{202F}\U{205F}\U{3000}"
    || '\U{2000}' <= c <= '\U{200A}'
  }

  function TrimLeft(s: string): string {
    if s != [] && IsSpace(s[0]) then TrimLeft(s[1..]) else s
  }

  function TrimRight(s: string): string {
    if s != [] && IsSpace(s[|s| - 1]) then TrimRight(s[..|s| - 1]) else s
  }

  function TrimSpace(s: string): string { TrimRight(TrimLeft(s)) }

  predicate AllSpace(s: string) {
    forall i :: 0 <= i < |s| ==> IsSpace(s[i])
  }

  /** t is s without the space around it. */
  ghost predicate Trimmed(s: string, t: string) {
    && (exists a, b :: s == a + t + b && AllSpace(a) && AllSpace(b))
    && (t != [] ==> !IsSpace(t[0]) && !IsSpace(t[|t| - 1]))
  }

  lemma {:induction false} TrimLeftDrops(s: string) returns (a: string)
    ensures s == a + TrimLeft(s) && AllSpace(a) && (TrimLeft(s) != [] ==> !IsSpace(TrimLeft(s)[0]))
  {
    if s != [] && IsSpace(s[0]) {
      var rest := TrimLeftDrops(s[1..]);
      a := [s[0]] + rest;
      assert s == [s[0]] + s[1..];
    } else {
      a := [];
    }
  }

  lemma {:induction false} TrimRightDrops(s: string) returns (b: string)
    ensures s == TrimRight(s) + b && AllSpace(b) && (TrimRight(s) != [] ==> !IsSpace(TrimRight(s)[|TrimRight(s)| - 1]))
  {
    if s == [] || !IsSpace(s[|s| - 1]) {
      b := [];
      assert TrimRight(s) == s && s + [] == s;
    } else {
      var front, last := s[..|s| - 1], s[|s| - 1];
      var rest := TrimRightDrops(front);
      b := rest + [last];
      assert TrimRight(s) == TrimRight(front);
      assert s == front + [last] == TrimRight(front) + rest + [last];
    }
  }

  lemma TrimSpaceTrims(s: string)
    ensures Trimmed(s, TrimSpace(s))
  {
    var a := TrimLeftDrops(s);
    var b := TrimRightDrops(TrimLeft(s));
    assert s == a + TrimSpace(s) + b;
    if TrimSpace(s) != [] { assert TrimSpace(s)[0] == TrimLeft(s)[0]; }
  }

  datatype Split = Split(stat: string, op: string, limit: real)

  /** Some operator begins at i. */
  predicate OperatorAt(expr: string, i: nat) {
    exists k :: 0 <= k < |OPERATORS| && OccursAt(expr, OPERATORS[k], i)
  }

  /** op is the operator that begins at i: the two-character one where there is one. */
  predicate IsOperatorAt(expr: string, op: string, i: nat) {
    && op in OPERATORS && OccursAt(expr, op, i)
    && (|op| == 1 ==> forall k :: 0 <= k < |OPERATORS| && |OPERATORS[k]| == 2 ==> !OccursAt(expr, OPERATORS[k], i))
  }

  /** The cut: at the leftmost operator, with that operator. */
  predicate IsCut(expr: string, op: string, i: nat) {
    IsOperatorAt(expr, op, i) && forall j :: 0 <= j < i ==> !OperatorAt(expr, j)
  }

  /** splitThresholdExpr; parseFloat is strconv.ParseFloat. */
  method SplitThresholdExpr(expr: string, parseFloat: string -> Option<real>) returns (r: Option<Split>)
    ensures r == SplitOf(expr, parseFloat)
  {
    var idx, found := -1, "";
    for k := 0 to |OPERATORS|
      invariant Scanned(expr, idx, found, k)
    {
      var i := Index(expr, OPERATORS[k]);
      ScanStep(expr, idx, found, k);
      if i.Some? && (idx == -1 || i.value < idx) {
        idx, found := i.value, OPERATORS[k];
      }
    }
    ScanDecides(expr, idx, found, parseFloat);
    if idx == -1 { return None; }
    var stat := TrimSpace(expr[..idx]);
    var limit := parseFloat(TrimSpace(expr[idx + |found|..]));
    if limit.None? { return None; }
    return Some(Split(stat, found, limit.value));
  }

  function CutAt(expr: string, op: string, i: nat, parseFloat: string -> Option<real>): Option<Split>
    requires i + |op| <= |expr|
  {
    var limit := parseFloat(TrimSpace(expr[i + |op|..]));
    if limit.None? then None else Some(Split(TrimSpace(expr[..i]), op, limit.value))
  }

  /** What the split means: the cut's two sides, trimmed, if there is a cut and the limit parses. */
  ghost function SplitOf(expr: string, parseFloat: string -> Option<real>): Option<Split> {
    if i: nat, op: string :| IsCut(expr, op, i) then CutAt(expr, op, i, parseFloat) else None
  }

  lemma SplitAtCut(expr: string, op: string, i: nat, parseFloat: string -> Option<real>)
    requires IsCut(expr, op, i)
    ensures SplitOf(expr, parseFloat) == CutAt(expr, op, i, parseFloat)
  {
    var j: nat, op' :| IsCut(expr, op', j) && SplitOf(expr, parseFloat) == CutAt(expr, op', j, parseFloat);
    CutIsUnique(expr, op, i, op', j);
  }

  /** Among the first k operators, the m-th is the first to occur as far left as idx. */
  predicate Best(expr: string, idx: nat, m: nat, k: nat) {
    && m < k <= |OPERATORS| && OccursAt(expr, OPERATORS[m], idx)
    && (forall n, j :: 0 <= n < k && 0 <= j < idx ==> !OccursAt(expr, OPERATORS[n], j))
    && (forall n :: 0 <= n < m ==> !OccursAt(expr, OPERATORS[n], idx))
  }

  /** What the first k operators leave in the scan's two variables. */
  ghost predicate Scanned(expr: string, idx: int, found: string, k: nat) {
    && k <= |OPERATORS| && -1 <= idx <= |expr|
    && (idx == -1 ==> forall m, j :: 0 <= m < k && 0 <= j <= |expr| ==> !OccursAt(expr, OPERATORS[m], j))
    && (idx >= 0 ==> exists m :: 0 <= m < |OPERATORS| && Best(expr, idx, m, k) && found == OPERATORS[m])
  }

  lemma ScanStep(expr: string, idx: int, found: string, k: nat)
    requires k < |OPERATORS| && Scanned(expr, idx, found, k)
    ensures var i := Index(expr, OPERATORS[k]);
      if i.Some? && (idx == -1 || i.value < idx) then Scanned(expr, i.value, OPERATORS[k], k + 1)
      else Scanned(expr, idx, found, k + 1)
  {
    var i := Index(expr, OPERATORS[k]);
    if i.Some? && (idx == -1 || i.value < idx) {
      assert Best(expr, i.value, k, k + 1);
    } else if idx >= 0 {
      var m :| 0 <= m < |OPERATORS| && Best(expr, idx, m, k) && found == OPERATORS[m];
      assert Best(expr, idx, m, k + 1);
    }
  }

  lemma NoCut(expr: string, found: string)
    requires Scanned(expr, -1, found, |OPERATORS|)
    ensures forall i: nat, op :: !IsCut(expr, op, i)
  {
  }

  /** A scan of all six decides the split. */
  lemma ScanDecides(expr: string, idx: int, found: string, parseFloat: string -> Option<real>)
    requires Scanned(expr, idx, found, |OPERATORS|)
    ensures idx == -1 ==> SplitOf(expr, parseFloat) == None
    ensures idx >= 0 ==> idx + |found| <= |expr| && SplitOf(expr, parseFloat) == CutAt(expr, found, idx, parseFloat)
  {
    if idx == -1 {
      NoCut(expr, found);
    } else {
      BestIsCut(expr, found, idx);
      SplitAtCut(expr, found, idx, parseFloat);
    }
  }

  lemma BestIsCut(expr: string, found: string, idx: nat)
    requires exists m :: 0 <= m < |OPERATORS| && Best(expr, idx, m, |OPERATORS|) && found == OPERATORS[m]
    ensures IsCut(expr, found, idx)
  {
    var m :| 0 <= m < |OPERATORS| && Best(expr, idx, m, |OPERATORS|) && found == OPERATORS[m];
    if |found| == 1 {
      assert m >= 4;
      forall k | 0 <= k < |OPERATORS| && |OPERATORS[k]| == 2 ensures !OccursAt(expr, OPERATORS[k], idx) {
        assert k < 4;
      }
    }
  }

  lemma CutIsUnique(expr: string, op: string, i: nat, op': string, i': nat)
    requires IsCut(expr, op, i) && IsCut(expr, op', i')
    ensures i == i' && op == op'
  {
    var k :| 0 <= k < |OPERATORS| && OPERATORS[k] == op;
    var k' :| 0 <= k' < |OPERATORS| && OPERATORS[k'] == op';
    assert OperatorAt(expr, i) && OperatorAt(expr, i');
    assert i == i';
    assert |op| == |op'|;
  }

  predicate NoOperatorChars(s: string) {
    forall i :: 0 <= i < |s| ==> s[i] !in "<>=!"
  }

  lemma PrintedCut(stat: string, op: string, limit: string)
    requires op in OPERATORS && NoOperatorChars(stat) && NoOperatorChars(limit)
    ensures IsCut(stat + op + limit, op, |stat|)
  {
    var expr := stat + op + limit;
    assert expr[|stat|..|stat| + |op|] == op;
    forall j, k | 0 <= j < |stat| && 0 <= k < |OPERATORS| ensures !OccursAt(expr, OPERATORS[k], j) {
      assert expr[j] == stat[j];
      CharDiffers(expr, OPERATORS[k], j, 0);
    }
    if |op| == 1 {
      forall k | 0 <= k < |OPERATORS| && |OPERATORS[k]| == 2 ensures !OccursAt(expr, OPERATORS[k], |stat|) {
        assert limit != [] ==> expr[|stat| + 1] == limit[0];
        CharDiffers(expr, OPERATORS[k], |stat|, 1);
      }
    }
  }

  lemma CharDiffers(s: string, sub: string, i: nat, n: nat)
    requires n < |sub| && (i + n >= |s| || s[i + n] != sub[n])
    ensures !OccursAt(s, sub, i)
  {
    assert i + |sub| <= |s| ==> s[i..i + |sub|][n] == s[i + n];
  }

  /** Splitting a printed threshold gives back what was printed, but for the space
      around its parts: for a statistic and a limit that parses, free of operator
      characters, with any of the six operators. */
  lemma SplitsWhatWasPrinted(stat: string, op: string, limit: string, value: real, parseFloat: string -> Option<real>)
    requires op in ["<=", ">=", "==", "!=", "<", ">"] && NoOperatorChars(stat) && NoOperatorChars(limit)
    requires parseFloat(TrimSpace(limit)) == Some(value)
    ensures SplitOf(stat + op + limit, parseFloat) == Some(Split(TrimSpace(stat), op, value))
    ensures Trimmed(stat, TrimSpace(stat)) && Trimmed(limit, TrimSpace(limit))
  {
    PrintedCut(stat, op, limit);
    SplitAtCut(stat + op + limit, op, |stat|, parseFloat);
    assert (stat + op + limit)[..|stat|] == stat;
    assert (stat + op + limit)[|stat| + |op|..] == limit;
    TrimSpaceTrims(stat);
    TrimSpaceTrims(limit);
  }

  // ------------------------------------------------------------ evaluation

  /** Decoded JSON, as far as a metric object is read. */
  datatype Json = Number(value: real) | Bool(b: bool) | Object(fields: map<string, Json>) | OtherJson

  /** The statistic named key, on the object or in its "values". */
  function RawStat(m: map<string, Json>, key: string): Option<Json> {
    if key in m then Some(m[key])
    else if "values" in m && m["values"].Object? && key in m["values"].fields then Some(m["values"].fields[key])
    else None
  }

  function LookupMetricStat(m: map<string, Json>, key: string): Option<real> {
    var raw := RawStat(m, key);
    var used := if raw.None? && key == "rate" then RawStat(m, "value") else raw;
    if used.Some? && used.value.Number? then Some(used.value.value) else None
  }

  /** The statistic is nested under "values". */
  predicate Nested(m: map<string, Json>, key: string) {
    "values" in m && m["values"].Object? && key in m["values"].fields
  }

  predicate Reads(r: Option<real>, j: Json) {
    r == if j.Number? then Some(j.value) else None
  }

  /** Where a statistic is read: on the object, else under "values", else, for a rate
      that is in neither, as the value; and only if what is found there is a number. */
  lemma LookupReads(m: map<string, Json>, key: string)
    ensures key in m ==> Reads(LookupMetricStat(m, key), m[key])
    ensures key !in m && Nested(m, key) ==> Reads(LookupMetricStat(m, key), m["values"].fields[key])
    ensures key !in m && !Nested(m, key) && key != "rate" ==> LookupMetricStat(m, key) == None
    ensures "rate" !in m && !Nested(m, "rate") ==> LookupMetricStat(m, "rate") == LookupMetricStat(m, "value")
  {
  }

  function Compare(value: real, op: string, limit: real): bool {
    if op == "<" then value < limit
    else if op == "<=" then value <= limit
    else if op == ">" then value > limit
    else if op == ">=" then value >= limit
    else if op == "==" then value == limit
    else if op == "!=" then value != limit
    else false
  }

  /** Below, at or above the limit, these operators hold and no others. */
  lemma ComparisonTable(value: real, op: string, limit: real)
    ensures Compare(value, op, limit) <==>
      op in if value < limit then {"<", "<=", "!="} else if value == limit then {"<=", ">=", "=="} else {">", ">=", "!="}
  {
  }

  method EvaluateThreshold(m: map<string, Json>, expr: string, parseFloat: string -> Option<real>) returns (ok: bool)
    ensures ok <==> Holds(m, expr, parseFloat)
  {
    var split := SplitThresholdExpr(expr, parseFloat);
    if split.None? { return false; }
    var value := LookupMetricStat(m, split.value.stat);
    if value.None? { return false; }
    return Compare(value.value, split.value.op, split.value.limit);
  }

  /** The expression can be read, its statistic was measured, and the comparison is true. */
  ghost predicate Holds(m: map<string, Json>, expr: string, parseFloat: string -> Option<real>) {
    var split := SplitOf(expr, parseFloat);
    split.Some? && LookupMetricStat(m, split.value.stat).Some?
      && Compare(LookupMetricStat(m, split.value.stat).value, split.value.op, split.value.limit)
  }

  /** A printed threshold on a measured statistic holds just when the value is on the
      right side of the limit. */
  lemma PrintedThresholdHolds(m: map<string, Json>, stat: string, op: string, limit: string, bound: real, value: real, parseFloat: string -> Option<real>)
    requires op in ["<=", ">=", "==", "!=", "<", ">"] && NoOperatorChars(stat) && NoOperatorChars(limit)
    requires parseFloat(TrimSpace(limit)) == Some(bound) && LookupMetricStat(m, TrimSpace(stat)) == Some(value)
    ensures Holds(m, stat + op + limit, parseFloat) <==>
      op in if value < bound then {"<", "<=", "!="} else if value == bound then {"<=", ">=", "=="} else {">", ">=", "!="}
  {
    SplitsWhatWasPrinted(stat, op, limit, bound, parseFloat);
    ComparisonTable(value, op, bound);
  }

  function Result(ok: bool): Json { Object(map["ok" := Bool(ok)]) }

  /** Rewriting a metric's thresholds under its feet changes no evaluation: the
      statistics are read from beside them. */
  lemma ThresholdsAreNotStatistics(m: map<string, Json>, t: Json, expr: string, parseFloat: string -> Option<real>)
    requires "thresholds" in m && m["thresholds"].Object? && t.Object?
    ensures Holds(m["thresholds" := t], expr, parseFloat) == Holds(m, expr, parseFloat)
  {
    var split := SplitOf(expr, parseFloat);
    if split.Some? {
      var m' := m["thresholds" := t];
      assert forall key :: RawStat(m', key) == if key == "thresholds" then Some(t) else RawStat(m, key);
      assert LookupMetricStat(m', split.value.stat) == LookupMetricStat(m, split.value.stat);
    }
  }

  /** Every threshold of the metric is its own verdict on what was measured, whatever
      k6 had written there, and nothing else has changed. */
  ghost predicate Recomputed(m: map<string, Json>, r: map<string, Json>, parseFloat: string -> Option<real>) {
    if !("thresholds" in m && m["thresholds"].Object?) then r == m
    else
      && r.Keys == m.Keys && r["thresholds"].Object?
      && r["thresholds"].fields.Keys == m["thresholds"].fields.Keys
      && (forall key :: key in m && key != "thresholds" ==> r[key] == m[key])
      && (forall expr :: expr in m["thresholds"].fields ==>
            r["thresholds"].fields[expr] == Object(map["ok" := Bool(Holds(m, expr, parseFloat))]))
  }

  /** The inner loop of recomputeThresholds, for one metric: visits the expressions in any order,
      rewriting in place, and leaves each as its own verdict on the measured
      values, whatever k6 had written there. */
  method RecomputeMetric(m: map<string, Json>, parseFloat: string -> Option<real>) returns (r: map<string, Json>)
    ensures Recomputed(m, r, parseFloat)
  {
    r := m;
    if !("thresholds" in m && m["thresholds"].Object?) { return; }
    var exprs := m["thresholds"].fields.Keys;
    var left := exprs;
    while left != {}
      invariant left <= exprs
      invariant "thresholds" in r && r["thresholds"].Object? && r == m["thresholds" := r["thresholds"]]
      invariant r["thresholds"].fields.Keys == exprs
      invariant forall expr :: expr in exprs && expr !in left ==>
        r["thresholds"].fields[expr] == Result(Holds(m, expr, parseFloat))
      decreases |left|
    {
      var expr :| expr in left;
      var ok := EvaluateThreshold(r, expr, parseFloat);
      ThresholdsAreNotStatistics(m, r["thresholds"], expr, parseFloat);
      var fields := r["thresholds"].fields[expr := Result(ok)];
      r := r["thresholds" := Object(fields)];
      left := left - {expr};
    }
  }

  /** The decoded metrics of a summary. */
  class Summary {
    var metrics: map<string, Json>

    constructor (metrics: map<string, Json>)
      ensures this.metrics == metrics
    {
      this.metrics := metrics;
    }

    /** recomputeThresholds: every metric that is an object, in any order. */
    method RecomputeThresholds(parseFloat: string -> Option<real>)
      modifies this
      ensures metrics.Keys == old(metrics).Keys
      ensures forall name :: name in metrics ==>
        if old(metrics)[name].Object?
        then metrics[name].Object? && Recomputed(old(metrics)[name].fields, metrics[name].fields, parseFloat)
        else metrics[name] == old(metrics)[name]
    {
      ghost var before := metrics;
      var left := metrics.Keys;
      while left != {}
        invariant left <= metrics.Keys == before.Keys
        invariant forall name :: name in left ==> metrics[name] == before[name]
        invariant forall name :: name in metrics && name !in left ==>
          if before[name].Object?
          then metrics[name].Object? && Recomputed(before[name].fields, metrics[name].fields, parseFloat)
          else metrics[name] == before[name]
        decreases |left|
      {
        var name :| name in left;
        if metrics[name].Object? {
          var m := RecomputeMetric(metrics[name].fields, parseFloat);
          metrics := metrics[name := Object(m)];
        }
        left := left - {name};
      }
    }
  }
}
