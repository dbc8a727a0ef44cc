/** From a fault in torture.yaml to the layer that applies it: the parser's fault
    loop (internal/config/config.go) and the Translate functions of the owning
    layers (internal/fault, internal/queuefault, internal/applier, internal/egress),
    each of which checks again. */
module Routing {
  import opened Sequences

  /** A decoded YAML value. Text carries what its number-and-unit grammar reads
      from it: a number and a lower-cased suffix, or nothing. NaN is the float
      .nan, which compares false with everything. */
  datatype Value = Int(i: int) | Float(x: real) | NaN | Text(number: Option<real>, suffix: string) | OtherValue

  type Inject = map<string, Value>

  datatype RawFault = RawFault(anchorOk: bool, target: string, targetKnown: bool, inject: Inject)

  datatype Fault = Fault(target: string, verb: string, inject: Inject)

  const INT_LIMIT: int := 0x8000_0000_0000_0000

  /** Go's int(f) for a float64 on amd64: truncation, or the least int64 if it does not fit. */
  function IntOf(x: real): int {
    var n := if x >= 0.0 then x.Floor else -((-x).Floor);
    if -INT_LIMIT <= n < INT_LIMIT then n else -INT_LIMIT
  }

  /** math.Round: to nearest, halves away from zero. */
  function Round(x: real): int {
    if x >= 0.0 then (x + 0.5).Floor else -((-x + 0.5).Floor)
  }

  // --------------------------------------------------------- config.Parse

  const CONFIG_VERBS: map<string, set<string>> := map[
    "latency" := {"jitter"}, "down" := {}, "bandwidth" := {}, "slicer" := {"delay"}, "error_rate" := {"status"},
    "cpu" := {"workers"}, "mem" := {"workers"}, "io" := {"workers"}, "fd" := {"workers"},
    "cpu_limit" := {}, "mem_limit" := {}, "pause" := {}, "kill" := {}, "graceful" := {},
    "poison_pill" := {"count"}, "duplicate" := {}]

  /** checkFraction. */
  predicate FractionOk(v: Value) {
    match v
    case Int(i) => 0 <= i <= 1
    case Float(x) => 0.0 <= x <= 1.0
    case NaN => true
    case _ => false
  }

  /** checkPositiveInt. */
  predicate PositiveIntOk(v: Value) {
    match v
    case Int(i) => i >= 1
    case Float(x) => x == IntOf(x) as real && IntOf(x) >= 1
    case _ => false
  }

  predicate RangesOk(inject: Inject) {
    && ("duplicate" in inject ==> FractionOk(inject["duplicate"]))
    && ("error_rate" in inject ==> FractionOk(inject["error_rate"]))
    && ("count" in inject ==> PositiveIntOk(inject["count"]))
    && ("workers" in inject ==> PositiveIntOk(inject["workers"]))
  }

  /** Exactly one verb, and only modifiers it owns, by a table of verbs. */
  predicate OneVerbIn(table: map<string, set<string>>, inject: Inject, verb: string) {
    && verb in inject && verb in table
    && (forall k :: k in inject && k != verb ==> k !in table && k in table[verb])
  }

  predicate OneVerb(inject: Inject, verb: string) { OneVerbIn(CONFIG_VERBS, inject, verb) }

  /** What makes a fault of torture.yaml legal. */
  ghost predicate Legal(rf: RawFault) {
    && rf.anchorOk && rf.target != "" && rf.targetKnown && RangesOk(rf.inject)
    && exists verb :: OneVerb(rf.inject, verb)
  }

  /** verb is the only verb among the keys visited so far. */
  predicate OnlyVerbSeen(table: map<string, set<string>>, inject: Inject, left: set<string>, verb: string) {
    && verb in inject && verb !in left && verb in table
    && (forall k :: k in inject && k !in left && k != verb ==> k !in table)
  }

  /** The parser's two loops over inject:. They visit its keys in no fixed order;
      what is accepted, and as which verb, does not depend on it. */
  method FindVerb(table: map<string, set<string>>, inject: Inject) returns (r: Option<string>)
    requires "" !in table
    ensures r.Some? ==> OneVerbIn(table, inject, r.value)
    ensures r.None? ==> forall verb :: !OneVerbIn(table, inject, verb)
  {
    var verb := "";
    var left := inject.Keys;
    while left != {}
      invariant left <= inject.Keys
      invariant verb == "" ==> forall k :: k in inject && k !in left ==> k !in table
      invariant verb != "" ==> OnlyVerbSeen(table, inject, left, verb)
      decreases |left|
    {
      var k :| k in left;
      if k in table {
        if verb != "" { return None; }
        verb := k;
      }
      left := left - {k};
    }
    if verb == "" { return None; }
    left := inject.Keys;
    while left != {}
      invariant left <= inject.Keys
      invariant forall k :: k in inject && k !in left && k != verb ==> k in table[verb]
      decreases |left|
    {
      var k :| k in left;
      if k != verb && k !in table[verb] { return None; }
      left := left - {k};
    }
    return Some(verb);
  }

  /** The parser's range checks. */
  method CheckRanges(inject: Inject) returns (ok: bool)
    ensures ok <==> RangesOk(inject)
  {
    if "duplicate" in inject && !FractionOk(inject["duplicate"]) { return false; }
    if "error_rate" in inject && !FractionOk(inject["error_rate"]) { return false; }
    if "count" in inject && !PositiveIntOk(inject["count"]) { return false; }
    if "workers" in inject && !PositiveIntOk(inject["workers"]) { return false; }
    return true;
  }

  /** The parser's body for one fault: exactly the legal ones are accepted, under
      their one verb. */
  method ParseFault(rf: RawFault) returns (r: Option<Fault>)
    ensures r.Some? <==> Legal(rf)
    ensures r.Some? ==> r.value.target == rf.target && r.value.inject == rf.inject && OneVerb(rf.inject, r.value.verb)
  {
    if rf.target == "" || rf.inject == map[] { return None; }
    if !rf.anchorOk { return None; }
    if !rf.targetKnown { return None; }
    var verb := FindVerb(CONFIG_VERBS, rf.inject);
    if verb.None? { return None; }
    assert OneVerb(rf.inject, verb.value);
    var ok := CheckRanges(rf.inject);
    if !ok { return None; }
    return Some(Fault(rf.target, verb.value, rf.inject));
  }

  /** The faults Parse lets through. */
  predicate Accepted(f: Fault) {
    f.target != "" && OneVerb(f.inject, f.verb) && RangesOk(f.inject)
  }

  lemma VerbIsUnique(inject: Inject, a: string, b: string)
    requires OneVerb(inject, a) && OneVerb(inject, b)
    ensures a == b
  {
  }

  /** The declared range, numbers from 0 to 1, is what is let through but for one
      value: .nan passes, here and in both owning layers' own checks. */
  lemma FractionCheckMissesOnlyNaN(v: Value)
    ensures FractionOk(v) <==> v.NaN? || (v.Int? && 0 <= v.i <= 1) || (v.Float? && 0.0 <= v.x <= 1.0)
    ensures FractionOk(v) <==> ValidateErrorRate(map["error_rate" := v])
    ensures FractionOk(v) <==> TranslateQueue(Fault("t", "duplicate", map["duplicate" := v])).Some?
  {
  }

  // -------------------------------------------------------- fault.Translate

  /** This layer's own copy of the parser's table, with two verbs more. */
  const FAULT_VERBS: map<string, set<string>> := map[
    "latency" := {"jitter"}, "down" := {}, "bandwidth" := {}, "slicer" := {"delay"}, "error_rate" := {"status"},
    "cpu" := {"workers"}, "mem" := {"workers"}, "io" := {"workers"}, "fd" := {"workers"},
    "cpu_limit" := {}, "mem_limit" := {}, "pause" := {}, "kill" := {}, "graceful" := {},
    "poison_pill" := {"count"}, "duplicate" := {}, "timeout" := {}, "reset_peer" := {}]

  const NETWORK_VERBS: set<string> := {"latency", "down", "bandwidth", "slicer", "timeout", "reset_peer"}
  const SERVICE_VERBS: set<string> := {"cpu", "mem", "io", "fd", "cpu_limit", "mem_limit", "pause", "kill", "graceful"}

  const OTHER_OWNER: map<string, string> := map[
    "error_rate" := "internal/egress", "poison_pill" := "internal/queuefault", "duplicate" := "internal/queuefault"]

  /** A parsed number, or a declared value handed on as it is. */
  datatype Attribute = Number(n: int) | Declared(v: Value)

  datatype Action =
    | Toxic(kind: string, disable: bool, attributes: map<string, Attribute>)
    | Docker(kind: string, container: string, resource: string, args: map<string, Attribute>, signal: string)
    | Passed(owner: string)

  datatype Error = UnknownVerb | BadModifier | BadWorkers | NoTarget | BadValue(field: string)

  datatype Translated = Ok(action: Action) | Err(error: Error)

  /** asInt of internal/fault. */
  function AsInt(v: Value): Option<int> {
    match v
    case Int(i) => Some(i)
    case Float(x) => if x == x.Floor as real then Some(IntOf(x)) else None
    case _ => None
  }

  function ParseMillis(v: Value): Option<int> {
    if AsInt(v).Some? then AsInt(v)
    else match v
      case Float(x) => Some(Round(x))
      case NaN => Some(-INT_LIMIT)
      case Text(Some(n), suffix) =>
        if suffix == "" || suffix == "ms" then Some(Round(n)) else if suffix == "s" then Some(Round(n * 1000.0)) else None
      case _ => None
  }

  function ParseRateKBps(v: Value): Option<int> {
    if AsInt(v).Some? then AsInt(v)
    else match v
      case Float(x) => Some(Round(x))
      case NaN => Some(-INT_LIMIT)
      case Text(Some(n), suffix) =>
        if suffix == "mbps" then Some(Round(n * 1_000_000.0 / 8.0 / 1000.0))
        else if suffix == "kbps" then Some(Round(n * 1_000.0 / 8.0 / 1000.0)) else None
      case _ => None
  }

  function ParsePercent(v: Value): Option<int> {
    match v
    case Int(i) => if 0 <= i <= 100 then Some(i) else None
    case Float(x) => if 0.0 <= x <= 100.0 then Some(Round(x)) else None
    case NaN => Some(-INT_LIMIT)
    case Text(Some(n), suffix) =>
      if (suffix == "" || suffix == "%") && 0.0 <= n <= 100.0 then Some(Round(n)) else None
    case _ => None
  }

  predicate WorkersOk(v: Value) {
    AsInt(v).Some? && AsInt(v).value >= 1
  }

  /** The value declared under key, handed on under another name; nil if there is none. */
  function HandOn(f: Fault, key: string, name: string): map<string, Attribute> {
    map[name := Declared(if key in f.inject then f.inject[key] else OtherValue)]
  }

  /** The same of a modifier, which may be left out. */
  function IfDeclared(f: Fault, key: string): map<string, Attribute> {
    if key in f.inject then map[key := Declared(f.inject[key])] else map[]
  }

  function TranslateToxic(f: Fault): Translated {
    if f.verb == "latency" then
      var latency := ParseMillis(if "latency" in f.inject then f.inject["latency"] else OtherValue);
      if latency.None? then Err(BadValue("latency"))
      else if "jitter" !in f.inject then Ok(Toxic("latency", false, map["latency" := Number(latency.value)]))
      else
        var jitter := ParseMillis(f.inject["jitter"]);
        if jitter.None? then Err(BadValue("jitter"))
        else Ok(Toxic("latency", false, map["latency" := Number(latency.value), "jitter" := Number(jitter.value)]))
    else if f.verb == "down" then Ok(Toxic("", true, map[]))
    else if f.verb == "bandwidth" then
      var rate := ParseRateKBps(if "bandwidth" in f.inject then f.inject["bandwidth"] else OtherValue);
      if rate.None? then Err(BadValue("bandwidth")) else Ok(Toxic("bandwidth", false, map["rate" := Number(rate.value)]))
    else if f.verb == "slicer" then Ok(Toxic("slicer", false, HandOn(f, "slicer", "average_size") + IfDeclared(f, "delay")))
    else Ok(Toxic(f.verb, false, HandOn(f, f.verb, "timeout")))
  }

  function TranslateDocker(f: Fault): Translated {
    if f.verb == "cpu" then
      var percent := ParsePercent(if "cpu" in f.inject then f.inject["cpu"] else OtherValue);
      if percent.None? then Err(BadValue("cpu"))
      else Ok(Docker("stress", f.target, "cpu", map["cpu_percent" := Number(percent.value)] + IfDeclared(f, "workers"), ""))
    else if f.verb in {"mem", "io", "fd"} then
      Ok(Docker("stress", f.target, f.verb, HandOn(f, f.verb, "amount") + IfDeclared(f, "workers"), ""))
    else if f.verb == "pause" then Ok(Docker("pause", f.target, "", map[], "SIGSTOP"))
    else if f.verb == "kill" then Ok(Docker("kill", f.target, "", map[], "SIGKILL"))
    else if f.verb == "graceful" then Ok(Docker("graceful", f.target, "", map[], "SIGTERM"))
    else Ok(Docker(f.verb, f.target, "", HandOn(f, f.verb, "limit"), ""))
  }

  function Translate(f: Fault): Translated {
    if f.verb !in FAULT_VERBS then Err(UnknownVerb)
    else if exists k :: k in f.inject && k != f.verb && k !in FAULT_VERBS[f.verb] then Err(BadModifier)
    else if f.verb in OTHER_OWNER then Ok(Passed(OTHER_OWNER[f.verb]))
    else if "workers" in f.inject && !WorkersOk(f.inject["workers"]) then Err(BadWorkers)
    else if f.target == "" then Err(NoTarget)
    else if f.verb in NETWORK_VERBS then TranslateToxic(f)
    else TranslateDocker(f)
  }

  // ------------------------------------------------------ the owning layers

  /** egress.ValidateErrorRate. */
  predicate ValidateErrorRate(inject: Inject) {
    "error_rate" in inject ==>
      match inject["error_rate"]
      case Int(i) => 0 <= i <= 1
      case Float(x) => 0.0 <= x <= 1.0
      case NaN => true
      case _ => false
  }

  predicate Numeric(v: Value) { v.Int? || v.Float? || v.NaN? }

  /** applier.TranslateErrorRate: the rate and the status to fail with. */
  function TranslateErrorRate(f: Fault): Option<(Value, int)> {
    if f.verb != "error_rate" || f.target == "" || !ValidateErrorRate(f.inject) then None
    else
      var rate := if "error_rate" in f.inject then f.inject["error_rate"] else Int(0);
      if "status" !in f.inject then Some((rate, 500))
      else match f.inject["status"]
        case Int(i) => Some((rate, i))
        case Float(x) => Some((rate, IntOf(x)))
        case NaN => Some((rate, -INT_LIMIT))
        case _ => None
  }

  datatype QueueAction = PoisonPill(topic: string, count: int) | Duplicate(topic: string, rate: Value)

  const QUEUE_VERBS: map<string, set<string>> := map["poison_pill" := {"count"}, "duplicate" := {}]

  /** queuefault.Translate. */
  function TranslateQueue(f: Fault): Option<QueueAction> {
    if f.verb !in QUEUE_VERBS then None
    else if exists k :: k in f.inject && k != f.verb && k !in QUEUE_VERBS[f.verb] then None
    else if f.target == "" then None
    else if f.verb == "poison_pill" then
      var count :=
        if "count" !in f.inject then Some(1)
        else match f.inject["count"]
          case Int(i) => Some(i)
          case Float(x) => Some(IntOf(x))
          case NaN => Some(-INT_LIMIT)
          case _ => None;
      if count.None? || count.value < 1 then None else Some(PoisonPill(f.target, count.value))
    else if "duplicate" !in f.inject then None
    else match f.inject["duplicate"]
      case Int(i) => if 0 <= i <= 1 then Some(Duplicate(f.target, Int(i))) else None
      case Float(x) => if 0.0 <= x <= 1.0 then Some(Duplicate(f.target, Float(x))) else None
      case NaN => Some(Duplicate(f.target, NaN))
      case _ => None
  }

  // ----------------------------------------------------------- the theorems

  /** The only values fault.Translate may refuse in an accepted fault. */
  predicate HasBadValue(f: Fault, field: string) {
    && field in f.inject
    && (match field
        case "latency" => f.verb == "latency" && ParseMillis(f.inject["latency"]).None?
        case "jitter" => f.verb == "latency" && ParseMillis(f.inject["jitter"]).None?
        case "bandwidth" => f.verb == "bandwidth" && ParseRateKBps(f.inject["bandwidth"]).None?
        case "cpu" => f.verb == "cpu" && ParsePercent(f.inject["cpu"]).None?
        case _ => false)
  }

  lemma AcceptedIsKnown(f: Fault)
    requires Accepted(f)
    ensures f.verb in FAULT_VERBS && FAULT_VERBS[f.verb] == CONFIG_VERBS[f.verb]
    ensures f.verb in NETWORK_VERBS + SERVICE_VERBS || f.verb in OTHER_OWNER
    ensures !exists k :: k in f.inject && k != f.verb && k !in FAULT_VERBS[f.verb]
    ensures "workers" in f.inject ==> WorkersOk(f.inject["workers"])
  {
    if "workers" in f.inject && f.inject["workers"].Float? {
      var x := f.inject["workers"].x;
      assert x == IntOf(x) as real;
    }
  }

  /** For an accepted fault the re-checks at the head of Translate all pass. */
  lemma AcceptedIsRouted(f: Fault)
    requires Accepted(f)
    ensures f.verb in OTHER_OWNER ==> Translate(f) == Ok(Passed(OTHER_OWNER[f.verb]))
    ensures f.verb in NETWORK_VERBS ==> Translate(f) == TranslateToxic(f)
    ensures f.verb in SERVICE_VERBS ==> Translate(f) == TranslateDocker(f)
  {
    AcceptedIsKnown(f);
  }

  lemma ToxicRefusals(f: Fault)
    requires f.verb in NETWORK_VERBS && f.verb in f.inject && ("jitter" in f.inject ==> f.verb == "latency")
    ensures TranslateToxic(f).Ok? ==> TranslateToxic(f).action.Toxic?
    ensures TranslateToxic(f).Err? ==> TranslateToxic(f).error.BadValue? && HasBadValue(f, TranslateToxic(f).error.field)
    ensures TranslateToxic(f).Ok? ==> forall field :: !HasBadValue(f, field)
  {
  }

  lemma DockerRefusals(f: Fault)
    requires f.verb in SERVICE_VERBS && f.verb in f.inject
    ensures TranslateDocker(f).Ok? ==> TranslateDocker(f).action.Docker? && TranslateDocker(f).action.container == f.target
    ensures TranslateDocker(f).Err? ==> TranslateDocker(f).error.BadValue? && HasBadValue(f, TranslateDocker(f).error.field)
    ensures TranslateDocker(f).Ok? ==> forall field :: !HasBadValue(f, field)
  {
  }

  /** What Translate owes an accepted fault: it is refused exactly for a value its
      grammar does not read, and otherwise becomes an action of its verb's kind. */
  ghost predicate Translates(f: Fault) {
    && (Translate(f).Ok? <==> forall field :: !HasBadValue(f, field))
    && (Translate(f).Err? ==> Translate(f).error.BadValue? && HasBadValue(f, Translate(f).error.field))
    && (Translate(f).Ok? ==> (Translate(f).action.Toxic? <==> f.verb in NETWORK_VERBS))
    && (Translate(f).Ok? ==> (Translate(f).action.Docker? <==> f.verb in SERVICE_VERBS))
  }

  lemma NetworkFaultTranslates(f: Fault)
    requires f.verb in NETWORK_VERBS && f.verb in f.inject && ("jitter" in f.inject ==> f.verb == "latency")
    requires Translate(f) == TranslateToxic(f)
    ensures Translates(f)
  {
    ToxicRefusals(f);
    assert f.verb !in SERVICE_VERBS;
  }

  lemma ServiceFaultTranslates(f: Fault)
    requires f.verb in SERVICE_VERBS && f.verb in f.inject && Translate(f) == TranslateDocker(f)
    ensures Translates(f)
  {
    DockerRefusals(f);
    assert f.verb !in NETWORK_VERBS;
  }

  lemma PassedFaultTranslates(f: Fault)
    requires f.verb in OTHER_OWNER && Translate(f).Ok? && Translate(f).action.Passed?
    ensures Translates(f)
  {
    assert f.verb !in NETWORK_VERBS && f.verb !in SERVICE_VERBS;
    assert f.verb !in {"latency", "bandwidth", "cpu"};
  }

  /** A fault the parser accepts is translated by the layer that owns its verb, or
      refused for exactly one kind of reason: a latency, jitter, bandwidth or cpu
      value that the respective grammar does not read. */
  lemma AcceptedFaultsAreTranslated(f: Fault)
    requires Accepted(f)
    ensures Translates(f)
    ensures f.verb in OTHER_OWNER ==> Translate(f) == Ok(Passed(OTHER_OWNER[f.verb]))
  {
    AcceptedIsKnown(f);
    AcceptedIsRouted(f);
    if f.verb in NETWORK_VERBS {
      OnlyLatencyHasJitter(f);
      NetworkFaultTranslates(f);
    } else if f.verb in SERVICE_VERBS {
      ServiceFaultTranslates(f);
    } else {
      PassedFaultTranslates(f);
    }
  }

  lemma OnlyLatencyHasJitter(f: Fault)
    requires Accepted(f)
    ensures "jitter" in f.inject ==> f.verb == "latency"
  {
  }

  lemma QueueAcceptsWhatIsPassed(f: Fault)
    requires f.target != "" && RangesOk(f.inject)
    requires f.verb in QUEUE_VERBS && OneVerbIn(QUEUE_VERBS, f.inject, f.verb)
    ensures TranslateQueue(f).Some?
  {
    if f.verb == "poison_pill" && "count" in f.inject && f.inject["count"].Float? {
      assert IntOf(f.inject["count"].x) >= 1;
    }
  }

  /** What is passed over is never refused by its owner: the queue layer takes every
      accepted poison_pill and duplicate, and the mock provider every accepted
      error_rate exactly when its status is absent or a number. */
  lemma OwnersAcceptWhatIsPassed(f: Fault)
    requires Accepted(f) && Translate(f).Ok? && Translate(f).action.Passed?
    ensures Translate(f).action.owner == "internal/queuefault" ==> TranslateQueue(f).Some?
    ensures Translate(f).action.owner == "internal/egress" ==>
      (TranslateErrorRate(f).Some? <==> ("status" in f.inject ==> Numeric(f.inject["status"])))
  {
    AcceptedFaultsAreTranslated(f);
    AcceptedIsKnown(f);
    if f.verb in QUEUE_VERBS { QueueAcceptsWhatIsPassed(f); }
  }

  /** The failing case: the parser lets a text status through, and the mock provider
      refuses the fault it is passed. */
  lemma TextStatusIsRefusedByItsOwner()
    ensures var f := Fault("stripe", "error_rate", map["error_rate" := Float(0.5), "status" := Text(None, "teapot")]);
      Accepted(f) && Translate(f) == Ok(Passed("internal/egress")) && TranslateErrorRate(f) == None
  {
    var f := Fault("stripe", "error_rate", map["error_rate" := Float(0.5), "status" := Text(None, "teapot")]);
    assert OneVerb(f.inject, "error_rate");
    AcceptedFaultsAreTranslated(f);
  }

  /** The verb an action of this layer can only have come from. */
  ghost function VerbOf(a: Action): string {
    match a
    case Toxic(kind, disable, _) => if disable then "down" else kind
    case Docker(kind, _, resource, _, _) => if kind == "stress" then resource else kind
    case Passed(_) => ""
  }

  /** No two verbs of this layer end in the same action: stress faults keep their
      resource, and kill, graceful and pause stay three classes down to the signal. */
  lemma ActionsKeepTheirVerb(f: Fault)
    requires Accepted(f) && f.verb !in OTHER_OWNER && Translate(f).Ok?
    ensures VerbOf(Translate(f).action) == f.verb
    ensures Translate(f).action.Docker? ==> (Translate(f).action.signal == "SIGKILL" <==> f.verb == "kill")
    ensures Translate(f).action.Docker? ==> (Translate(f).action.signal == "SIGTERM" <==> f.verb == "graceful")
    ensures Translate(f).action.Docker? ==> (Translate(f).action.signal == "SIGSTOP" <==> f.verb == "pause")
  {
    AcceptedIsKnown(f);
    AcceptedIsRouted(f);
  }

  // -------------------------------------------------------- values arrive

  predicate IsNumber(attributes: map<string, Attribute>, name: string, n: Option<int>) {
    n.Some? && name in attributes && attributes[name] == Number(n.value)
  }

  predicate IsDeclared(attributes: map<string, Attribute>, name: string, v: Value) {
    name in attributes && attributes[name] == Declared(v)
  }

  predicate OptionalArrives(f: Fault, attributes: map<string, Attribute>, key: string) {
    (key in attributes <==> key in f.inject) && (key in f.inject ==> IsDeclared(attributes, key, f.inject[key]))
  }

  /** What a toxic has to carry for the fault's verb. */
  predicate ToxicCarries(f: Fault, attributes: map<string, Attribute>)
    requires f.verb in f.inject
  {
    var v := f.inject[f.verb];
    && (f.verb == "latency" ==>
          && IsNumber(attributes, "latency", ParseMillis(v))
          && ("jitter" in attributes <==> "jitter" in f.inject)
          && ("jitter" in f.inject ==> IsNumber(attributes, "jitter", ParseMillis(f.inject["jitter"]))))
    && (f.verb == "bandwidth" ==> IsNumber(attributes, "rate", ParseRateKBps(v)))
    && (f.verb == "slicer" ==> IsDeclared(attributes, "average_size", v) && OptionalArrives(f, attributes, "delay"))
    && (f.verb in {"timeout", "reset_peer"} ==> IsDeclared(attributes, "timeout", v))
  }

  /** What a docker action has to carry for it. */
  predicate DockerCarries(f: Fault, args: map<string, Attribute>)
    requires f.verb in f.inject
  {
    var v := f.inject[f.verb];
    && (f.verb == "cpu" ==> IsNumber(args, "cpu_percent", ParsePercent(v)) && OptionalArrives(f, args, "workers"))
    && (f.verb in {"mem", "io", "fd"} ==> IsDeclared(args, "amount", v) && OptionalArrives(f, args, "workers"))
    && (f.verb in {"cpu_limit", "mem_limit"} ==> IsDeclared(args, "limit", v))
  }

  lemma ToxicValuesArrive(f: Fault)
    requires f.verb in f.inject && f.verb in NETWORK_VERBS && TranslateToxic(f).Ok?
    ensures TranslateToxic(f).action.Toxic? && ToxicCarries(f, TranslateToxic(f).action.attributes)
    ensures TranslateToxic(f).action.disable <==> f.verb == "down"
  {
  }

  lemma DockerValuesArrive(f: Fault)
    requires f.verb in f.inject && f.verb in SERVICE_VERBS && TranslateDocker(f).Ok?
    ensures TranslateDocker(f).action.Docker? && DockerCarries(f, TranslateDocker(f).action.args)
    ensures TranslateDocker(f).action.container == f.target
  {
  }

  /** Every value an accepted fault declares arrives in its action, under the name the
      applier reads: parsed where the layer parses, as declared where it does not. */
  lemma DeclaredValuesArrive(f: Fault)
    requires Accepted(f) && Translate(f).Ok?
    ensures f.verb in NETWORK_VERBS ==> Translate(f).action.Toxic? && ToxicCarries(f, Translate(f).action.attributes)
    ensures f.verb in SERVICE_VERBS ==>
      Translate(f).action.Docker? && DockerCarries(f, Translate(f).action.args) && Translate(f).action.container == f.target
  {
    AcceptedIsRouted(f);
    if f.verb in NETWORK_VERBS { ToxicValuesArrive(f); }
    if f.verb in SERVICE_VERBS { DockerValuesArrive(f); }
  }

  /** n is what this number comes to as an int: itself, or cut towards zero. */
  predicate CutTo(v: Value, n: int) {
    match v
    case Int(i) => n == i
    case Float(x) => if x >= 0.0 then n as real <= x < n as real + 1.0 else n as real - 1.0 < x <= n as real
    case _ => true
  }

  /** A number that Go's int can hold. */
  predicate Fits(v: Value) {
    v.Float? ==> -(INT_LIMIT as real) < v.x < INT_LIMIT as real
  }

  /** The layers that are passed a fault get its values too, and the defaults of one
      message and status 500 where none is declared. */
  lemma OwnersGetTheValues(f: Fault)
    requires Accepted(f)
    ensures f.verb == "poison_pill" && TranslateQueue(f).Some? ==>
      && TranslateQueue(f).value == PoisonPill(f.target, TranslateQueue(f).value.count)
      && (if "count" in f.inject then CutTo(f.inject["count"], TranslateQueue(f).value.count) else TranslateQueue(f).value.count == 1)
    ensures f.verb == "duplicate" && TranslateQueue(f).Some? ==> TranslateQueue(f).value == Duplicate(f.target, f.inject["duplicate"])
    ensures f.verb == "error_rate" && TranslateErrorRate(f).Some? ==>
      && TranslateErrorRate(f).value.0 == f.inject["error_rate"]
      && ("status" !in f.inject ==> TranslateErrorRate(f).value.1 == 500)
      && ("status" in f.inject && Fits(f.inject["status"]) ==> CutTo(f.inject["status"], TranslateErrorRate(f).value.1))
  {
    if f.verb == "poison_pill" && "count" in f.inject && f.inject["count"].Float? {
      assert f.inject["count"].x == IntOf(f.inject["count"].x) as real;
    }
    if "status" in f.inject && f.inject["status"].Float? && Fits(f.inject["status"]) { IntOfCuts(f.inject["status"].x); }
  }

  lemma IntOfCuts(x: real)
    requires -(INT_LIMIT as real) < x < INT_LIMIT as real
    ensures CutTo(Float(x), IntOf(x))
  {
  }

  /** The parser's check and this layer's re-check of workers accept the same values:
      the integers from 1 up, written as an int or as a float. */
  lemma WorkersChecksAgree(v: Value)
    ensures PositiveIntOk(v) <==> WorkersOk(v)
    ensures PositiveIntOk(v) <==> (v.Int? && v.i >= 1) || (v.Float? && v.x == v.x.Floor as real && 1.0 <= v.x < INT_LIMIT as real)
  {
  }

  // ------------------------------------------------------- units and rounding

  predicate Nearest(n: int, x: real) {
    -0.5 <= n as real - x <= 0.5
  }

  /** Which values each grammar reads, and what it makes of them: the nearest whole
      number of milliseconds, kilobytes per second, or points. */
  lemma MillisAreRead(v: Value)
    ensures ParseMillis(v).Some? <==> Numeric(v) || (v.Text? && v.number.Some? && v.suffix in {"", "ms", "s"})
    ensures v.Int? ==> ParseMillis(v) == Some(v.i)
    ensures v.Float? && Fits(v) ==> Nearest(ParseMillis(v).value, v.x)
    ensures v.Text? && v.number.Some? && v.suffix in {"", "ms"} ==> Nearest(ParseMillis(v).value, v.number.value)
    ensures v.Text? && v.number.Some? && v.suffix == "s" ==> Nearest(ParseMillis(v).value, 1000.0 * v.number.value)
  {
  }

  lemma RatesAreRead(v: Value)
    ensures ParseRateKBps(v).Some? <==> Numeric(v) || (v.Text? && v.number.Some? && v.suffix in {"mbps", "kbps"})
    ensures v.Int? ==> ParseRateKBps(v) == Some(v.i)
    ensures v.Float? && Fits(v) ==> Nearest(ParseRateKBps(v).value, v.x)
    ensures v.Text? && v.number.Some? && v.suffix == "kbps" ==> Nearest(ParseRateKBps(v).value, v.number.value / 8.0)
    ensures v.Text? && v.number.Some? && v.suffix == "mbps" ==> Nearest(ParseRateKBps(v).value, v.number.value * 125.0)
  {
  }

  predicate InPercentRange(v: Value) {
    match v
    case Int(i) => 0 <= i <= 100
    case Float(x) => 0.0 <= x <= 100.0
    case NaN => true
    case Text(Some(x), suffix) => suffix in {"", "%"} && 0.0 <= x <= 100.0
    case _ => false
  }

  lemma PercentsAreRead(v: Value)
    ensures ParsePercent(v).Some? <==> InPercentRange(v)
    ensures v.Int? && InPercentRange(v) ==> ParsePercent(v) == Some(v.i)
    ensures v.Float? && InPercentRange(v) ==> Nearest(ParsePercent(v).value, v.x)
    ensures v.Text? && InPercentRange(v) ==> Nearest(ParsePercent(v).value, v.number.value)
  {
  }

  /** A value may be spelled in any of its units: the figure is the same. */
  lemma SpellingsAgree(n: nat)
    requires 1000 * n < INT_LIMIT
    ensures ParseMillis(Text(Some(n as real), "s")) == ParseMillis(Text(Some(1000.0 * n as real), "ms"))
         == ParseMillis(Text(Some(1000.0 * n as real), "")) == ParseMillis(Int(1000 * n)) == ParseMillis(Float(1000.0 * n as real))
    ensures ParseRateKBps(Text(Some(n as real), "mbps")) == ParseRateKBps(Text(Some(1000.0 * n as real), "kbps"))
         == ParseRateKBps(Int(125 * n))
    ensures n <= 100 ==> ParsePercent(Text(Some(n as real), "%")) == ParsePercent(Int(n)) == ParsePercent(Float(n as real)) == Some(n)
  {
    var ms := 1000.0 * n as real;
    assert ms == (1000 * n) as real && ms.Floor == 1000 * n && (ms + 0.5).Floor == 1000 * n;
    assert IntOf(ms) == 1000 * n;
    var kb := 125.0 * n as real;
    assert kb == (125 * n) as real && (kb + 0.5).Floor == 125 * n;
  }

  /** A cpu percentage that is read lies in 0..100, but for .nan. */
  lemma PercentIsInRange(v: Value)
    requires ParsePercent(v).Some?
    ensures 0 <= ParsePercent(v).value <= 100 <==> !v.NaN?
  {
  }

  /** A rate as an emitter writes it: a figure and a unit. */
  datatype Rate = Rate(figure: int, unit: string)

  /** netemCommand. */
  function NetemRate(rateKBps: int): Rate { Rate(rateKBps * 8, "kbit") }

  /** pumbaCommand. */
  function PumbaRate(rateKBps: int): Rate { Rate(rateKBps * 8, "kbit") }

  /** chaosMeshBandwidth. */
  function ChaosMeshRate(rateKBps: int): Rate { Rate(rateKBps * 8, "kbps") }

  /** What tc's convention makes of the units: kbit is a thousand bits, kbps a
      thousand bytes. */
  function TcBits(r: Rate): int {
    if r.unit == "kbit" then r.figure * 1000 else r.figure * 8000
  }

  /** Chaos Mesh's text is said to follow tc's convention. By that convention it asks
      for eight times what netem and pumba do, and the three agree only at zero. */
  lemma ChaosMeshAsksForEightTimes(rateKBps: int)
    ensures TcBits(PumbaRate(rateKBps)) == TcBits(NetemRate(rateKBps)) == rateKBps * 8000
    ensures TcBits(ChaosMeshRate(rateKBps)) == 8 * TcBits(NetemRate(rateKBps))
    ensures TcBits(ChaosMeshRate(rateKBps)) == TcBits(NetemRate(rateKBps)) <==> rateKBps == 0
  {
  }

  /** The bits per second a rate asks for, where kbps is read as so many bits. */
  function BitsPerSecond(r: Rate, kbps: int): int {
    r.figure * if r.unit == "kbit" then 1000 else kbps
  }

  /** The figure a declared bandwidth comes out with is within 4 kbit of it, and is
      the same for all three emitters. */
  lemma BandwidthSurvivesRounding(n: real)
    requires n >= 0.0
    ensures var rate := ParseRateKBps(Text(Some(n), "kbps"));
      && rate.Some? && -4.0 <= NetemRate(rate.value).figure as real - n <= 4.0
      && NetemRate(rate.value).figure == PumbaRate(rate.value).figure == ChaosMeshRate(rate.value).figure
    ensures var rate := ParseRateKBps(Text(Some(n), "mbps"));
      && rate.Some? && -4.0 <= NetemRate(rate.value).figure as real - 1000.0 * n <= 4.0
      && NetemRate(rate.value).figure == PumbaRate(rate.value).figure == ChaosMeshRate(rate.value).figure
  {
  }

  /** Chaos Mesh's figure carries another unit: the three ask for one throughput
      exactly when its reader takes kbps for a thousand bits, or nothing is let
      through at all. */
  lemma EmittersAgreeIff(rateKBps: int, kbps: int)
    ensures BitsPerSecond(NetemRate(rateKBps), kbps) == BitsPerSecond(PumbaRate(rateKBps), kbps)
    ensures BitsPerSecond(ChaosMeshRate(rateKBps), kbps) == BitsPerSecond(NetemRate(rateKBps), kbps) <==> rateKBps == 0 || kbps == 1000
  {
    if rateKBps * 8 * kbps == rateKBps * 8 * 1000 { assert rateKBps * 8 * (kbps - 1000) == 0; }
  }

  /** ApplyDocker's per-worker load for a cpu fault. */
  function PerWorker(percent: int, workers: int): int
    requires workers >= 1
  {
    Round(percent as real / workers as real)
  }

  /** What w workers at load k request in all. */
  function Total(w: real, k: real): real { w * k }

  lemma RoundIsNear(x: real)
    ensures x - 0.5 <= Round(x) as real <= x + 0.5
  {
  }

  lemma NonNegativeTotal(w: real, k: real)
    requires w >= 0.0 && k >= 0.0
    ensures Total(w, k) >= 0.0
  {
  }

  lemma Spread(w: real, d: real)
    requires w > 0.0 && -0.5 <= d <= 0.5
    ensures -w / 2.0 <= Total(w, d) <= w / 2.0
  {
    NonNegativeTotal(w, d + 0.5);
    NonNegativeTotal(w, 0.5 - d);
  }

  lemma TotalSplits(w: real, share: real, d: real)
    ensures Total(w, share + d) == Total(w, share) + Total(w, d)
  {
  }

  lemma TotalIsNear(k: real, w: real, share: real)
    requires w > 0.0 && share - 0.5 <= k <= share + 0.5
    ensures -w / 2.0 <= Total(w, k) - Total(w, share) <= w / 2.0
  {
    var d := k - share;
    Spread(w, d);
    TotalSplits(w, share, d);
    assert share + d == k;
  }

  lemma ShareTimesWorkers(q: real, w: real)
    requires w > 0.0
    ensures Total(w, q / w) == q
  {
  }

  lemma SharesAddUp(percent: int, workers: int)
    requires workers >= 1
    ensures var w := workers as real;
      -w / 2.0 <= Total(w, PerWorker(percent, workers) as real) - percent as real <= w / 2.0
  {
    var share := percent as real / workers as real;
    RoundIsNear(share);
    ShareTimesWorkers(percent as real, workers as real);
    TotalIsNear(PerWorker(percent, workers) as real, workers as real, share);
  }

  /** w workers each told their share of an accepted load request within
      (w + 1) / 2 points of p percent in all. */
  lemma WorkersShareTheLoad(p: real, workers: int)
    requires 0.0 <= p <= 100.0 && workers >= 1
    ensures ParsePercent(Float(p)).Some?
    ensures var total := Total(workers as real, PerWorker(ParsePercent(Float(p)).value, workers) as real);
      -(workers as real + 1.0) / 2.0 <= total - p <= (workers as real + 1.0) / 2.0
  {
    RoundIsNear(p);
    SharesAddUp(Round(p), workers);
  }
}
