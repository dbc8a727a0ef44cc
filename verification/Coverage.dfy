/** registry.yaml predicates over detected facts (internal/doctor/registry.go),
    and how the tri-state facts are settled from the manifests that could be
    read (internal/detect/lockfile.go, internal/detect/compose.go). The reference
    for a predicate is the disjunction of Kleene's three-valued logic. */
module Coverage {
  datatype Fact = FactUnknown | FactFalse | FactTrue

  datatype Facts = Facts(openAPI: bool, proto: bool, k8s: bool, aws: Fact, azure: Fact, lacksOtel: Fact)

  /** The part of detect.System a predicate reads. */
  datatype System = System(lang: string, deps: seq<string>, coverage: Facts)

  datatype Verdict = Verdict(matched: bool, evaluated: bool)

  function FactToBool(f: Fact): Verdict {
    match f
    case FactTrue => Verdict(true, true)
    case FactFalse => Verdict(false, true)
    case FactUnknown => Verdict(false, false)
  }

  /** strings.Split with a one-character separator. */
  function Split(s: string, sep: char): (parts: seq<string>)
    ensures parts != []
  {
    if s == [] then [""]
    else
      var rest := Split(s[1..], sep);
      if s[0] == sep then [""] + rest else [[s[0]] + rest[0]] + rest[1..]
  }

  /** strings.Cut with a one-character separator. */
  function Cut(s: string, sep: char): (string, string, bool) {
    if s == [] then ("", "", false)
    else if s[0] == sep then ("", s[1..], true)
    else
      var (a, b, ok) := Cut(s[1..], sep);
      ([s[0]] + a, b, ok)
  }

  function Join(parts: seq<string>, sep: char): string
    requires parts != []
  {
    if |parts| == 1 then parts[0] else parts[0] + [sep] + Join(parts[1..], sep)
  }

  /** Split takes the predicate apart at every separator and at nothing else. */
  lemma {:induction false} SplitJoins(s: string, sep: char)
    ensures Join(Split(s, sep), sep) == s
    ensures forall i :: 0 <= i < |Split(s, sep)| ==> sep !in Split(s, sep)[i]
  {
    if s != [] {
      SplitJoins(s[1..], sep);
      var rest, parts := Split(s[1..], sep), Split(s, sep);
      if s[0] == sep {
        assert parts[1..] == rest;
      } else {
        assert parts[1..] == rest[1..];
      }
    }
  }

  /** Cut divides at the first separator, if there is one. */
  lemma {:induction false} CutJoins(s: string, sep: char)
    ensures var (a, b, ok) := Cut(s, sep);
      sep !in a && (ok <==> sep in s) && s == if ok then a + [sep] + b else a
  {
    if s != [] && s[0] != sep { CutJoins(s[1..], sep); }
  }

  function EvalTerm(term: string, sys: System): Verdict {
    var c := sys.coverage;
    if term == "spec:openapi" then Verdict(c.openAPI, true)
    else if term == "spec:proto" then Verdict(c.proto, true)
    else if term == "platform:k8s" then Verdict(c.k8s, true)
    else if term == "platform:aws" then FactToBool(c.aws)
    else if term == "platform:azure" then FactToBool(c.azure)
    else if term == "lacks:otel" then FactToBool(c.lacksOtel)
    else
      var (ns, val, ok) := Cut(term, ':');
      if !ok then Verdict(false, false)
      else if ns == "dep" then Verdict(val in sys.deps, true)
      else if ns == "lang" then Verdict(sys.lang == val, true)
      else Verdict(false, false)
  }

  function EvalAlternatives(alts: seq<string>, sys: System): Verdict {
    if alts == [] then Verdict(false, true)
    else
      var v := EvalTerm(alts[0], sys);
      if !v.evaluated then Verdict(false, false)
      else if v.matched then Verdict(true, true)
      else EvalAlternatives(alts[1..], sys)
  }

  function Alternatives(pred: string): seq<string> { Split(pred, '|') }

  method EvalPredicate(pred: string, sys: System) returns (v: Verdict)
    ensures v == Eval(pred, sys)
  {
    if pred == "always" { return Verdict(true, true); }
    if pred == "never" { return Verdict(false, true); }
    var alts := Alternatives(pred);
    for i := 0 to |alts|
      invariant EvalAlternatives(alts, sys) == EvalAlternatives(alts[i..], sys)
    {
      var t := EvalTerm(alts[i], sys);
      assert alts[i..][0] == alts[i] && alts[i..][1..] == alts[i + 1..];
      if !t.evaluated { return Verdict(false, false); }
      if t.matched { return Verdict(true, true); }
    }
    return Verdict(false, true);
  }

  function Eval(pred: string, sys: System): Verdict {
    if pred == "always" then Verdict(true, true)
    else if pred == "never" then Verdict(false, true)
    else EvalAlternatives(Alternatives(pred), sys)
  }

  // ---------------------------------------------------------------- meaning

  /** A tri-state fact as a verdict: matched exactly when true, evaluated exactly when known. */
  predicate Tells(v: Verdict, f: Fact) {
    (v.matched <==> f == FactTrue) && (v.evaluated <==> f != FactUnknown)
  }

  /** What each term of the grammar asks of the system. */
  lemma NamedTerms(sys: System)
    ensures EvalTerm("spec:openapi", sys) == Verdict(sys.coverage.openAPI, true)
    ensures EvalTerm("spec:proto", sys) == Verdict(sys.coverage.proto, true)
    ensures EvalTerm("platform:k8s", sys) == Verdict(sys.coverage.k8s, true)
    ensures Tells(EvalTerm("platform:aws", sys), sys.coverage.aws)
    ensures Tells(EvalTerm("platform:azure", sys), sys.coverage.azure)
    ensures Tells(EvalTerm("lacks:otel", sys), sys.coverage.lacksOtel)
  {
  }

  lemma {:induction false} CutAtFirst(ns: string, val: string, sep: char)
    requires sep !in ns
    ensures Cut(ns + [sep] + val, sep) == (ns, val, true)
  {
    if ns == [] {
      assert ns + [sep] + val == [sep] + val && ([sep] + val)[1..] == val;
    } else {
      CutAtFirst(ns[1..], val, sep);
      assert (ns + [sep] + val)[1..] == ns[1..] + [sep] + val;
      assert [ns[0]] + ns[1..] == ns;
    }
  }

  /** Terms of different namespaces differ. */
  lemma OtherNamespace(ns: string, val: string, ns': string, val': string)
    requires ':' !in ns && ':' !in ns' && ns != ns'
    ensures ns + ":" + val != ns' + ":" + val'
  {
    CutAtFirst(ns, val, ':');
    CutAtFirst(ns', val', ':');
  }

  lemma NotASpec(ns: string, val: string)
    requires ':' !in ns && ns != "spec"
    ensures ns + ":" + val != "spec:openapi" && ns + ":" + val != "spec:proto"
  {
    OtherNamespace(ns, val, "spec", "openapi");
    OtherNamespace(ns, val, "spec", "proto");
    assert "spec" + ":" + "openapi" == "spec:openapi" && "spec" + ":" + "proto" == "spec:proto";
  }

  lemma NotAPlatform(ns: string, val: string)
    requires ':' !in ns && ns != "platform"
    ensures ns + ":" + val != "platform:k8s" && ns + ":" + val != "platform:aws" && ns + ":" + val != "platform:azure"
  {
    OtherNamespace(ns, val, "platform", "k8s");
    OtherNamespace(ns, val, "platform", "aws");
    OtherNamespace(ns, val, "platform", "azure");
    assert "platform" + ":" + "k8s" == "platform:k8s";
    assert "platform" + ":" + "aws" == "platform:aws";
    assert "platform" + ":" + "azure" == "platform:azure";
  }

  lemma NotALack(ns: string, val: string)
    requires ':' !in ns && ns != "lacks"
    ensures ns + ":" + val != "lacks:otel"
  {
    OtherNamespace(ns, val, "lacks", "otel");
    assert "lacks" + ":" + "otel" == "lacks:otel";
  }

  /** dep: asks for a dependency type, lang: for the language, and no other namespace
      is answered, whatever the value. */
  lemma OpenTerms(ns: string, val: string, sys: System)
    requires ':' !in ns && ns != "spec" && ns != "platform" && ns != "lacks"
    ensures EvalTerm(ns + ":" + val, sys) ==
      if ns == "dep" then Verdict(val in sys.deps, true)
      else if ns == "lang" then Verdict(sys.lang == val, true)
      else Verdict(false, false)
  {
    CutAtFirst(ns, val, ':');
    NotASpec(ns, val);
    NotAPlatform(ns, val);
    NotALack(ns, val);
  }

  lemma {:induction false} NothingToSplit(s: string, sep: char)
    requires sep !in s
    ensures Split(s, sep) == [s]
  {
    if s != [] {
      NothingToSplit(s[1..], sep);
      assert [s[0]] + s[1..] == s;
    }
  }

  lemma {:induction false} SplitTwo(a: string, b: string, sep: char)
    requires sep !in a
    ensures Split(a + [sep] + b, sep) == [a] + Split(b, sep)
  {
    var s := a + [sep] + b;
    if a == [] {
      assert s[1..] == b;
    } else {
      SplitTwo(a[1..], b, sep);
      assert s[1..] == a[1..] + [sep] + b;
      assert [a[0]] + a[1..] == a;
    }
  }

  /** A predicate of one term is that term's verdict, unmatched where unknown; of
      several, the first is asked, and the rest only if it is known and false. */
  lemma PredicateInTurn(term: string, rest: string, sys: System)
    requires '|' !in term && term != "always" && term != "never"
    ensures var v := EvalTerm(term, sys);
      Eval(term, sys) == Verdict(v.matched && v.evaluated, v.evaluated)
    ensures var v := EvalTerm(term, sys);
      Eval(term + "|" + rest, sys) ==
      if !v.evaluated then Verdict(false, false) else if v.matched then Verdict(true, true) else EvalAlternatives(Alternatives(rest), sys)
  {
    NothingToSplit(term, '|');
    assert EvalAlternatives([term][1..], sys) == Verdict(false, true) by {
      assert [term][1..] == [];
    }
    assert Eval(term, sys) == EvalAlternatives([term], sys);
    SplitTwo(term, rest, '|');
    assert ([term] + Split(rest, '|'))[1..] == Split(rest, '|');
    var pred := term + "|" + rest;
    assert pred[|term|] == '|' && '|' in pred;
    assert '|' !in "always" && '|' !in "never";
  }

  // ------------------------------------------------------------- soundness

  /** later is earlier with some of its unknown facts settled, either way. */
  predicate Settles(earlier: System, later: System) {
    && later.lang == earlier.lang && later.deps == earlier.deps
    && later.coverage.openAPI == earlier.coverage.openAPI
    && later.coverage.proto == earlier.coverage.proto
    && later.coverage.k8s == earlier.coverage.k8s
    && SettlesFact(earlier.coverage.aws, later.coverage.aws)
    && SettlesFact(earlier.coverage.azure, later.coverage.azure)
    && SettlesFact(earlier.coverage.lacksOtel, later.coverage.lacksOtel)
  }

  predicate SettlesFact(a: Fact, b: Fact) { a == FactUnknown || a == b }

  /** Three-valued OR of the alternatives: true if any is, unknown if none is
      true and any is unknown. */
  function Kleene(alts: seq<string>, sys: System): Fact {
    if alts == [] then FactFalse
    else
      var v, rest := EvalTerm(alts[0], sys), Kleene(alts[1..], sys);
      if (v.evaluated && v.matched) || rest == FactTrue then FactTrue
      else if !v.evaluated || rest == FactUnknown then FactUnknown
      else FactFalse
  }

  /** An evaluated predicate never changes when an unknown fact is settled later. */
  lemma EvaluatedIsFinal(pred: string, earlier: System, later: System)
    requires Settles(earlier, later) && Eval(pred, earlier).evaluated
    ensures Eval(pred, later) == Eval(pred, earlier)
  {
    if pred != "always" && pred != "never" { AlternativesFinal(Alternatives(pred), earlier, later); }
  }

  lemma {:induction false} AlternativesFinal(alts: seq<string>, earlier: System, later: System)
    requires Settles(earlier, later) && EvalAlternatives(alts, earlier).evaluated
    ensures EvalAlternatives(alts, later) == EvalAlternatives(alts, earlier)
  {
    if alts != [] && !EvalTerm(alts[0], earlier).matched { AlternativesFinal(alts[1..], earlier, later); }
  }

  /** Some term is true, and none before it is unknown. */
  predicate TrueBeforeUnknown(alts: seq<string>, sys: System) {
    exists i :: 0 <= i < |alts| && EvalTerm(alts[i], sys) == Verdict(true, true)
      && forall j :: 0 <= j < i ==> EvalTerm(alts[j], sys).evaluated
  }

  predicate NoneUnknown(alts: seq<string>, sys: System) {
    forall i :: 0 <= i < |alts| ==> EvalTerm(alts[i], sys).evaluated
  }

  /** What the evaluator answers is the three-valued OR whenever it answers; and
      it answers exactly when no term is unknown or a true one comes before the
      first unknown one. */
  lemma {:induction false} SoundForKleene(alts: seq<string>, sys: System)
    ensures EvalAlternatives(alts, sys).matched ==> EvalAlternatives(alts, sys).evaluated
    ensures EvalAlternatives(alts, sys).evaluated ==>
      Kleene(alts, sys) == if EvalAlternatives(alts, sys).matched then FactTrue else FactFalse
    ensures EvalAlternatives(alts, sys).evaluated <==> NoneUnknown(alts, sys) || TrueBeforeUnknown(alts, sys)
  {
    if alts != [] {
      var v, rest := EvalTerm(alts[0], sys), alts[1..];
      SoundForKleene(rest, sys);
      assert forall i :: 0 <= i < |rest| ==> rest[i] == alts[i + 1];
      if v == Verdict(true, true) {
        assert TrueBeforeUnknown(alts, sys);
      } else if v.evaluated {
        if TrueBeforeUnknown(rest, sys) {
          var i :| 0 <= i < |rest| && EvalTerm(rest[i], sys) == Verdict(true, true)
            && forall j :: 0 <= j < i ==> EvalTerm(rest[j], sys).evaluated;
          assert EvalTerm(alts[i + 1], sys) == Verdict(true, true);
          assert forall j :: 0 <= j < i + 1 ==> j == 0 || EvalTerm(alts[j], sys) == EvalTerm(rest[j - 1], sys);
          assert TrueBeforeUnknown(alts, sys);
        }
        if TrueBeforeUnknown(alts, sys) {
          var i :| 0 <= i < |alts| && EvalTerm(alts[i], sys) == Verdict(true, true)
            && forall j :: 0 <= j < i ==> EvalTerm(alts[j], sys).evaluated;
          assert i > 0 && EvalTerm(rest[i - 1], sys) == Verdict(true, true);
          assert forall j :: 0 <= j < i - 1 ==> EvalTerm(rest[j], sys) == EvalTerm(alts[j + 1], sys);
        }
        assert NoneUnknown(alts, sys) <==> NoneUnknown(rest, sys) by {
          assert forall i :: 0 <= i < |alts| ==> i == 0 || alts[i] == rest[i - 1];
        }
      }
    }
  }

  /** So the order of the alternatives can matter: a predicate that is true in
      three-valued logic is reported as unevaluable when an unknown term leads. */
  lemma LeadingUnknownHidesAMatch()
    ensures var sys := System("go", ["redis"], Facts(false, false, false, FactUnknown, FactFalse, FactFalse));
      && Kleene(["platform:aws", "dep:redis"], sys) == FactTrue
      && EvalAlternatives(["platform:aws", "dep:redis"], sys) == Verdict(false, false)
      && EvalAlternatives(["dep:redis", "platform:aws"], sys) == Verdict(true, true)
  {
    var sys := System("go", ["redis"], Facts(false, false, false, FactUnknown, FactFalse, FactFalse));
    CutDep();
    assert EvalTerm("dep:redis", sys) == Verdict(true, true);
    assert EvalTerm("platform:aws", sys) == Verdict(false, false);
    assert ["platform:aws", "dep:redis"][1..] == ["dep:redis"];
    assert Kleene(["dep:redis"], sys) == FactTrue;
  }

  lemma CutDep()
    ensures Cut("dep:redis", ':') == ("dep", "redis", true)
  {
    assert "dep:redis"[1..] == "ep:redis" && "ep:redis"[1..] == "p:redis" && "p:redis"[1..] == ":redis" && ":redis"[1..] == "redis";
    assert Cut(":redis", ':') == ("", "redis", true);
    assert Cut("p:redis", ':') == (['p'] + "", "redis", true) && ['p'] + "" == "p";
    assert Cut("ep:redis", ':') == (['e'] + "p", "redis", true) && ['e'] + "p" == "ep" && ['d'] + "ep" == "dep";
  }

  // -------------------------------------------------- settling from manifests

  /** One manifest: its language, the imports it declares, and whether it points at
      sources that may not be read. */
  datatype Manifest = Manifest(lang: string, imports: seq<string>, unread: bool)

  type Table = map<string, seq<string>>

  /** The import prefixes of each SDK family, by language. */
  datatype Tables = Tables(aws: Table, azure: Table, otel: Table)

  const SDK_TABLES: Tables := Tables(
    map["go" := ["github.com/aws/aws-sdk-go"], "node" := ["aws-sdk", "@aws-sdk/"], "python" := ["boto3", "botocore"],
        "ruby" := ["aws-sdk"], "java" := ["software.amazon.awssdk:", "com.amazonaws:"]],
    map["go" := ["github.com/Azure/azure-sdk-for-go"], "node" := ["@azure/"], "python" := ["azure-"],
        "ruby" := ["azure-"], "java" := ["com.azure:"]],
    map["go" := ["go.opentelemetry.io/otel"], "node" := ["@opentelemetry/"], "python" := ["opentelemetry-"],
        "ruby" := ["opentelemetry-"], "java" := ["io.opentelemetry:"]])

  function Prefixes(table: Table, lang: string): seq<string> {
    if lang in table then table[lang] else []
  }

  method HasImportPrefix(imp: string, prefixes: seq<string>) returns (has: bool)
    ensures has == Matches(imp, prefixes)
  {
    for i := 0 to |prefixes|
      invariant forall j :: 0 <= j < i ==> !(prefixes[j] <= imp)
    {
      if prefixes[i] <= imp { return true; }
    }
    return false;
  }

  predicate Matches(imp: string, prefixes: seq<string>) {
    exists i :: 0 <= i < |prefixes| && prefixes[i] <= imp
  }

  /** Some import of the manifest belongs to the family, by its own language's table. */
  predicate Declares(m: Manifest, table: Table) {
    exists i :: 0 <= i < |m.imports| && Matches(m.imports[i], Prefixes(table, m.lang))
  }

  ghost predicate SomeDeclares(ms: seq<Manifest>, table: Table) {
    exists m :: m in ms && Declares(m, table)
  }

  /** The first n imports show the family. */
  predicate FoundBy(m: Manifest, n: nat, table: Table)
    requires n <= |m.imports|
  {
    exists i :: 0 <= i < n && Matches(m.imports[i], Prefixes(table, m.lang))
  }

  lemma OneMoreManifest(read: seq<Manifest>, m: Manifest, table: Table)
    ensures SomeDeclares(read + [m], table) <==> SomeDeclares(read, table) || Declares(m, table)
    ensures Declares(m, table) <==> FoundBy(m, |m.imports|, table)
  {
    assert m in read + [m];
    assert forall x :: x in read + [m] <==> x in read || x == m;
  }

  ghost predicate SomeUnread(ms: seq<Manifest>) {
    exists m :: m in ms && m.unread
  }

  lemma UnreadSoFar(read: seq<Manifest>, m: Manifest)
    ensures SomeUnread(read + [m]) <==> SomeUnread(read) || m.unread
  {
    assert m in read + [m];
    assert forall x :: x in read + [m] <==> x in read || x == m;
  }

  /** The four flags, as evidence. */
  datatype Evidence = Evidence(unread: bool, aws: bool, azure: bool, otel: bool)

  ghost function EvidenceOf(tables: Tables, ms: seq<Manifest>): Evidence {
    Evidence(SomeUnread(ms), SomeDeclares(ms, tables.aws), SomeDeclares(ms, tables.azure), SomeDeclares(ms, tables.otel))
  }

  function Or(a: Evidence, b: Evidence): Evidence {
    Evidence(a.unread || b.unread, a.aws || b.aws, a.azure || b.azure, a.otel || b.otel)
  }

  /** What one manifest shows. */
  function Shown(tables: Tables, m: Manifest): Evidence {
    Evidence(m.unread, Declares(m, tables.aws), Declares(m, tables.azure), Declares(m, tables.otel))
  }

  lemma MoreEvidence(tables: Tables, read: seq<Manifest>, m: Manifest)
    ensures EvidenceOf(tables, read + [m]) == Or(EvidenceOf(tables, read), Shown(tables, m))
  {
    UnreadSoFar(read, m);
    OneMoreManifest(read, m, tables.aws);
    OneMoreManifest(read, m, tables.azure);
    OneMoreManifest(read, m, tables.otel);
  }

  /** The loop over a manifest's imports: which families it declares. */
  method ReadImports(m: Manifest, tables: Tables)
    returns (shown: Evidence)
    ensures shown == Shown(tables, m)
  {
    var aws, azure, otel := false, false, false;
    for i := 0 to |m.imports|
      invariant aws == FoundBy(m, i, tables.aws)
      invariant azure == FoundBy(m, i, tables.azure)
      invariant otel == FoundBy(m, i, tables.otel)
    {
      var imp := m.imports[i];
      var has := HasImportPrefix(imp, Prefixes(tables.aws, m.lang));
      if has { aws := true; }
      has := HasImportPrefix(imp, Prefixes(tables.azure, m.lang));
      if has { azure := true; }
      has := HasImportPrefix(imp, Prefixes(tables.otel, m.lang));
      if has { otel := true; }
    }
    return Evidence(m.unread, aws, azure, otel);
  }

  class Detection {
    const tables: Tables
    var manifestUnread: bool
    var awsClientSeen: bool
    var azureClientSeen: bool
    var otelClientSeen: bool
    var otelCollectorSeen: bool

    constructor (tables: Tables, collector: bool)
      ensures !manifestUnread && !awsClientSeen && !azureClientSeen && !otelClientSeen
      ensures otelCollectorSeen == collector && this.tables == tables
    {
      this.tables := tables;
      manifestUnread, awsClientSeen, azureClientSeen, otelClientSeen := false, false, false, false;
      otelCollectorSeen := collector;
    }

    function Flags(): Evidence reads this {
      Evidence(manifestUnread, awsClientSeen, azureClientSeen, otelClientSeen)
    }

    /** The evidence so far is exactly that of these manifests. */
    ghost predicate Records(ms: seq<Manifest>) reads this {
      Flags() == EvidenceOf(tables, ms)
    }

    /** applyManifestFacts: evidence only ever accumulates. */
    method ApplyManifestFacts(m: Manifest, ghost read: seq<Manifest>)
      requires Records(read)
      modifies this
      ensures Records(read + [m]) && otelCollectorSeen == old(otelCollectorSeen)
    {
      var shown := ReadImports(m, tables);
      MoreEvidence(tables, read, m);
      Note(shown);
    }

    method Note(shown: Evidence)
      modifies this
      ensures Flags() == Or(old(Flags()), shown) && otelCollectorSeen == old(otelCollectorSeen)
    {
      if shown.unread { manifestUnread := true; }
      if shown.aws { awsClientSeen := true; }
      if shown.azure { azureClientSeen := true; }
      if shown.otel { otelClientSeen := true; }
    }

    function ManifestFact(seen: bool): Fact reads this {
      if seen then FactTrue else if manifestUnread then FactUnknown else FactFalse
    }

    /** finalizeManifestFacts, then DetectWithSUT's settling of lacks:otel. */
    method Finalize(ghost read: seq<Manifest>) returns (aws: Fact, azure: Fact, lacksOtel: Fact)
      requires Records(read)
      ensures (aws, azure, lacksOtel) == Settled(tables, read, otelCollectorSeen)
    {
      aws := ManifestFact(awsClientSeen);
      azure := ManifestFact(azureClientSeen);
      if otelClientSeen || otelCollectorSeen { lacksOtel := FactFalse; }
      else if manifestUnread { lacksOtel := FactUnknown; }
      else { lacksOtel := FactTrue; }
    }
  }

  /** The facts as the requirement states them: presence is shown by one manifest,
      absence by all of them having been read, and a collector settles otel. */
  ghost function Settled(tables: Tables, ms: seq<Manifest>, collector: bool): (Fact, Fact, Fact) {
    var unread := SomeUnread(ms);
    var absent := if unread then FactUnknown else FactFalse;
    (if SomeDeclares(ms, tables.aws) then FactTrue else absent,
     if SomeDeclares(ms, tables.azure) then FactTrue else absent,
     if collector || SomeDeclares(ms, tables.otel) then FactFalse
     else if unread then FactUnknown else FactTrue)
  }

  method DetectAll(tables: Tables, manifests: seq<Manifest>, collector: bool) returns (aws: Fact, azure: Fact, lacksOtel: Fact)
    ensures (aws, azure, lacksOtel) == Settled(tables, manifests, collector)
  {
    var sys := new Detection(tables, collector);
    for i := 0 to |manifests|
      invariant sys.Records(manifests[..i]) && sys.otelCollectorSeen == collector && sys.tables == tables
    {
      sys.ApplyManifestFacts(manifests[i], manifests[..i]);
      assert manifests[..i] + [manifests[i]] == manifests[..i + 1];
    }
    assert manifests[..|manifests|] == manifests;
    aws, azure, lacksOtel := sys.Finalize(manifests);
  }

  /** The facts of a repository, by the tables that ship. */
  method DetectManifestFacts(manifests: seq<Manifest>, collector: bool) returns (aws: Fact, azure: Fact, lacksOtel: Fact)
    ensures (aws, azure, lacksOtel) == Settled(SDK_TABLES, manifests, collector)
  {
    aws, azure, lacksOtel := DetectAll(SDK_TABLES, manifests, collector);
  }

  /** The order in which manifests are read, and reading one twice, change nothing. */
  lemma ManifestOrderDoesNotMatter(tables: Tables, a: seq<Manifest>, b: seq<Manifest>, collector: bool)
    requires forall m :: m in a <==> m in b
    ensures Settled(tables, a, collector) == Settled(tables, b, collector)
  {
    assert SomeUnread(a) <==> SomeUnread(b);
    assert forall table :: SomeDeclares(a, table) <==> SomeDeclares(b, table);
  }

  /** Reading one more manifest can settle an unknown fact only by showing presence;
      it never retracts presence, and a claim of absence made with every manifest
      read is the only kind of absence there is. */
  lemma AbsenceNeedsEveryManifest(tables: Tables, ms: seq<Manifest>, collector: bool, m: Manifest)
    ensures var (aws, azure, lacks) := Settled(tables, ms, collector);
      && (aws == FactFalse <==> forall x :: x in ms ==> !x.unread && !Declares(x, tables.aws))
      && (azure == FactFalse <==> forall x :: x in ms ==> !x.unread && !Declares(x, tables.azure))
      && (lacks == FactTrue <==> !collector && forall x :: x in ms ==> !x.unread && !Declares(x, tables.otel))
      && (aws == FactTrue <==> exists x :: x in ms && Declares(x, tables.aws))
      && (azure == FactTrue <==> exists x :: x in ms && Declares(x, tables.azure))
      && (lacks == FactFalse <==> collector || exists x :: x in ms && Declares(x, tables.otel))
    ensures Settled(tables, ms, collector).0 == FactTrue ==> Settled(tables, ms + [m], collector).0 == FactTrue
    ensures Settled(tables, ms, collector).1 == FactTrue ==> Settled(tables, ms + [m], collector).1 == FactTrue
    ensures Settled(tables, ms, collector).2 == FactFalse ==> Settled(tables, ms + [m], collector).2 == FactFalse
  {
    assert forall x :: x in ms ==> x in ms + [m];
  }

  predicate SdkPrefix(table: Table, lang: string, imp: string) {
    Matches(imp, Prefixes(table, lang))
  }

  /** The shipped tables are read by each manifest's own language, and by prefix: an
      SDK's submodule counts, and another language's SDK does not. */
  lemma TablesAreByLanguage()
    ensures SdkPrefix(SDK_TABLES.aws, "go", "github.com/aws/aws-sdk-go-v2") && !SdkPrefix(SDK_TABLES.aws, "go", "@aws-sdk/client-s3")
    ensures SdkPrefix(SDK_TABLES.aws, "node", "@aws-sdk/client-s3") && !SdkPrefix(SDK_TABLES.azure, "node", "@aws-sdk/client-s3")
    ensures SdkPrefix(SDK_TABLES.azure, "python", "azure-storage-blob") && !SdkPrefix(SDK_TABLES.otel, "python", "azure-storage-blob")
    ensures SdkPrefix(SDK_TABLES.otel, "java", "io.opentelemetry:api") && !SdkPrefix(SDK_TABLES.aws, "rust", "aws-sdk-s3")
  {
    assert Prefixes(SDK_TABLES.aws, "go")[0] <= "github.com/aws/aws-sdk-go-v2";
    assert Prefixes(SDK_TABLES.aws, "node")[1] <= "@aws-sdk/client-s3";
    assert Prefixes(SDK_TABLES.azure, "python")[0] <= "azure-storage-blob";
    assert Prefixes(SDK_TABLES.otel, "java")[0] <= "io.opentelemetry:api";
    assert "@aws-sdk/client-s3"[0] != "github.com/aws/aws-sdk-go"[0];
    assert "@aws-sdk/client-s3"[2] != "@azure/"[2];
    assert "azure-storage-blob"[0] != "opentelemetry-"[0];
  }
}
