/** Which dependencies a service's manifest shows it to be a client of: matchClient
    and attachClient (internal/detect/lockfile.go). A dependency's type may repeat;
    the first of a type takes the client. A type that only a manifest can show is
    added by the first that does. */
module Clients {
  import opened Sequences
  import Coverage

  /** An import and the service whose manifest declares it. */
  datatype ClientRef = ClientRef(imp: string, service: string)

  datatype Dep = Dep(name: string, typ: string, clients: seq<ClientRef>)

  datatype Pattern = Pattern(typ: string, imports: seq<string>)

  datatype Hit = Hit(typ: string, ref: ClientRef)

  const LOCKFILE_ONLY: set<string> := {"sqs", "dynamodb", "snowflake", "websocket", "jms", "ldap", "soap"}

  function FirstOf(deps: seq<Dep>, typ: string, from: nat := 0): (r: Option<nat>)
    requires from <= |deps|
    ensures r.Some? ==> from <= r.value < |deps| && deps[r.value].typ == typ
    ensures forall j :: from <= j < |deps| && (r.None? || j < r.value) ==> deps[j].typ != typ
    decreases |deps| - from
  {
    if from == |deps| then None
    else if deps[from].typ == typ then Some(from)
    else FirstOf(deps, typ, from + 1)
  }

  function Attach(deps: seq<Dep>, hit: Hit, only: set<string>): seq<Dep> {
    var i := FirstOf(deps, hit.typ);
    if i.Some? then deps[i.value := deps[i.value].(clients := deps[i.value].clients + [hit.ref])]
    else if hit.typ in only then deps + [Dep(hit.typ, hit.typ, [hit.ref])]
    else deps
  }

  function AttachAll(deps: seq<Dep>, hits: seq<Hit>, only: set<string>): seq<Dep> {
    if hits == [] then deps
    else Attach(AttachAll(deps, hits[..|hits| - 1], only), hits[|hits| - 1], only)
  }

  function HitsOf(imp: string, service: string, p: Pattern): seq<Hit> {
    if Coverage.Matches(imp, p.imports) then [Hit(p.typ, ClientRef(imp, service))] else []
  }

  /** The first n patterns that an import matches. */
  function PatternHits(imp: string, service: string, table: seq<Pattern>, n: nat): seq<Hit>
    requires n <= |table|
  {
    if n == 0 then []
    else PatternHits(imp, service, table, n - 1) + HitsOf(imp, service, table[n - 1])
  }

  /** What the first n imports hit, import by import. */
  function ImportHits(imports: seq<string>, service: string, table: seq<Pattern>, n: nat): seq<Hit>
    requires n <= |imports|
  {
    if n == 0 then []
    else ImportHits(imports, service, table, n - 1) + PatternHits(imports[n - 1], service, table, |table|)
  }

  class Inventory {
    var deps: seq<Dep>

    constructor (deps: seq<Dep>)
      ensures this.deps == deps
    {
      this.deps := deps;
    }

    /** attachClient. */
    method AttachClient(hit: Hit, only: set<string>)
      modifies this
      ensures deps == Attach(old(deps), hit, only)
    {
      for i := 0 to |deps|
        invariant deps == old(deps)
        invariant forall j :: 0 <= j < i ==> deps[j].typ != hit.typ
      {
        if deps[i].typ == hit.typ {
          deps := deps[i := deps[i].(clients := deps[i].clients + [hit.ref])];
          return;
        }
      }
      if hit.typ in only { deps := deps + [Dep(hit.typ, hit.typ, [hit.ref])]; }
    }

    /** matchClient, for one import. */
    method MatchClient(imp: string, service: string, table: seq<Pattern>, only: set<string>)
      modifies this
      ensures deps == AttachAll(old(deps), PatternHits(imp, service, table, |table|), only)
    {
      for n := 0 to |table|
        invariant deps == AttachAll(old(deps), PatternHits(imp, service, table, n), only)
      {
        var has := Coverage.HasImportPrefix(imp, table[n].imports);
        if has {
          var hit := Hit(table[n].typ, ClientRef(imp, service));
          assert (PatternHits(imp, service, table, n) + [hit])[..|PatternHits(imp, service, table, n)|] == PatternHits(imp, service, table, n);
          AttachClient(hit, only);
        } else {
          assert PatternHits(imp, service, table, n + 1) == PatternHits(imp, service, table, n);
        }
      }
    }

    /** The clients half of applyManifestFacts. */
    method MatchManifest(imports: seq<string>, service: string, table: seq<Pattern>, only: set<string>)
      modifies this
      ensures deps == AttachAll(old(deps), ImportHits(imports, service, table, |imports|), only)
      ensures ClientsAdded(old(deps), deps, ImportHits(imports, service, table, |imports|), only)
      ensures exists at :: AreMatches(ImportHits(imports, service, table, |imports|), at, imports, service, table, |imports|, 0)
    {
      ghost var before := deps;
      for n := 0 to |imports|
        invariant deps == AttachAll(before, ImportHits(imports, service, table, n), only)
      {
        AttachAllInTurn(before, ImportHits(imports, service, table, n), PatternHits(imports[n], service, table, |table|), only);
        MatchClient(imports[n], service, table, only);
      }
      ghost var hits := ImportHits(imports, service, table, |imports|);
      var at := HitsAreTheMatches(imports, service, table, |imports|);
      forall typ ensures ClientsOf(deps, typ) == NewClients(before, hits, only, typ) {
        ClientsAreTheHits(before, hits, only, typ);
      }
    }
  }

  lemma {:induction false} AttachAllInTurn(deps: seq<Dep>, hits: seq<Hit>, more: seq<Hit>, only: set<string>)
    ensures AttachAll(deps, hits + more, only) == AttachAll(AttachAll(deps, hits, only), more, only)
  {
    if more == [] {
      assert hits + more == hits;
    } else {
      var n := |more| - 1;
      AttachAllInTurn(deps, hits, more[..n], only);
      assert (hits + more)[..|hits| + n] == hits + more[..n];
    }
  }

  /** Where a hit comes from: an import and a pattern, by position. */
  datatype Source = Source(imp: nat, pattern: nat)

  predicate Earlier(a: Source, b: Source) {
    a.imp < b.imp || (a.imp == b.imp && a.pattern < b.pattern)
  }

  /** Import s.imp begins with a prefix of pattern s.pattern. */
  predicate IsMatch(imports: seq<string>, table: seq<Pattern>, s: Source) {
    && s.imp < |imports| && s.pattern < |table|
    && exists k :: 0 <= k < |table[s.pattern].imports| && table[s.pattern].imports[k] <= imports[s.imp]
  }

  /** The hits are the matches among the first n imports and, of the next, the first
      j patterns, each once, import by import. */
  ghost predicate AreMatches(hits: seq<Hit>, at: seq<Source>, imports: seq<string>, service: string, table: seq<Pattern>, n: nat, j: nat) {
    && |at| == |hits|
    && (forall k :: 0 <= k < |at| ==> IsMatch(imports, table, at[k]) && Earlier(at[k], Source(n, j)))
    && (forall k :: 0 <= k < |at| ==> hits[k] == Hit(table[at[k].pattern].typ, ClientRef(imports[at[k].imp], service)))
    && (forall k, l :: 0 <= k < l < |at| ==> Earlier(at[k], at[l]))
    && (forall s :: IsMatch(imports, table, s) && Earlier(s, Source(n, j)) ==> s in at)
  }

  lemma OneMorePattern(hits: seq<Hit>, at: seq<Source>, imports: seq<string>, service: string, table: seq<Pattern>, n: nat, j: nat) returns (at': seq<Source>)
    requires n < |imports| && j < |table| && AreMatches(hits, at, imports, service, table, n, j)
    ensures AreMatches(hits + HitsOf(imports[n], service, table[j]), at', imports, service, table, n, j + 1)
  {
    var here := Source(n, j);
    if Coverage.Matches(imports[n], table[j].imports) {
      at' := at + [here];
      assert IsMatch(imports, table, here);
      forall s | IsMatch(imports, table, s) && Earlier(s, Source(n, j + 1)) ensures s in at' {
        if s == here { assert at'[|at|] == s; } else { assert Earlier(s, Source(n, j)) && s in at; }
      }
    } else {
      at' := at;
      assert hits + [] == hits;
      forall s | IsMatch(imports, table, s) && Earlier(s, Source(n, j + 1)) ensures s in at {
        assert s != here;
      }
    }
  }

  lemma Regroup(a: seq<Hit>, b: seq<Hit>, c: seq<Hit>)
    ensures a + (b + c) == a + b + c
    ensures a + [] == a
  {
  }

  lemma {:induction false} PatternHitsAreMatches(hits: seq<Hit>, at: seq<Source>, imports: seq<string>, service: string, table: seq<Pattern>, n: nat, j: nat) returns (at': seq<Source>)
    requires n < |imports| && j <= |table| && AreMatches(hits, at, imports, service, table, n, 0)
    ensures AreMatches(hits + PatternHits(imports[n], service, table, j), at', imports, service, table, n, j)
  {
    if j == 0 {
      at' := at;
      Regroup(hits, [], []);
    } else {
      var mid := PatternHitsAreMatches(hits, at, imports, service, table, n, j - 1);
      at' := OneMorePattern(hits + PatternHits(imports[n], service, table, j - 1), mid, imports, service, table, n, j - 1);
      Regroup(hits, PatternHits(imports[n], service, table, j - 1), HitsOf(imports[n], service, table[j - 1]));
    }
  }

  lemma NextImport(hits: seq<Hit>, at: seq<Source>, imports: seq<string>, service: string, table: seq<Pattern>, n: nat)
    requires AreMatches(hits, at, imports, service, table, n, |table|)
    ensures AreMatches(hits, at, imports, service, table, n + 1, 0)
  {
    forall s | IsMatch(imports, table, s) && Earlier(s, Source(n + 1, 0)) ensures s in at {
      assert Earlier(s, Source(n, |table|));
    }
  }

  /** A manifest's hits are exactly its matches: every import with every pattern it
      begins with, in order, under the pattern's type and from this service. */
  lemma {:induction false} HitsAreTheMatches(imports: seq<string>, service: string, table: seq<Pattern>, n: nat) returns (at: seq<Source>)
    requires n <= |imports|
    ensures AreMatches(ImportHits(imports, service, table, n), at, imports, service, table, n, 0)
  {
    if n == 0 {
      at := [];
    } else {
      var before := HitsAreTheMatches(imports, service, table, n - 1);
      at := PatternHitsAreMatches(ImportHits(imports, service, table, n - 1), before, imports, service, table, n - 1, |table|);
      NextImport(ImportHits(imports, service, table, n), at, imports, service, table, n - 1);
    }
  }

  // ----------------------------------------------------------- the theorems

  /** The clients recorded under a type, at the first dependency of it. */
  function ClientsOf(deps: seq<Dep>, typ: string): seq<ClientRef> {
    var i := FirstOf(deps, typ);
    if i.Some? then deps[i.value].clients else []
  }

  predicate Has(deps: seq<Dep>, typ: string) {
    exists i :: 0 <= i < |deps| && deps[i].typ == typ
  }

  /** Clients of this type are kept: compose has it, or only a manifest can. */
  predicate Kept(deps: seq<Dep>, typ: string, only: set<string>) {
    Has(deps, typ) || typ in only
  }

  function RefsOf(hits: seq<Hit>, typ: string): seq<ClientRef> {
    if hits == [] then []
    else RefsOf(hits[..|hits| - 1], typ) + if hits[|hits| - 1].typ == typ then [hits[|hits| - 1].ref] else []
  }

  /** What the hits make of the clients of a type. */
  function NewClients(deps: seq<Dep>, hits: seq<Hit>, only: set<string>, typ: string): seq<ClientRef> {
    ClientsOf(deps, typ) + if Kept(deps, typ, only) then RefsOf(hits, typ) else []
  }

  ghost predicate ClientsAdded(before: seq<Dep>, after: seq<Dep>, hits: seq<Hit>, only: set<string>) {
    forall typ :: ClientsOf(after, typ) == NewClients(before, hits, only, typ)
  }

  lemma FirstIs(deps: seq<Dep>, typ: string, i: nat)
    requires i < |deps| && deps[i].typ == typ && forall j :: 0 <= j < i ==> deps[j].typ != typ
    ensures FirstOf(deps, typ) == Some(i)
  {
  }

  lemma AttachOne(deps: seq<Dep>, hit: Hit, only: set<string>, typ: string)
    ensures ClientsOf(Attach(deps, hit, only), typ) ==
      ClientsOf(deps, typ) + if hit.typ == typ && Kept(deps, typ, only) then [hit.ref] else []
    ensures Has(Attach(deps, hit, only), typ) <==> Has(deps, typ) || (hit.typ == typ && typ in only)
  {
    var next, f, g := Attach(deps, hit, only), FirstOf(deps, hit.typ), FirstOf(deps, typ);
    if f.Some? {
      assert forall j :: 0 <= j < |deps| ==> next[j].typ == deps[j].typ;
      if g.Some? { FirstIs(next, typ, g.value); }
    } else if hit.typ in only {
      assert forall j :: 0 <= j < |deps| ==> next[j] == deps[j];
      if g.Some? {
        FirstIs(next, typ, g.value);
      } else if hit.typ == typ {
        FirstIs(next, typ, |deps|);
      }
    }
  }

  /** Each type's clients after a manifest are those before it and then exactly the
      imports that match the type's patterns, in order; a type that compose lacks is
      added only if it is one that no image shows, and else its imports are dropped. */
  lemma {:induction false} ClientsAreTheHits(deps: seq<Dep>, hits: seq<Hit>, only: set<string>, typ: string)
    ensures ClientsOf(AttachAll(deps, hits, only), typ) == NewClients(deps, hits, only, typ)
    ensures Has(AttachAll(deps, hits, only), typ) <==> Has(deps, typ) || (typ in only && RefsOf(hits, typ) != [])
  {
    if hits != [] {
      var n := |hits| - 1;
      ClientsAreTheHits(deps, hits[..n], only, typ);
      AttachOne(AttachAll(deps, hits[..n], only), hits[n], only, typ);
    }
  }

  /** No type is manufactured that an image should have shown. */
  lemma NothingIsFabricated(deps: seq<Dep>, hits: seq<Hit>, typ: string)
    requires typ !in LOCKFILE_ONLY && !Has(deps, typ)
    ensures !Has(AttachAll(deps, hits, LOCKFILE_ONLY), typ)
  {
    ClientsAreTheHits(deps, hits, LOCKFILE_ONLY, typ);
  }
}
