/** The linearizability checker TortureU emits (internal/emit/porcupine.go). It splits
    a history by key and searches each part against one register: sound only if
    linearizability is local per key, as is proved for every history main accepts. */
module Linearizability {
  import opened Sequences

  /** One porcupine.Operation as main builds it: input and output carry the
      same value. The operation is "put" or anything else, as Step reads it. */
  datatype Operation = Operation(client: int, op: string, key: string, value: string, call: int, ret: int)

  // ---------------------------------------------------------------- model

  /** kvModel.Step on one register. */
  function Step(state: string, o: Operation): (bool, string) {
    if o.op == "put" then (true, o.value) else (o.value == state, state)
  }

  predicate RegisterLegal(s: seq<Operation>, state: string) {
    s == [] ||
    (var (ok, next) := Step(state, s[0]); ok && RegisterLegal(s[1..], next))
  }

  /** The reference object: a store of string registers, each "" at first. */
  type Store = map<string, string>

  function Read(m: Store, k: string): string {
    if k in m then m[k] else ""
  }

  predicate StoreLegal(s: seq<Operation>, m: Store) {
    s == [] ||
    if s[0].op == "put" then StoreLegal(s[1..], m[s[0].key := s[0].value])
    else s[0].value == Read(m, s[0].key) && StoreLegal(s[1..], m)
  }

  /** No operation is placed before one that had already returned when it was called. */
  ghost predicate RealTime(s: seq<Operation>) {
    forall i, j :: 0 <= i < j < |s| ==> !(s[j].ret < s[i].call)
  }

  ghost predicate ExplainsRegister(s: seq<Operation>, h: seq<Operation>) {
    multiset(s) == multiset(h) && RealTime(s) && RegisterLegal(s, "")
  }

  ghost predicate ExplainsStore(s: seq<Operation>, h: seq<Operation>) {
    multiset(s) == multiset(h) && RealTime(s) && StoreLegal(s, map[])
  }

  ghost predicate RegisterLinearizable(h: seq<Operation>) {
    exists s :: ExplainsRegister(s, h)
  }

  ghost predicate StoreLinearizable(h: seq<Operation>) {
    exists s :: ExplainsStore(s, h)
  }

  predicate CallsBeforeReturns(h: seq<Operation>) {
    forall i :: 0 <= i < |h| ==> h[i].call <= h[i].ret
  }

  // ------------------------------------------------------ splitting by key

  function ForKey(s: seq<Operation>, k: string): seq<Operation> {
    if s == [] then []
    else if s[0].key == k then [s[0]] + ForKey(s[1..], k)
    else ForKey(s[1..], k)
  }

  lemma {:induction false} ForKeyAppend(s: seq<Operation>, o: Operation, k: string)
    ensures ForKey(s + [o], k) == if o.key == k then ForKey(s, k) + [o] else ForKey(s, k)
  {
    if s == [] {
      assert [] + [o] == [o];
      assert ForKey([o], k) == (if o.key == k then [o] + ForKey([], k) else ForKey([], k));
    } else {
      assert (s + [o])[1..] == s[1..] + [o];
      ForKeyAppend(s[1..], o, k);
    }
  }

  lemma {:induction false} ForKeyCount(s: seq<Operation>, k: string, o: Operation)
    ensures multiset(ForKey(s, k))[o] == if o.key == k then multiset(s)[o] else 0
  {
    if s == [] {
    } else {
      ForKeyCount(s[1..], k, o);
      assert s == [s[0]] + s[1..];
      assert multiset(s) == multiset{s[0]} + multiset(s[1..]);
      if s[0].key == k {
        assert multiset(ForKey(s, k)) == multiset{s[0]} + multiset(ForKey(s[1..], k));
      }
    }
  }

  lemma ForKeyMember(s: seq<Operation>, k: string, o: Operation)
    ensures o in ForKey(s, k) <==> o in s && o.key == k
  {
    ForKeyCount(s, k, o);
    assert o in ForKey(s, k) <==> o in multiset(ForKey(s, k));
    assert o in s <==> o in multiset(s);
  }

  lemma ForKeyPermutes(s: seq<Operation>, h: seq<Operation>, k: string)
    requires multiset(s) == multiset(h)
    ensures multiset(ForKey(s, k)) == multiset(ForKey(h, k))
  {
    forall o ensures multiset(ForKey(s, k))[o] == multiset(ForKey(h, k))[o] {
      ForKeyCount(s, k, o);
      ForKeyCount(h, k, o);
    }
  }

  lemma {:induction false} ForKeyRealTime(s: seq<Operation>, k: string)
    requires RealTime(s)
    ensures RealTime(ForKey(s, k))
  {
    if s == [] {
    } else {
      var rest := s[1..];
      assert RealTime(rest) by {
        forall i, j | 0 <= i < j < |rest| ensures !(rest[j].ret < rest[i].call) {
          assert rest[i] == s[i + 1] && rest[j] == s[j + 1];
        }
      }
      ForKeyRealTime(rest, k);
      var f := ForKey(s, k);
      if s[0].key == k {
        forall i, j | 0 <= i < j < |f| ensures !(f[j].ret < f[i].call) {
          var g := ForKey(rest, k);
          assert f[j] == g[j - 1];
          if i == 0 {
            ForKeyMember(rest, k, g[j - 1]);
            var n :| 0 <= n < |rest| && rest[n] == g[j - 1];
            assert rest[n] == s[n + 1];
          } else {
            assert f[i] == g[i - 1];
          }
        }
      }
    }
  }

  /** A store runs a sequence legally exactly when every register runs its own part legally. */
  lemma {:induction false} StoreIsItsRegisters(s: seq<Operation>, m: Store)
    ensures StoreLegal(s, m) <==> forall k :: RegisterLegal(ForKey(s, k), Read(m, k))
  {
    if s == [] {
      forall k ensures RegisterLegal(ForKey(s, k), Read(m, k)) { }
    } else {
      var o := s[0];
      var next := if o.op == "put" then m[o.key := o.value] else m;
      var (ok, v) := Step(Read(m, o.key), o);
      StoreIsItsRegisters(s[1..], next);
      assert StoreLegal(s, m) <==> ok && StoreLegal(s[1..], next);
      forall k
        ensures RegisterLegal(ForKey(s, k), Read(m, k))
           <==> (k == o.key ==> ok) && RegisterLegal(ForKey(s[1..], k), Read(next, k))
      {
        if k == o.key {
          assert ForKey(s, k)[0] == o && ForKey(s, k)[1..] == ForKey(s[1..], k);
          assert Read(next, k) == v;
        } else {
          assert Read(next, k) == Read(m, k);
        }
      }
    }
  }

  // ------------------------------------------- merging per-key explanations

  /** An operation and the instant at which it is made to take effect. */
  datatype Placed = Placed(o: Operation, at: int)

  function Ops(p: seq<Placed>): (s: seq<Operation>)
    ensures |s| == |p| && forall i :: 0 <= i < |p| ==> s[i] == p[i].o
  {
    if p == [] then [] else [p[0].o] + Ops(p[1..])
  }

  ghost predicate Ordered(p: seq<Placed>) {
    forall i, j :: 0 <= i < j < |p| ==> p[i].at <= p[j].at
  }

  ghost predicate InInterval(p: seq<Placed>) {
    forall i :: 0 <= i < |p| ==> p[i].o.call <= p[i].at <= p[i].o.ret
  }

  /** Each operation takes effect at the latest call seen so far. */
  function Place(s: seq<Operation>, latest: int): seq<Placed> {
    if s == [] then []
    else
      var at := if latest < s[0].call then s[0].call else latest;
      [Placed(s[0], at)] + Place(s[1..], at)
  }

  lemma TailFits(s: seq<Operation>, at: int)
    requires s != [] && RealTime(s) && CallsBeforeReturns(s)
    requires forall i :: 0 <= i < |s| ==> at <= s[i].ret
    ensures RealTime(s[1..]) && CallsBeforeReturns(s[1..])
    ensures forall i :: 0 <= i < |s[1..]| ==> at <= s[1..][i].ret
  {
    var rest := s[1..];
    forall i, j | 0 <= i < j < |rest| ensures !(rest[j].ret < rest[i].call) {
      assert rest[i] == s[i + 1] && rest[j] == s[j + 1];
    }
  }

  lemma {:induction false} PlaceFits(s: seq<Operation>, latest: int)
    requires RealTime(s) && CallsBeforeReturns(s)
    requires forall i :: 0 <= i < |s| ==> latest <= s[i].ret
    ensures Ops(Place(s, latest)) == s
    ensures Ordered(Place(s, latest)) && InInterval(Place(s, latest))
    ensures s != [] ==> latest <= Place(s, latest)[0].at
  {
    if s != [] {
      var at := if latest < s[0].call then s[0].call else latest;
      forall i | 0 <= i < |s| ensures at <= s[i].ret {
        assert i > 0 ==> !(s[i].ret < s[0].call);
      }
      TailFits(s, at);
      PlaceFits(s[1..], at);
      HeadFirst(Placed(s[0], at), Place(s[1..], at));
    }
  }

  function Merge(a: seq<Placed>, b: seq<Placed>): seq<Placed> {
    if a == [] then b
    else if b == [] then a
    else if a[0].at <= b[0].at then [a[0]] + Merge(a[1..], b)
    else [b[0]] + Merge(a, b[1..])
  }

  lemma {:induction false} MergeKeepsOrder(a: seq<Placed>, b: seq<Placed>)
    requires Ordered(a) && Ordered(b) && InInterval(a) && InInterval(b)
    ensures Ordered(Merge(a, b)) && InInterval(Merge(a, b))
    ensures Merge(a, b) != [] ==>
      (a != [] && Merge(a, b)[0] == a[0]) || (b != [] && Merge(a, b)[0] == b[0])
  {
    if a == [] || b == [] {
    } else if a[0].at <= b[0].at {
      MergeKeepsOrder(a[1..], b);
      HeadFirst(a[0], Merge(a[1..], b));
    } else {
      MergeKeepsOrder(a, b[1..]);
      HeadFirst(b[0], Merge(a, b[1..]));
    }
  }

  lemma HeadFirst(x: Placed, t: seq<Placed>)
    requires Ordered(t) && (t != [] ==> x.at <= t[0].at)
    ensures Ordered([x] + t)
  {
    var r := [x] + t;
    forall i, j | 0 <= i < j < |r| ensures r[i].at <= r[j].at {
      if i == 0 { assert t[0].at <= t[j - 1].at; } else { assert t[i - 1].at <= t[j - 1].at; }
    }
  }

  /** Merging in operations of other keys leaves a key's own order alone. */
  lemma {:induction false} MergeForKey(a: seq<Placed>, b: seq<Placed>, k: string)
    requires ForKey(Ops(a), k) == [] || ForKey(Ops(b), k) == []
    ensures ForKey(Ops(Merge(a, b)), k) == ForKey(Ops(a), k) + ForKey(Ops(b), k)
    decreases |a| + |b|
  {
    if a == [] || b == [] {
    } else if a[0].at <= b[0].at {
      assert Ops(a)[1..] == Ops(a[1..]);
      MergeForKey(a[1..], b, k);
      var m := Merge(a, b);
      assert Ops(m)[0] == a[0].o && Ops(m)[1..] == Ops(Merge(a[1..], b));
    } else {
      assert Ops(b)[1..] == Ops(b[1..]);
      MergeForKey(a, b[1..], k);
      var m := Merge(a, b);
      assert Ops(m)[0] == b[0].o && Ops(m)[1..] == Ops(Merge(a, b[1..]));
    }
  }

  /** Explanations of any distinct keys combine into one order that respects real time. */
  lemma {:induction false} Assemble(keys: seq<string>, h: seq<Operation>) returns (p: seq<Placed>)
    requires CallsBeforeReturns(h)
    requires forall i, j :: 0 <= i < j < |keys| ==> keys[i] != keys[j]
    requires forall i :: 0 <= i < |keys| ==> RegisterLinearizable(ForKey(h, keys[i]))
    ensures Ordered(p) && InInterval(p)
    ensures forall k :: k in keys ==> ExplainsRegister(ForKey(Ops(p), k), ForKey(h, k))
    ensures forall k :: k !in keys ==> ForKey(Ops(p), k) == []
  {
    if keys == [] {
      p := [];
    } else {
      var rest := Assemble(keys[1..], h);
      var q := PlaceKey(h, keys[0]);
      p := Merge(q, rest);
      MergeKeepsOrder(q, rest);
      OneKeyMore(keys, h, q, rest);
    }
  }

  lemma OneKeyMore(keys: seq<string>, h: seq<Operation>, q: seq<Placed>, rest: seq<Placed>)
    requires keys != [] && forall i, j :: 0 <= i < j < |keys| ==> keys[i] != keys[j]
    requires ExplainsRegister(Ops(q), ForKey(h, keys[0])) && forall o :: o in Ops(q) ==> o.key == keys[0]
    requires forall k :: k in keys[1..] ==> ExplainsRegister(ForKey(Ops(rest), k), ForKey(h, k))
    requires forall k :: k !in keys[1..] ==> ForKey(Ops(rest), k) == []
    ensures forall k :: k in keys ==> ExplainsRegister(ForKey(Ops(Merge(q, rest)), k), ForKey(h, k))
    ensures forall k :: k !in keys ==> ForKey(Ops(Merge(q, rest)), k) == []
  {
    assert keys[0] !in keys[1..];
    MergeOneKey(Ops(q), keys[0], q, rest);
    forall k | k in keys ensures ExplainsRegister(ForKey(Ops(Merge(q, rest)), k), ForKey(h, k)) {
      assert k == keys[0] || k in keys[1..];
    }
  }

  lemma PlaceKey(h: seq<Operation>, k: string) returns (q: seq<Placed>)
    requires CallsBeforeReturns(h) && RegisterLinearizable(ForKey(h, k))
    ensures Ordered(q) && InInterval(q) && ExplainsRegister(Ops(q), ForKey(h, k))
    ensures forall o :: o in Ops(q) ==> o.key == k
  {
    var s :| ExplainsRegister(s, ForKey(h, k));
    MembersOfPart(s, h, k);
    var low := LowestReturn(s);
    PlaceFits(s, low);
    q := Place(s, low);
  }

  lemma MergeOneKey(s: seq<Operation>, k0: string, q: seq<Placed>, rest: seq<Placed>)
    requires Ops(q) == s && forall o :: o in s ==> o.key == k0
    requires ForKey(Ops(rest), k0) == []
    ensures forall k :: ForKey(Ops(Merge(q, rest)), k) == if k == k0 then s else ForKey(Ops(rest), k)
  {
    forall k ensures ForKey(Ops(Merge(q, rest)), k) == if k == k0 then s else ForKey(Ops(rest), k) {
      OneKey(s, k0, k);
      MergeForKey(q, rest, k);
    }
  }

  lemma MembersOfPart(s: seq<Operation>, h: seq<Operation>, k: string)
    requires multiset(s) == multiset(ForKey(h, k)) && CallsBeforeReturns(h)
    ensures forall o :: o in s ==> o.key == k
    ensures CallsBeforeReturns(s)
  {
    forall o | o in s ensures o in h && o.key == k {
      assert o in multiset(s);
      ForKeyMember(h, k, o);
    }
    forall i | 0 <= i < |s| ensures s[i].call <= s[i].ret { assert s[i] in h; }
  }

  lemma {:induction false} OneKey(s: seq<Operation>, k0: string, k: string)
    requires forall o :: o in s ==> o.key == k0
    ensures ForKey(s, k) == if k == k0 then s else []
  {
    if s == [] {
    } else {
      assert s[0] in s && forall o :: o in s[1..] ==> o in s;
      OneKey(s[1..], k0, k);
    }
  }

  lemma {:induction false} LowestReturn(s: seq<Operation>) returns (low: int)
    ensures forall i :: 0 <= i < |s| ==> low <= s[i].ret
  {
    if s == [] {
      low := 0;
    } else {
      low := LowestReturn(s[1..]);
      forall i | 1 <= i < |s| ensures low <= s[i].ret { assert s[i] == s[1..][i - 1]; }
      if s[0].ret < low { low := s[0].ret; }
    }
  }

  // ------------------------------------------------------------- Partition

  predicate StringLess(a: string, b: string) {
    b != [] && (a == [] || a[0] < b[0] || (a[0] == b[0] && StringLess(a[1..], b[1..])))
  }

  predicate StringLe(a: string, b: string) {
    !StringLess(b, a)
  }

  lemma {:induction false} StringTrichotomy(a: string, b: string)
    ensures StringLess(a, b) || StringLess(b, a) || a == b
    ensures !(StringLess(a, b) && StringLess(b, a))
    ensures !StringLess(a, a)
  {
    if a != [] { StringTrichotomy(a[1..], a[1..]); }
    if a != [] && b != [] {
      StringTrichotomy(a[1..], b[1..]);
      assert a == [a[0]] + a[1..] && b == [b[0]] + b[1..];
    }
  }

  lemma {:induction false} StringTransitive(a: string, b: string, c: string)
    ensures StringLess(a, b) && StringLess(b, c) ==> StringLess(a, c)
  {
    if a != [] && b != [] && c != [] { StringTransitive(a[1..], b[1..], c[1..]); }
  }

  /** StringLess is the order of sort.Strings: a proper prefix first, else by the
      first character that differs. */
  lemma {:induction false} StringLessIff(a: string, b: string)
    ensures StringLess(a, b) <==> exists k: nat :: FirstDifference(a, b, k) && k < |b| && (k == |a| || a[k] < b[k])
  {
    if a == [] || b == [] {
      if b != [] { assert a[..0] == b[..0] && FirstDifference(a, b, 0); }
    } else if a[0] != b[0] {
      assert a[..0] == b[..0] && FirstDifference(a, b, 0);
      forall k: nat | k > 0 ensures !FirstDifference(a, b, k) {
        if k <= |a| && k <= |b| { assert a[..k][0] == a[0] && b[..k][0] == b[0]; }
      }
    } else {
      StringLessIff(a[1..], b[1..]);
      if k: nat :| FirstDifference(a[1..], b[1..], k) && k < |b[1..]| && (k == |a[1..]| || a[1..][k] < b[1..][k]) {
        assert a[..k + 1] == [a[0]] + a[1..][..k] && b[..k + 1] == [b[0]] + b[1..][..k];
        assert FirstDifference(a, b, k + 1);
      }
      if k: nat :| FirstDifference(a, b, k) && k < |b| && (k == |a| || a[k] < b[k]) {
        assert k > 0;
        assert a[1..][..k - 1] == a[..k][1..] && b[1..][..k - 1] == b[..k][1..];
        assert FirstDifference(a[1..], b[1..], k - 1);
      }
    }
  }

  /** a and b are alike up to k. */
  predicate FirstDifference(a: string, b: string, k: nat) {
    k <= |a| && k <= |b| && a[..k] == b[..k]
  }

  lemma StringOrder()
    ensures TotalOrder(StringLe)
  {
    forall a, b ensures StringLe(a, b) || StringLe(b, a) { StringTrichotomy(a, b); }
    forall a, b | StringLe(a, b) && StringLe(b, a) ensures a == b { StringTrichotomy(a, b); }
    forall a, b, c | StringLe(a, b) && StringLe(b, c) ensures StringLe(a, c) {
      StringTrichotomy(a, b);
      StringTrichotomy(b, c);
      StringTrichotomy(a, c);
      StringTransitive(a, b, c);
    }
  }

  /** The keys of a history, each once, in order of first appearance. */
  function KeysOf(h: seq<Operation>): (keys: seq<string>)
  {
    if h == [] then []
    else
      var front := KeysOf(h[..|h| - 1]);
      var k := h[|h| - 1].key;
      if k in front then front else front + [k]
  }

  lemma {:induction false} KeysOfIsKeySet(h: seq<Operation>)
    ensures forall k :: k in KeysOf(h) <==> ForKey(h, k) != []
    ensures forall i, j :: 0 <= i < j < |KeysOf(h)| ==> KeysOf(h)[i] != KeysOf(h)[j]
  {
    if h == [] {
    } else {
      var front := h[..|h| - 1];
      KeysOfIsKeySet(front);
      assert h == front + [h[|h| - 1]];
      forall k { ForKeyAppend(front, h[|h| - 1], k); }
    }
  }

  function SplitByKey(h: seq<Operation>): seq<seq<Operation>> {
    var keys := Sort(KeysOf(h), StringLe);
    seq(|keys|, i requires 0 <= i < |keys| => ForKey(h, keys[i]))
  }

  /** The first loop of kvModel.Partition: byKey[k] lists the operations on k in order. */
  method GroupByKey(history: seq<Operation>) returns (byKey: map<string, seq<Operation>>)
    ensures Groups(byKey, history)
  {
    byKey := map[];
    for i := 0 to |history|
      invariant Groups(byKey, history[..i])
    {
      var o := history[i];
      assert history[..i + 1] == history[..i] + [o];
      GroupsExtends(byKey, history[..i], o);
      byKey := byKey[o.key := (if o.key in byKey then byKey[o.key] else []) + [o]];
    }
    assert history[..|history|] == history;
  }

  /** The second loop: the keys, in whatever order the map yields them. */
  method CollectKeys(byKey: map<string, seq<Operation>>) returns (keys: seq<string>)
    ensures forall k :: k in keys <==> k in byKey.Keys
    ensures forall i, j :: 0 <= i < j < |keys| ==> keys[i] != keys[j]
  {
    keys := [];
    var unread := byKey.Keys;
    while unread != {}
      invariant unread <= byKey.Keys
      invariant forall k :: k in keys <==> k in byKey.Keys && k !in unread
      invariant forall i, j :: 0 <= i < j < |keys| ==> keys[i] != keys[j]
      decreases |unread|
    {
      var k :| k in unread;
      keys := keys + [k];
      unread := unread - {k};
    }
  }

  /** kvModel.Partition. Its result does not depend on the map's order. */
  method Partition(history: seq<Operation>) returns (parts: seq<seq<Operation>>)
    ensures parts == SplitByKey(history)
  {
    var byKey := GroupByKey(history);
    var keys := CollectKeys(byKey);
    GroupsInOrder(byKey, keys, history);
    keys := Sort(keys, StringLe);
    parts := [];
    for i := 0 to |keys|
      invariant parts == SplitByKey(history)[..i]
    {
      parts := parts + [byKey[keys[i]]];
    }
  }

  /** Looked up in sorted key order, the groups are the split. */
  lemma GroupsInOrder(byKey: map<string, seq<Operation>>, keys: seq<string>, h: seq<Operation>)
    requires Groups(byKey, h) && forall k :: k in keys <==> k in byKey
    requires forall i, j :: 0 <= i < j < |keys| ==> keys[i] != keys[j]
    ensures var sorted := Sort(keys, StringLe);
      && |sorted| == |SplitByKey(h)|
      && forall i :: 0 <= i < |sorted| ==> sorted[i] in byKey && byKey[sorted[i]] == SplitByKey(h)[i]
  {
    SameKeysSortAlike(keys, h);
    SortedKeys(h);
    var sorted := Sort(keys, StringLe);
    forall i | 0 <= i < |sorted| ensures sorted[i] in byKey && byKey[sorted[i]] == SplitByKey(h)[i] {
      assert sorted[i] in Sort(KeysOf(h), StringLe);
    }
  }

  ghost predicate Groups(byKey: map<string, seq<Operation>>, h: seq<Operation>) {
    && (forall k :: k in byKey <==> ForKey(h, k) != [])
    && (forall k :: k in byKey ==> byKey[k] == ForKey(h, k))
  }

  lemma GroupsExtends(byKey: map<string, seq<Operation>>, h: seq<Operation>, o: Operation)
    requires Groups(byKey, h)
    ensures Groups(byKey[o.key := (if o.key in byKey then byKey[o.key] else []) + [o]], h + [o])
  {
    forall k ensures ForKey(h + [o], k) == if o.key == k then ForKey(h, k) + [o] else ForKey(h, k) {
      ForKeyAppend(h, o, k);
    }
  }

  lemma DistinctCounts(keys: seq<string>)
    requires forall i, j :: 0 <= i < j < |keys| ==> keys[i] != keys[j]
    ensures forall k :: multiset(keys)[k] == if k in keys then 1 else 0
  {
    if keys != [] {
      var front := keys[..|keys| - 1];
      DistinctCounts(front);
      assert keys == front + [keys[|keys| - 1]];
    }
  }

  lemma SameKeysSortAlike(keys: seq<string>, h: seq<Operation>)
    requires forall i, j :: 0 <= i < j < |keys| ==> keys[i] != keys[j]
    requires forall k :: k in keys <==> ForKey(h, k) != []
    ensures Sort(keys, StringLe) == Sort(KeysOf(h), StringLe)
  {
    KeysOfIsKeySet(h);
    DistinctCounts(keys);
    DistinctCounts(KeysOf(h));
    assert multiset(keys) == multiset(KeysOf(h));
    StringOrder();
    SortSorts(keys, StringLe);
    SortSorts(KeysOf(h), StringLe);
    SortedUnique(Sort(keys, StringLe), Sort(KeysOf(h), StringLe), StringLe);
  }

  lemma SortedKeys(h: seq<Operation>)
    ensures var keys := Sort(KeysOf(h), StringLe);
      && (forall k :: k in keys <==> ForKey(h, k) != [])
      && (forall i, j :: 0 <= i < j < |keys| ==> StringLess(keys[i], keys[j]))
  {
    StringOrder();
    SortSorts(KeysOf(h), StringLe);
    KeysOfIsKeySet(h);
    DistinctCounts(KeysOf(h));
    var keys := Sort(KeysOf(h), StringLe);
    assert forall k :: k in keys <==> k in multiset(keys);
    assert forall k :: k in KeysOf(h) <==> k in multiset(KeysOf(h));
    forall i, j | 0 <= i < j < |keys| ensures StringLess(keys[i], keys[j]) {
      StringTrichotomy(keys[i], keys[j]);
      assert StringLe(keys[i], keys[j]);
      if keys[i] == keys[j] {
        TwiceCountsTwo(keys, i, j);
        assert false;
      }
    }
  }

  lemma TwiceCountsTwo<T>(s: seq<T>, i: int, j: int)
    requires 0 <= i < j < |s| && s[i] == s[j]
    ensures multiset(s)[s[i]] >= 2
  {
    assert s == s[..j] + [s[j]] + s[j + 1..];
    assert s[i] in s[..j];
    assert s[i] in multiset(s[..j]);
  }

  /** Partition loses nothing, invents nothing, and keeps each key's original order. */
  lemma PartitionSplitsExactly(h: seq<Operation>)
    ensures var parts := SplitByKey(h);
      && multiset(Flatten(parts)) == multiset(h)
      && (forall i :: 0 <= i < |parts| ==> parts[i] != [] && parts[i] == ForKey(h, parts[i][0].key))
      && (forall i, j :: 0 <= i < j < |parts| ==>
            parts[i] != [] && parts[j] != [] && StringLess(parts[i][0].key, parts[j][0].key))
  {
    var keys := Sort(KeysOf(h), StringLe);
    var parts: seq<seq<Operation>> := SplitByKey(h);
    SortedKeys(h);
    forall i | 0 <= i < |parts| ensures parts[i] != [] && parts[i][0].key == keys[i] {
      assert keys[i] in keys;
      ForKeyMember(h, keys[i], parts[i][0]);
    }
    forall o ensures multiset(Flatten(parts))[o] == multiset(h)[o] {
      forall i, j | 0 <= i < j < |keys| ensures keys[i] != keys[j] {
        StringTrichotomy(keys[i], keys[j]);
      }
      FlattenPartsCount(h, keys, parts, o);
      if o.key !in keys { ForKeyMember(h, o.key, o); assert o !in h; }
    }
  }

  lemma {:induction false} FlattenPartsCount(h: seq<Operation>, keys: seq<string>, parts: seq<seq<Operation>>, o: Operation)
    requires |keys| == |parts| && forall i :: 0 <= i < |keys| ==> parts[i] == ForKey(h, keys[i])
    requires forall i, j :: 0 <= i < j < |keys| ==> keys[i] != keys[j]
    ensures multiset(Flatten(parts))[o] == if o.key in keys then multiset(h)[o] else 0
  {
    if keys == [] {
    } else {
      FlattenPartsCount(h, keys[1..], parts[1..], o);
      ForKeyCount(h, keys[0], o);
      assert multiset(Flatten(parts)) == multiset(parts[0]) + multiset(Flatten(parts[1..]));
      assert keys == [keys[0]] + keys[1..];
    }
  }

  // -------------------------------------------------------------- locality

  /** Locality: the per-part search answers the question about the whole history. */
  lemma Locality(h: seq<Operation>)
    requires CallsBeforeReturns(h)
    ensures StoreLinearizable(h) <==>
      forall i :: 0 <= i < |SplitByKey(h)| ==> RegisterLinearizable(SplitByKey(h)[i])
  {
    var keys := Sort(KeysOf(h), StringLe);
    var parts := SplitByKey(h);
    SortedKeys(h);
    if StoreLinearizable(h) {
      forall i | 0 <= i < |parts| ensures RegisterLinearizable(parts[i]) {
        WholeToPart(h, keys[i]);
      }
    }
    if forall i :: 0 <= i < |parts| ==> RegisterLinearizable(parts[i]) {
      forall i, j | 0 <= i < j < |keys| ensures keys[i] != keys[j] {
        StringTrichotomy(keys[i], keys[j]);
      }
      forall i | 0 <= i < |keys| ensures RegisterLinearizable(ForKey(h, keys[i])) {
        assert parts[i] == ForKey(h, keys[i]);
      }
      PartsToWhole(h, keys);
    }
  }

  lemma WholeToPart(h: seq<Operation>, k: string)
    requires StoreLinearizable(h)
    ensures RegisterLinearizable(ForKey(h, k))
  {
    var s :| ExplainsStore(s, h);
    ForKeyPermutes(s, h, k);
    ForKeyRealTime(s, k);
    StoreIsItsRegisters(s, map[]);
    assert ExplainsRegister(ForKey(s, k), ForKey(h, k));
  }

  lemma PartsToWhole(h: seq<Operation>, keys: seq<string>)
    requires CallsBeforeReturns(h)
    requires forall i, j :: 0 <= i < j < |keys| ==> keys[i] != keys[j]
    requires forall k :: k in keys <==> ForKey(h, k) != []
    requires forall i :: 0 <= i < |keys| ==> RegisterLinearizable(ForKey(h, keys[i]))
    ensures StoreLinearizable(h)
  {
    var p := Assemble(keys, h);
    var s := Ops(p);
    forall o ensures multiset(s)[o] == multiset(h)[o] {
      ForKeyCount(s, o.key, o);
      ForKeyCount(h, o.key, o);
    }
    assert RealTime(s);
    forall k ensures RegisterLegal(ForKey(s, k), Read(map[], k)) { }
    StoreIsItsRegisters(s, map[]);
    assert ExplainsStore(s, h);
  }

  ghost predicate PartsButNotWhole(h: seq<Operation>) {
    && !StoreLinearizable(h)
    && forall i :: 0 <= i < |SplitByKey(h)| ==> RegisterLinearizable(SplitByKey(h)[i])
  }

  /** Two operations each of which returned before the other was called have no order. */
  lemma CyclicOrder(s: seq<Operation>, a: Operation, b: Operation)
    requires a.ret < b.call && b.ret < a.call
    ensures !ExplainsStore(s, [a, b])
  {
    if multiset(s) == multiset([a, b]) {
      assert |multiset(s)| == |s| && |multiset([a, b])| == 2;
      assert s == [s[0], s[1]] && multiset(s) == multiset{s[0], s[1]};
      assert multiset([a, b]) == multiset{a, b};
      assert s[0] in multiset(s) && s[1] in multiset(s);
      assert s == [a, b] || s == [b, a];
    }
  }

  /** Without main's return_ns >= call_ns check the split would be unsound: both
      parts of this history are linearizable and the whole is not. */
  lemma LocalityNeedsTheClockCheck()
    ensures exists h :: PartsButNotWhole(h)
  {
    var a := Operation(0, "put", "x", "1", 10, 0);
    var b := Operation(1, "put", "y", "1", 5, 5);
    var h := [a, b];
    forall s ensures !ExplainsStore(s, h) { CyclicOrder(s, a, b); }
    SortedKeys(h);
    var parts := SplitByKey(h);
    forall i | 0 <= i < |parts| ensures RegisterLinearizable(parts[i]) {
      var k := Sort(KeysOf(h), StringLe)[i];
      assert h[1..] == [b] && [b][1..] == [];
      assert ForKey([b], k) == if k == "y" then [b] + ForKey([], k) else ForKey([], k);
      assert ForKey(h, k) == (if k == "x" then [a] else []) + (if k == "y" then [b] else []);
      assert parts[i] == ForKey(h, k);
      assert ExplainsRegister(parts[i], parts[i]);
    }
    assert PartsButNotWhole(h);
  }

  // ---------------------------------------------------------- the program

  /** One line of the history file after decoding. */
  datatype Line = Blank | NotJson | Entry(client: int, op: string, key: string, value: string, callNS: int, returnNS: int)

  datatype Answer = Ok | Illegal | Unknown

  function OperationsIn(lines: seq<Line>): seq<Operation> {
    if lines == [] then []
    else
      var l := lines[|lines| - 1];
      OperationsIn(lines[..|lines| - 1]) +
      if l.Entry? then [Operation(l.client, l.op, l.key, l.value, l.callNS, l.returnNS)] else []
  }

  /** Every field of the operation is on the line. */
  predicate IsLineOf(l: Line, o: Operation) {
    l == Entry(o.client, o.op, o.key, o.value, o.call, o.ret)
  }

  /** The line at `at[i]` is h[i], every field carried over; all others are blank. */
  ghost predicate WrittenAt(h: seq<Operation>, at: seq<nat>, lines: seq<Line>) {
    && |at| == |h|
    && (forall i, j :: 0 <= i < j < |at| ==> at[i] < at[j])
    && (forall i :: 0 <= i < |at| ==> at[i] < |lines| && IsLineOf(lines[at[i]], h[i]))
    && (forall n: nat :: n < |lines| && n !in at ==> lines[n] == Blank)
  }

  /** The history file records h. */
  ghost predicate Records(lines: seq<Line>, h: seq<Operation>) {
    exists at :: WrittenAt(h, at, lines)
  }

  lemma {:induction false} ReadAsWritten(h: seq<Operation>, at: seq<nat>, lines: seq<Line>)
    requires WrittenAt(h, at, lines)
    ensures OperationsIn(lines) == h
  {
    if lines == [] {
      SomeLine(h, at, lines);
    } else {
      var n := |lines| - 1;
      var front := lines[..n];
      if at != [] && at[|at| - 1] == n {
        LastIsWritten(h, at, lines);
        ReadAsWritten(h[..|h| - 1], at[..|at| - 1], front);
        assert OperationsIn(lines) == OperationsIn(front) + [h[|h| - 1]];
      } else {
        NotWrittenLast(h, at, lines);
        ReadAsWritten(h, at, front);
        assert OperationsIn(lines) == OperationsIn(front);
      }
    }
  }

  lemma SomeLine(h: seq<Operation>, at: seq<nat>, lines: seq<Line>)
    requires WrittenAt(h, at, lines)
    ensures |h| > 0 ==> |lines| > 0
  {
    if |h| > 0 { assert at[0] < |lines|; }
  }

  lemma LastIsWritten(h: seq<Operation>, at: seq<nat>, lines: seq<Line>)
    requires lines != [] && at != [] && WrittenAt(h, at, lines) && at[|at| - 1] == |lines| - 1
    ensures h != [] && IsLineOf(lines[|lines| - 1], h[|h| - 1])
    ensures WrittenAt(h[..|h| - 1], at[..|at| - 1], lines[..|lines| - 1])
  {
    var n, k := |lines| - 1, |at| - 1;
    forall m: nat | m < n && m !in at[..k] ensures lines[m] == Blank {
      assert at == at[..k] + [at[k]];
      assert m !in at;
    }
    forall i | 0 <= i < k ensures at[i] < n { assert at[i] < at[k]; }
  }

  lemma NotWrittenLast(h: seq<Operation>, at: seq<nat>, lines: seq<Line>)
    requires lines != [] && WrittenAt(h, at, lines) && (at == [] || at[|at| - 1] != |lines| - 1)
    ensures lines[|lines| - 1] == Blank && WrittenAt(h, at, lines[..|lines| - 1])
  {
    var n := |lines| - 1;
    forall i | 0 <= i < |at| ensures at[i] < n {
      if i < |at| - 1 { assert at[i] < at[|at| - 1]; }
    }
    assert n !in at;
  }

  /** Any history without lines that are not JSON records what is read from it. */
  lemma {:induction false} WrittenAsRead(lines: seq<Line>)
    requires forall i :: 0 <= i < |lines| ==> !lines[i].NotJson?
    ensures Records(lines, OperationsIn(lines))
  {
    if lines == [] {
      assert WrittenAt([], [], lines);
    } else {
      var n := |lines| - 1;
      WrittenAsRead(lines[..n]);
      var h := OperationsIn(lines[..n]);
      var at :| WrittenAt(h, at, lines[..n]);
      if lines[n].Blank? {
        OneMoreBlank(h, at, lines);
        assert OperationsIn(lines) == h;
      } else {
        var l := lines[n];
        OneMoreEntry(h, at, lines, Operation(l.client, l.op, l.key, l.value, l.callNS, l.returnNS));
      }
    }
  }

  lemma OneMoreBlank(h: seq<Operation>, at: seq<nat>, lines: seq<Line>)
    requires lines != [] && WrittenAt(h, at, lines[..|lines| - 1]) && lines[|lines| - 1].Blank?
    ensures WrittenAt(h, at, lines)
  {
    var n := |lines| - 1;
    assert forall i :: 0 <= i < n ==> lines[..n][i] == lines[i];
    forall m: nat | m < |lines| && m !in at ensures lines[m] == Blank {
      if m < n { assert lines[..n][m] == Blank; }
    }
  }

  lemma OneMoreEntry(h: seq<Operation>, at: seq<nat>, lines: seq<Line>, o: Operation)
    requires lines != [] && WrittenAt(h, at, lines[..|lines| - 1]) && IsLineOf(lines[|lines| - 1], o)
    ensures WrittenAt(h + [o], at + [|lines| - 1], lines)
  {
    var n := |lines| - 1;
    var longer := at + [n];
    assert forall i :: 0 <= i < n ==> lines[..n][i] == lines[i];
    forall m: nat | m < |lines| && m !in longer ensures lines[m] == Blank {
      assert longer[|at|] == n && m != n;
      assert m !in at;
      assert lines[..n][m] == Blank;
    }
  }

  /** A line that makes the history unusable: not JSON, an operation that is neither
      put nor get, or a return before its call. */
  predicate Refused(l: Line) {
    l.NotJson? || (l.Entry? && (l.op !in ["put", "get"] || l.returnNS < l.callNS))
  }

  predicate UsableHistory(lines: seq<Line>) {
    (forall i :: 0 <= i < |lines| ==> !Refused(lines[i])) && OperationsIn(lines) != []
  }

  /** What is assumed of porcupine's search: a decided answer is right about
      every part it was given, one register each. */
  ghost predicate SearchIsRight(search: seq<seq<Operation>> -> Answer) {
    forall parts :: (search(parts) == Ok ==> forall i :: 0 <= i < |parts| ==> RegisterLinearizable(parts[i]))
      && (search(parts) == Illegal ==> exists i :: 0 <= i < |parts| && !RegisterLinearizable(parts[i]))
  }

  /** main: the exit code is a verdict about the history the file records, blank
      lines anywhere, and an unusable, empty or undecided one is never a pass. */
  method CheckHistory(lines: seq<Line>, readFailed: bool, search: seq<seq<Operation>> -> Answer) returns (code: int)
    requires SearchIsRight(search)
    ensures forall h :: Records(lines, h) ==> (code == 0 ==> StoreLinearizable(h)) && (code == 1 ==> !StoreLinearizable(h))
    ensures code == 0 || code == 1 ==> Records(lines, OperationsIn(lines)) && OperationsIn(lines) != []
    ensures readFailed || (exists i :: 0 <= i < |lines| && Refused(lines[i])) || (forall i :: 0 <= i < |lines| ==> lines[i] == Blank) ==> code == 2
    ensures code == 2 <==> (readFailed || !UsableHistory(lines) || search(SplitByKey(OperationsIn(lines))) == Unknown)
    ensures code == 0 || code == 1 || code == 2
  {
    var read := ReadHistory(lines);
    if read.None? || readFailed { return 2; }
    var ops := read.value;
    OnlyHistory(lines);
    if |ops| == 0 { return 2; }
    var parts := Partition(ops);
    Locality(ops);
    match search(parts) {
      case Ok => return 0;
      case Illegal => return 1;
      case Unknown => return 2;
    }
  }

  lemma OnlyHistory(lines: seq<Line>)
    requires forall i :: 0 <= i < |lines| ==> !lines[i].NotJson?
    ensures forall h :: Records(lines, h) <==> h == OperationsIn(lines)
    ensures (forall i :: 0 <= i < |lines| ==> lines[i] == Blank) ==> OperationsIn(lines) == []
  {
    WrittenAsRead(lines);
    forall h | Records(lines, h) ensures h == OperationsIn(lines) {
      var at :| WrittenAt(h, at, lines);
      ReadAsWritten(h, at, lines);
    }
    if forall i :: 0 <= i < |lines| ==> lines[i] == Blank {
      assert WrittenAt([], [], lines);
      ReadAsWritten([], [], lines);
    }
  }

  /** main's loop over the lines, up to the first it refuses. */
  method ReadHistory(lines: seq<Line>) returns (read: Option<seq<Operation>>)
    ensures read.None? <==> exists i :: 0 <= i < |lines| && Refused(lines[i])
    ensures read.Some? ==> read.value == OperationsIn(lines) && CallsBeforeReturns(read.value)
  {
    var ops: seq<Operation> := [];
    for i := 0 to |lines|
      invariant ops == OperationsIn(lines[..i])
      invariant forall j :: 0 <= j < i ==> !Refused(lines[j])
      invariant CallsBeforeReturns(ops)
    {
      assert lines[..i + 1][..i] == lines[..i];
      match lines[i] {
        case Blank =>
        case NotJson =>
          assert Refused(lines[i]);
          return None;
        case Entry(client, op, key, value, callNS, returnNS) =>
          if op != "put" && op != "get" {
            assert Refused(lines[i]);
            return None;
          }
          if returnNS < callNS {
            assert Refused(lines[i]);
            return None;
          }
          ops := ops + [Operation(client, op, key, value, callNS, returnNS)];
      }
    }
    assert lines[..|lines|] == lines;
    return Some(ops);
  }
}
