/** What the cache's two indexes hold after any run of stores and removes, and after a scan. */
module CacheIndex {
  import opened Text
  import opened ServiceProxy
  import Scan
  import opened ServiceCache

  // ---------- which names a proxy is stored under ----------

  /** The `j`-th of the actions, under the `k`-th protocol of the proxy, is named `key`. */
  predicate Names(p: Proxy, className: string, actions: seq<Action>, j: nat, k: nat, key: string) {
    && j < |actions| && k < |p.protocols|
    && StoreKey(p.sector, className, actions[j].name, actions[j].version, p.protocols[k]) == key
  }

  /** The proxy announces `key` through its `i`-th class, that class's `j`-th action and its `k`-th protocol. */
  predicate Announces(p: Proxy, i: nat, j: nat, k: nat, key: string) {
    i < |p.classes| && Names(p, p.classes[i].name, p.classes[i].actions, j, k, key)
  }

  ghost predicate NamedAmong(p: Proxy, className: string, actions: seq<Action>, key: string) {
    exists j: nat, k: nat :: Names(p, className, actions, j, k, key)
  }

  ghost predicate AnnouncedBelow(p: Proxy, n: nat, key: string) {
    exists i: nat, j: nat, k: nat :: i < n && Announces(p, i, j, k, key)
  }

  lemma NamedAmongSnoc(p: Proxy, className: string, actions: seq<Action>, key: string)
    requires actions != []
    ensures var n := |actions| - 1;
            NamedAmong(p, className, actions, key)
            <==> NamedAmong(p, className, actions[..n], key) || key in ProtocolKeys(p, className, actions[n])
  {
    var n := |actions| - 1;
    var keys := ProtocolKeys(p, className, actions[n]);
    if key in keys {
      var k: nat :| k < |keys| && keys[k] == key;
      assert Names(p, className, actions, n, k, key);
    }
    if NamedAmong(p, className, actions[..n], key) {
      var j: nat, k: nat :| Names(p, className, actions[..n], j, k, key);
      assert Names(p, className, actions, j, k, key);
    }
    if NamedAmong(p, className, actions, key) {
      var j: nat, k: nat :| Names(p, className, actions, j, k, key);
      assert if j == n then keys[k] == key else Names(p, className, actions[..n], j, k, key);
    }
  }

  lemma AnnouncedBelowSucc(p: Proxy, n: nat, key: string)
    requires n < |p.classes|
    ensures AnnouncedBelow(p, n + 1, key)
       <==> AnnouncedBelow(p, n, key) || NamedAmong(p, p.classes[n].name, p.classes[n].actions, key)
  {
    var c := p.classes[n];
    if NamedAmong(p, c.name, c.actions, key) {
      var j: nat, k: nat :| Names(p, c.name, c.actions, j, k, key);
      assert Announces(p, n, j, k, key);
    }
    if AnnouncedBelow(p, n + 1, key) {
      var i: nat, j: nat, k: nat :| i < n + 1 && Announces(p, i, j, k, key);
      assert i == n ==> Names(p, c.name, c.actions, j, k, key);
    }
  }

  lemma {:induction false} ActionKeysIff(p: Proxy, className: string, actions: seq<Action>, key: string)
    ensures key in ActionKeys(p, className, actions) <==> NamedAmong(p, className, actions, key)
    decreases |actions|
  {
    if actions != [] {
      ActionKeysIff(p, className, actions[..|actions| - 1], key);
      NamedAmongSnoc(p, className, actions, key);
    }
  }

  lemma {:induction false} ClassKeysIff(p: Proxy, n: nat, key: string)
    requires n <= |p.classes|
    ensures key in ClassKeys(p, p.classes[..n]) <==> AnnouncedBelow(p, n, key)
  {
    if n > 0 {
      assert p.classes[..n][..n - 1] == p.classes[..n - 1];
      ClassKeysIff(p, n - 1, key);
      ActionKeysIff(p, p.classes[n - 1].name, p.classes[n - 1].actions, key);
      AnnouncedBelowSucc(p, n - 1, key);
    }
  }

  /** A proxy is stored under the names of its class, action and protocol triples, and no others. */
  lemma KeysIff(p: Proxy, key: string)
    ensures key in Keys(p) <==> exists i: nat, j: nat, k: nat :: Announces(p, i, j, k, key)
  {
    ClassKeysIff(p, |p.classes|, key);
    assert p.classes[..|p.classes|] == p.classes;
    if i: nat, j: nat, k: nat :| Announces(p, i, j, k, key) { assert i < |p.classes|; }
  }

  // ---------- the action index refines a search through all stores ----------

  function Copies(p: Proxy, n: nat): (r: seq<Proxy>)
    ensures |r| == n && forall i | 0 <= i < n :: r[i] == p
  {
    seq(n, _ => p)
  }

  /** The naive search: every proxy ever stored, in the order of storing, once for each of its names that is `key`. */
  function Naive(ops: seq<Op>, key: string): seq<Proxy> {
    if ops == [] then []
    else
      var op := ops[|ops| - 1];
      Naive(ops[..|ops| - 1], key) + if op.Store? then Copies(op.p, multiset(Keys(op.p))[key]) else []
  }

  lemma {:induction false} IndexedBucket(index: map<string, seq<Proxy>>, keys: seq<string>, p: Proxy, key: string)
    ensures Bucket(Indexed(index, keys, p), key) == Bucket(index, key) + Copies(p, multiset(keys)[key])
    ensures key in Indexed(index, keys, p) <==> key in index || key in keys
    decreases |keys|
  {
    if keys == [] {
      assert Copies(p, 0) == [];
    } else {
      var n := |keys| - 1;
      var m := multiset(keys[..n])[key];
      IndexedBucket(index, keys[..n], p, key);
      CountLast(keys, key);
      if keys[n] == key { CopiesSnoc(Bucket(index, key), p, m); }
    }
  }

  lemma CountLast<T>(s: seq<T>, x: T)
    requires s != []
    ensures multiset(s)[x] == multiset(s[..|s| - 1])[x] + if s[|s| - 1] == x then 1 else 0
    ensures x in s <==> x in s[..|s| - 1] || s[|s| - 1] == x
  {
    InitLast(s);
    assert multiset(s) == multiset(s[..|s| - 1]) + multiset{s[|s| - 1]};
  }

  lemma CopiesSnoc(before: seq<Proxy>, p: Proxy, n: nat)
    ensures before + Copies(p, n) + [p] == before + Copies(p, n + 1)
  {
  }

  /** After any run, each bucket is what the naive search returns, and no bucket is empty. */
  lemma {:induction false} IndexRefinesSearch(ops: seq<Op>, key: string)
    ensures var index := ApplyAll(EMPTY, ops).actionIndex;
            && Bucket(index, key) == Naive(ops, key)
            && (key in index <==> Naive(ops, key) != [])
    decreases |ops|
  {
    if ops != [] {
      var init, op := ops[..|ops| - 1], ops[|ops| - 1];
      IndexRefinesSearch(init, key);
      if op.Store? {
        IndexedBucket(ApplyAll(EMPTY, init).actionIndex, Keys(op.p), op.p, key);
        assert key in Keys(op.p) <==> multiset(Keys(op.p))[key] > 0;
      }
    }
  }

  lemma {:induction false} NaiveIff(ops: seq<Op>, key: string, p: Proxy)
    ensures p in Naive(ops, key) <==> Store(p) in ops && key in Keys(p)
    decreases |ops|
  {
    if ops != [] {
      var init, op := ops[..|ops| - 1], ops[|ops| - 1];
      NaiveIff(init, key, p);
      InitLast(ops);
      if op.Store? {
        var n := multiset(Keys(op.p))[key];
        assert key in Keys(op.p) <==> n > 0;
        assert n > 0 ==> Copies(op.p, n)[0] == op.p;
      }
    }
  }

  // ---------- names and queries ----------

  /** What is stored under a class, an action and a protocol is found under the dotted name. */
  lemma StoredUnderDottedName(sector: string, className: string, action: string, version: int64, protocol: string)
    ensures StoreKey(sector, className, action, version, protocol)
         == SearchKey(sector, className + "." + action, version, protocol)
  {
    assert sector + ":" + className + "." + action == sector + ":" + (className + "." + action);
  }

  lemma LowerKeeps(s: string, x: char)
    requires x !in s && !('a' <= x <= 'z')
    ensures x !in ToLower(s)
  {
  }

  lemma LowerDecimal(i: int)
    ensures ToLower(DecimalInt(i)) == DecimalInt(i) && '#' !in DecimalInt(i)
  {
    DecimalIntChars(i);
    assert forall c <- DecimalInt(i) :: LowerChar(c) == c;
  }

  lemma KeyParts(sector: string, action: string, version: int64, envelope: string)
    ensures SearchKey(sector, action, version, envelope)
         == ToLower(sector)
            + ([':'] + (ToLower(action) + (['~'] + (DecimalInt(version) + (['#'] + ToLower(envelope))))))
  {
    var v := DecimalInt(version);
    LowerDecimal(version);
    assert sector + ":" + action + "~" + v + "#" + envelope
        == sector + ([':'] + (action + (['~'] + (v + (['#'] + envelope)))));
    LowerCons(sector, ':', action + (['~'] + (v + (['#'] + envelope))));
    LowerCons(action, '~', v + (['#'] + envelope));
    LowerCons(v, '#', envelope);
  }

  lemma LowerCons(a: string, x: char, b: string)
    requires !('A' <= x <= 'Z')
    ensures ToLower(a + ([x] + b)) == ToLower(a) + ([x] + ToLower(b))
  {
  }

  /** Two queries look under the same name if and only if they agree, up to letter case, in sector, action
      and envelope, and in the version: for sectors without a colon and actions without a tilde. */
  lemma SearchKeyFaithful(s1: string, a1: string, v1: int64, e1: string, s2: string, a2: string, v2: int64, e2: string)
    requires ':' !in s1 && ':' !in s2 && '~' !in a1 && '~' !in a2
    ensures SearchKey(s1, a1, v1, e1) == SearchKey(s2, a2, v2, e2)
       <==> SameText(s1, s2) && SameText(a1, a2) && v1 == v2 && SameText(e1, e2)
  {
    KeyParts(s1, a1, v1, e1);
    KeyParts(s2, a2, v2, e2);
    if SearchKey(s1, a1, v1, e1) == SearchKey(s2, a2, v2, e2) {
      LowerKeeps(s1, ':');
      LowerKeeps(s2, ':');
      LowerKeeps(a1, '~');
      LowerKeeps(a2, '~');
      LowerDecimal(v1);
      LowerDecimal(v2);
      var r1, r2 := DecimalInt(v1) + (['#'] + ToLower(e1)), DecimalInt(v2) + (['#'] + ToLower(e2));
      UniqueSplit(ToLower(s1), ToLower(a1) + (['~'] + r1), ToLower(s2), ToLower(a2) + (['~'] + r2), ':');
      UniqueSplit(ToLower(a1), r1, ToLower(a2), r2, '~');
      UniqueSplit(DecimalInt(v1), ToLower(e1), DecimalInt(v2), ToLower(e2), '#');
      DecimalIntInjective(v1, v2);
    }
  }

  /** Without those restrictions different queries collide: a colon can belong to either side ... */
  lemma ColonCollides(s: string, a: string, b: string, v: int64, e: string)
    ensures SearchKey(s + ":" + a, b, v, e) == SearchKey(s, a + ":" + b, v, e)
  {
    assert s + ":" + a + ":" + b == s + ":" + (a + ":" + b);
  }

  /** ... and so can what looks like a version. */
  lemma TildeCollides(s: string, a: string, b: string, v: int64, w: int64, e: string)
    ensures SearchKey(s, a + "~" + DecimalInt(v) + "#" + b, w, e)
         == SearchKey(s, a, v, b + "~" + DecimalInt(w) + "#" + e)
  {
    var x, y := DecimalInt(v), DecimalInt(w);
    assert s + ":" + (a + "~" + x + "#" + b) + "~" + y + "#" + e
        == s + ":" + a + "~" + x + "#" + (b + "~" + y + "#" + e);
  }

  /** The proxy offers the action under one of its protocols, up to letter case. */
  ghost predicate Offers(p: Proxy, sector: string, action: string, version: int64, envelope: string) {
    && SameText(p.sector, sector)
    && exists i: nat, j: nat, k: nat :: OffersBy(p, i, j, k, action, version, envelope)
  }

  predicate OffersBy(p: Proxy, i: nat, j: nat, k: nat, action: string, version: int64, envelope: string) {
    && i < |p.classes| && j < |p.classes[i].actions| && k < |p.protocols|
    && SameText(p.classes[i].name + "." + p.classes[i].actions[j].name, action)
    && p.classes[i].actions[j].version == version
    && SameText(p.protocols[k], envelope)
  }

  /** No name of the proxy holds a character that the munged names use as a separator. */
  predicate PlainNames(p: Proxy) {
    && ':' !in p.sector
    && forall i | 0 <= i < |p.classes| ::
        '~' !in p.classes[i].name
        && forall j | 0 <= j < |p.classes[i].actions| :: '~' !in p.classes[i].actions[j].name
  }

  lemma OffersIsAnnounced(p: Proxy, i: nat, j: nat, k: nat,
                          sector: string, action: string, version: int64, envelope: string)
    requires PlainNames(p) && ':' !in sector && '~' !in action
    ensures Announces(p, i, j, k, SearchKey(sector, action, version, envelope))
       <==> SameText(p.sector, sector) && OffersBy(p, i, j, k, action, version, envelope)
  {
    if i < |p.classes| && j < |p.classes[i].actions| && k < |p.protocols| {
      var c, a := p.classes[i].name, p.classes[i].actions[j];
      StoredUnderDottedName(p.sector, c, a.name, a.version, p.protocols[k]);
      assert '~' !in c + "." + a.name;
      SearchKeyFaithful(p.sector, c + "." + a.name, a.version, p.protocols[k], sector, action, version, envelope);
    }
  }

  /** After any run, a search returns exactly the proxies that were ever stored and offer what is searched for. */
  lemma SearchExact(ops: seq<Op>, sector: string, action: string, version: int64, envelope: string, p: Proxy)
    requires PlainNames(p) && ':' !in sector && '~' !in action
    ensures p in Bucket(ApplyAll(EMPTY, ops).actionIndex, SearchKey(sector, action, version, envelope))
       <==> Store(p) in ops && Offers(p, sector, action, version, envelope)
  {
    var key := SearchKey(sector, action, version, envelope);
    IndexRefinesSearch(ops, key);
    NaiveIff(ops, key, p);
    KeysIff(p, key);
    forall i: nat, j: nat, k: nat
      ensures Announces(p, i, j, k, key)
         <==> SameText(p.sector, sector) && OffersBy(p, i, j, k, action, version, envelope)
    {
      OffersIsAnnounced(p, i, j, k, sector, action, version, envelope);
    }
  }

  /** A query that agrees with what is announced up to letter case finds it; no restriction on names is needed. */
  lemma SearchFinds(ops: seq<Op>, sector: string, action: string, version: int64, envelope: string, p: Proxy)
    requires Store(p) in ops && Offers(p, sector, action, version, envelope)
    ensures p in Bucket(ApplyAll(EMPTY, ops).actionIndex, SearchKey(sector, action, version, envelope))
  {
    var key := SearchKey(sector, action, version, envelope);
    IndexRefinesSearch(ops, key);
    NaiveIff(ops, key, p);
    KeysIff(p, key);
    var i: nat, j: nat, k: nat :| OffersBy(p, i, j, k, action, version, envelope);
    var c, a := p.classes[i].name, p.classes[i].actions[j];
    StoredUnderDottedName(p.sector, c, a.name, a.version, p.protocols[k]);
    KeyParts(p.sector, c + "." + a.name, a.version, p.protocols[k]);
    KeyParts(sector, action, version, envelope);
    assert Announces(p, i, j, k, key);
  }

  // ---------- do the two indexes agree? ----------

  predicate Current(s: State, p: Proxy) { p.ident in s.identIndex && s.identIndex[p.ident] == p }

  predicate WellKeyed(s: State) { forall ident <- s.identIndex :: s.identIndex[ident].ident == ident }

  lemma {:induction false} RunsAreWellKeyed(ops: seq<Op>)
    ensures WellKeyed(ApplyAll(EMPTY, ops))
    decreases |ops|
  {
    if ops != [] { RunsAreWellKeyed(ops[..|ops| - 1]); }
  }

  /** What can be found by action is what is known by ident. */
  ghost predicate Agree(s: State) { forall p: Proxy, key: string :: AgreeOn(s, p, key) }

  predicate AgreeOn(s: State, p: Proxy, key: string) {
    p in Bucket(s.actionIndex, key) <==> Current(s, p) && key in Keys(p)
  }

  /** Whether the proxy now known under the ident of `op` is forgotten there but still found by action. */
  predicate LeavesStale(s: State, op: Op) {
    && op.p.ident in s.identIndex
    && Keys(s.identIndex[op.p.ident]) != []
    && op != Store(s.identIndex[op.p.ident])
  }

  lemma AfterStore(s: State, p: Proxy, q: Proxy, key: string)
    ensures q in Bucket(Apply(s, Store(p)).actionIndex, key)
       <==> q in Bucket(s.actionIndex, key) || (q == p && key in Keys(p))
  {
    IndexedBucket(s.actionIndex, Keys(p), p, key);
    assert key in Keys(p) <==> multiset(Keys(p))[key] > 0;
    if q == p && key in Keys(p) { assert Copies(p, multiset(Keys(p))[key])[0] == p; }
  }

  lemma StaleDisagrees(s: State, op: Op)
    requires WellKeyed(s) && LeavesStale(s, op)
    requires AgreeOn(s, s.identIndex[op.p.ident], Keys(s.identIndex[op.p.ident])[0])
    ensures !AgreeOn(Apply(s, op), s.identIndex[op.p.ident], Keys(s.identIndex[op.p.ident])[0])
  {
    var p := s.identIndex[op.p.ident];
    if op.Store? { AfterStore(s, op.p, p, Keys(p)[0]); }
  }

  lemma AgreementKeptOn(s: State, op: Op, q: Proxy, key: string)
    requires !LeavesStale(s, op) && AgreeOn(s, q, key)
    ensures AgreeOn(Apply(s, op), q, key)
  {
    if op.Store? { AfterStore(s, op.p, q, key); }
  }

  /** The indexes keep agreeing through a store or a remove if and only if it does not replace or remove the
      record of a proxy that announces something. */
  lemma AgreementKeptIff(s: State, op: Op)
    requires WellKeyed(s) && Agree(s)
    ensures Agree(Apply(s, op)) <==> !LeavesStale(s, op)
  {
    if LeavesStale(s, op) {
      StaleDisagrees(s, op);
    } else {
      forall q: Proxy, key: string ensures AgreeOn(Apply(s, op), q, key) {
        AgreementKeptOn(s, op, q, key);
      }
    }
  }

  /** The operation that decides what is known under an ident, if any. */
  function LastFor(ops: seq<Op>, ident: string): Option<Op> {
    if ops == [] then None
    else if ops[|ops| - 1].p.ident == ident then Some(ops[|ops| - 1])
    else LastFor(ops[..|ops| - 1], ident)
  }

  lemma {:induction false} IdentIndexIsLast(ops: seq<Op>, ident: string)
    ensures var index, last := ApplyAll(EMPTY, ops).identIndex, LastFor(ops, ident);
            && (ident in index <==> last.Some? && last.value.Store?)
            && (ident in index ==> last.value == Store(index[ident]))
    decreases |ops|
  {
    if ops != [] { IdentIndexIsLast(ops[..|ops| - 1], ident); }
  }

  lemma {:induction false} LastForIs(ops: seq<Op>, ident: string, n: nat)
    requires n < |ops| && ops[n].p.ident == ident
    requires forall m | n < m < |ops| :: ops[m].p.ident != ident
    ensures LastFor(ops, ident) == Some(ops[n])
    decreases |ops|
  {
    if n < |ops| - 1 { LastForIs(ops[..|ops| - 1], ident, n); }
  }

  lemma {:induction false} LastForNone(ops: seq<Op>, ident: string)
    requires forall m | 0 <= m < |ops| :: ops[m].p.ident != ident
    ensures LastFor(ops, ident) == None
    decreases |ops|
  {
    if ops != [] { LastForNone(ops[..|ops| - 1], ident); }
  }

  lemma {:induction false} LastForExists(ops: seq<Op>, ident: string) returns (n: nat)
    requires LastFor(ops, ident).Some?
    ensures n < |ops| && LastFor(ops, ident) == Some(ops[n]) && ops[n].p.ident == ident
    ensures forall m | n < m < |ops| :: ops[m].p.ident != ident
    decreases |ops|
  {
    n := |ops| - 1;
    if ops[n].p.ident != ident {
      n := LastForExists(ops[..n], ident);
    }
  }

  /** Nothing that announces something was replaced or removed later, unless it was stored again. */
  predicate StoresStand(ops: seq<Op>) {
    forall n | 0 <= n < |ops| && ops[n].Store? && Keys(ops[n].p) != [] :: LastFor(ops, ops[n].p.ident) == Some(ops[n])
  }

  lemma StandingAgrees(ops: seq<Op>, p: Proxy, key: string)
    requires StoresStand(ops)
    ensures AgreeOn(ApplyAll(EMPTY, ops), p, key)
  {
    IndexRefinesSearch(ops, key);
    NaiveIff(ops, key, p);
    IdentIndexIsLast(ops, p.ident);
    if Store(p) in ops && key in Keys(p) {
      var n :| 0 <= n < |ops| && ops[n] == Store(p);
      assert Keys(ops[n].p) != [];
    }
    if Current(ApplyAll(EMPTY, ops), p) {
      var n := LastForExists(ops, p.ident);
    }
  }

  lemma FallenDisagrees(ops: seq<Op>, n: nat)
    requires n < |ops| && ops[n].Store? && Keys(ops[n].p) != [] && LastFor(ops, ops[n].p.ident) != Some(ops[n])
    ensures !AgreeOn(ApplyAll(EMPTY, ops), ops[n].p, Keys(ops[n].p)[0])
  {
    var p := ops[n].p;
    var key := Keys(p)[0];
    IndexRefinesSearch(ops, key);
    NaiveIff(ops, key, p);
    IdentIndexIsLast(ops, p.ident);
    assert ops[n] == Store(p) && ops[n] in ops;
  }

  /** After any run the two indexes agree if and only if every store of a proxy that announces something is, or
      repeats, the last operation on its ident. */
  lemma AgreementOfRun(ops: seq<Op>)
    ensures Agree(ApplyAll(EMPTY, ops)) <==> StoresStand(ops)
  {
    if StoresStand(ops) {
      forall p: Proxy, key: string ensures AgreeOn(ApplyAll(EMPTY, ops), p, key) {
        StandingAgrees(ops, p, key);
      }
    } else {
      var n :| 0 <= n < |ops| && ops[n].Store? && Keys(ops[n].p) != [] && LastFor(ops, ops[n].p.ident) != Some(ops[n]);
      FallenDisagrees(ops, n);
    }
  }

  /** In particular they agree after any stores under distinct idents. */
  lemma DistinctStoresAgree(ops: seq<Op>)
    requires forall n | 0 <= n < |ops| :: ops[n].Store?
    requires forall m, n | 0 <= m < n < |ops| :: ops[m].p.ident != ops[n].p.ident
    ensures Agree(ApplyAll(EMPTY, ops))
  {
    forall n | 0 <= n < |ops| ensures LastFor(ops, ops[n].p.ident) == Some(ops[n]) {
      LastForIs(ops, ops[n].p.ident, n);
    }
    AgreementOfRun(ops);
  }

  /** No step of the run leaves a stale proxy behind. This is more than agreement at the end asks for. */
  predicate NeverStale(ops: seq<Op>) {
    forall n | 0 <= n < |ops| :: !LeavesStale(ApplyAll(EMPTY, ops[..n]), ops[n])
  }

  ghost predicate AgreesThroughout(ops: seq<Op>) {
    forall n | 0 <= n <= |ops| :: Agree(ApplyAll(EMPTY, ops[..n]))
  }

  lemma NeverStaleSnoc(ops: seq<Op>, op: Op)
    ensures NeverStale(ops + [op]) <==> NeverStale(ops) && !LeavesStale(ApplyAll(EMPTY, ops), op)
  {
    var all := ops + [op];
    assert all[..|ops|] == ops && all[|ops|] == op;
    assert forall n | 0 <= n < |ops| :: all[..n] == ops[..n] && all[n] == ops[n];
    if NeverStale(ops) && !LeavesStale(ApplyAll(EMPTY, ops), op) {
      forall n | 0 <= n < |all| ensures !LeavesStale(ApplyAll(EMPTY, all[..n]), all[n]) {
        if n < |ops| { assert !LeavesStale(ApplyAll(EMPTY, ops[..n]), ops[n]); }
      }
    }
    if NeverStale(all) {
      forall n | 0 <= n < |ops| ensures !LeavesStale(ApplyAll(EMPTY, ops[..n]), ops[n]) {
        assert !LeavesStale(ApplyAll(EMPTY, all[..n]), all[n]);
      }
    }
  }

  lemma AgreesThroughoutSnoc(ops: seq<Op>, op: Op)
    ensures AgreesThroughout(ops + [op]) <==> AgreesThroughout(ops) && Agree(ApplyAll(EMPTY, ops + [op]))
  {
    var all := ops + [op];
    assert all[..|all|] == all;
    assert forall n | 0 <= n <= |ops| :: all[..n] == ops[..n];
  }

  /** They agree throughout a run, after every operation, if and only if no step leaves a stale proxy behind. */
  lemma {:induction false} AgreementThroughout(ops: seq<Op>)
    ensures NeverStale(ops) <==> AgreesThroughout(ops)
    decreases |ops|
  {
    if ops == [] {
      EmptyAgrees();
    } else {
      var init, op := ops[..|ops| - 1], ops[|ops| - 1];
      InitLast(ops);
      AgreementThroughout(init);
      NeverStaleSnoc(init, op);
      AgreesThroughoutSnoc(init, op);
      RunsAreWellKeyed(init);
      assert init[..|init|] == init;
      if Agree(ApplyAll(EMPTY, init)) { AgreementKeptIff(ApplyAll(EMPTY, init), op); }
    }
  }

  lemma EmptyAgrees()
    ensures Agree(EMPTY)
  {
  }

  /** A proxy with one name. */
  const LONE := EMPTY_PROXY.(ident := "logger:1", sector := "main", protocols := ["json"],
                             classes := [Class("Logger", [Action("info", "", 1)])])

  /** The indexes do disagree: a proxy that was stored and then removed is unknown under its ident and still found. */
  lemma RemovedIsStillFound()
    ensures var s := ApplyAll(EMPTY, [Store(LONE), Remove(LONE)]);
            && LONE.ident !in s.identIndex
            && LONE in Bucket(s.actionIndex, SearchKey("main", "logger.INFO", 1, "json"))
            && !Agree(s)
  {
    var ops, key := [Store(LONE), Remove(LONE)], SearchKey("main", "logger.INFO", 1, "json");
    assert ops[0] == Store(LONE) && ops[1] == Remove(LONE);
    assert LastFor(ops, LONE.ident) == Some(Remove(LONE));
    IdentIndexIsLast(ops, LONE.ident);
    assert ToLower("Logger" + "." + "info") == ToLower("logger.INFO");
    assert OffersBy(LONE, 0, 0, 0, "logger.INFO", 1, "json");
    SearchFinds(ops, "main", "logger.INFO", 1, "json", LONE);
    IndexRefinesSearch(ops, key);
    NaiveIff(ops, key, LONE);
    assert !AgreeOn(ApplyAll(EMPTY, ops), LONE, key);
  }

  // ---------- the last record decides ----------

  function Decoded(rules: Rules, r: Scan.Record): Result<Proxy, ServiceProxy.Failure> {
    DecodeProxy(rules.codec, r.classRecords, r.cert, r.sig)
  }

  /** A record is refused, and what was known under its ident forgotten, only while records are verified and if it
      does not validate; otherwise it is stored. */
  lemma RefusedIff(rules: Rules, p: Proxy, s: State)
    ensures rules.verify && !rules.validate(p) <==> p.ident !in Apply(s, OpFor(rules, p)).identIndex
    ensures !(rules.verify && !rules.validate(p)) ==> Apply(s, OpFor(rules, p)).identIndex == s.identIndex[p.ident := p]
  {
  }

  /** A scan applies the records one for one, in order, and stops at the first that cannot be decoded. */
  lemma {:induction false} ScanOpsAre(rules: Rules, e: Scan.Extraction)
    ensures var (ops, error) := ScanOps(rules, e);
            && |ops| <= |e.records|
            && (forall k | 0 <= k < |ops| ::
                Decoded(rules, e.records[k]).Success? && ops[k] == OpFor(rules, Decoded(rules, e.records[k]).value))
            && (|ops| == |e.records| ==> error == if e.expectedNewline then Some(ExpectedNewline) else None)
            && (|ops| < |e.records| ==>
                var r := Decoded(rules, e.records[|ops|]);
                r.Failure? && error == Some(BadRecord(r.error)))
    decreases |e.records|
  {
    if e.records != [] && Decoded(rules, e.records[0]).Success? {
      ScanOpsAre(rules, e.(records := e.records[1..]));
    }
  }

  /** The `n`-th record is the last one of its ident. */
  predicate LastOfIdent(rules: Rules, records: seq<Scan.Record>, n: nat)
    requires forall k | 0 <= k < |records| :: Decoded(rules, records[k]).Success?
    requires n < |records|
  {
    forall m | n < m < |records| :: Decoded(rules, records[m]).value.ident != Decoded(rules, records[n]).value.ident
  }

  /** After a scan without error, the last record of each ident decides: if it is accepted it is what is known
      under that ident, if not nothing is; idents without a record are not known. */
  lemma LastRecordDecides(rules: Rules, lines: seq<Bytes>, ident: string)
    requires Scanned(rules, lines).1 == None
    ensures var records, index := Scan.Extract(lines).records, Scanned(rules, lines).0.identIndex;
            && (forall k | 0 <= k < |records| :: Decoded(rules, records[k]).Success?)
            && (forall n | 0 <= n < |records| && LastOfIdent(rules, records, n) ::
                var p := Decoded(rules, records[n]).value;
                p.ident == ident ==>
                  if Accepts(rules, p) then ident in index && index[ident] == p else ident !in index)
            && ((forall n | 0 <= n < |records| :: Decoded(rules, records[n]).value.ident != ident) ==>
                ident !in index)
  {
    var e := Scan.Extract(lines);
    var ops := ScanOps(rules, e).0;
    ScanOpsAre(rules, e);
    IdentIndexIsLast(ops, ident);
    assert forall k | 0 <= k < |ops| :: ops[k].p == Decoded(rules, e.records[k]).value;
    forall n | 0 <= n < |ops| && LastOfIdent(rules, e.records, n) && ops[n].p.ident == ident
      ensures LastFor(ops, ident) == Some(ops[n])
    {
      LastForIs(ops, ident, n);
    }
    if forall n | 0 <= n < |ops| :: ops[n].p.ident != ident { LastForNone(ops, ident); }
  }

  predicate LastOp(ops: seq<Op>, n: nat)
    requires n < |ops|
  {
    forall m | n < m < |ops| :: ops[m].p.ident != ops[n].p.ident
  }

  /** The positions of the stores whose proxy is still known after the run. */
  function Surviving(ops: seq<Op>): set<nat> {
    set n: nat | n < |ops| && ops[n].Store? && LastOp(ops, n)
  }

  lemma {:induction false} ImageSize<A, B>(domain: set<A>, image: set<B>, f: A -> B)
    requires forall x, y | x in domain && y in domain && f(x) == f(y) :: x == y
    requires image == set x | x in domain :: f(x)
    ensures |image| == |domain|
  {
    if domain != {} {
      var x :| x in domain;
      ImageSize(domain - {x}, image - {f(x)}, f);
    }
  }

  lemma SurvivingIff(ops: seq<Op>, ident: string)
    ensures ident in ApplyAll(EMPTY, ops).identIndex <==> exists n :: n in Surviving(ops) && ops[n].p.ident == ident
  {
    IdentIndexIsLast(ops, ident);
    if LastFor(ops, ident).Some? && LastFor(ops, ident).value.Store? {
      var n := LastForExists(ops, ident);
      assert n in Surviving(ops);
    }
    if n :| n in Surviving(ops) && ops[n].p.ident == ident { LastForIs(ops, ident, n); }
  }

  function IdentOf(ops: seq<Op>, n: nat): string { if n < |ops| then ops[n].p.ident else "" }

  /** After any run, the known idents are those whose last operation is a store: `Size` counts these operations,
      and `All` lists their proxies, once each. */
  lemma SizeCountsSurviving(ops: seq<Op>)
    ensures var index := ApplyAll(EMPTY, ops).identIndex;
            && index.Keys == (set n | n in Surviving(ops) :: IdentOf(ops, n))
            && |index| == |Surviving(ops)|
  {
    var index := ApplyAll(EMPTY, ops).identIndex;
    var image := set n | n in Surviving(ops) :: IdentOf(ops, n);
    forall ident: string ensures ident in index.Keys <==> ident in image {
      SurvivingIff(ops, ident);
    }
    ImageSize(Surviving(ops), image, n => IdentOf(ops, n));
    assert |index| == |index.Keys|;
  }
}
