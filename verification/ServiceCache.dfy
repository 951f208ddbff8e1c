/** The cache of known services (`scamp/servicecache.go`): an index by ident, an index by what a service
    offers, and the scan that fills both from the discovery file. */
module ServiceCache {
  import opened Text
  import Json
  import opened ServiceProxy
  import opened Scan

  // ---------- names ----------

  /** The name under which an action is stored. */
  function StoreKey(sector: string, className: string, action: string, version: int64, protocol: string): string {
    ToLower(sector + ":" + className + "." + action + "~" + DecimalInt(version) + "#" + protocol)
  }

  /** The name under which an action is looked up. */
  function SearchKey(sector: string, action: string, version: int64, envelope: string): string {
    ToLower(sector + ":" + action + "~" + DecimalInt(version) + "#" + envelope)
  }

  function ProtocolKeys(p: Proxy, className: string, a: Action): (r: seq<string>)
    ensures |r| == |p.protocols|
  {
    seq(|p.protocols|, k requires 0 <= k < |p.protocols| =>
      StoreKey(p.sector, className, a.name, a.version, p.protocols[k]))
  }

  function ActionKeys(p: Proxy, className: string, actions: seq<Action>): seq<string> {
    if actions == [] then []
    else ActionKeys(p, className, actions[..|actions| - 1]) + ProtocolKeys(p, className, actions[|actions| - 1])
  }

  function ClassKeys(p: Proxy, classes: seq<Class>): seq<string> {
    if classes == [] then []
    else
      var c := classes[|classes| - 1];
      ClassKeys(p, classes[..|classes| - 1]) + ActionKeys(p, c.name, c.actions)
  }

  /** Every name a proxy is stored under, in the order of storing. */
  function Keys(p: Proxy): seq<string> { ClassKeys(p, p.classes) }

  // ---------- the two indexes as values ----------

  datatype State = State(identIndex: map<string, Proxy>, actionIndex: map<string, seq<Proxy>>)

  const EMPTY := State(map[], map[])

  function Bucket(index: map<string, seq<Proxy>>, key: string): seq<Proxy> {
    if key in index then index[key] else []
  }

  function Indexed(index: map<string, seq<Proxy>>, keys: seq<string>, p: Proxy): map<string, seq<Proxy>> {
    if keys == [] then index
    else
      var init, key := Indexed(index, keys[..|keys| - 1], p), keys[|keys| - 1];
      init[key := Bucket(init, key) + [p]]
  }

  datatype Op = Store(p: Proxy) | Remove(p: Proxy)

  /** `storeNoLock` replaces what is known under the ident but only ever adds to the other index;
      `removeNoLock` does not touch that index. */
  function Apply(s: State, op: Op): State {
    match op
    case Store(p) => State(s.identIndex[p.ident := p], Indexed(s.actionIndex, Keys(p), p))
    case Remove(p) => s.(identIndex := s.identIndex - {p.ident})
  }

  function ApplyAll(s: State, ops: seq<Op>): State {
    if ops == [] then s else Apply(ApplyAll(s, ops[..|ops| - 1]), ops[|ops| - 1])
  }

  lemma ApplyAllSnoc(s: State, ops: seq<Op>, op: Op)
    ensures ApplyAll(s, ops + [op]) == Apply(ApplyAll(s, ops), op)
  {
    assert (ops + [op])[..|ops|] == ops;
  }

  // ---------- scanning ----------

  /** How a cache reads records: the text form of JSON, which records validate, and whether that is checked. */
  datatype Rules = Rules(codec: Json.Codec, validate: Proxy -> bool, verify: bool)

  predicate Accepts(rules: Rules, p: Proxy) { rules.verify ==> rules.validate(p) }

  /** A record that does not validate removes what was known under its ident. */
  function OpFor(rules: Rules, p: Proxy): Op { if Accepts(rules, p) then Store(p) else Remove(p) }

  datatype ScanError = ExpectedNewline | BadRecord(failure: Failure)

  /** What the records of a file do to the cache, up to the first that cannot be decoded. */
  function ScanOps(rules: Rules, e: Extraction): (seq<Op>, Option<ScanError>)
    decreases |e.records|
  {
    if e.records == [] then ([], if e.expectedNewline then Some(ExpectedNewline) else None)
    else
      var r := e.records[0];
      var p := DecodeProxy(rules.codec, r.classRecords, r.cert, r.sig);
      if p.Failure? then ([], Some(BadRecord(p.error)))
      else
        var rest := ScanOps(rules, e.(records := e.records[1..]));
        ([OpFor(rules, p.value)] + rest.0, rest.1)
  }

  /** `DoScan`: the cache is cleared, then the records of the file are applied. */
  function Scanned(rules: Rules, lines: seq<Bytes>): (State, Option<ScanError>) {
    var (ops, error) := ScanOps(rules, Extract(lines));
    (ApplyAll(EMPTY, ops), error)
  }

  // ---------- the cache object ----------

  lemma ToSeparator(lines: seq<Bytes>)
    ensures var n := SpanLines(lines, IsSeparator);
            Extract(lines) == if n == |lines| then Extraction([], false) else ExtractRecord(DropThrough(lines, n))
  {
  }

  /** The lines behind a class record and its blank line. */
  function BehindHead(rest: seq<Bytes>): seq<Bytes> { if |rest| > 1 then rest[2..] else [] }

  lemma RecordHead(rest: seq<Bytes>)
    ensures ExtractRecord(rest)
         == if rest == [] || rest[0] == [] then Extraction([], false)
            else if |rest| > 1 && rest[1] != [] then Extraction([], true)
            else ExtractBody(rest[0], BehindHead(rest))
  {
  }

  /** How an attempt to read a record ends: the scan is over, in error, to go on, or has a record. */
  datatype Piece = NoMore | NoBlankLine | Incomplete | Complete(r: Record)

  /** A `bufio.Scanner` over lines; the token is empty once there are no more. */
  class Scanner {
    var lines: seq<Bytes>
    var token: Bytes

    constructor (lines: seq<Bytes>)
      ensures this.lines == lines
    {
      this.lines, token := lines, [];
    }

    method Scan() returns (ok: bool)
      modifies this
      ensures ok <==> old(lines) != []
      ensures ok ==> token == old(lines)[0] && lines == old(lines)[1..]
      ensures !ok ==> token == [] && lines == []
    {
      ok := lines != [];
      if ok {
        token, lines := lines[0], lines[1..];
      } else {
        token := [];
      }
    }

    /** Reads up to and including the next separator. */
    method SkipToSeparator() returns (found: bool)
      modifies this
      ensures found <==> SpanLines(old(lines), IsSeparator) < |old(lines)|
      ensures lines == DropThrough(old(lines), SpanLines(old(lines), IsSeparator))
    {
      ghost var n: nat := 0;
      while true
        invariant n <= |old(lines)| && lines == old(lines)[n..]
        invariant SpanLines(old(lines), IsSeparator) == n + SpanLines(lines, IsSeparator)
        decreases |lines|
      {
        found := Scan();
        if token == SEP || !found { break; }
        n := n + 1;
      }
    }

    /** Reads lines up to one that `stop` accepts, which is used up; returns the others joined. */
    method ReadBlock(stop: Bytes -> bool) returns (text: Bytes, any: bool)
      modifies this
      ensures var n := SpanLines(old(lines), stop);
              && (any <==> n > 0)
              && text == Join(old(lines)[..n])
              && lines == DropThrough(old(lines), n)
    {
      var buffer: Bytes := [];
      ghost var n: nat := 0;
      while true
        invariant n <= |old(lines)| && lines == old(lines)[n..]
        invariant SpanLines(old(lines), stop) == n + SpanLines(lines, stop)
        invariant buffer == Unlines(old(lines)[..n])
        decreases |lines|
      {
        var ok := Scan();
        if !ok || stop(token) { break; }
        TakeSnoc(old(lines), n);
        UnlinesConcat(old(lines)[..n], [token]);
        assert Unlines([token]) == token + NEWLINE + [];
        buffer := buffer + token + NEWLINE;
        n := n + 1;
      }
      any := |buffer| > 0;
      if any {
        JoinNewline(old(lines)[..n]);
        text := buffer[..|buffer| - 1];
      } else {
        text := [];
      }
    }

    /** Reads what follows a class record and its blank line; nothing is found if either block is empty. */
    method ReadBody(ghost classRecords: Bytes) returns (cert: Bytes, sig: Bytes, found: bool)
      modifies this
      ensures |lines| <= |old(lines)|
      ensures ExtractBody(classRecords, old(lines))
           == if found then Cons(Record(classRecords, cert, sig), Extract(lines)) else Extract(lines)
    {
      sig := [];
      cert, found := ReadBlock(IsBlank);
      if found {
        sig, found := ReadBlock(EndsSig);
      }
    }

    /** Reads up to the end of the next record of the file. */
    method ReadRecord() returns (piece: Piece)
      modifies this
      ensures piece.NoMore? ==> Extract(old(lines)) == Extraction([], false)
      ensures piece.NoBlankLine? ==> Extract(old(lines)) == Extraction([], true)
      ensures piece.Incomplete? ==> |lines| < |old(lines)| && Extract(old(lines)) == Extract(lines)
      ensures piece.Complete? ==> |lines| < |old(lines)| && Extract(old(lines)) == Cons(piece.r, Extract(lines))
    {
      var found := SkipToSeparator();
      ToSeparator(old(lines));
      if !found { return NoMore; }
      ghost var rest := lines;
      RecordHead(rest);
      var _ := Scan();
      if |token| == 0 { return NoMore; }
      var classRecordsRaw := token;
      var _ := Scan();
      if |token| != 0 { return NoBlankLine; }
      assert lines == BehindHead(rest);
      var certRaw, sigRaw, complete := ReadBody(classRecordsRaw);
      piece := if complete then Complete(Record(classRecordsRaw, certRaw, sigRaw)) else Incomplete;
    }
  }

  class ServiceCache {
    const codec: Json.Codec
    const validate: Proxy -> bool
    var identIndex: map<string, Proxy>
    var actionIndex: map<string, seq<Proxy>>
    var verifyRecords: bool

    function Contents(): State
      reads this
    {
      State(identIndex, actionIndex)
    }

    function CurrentRules(): Rules
      reads this
    {
      Rules(codec, validate, verifyRecords)
    }

    constructor (codec: Json.Codec, validate: Proxy -> bool)
      ensures Contents() == EMPTY && CurrentRules() == Rules(codec, validate, true)
    {
      this.codec, this.validate := codec, validate;
      identIndex, actionIndex, verifyRecords := map[], map[], true;
    }

    /** As in the code, which has the two the wrong way round. */
    method DisableRecordVerification()
      modifies this`verifyRecords
      ensures verifyRecords
    {
      verifyRecords := true;
    }

    method EnableRecordVerification()
      modifies this`verifyRecords
      ensures !verifyRecords
    {
      verifyRecords := false;
    }

    method StoreNoLock(instance: Proxy)
      modifies this`identIndex, this`actionIndex
      ensures Contents() == Apply(old(Contents()), Store(instance))
    {
      identIndex := identIndex[instance.ident := instance];
      ghost var index := actionIndex;
      for i := 0 to |instance.classes|
        invariant identIndex == old(identIndex)[instance.ident := instance]
        invariant actionIndex == Indexed(index, ClassKeys(instance, instance.classes[..i]), instance)
      {
        var class_ := instance.classes[i];
        StoreClass(instance, class_, index, ClassKeys(instance, instance.classes[..i]));
        assert instance.classes[..i + 1][..i] == instance.classes[..i];
      }
      assert instance.classes[..|instance.classes|] == instance.classes;
    }

    method StoreClass(instance: Proxy, class_: Class, ghost index: map<string, seq<Proxy>>, ghost keys: seq<string>)
      requires actionIndex == Indexed(index, keys, instance)
      modifies this`actionIndex
      ensures actionIndex == Indexed(index, keys + ActionKeys(instance, class_.name, class_.actions), instance)
    {
      assert keys + [] == keys;
      for j := 0 to |class_.actions|
        invariant actionIndex
               == Indexed(index, keys + ActionKeys(instance, class_.name, class_.actions[..j]), instance)
      {
        var action := class_.actions[j];
        ghost var before := ActionKeys(instance, class_.name, class_.actions[..j]);
        StoreAction(instance, class_.name, action, index, keys + before);
        Associate(keys, before, ProtocolKeys(instance, class_.name, action));
        assert class_.actions[..j + 1][..j] == class_.actions[..j];
      }
      assert class_.actions[..|class_.actions|] == class_.actions;
    }

    method StoreAction(instance: Proxy, className: string, action: Action,
                       ghost index: map<string, seq<Proxy>>, ghost keys: seq<string>)
      requires actionIndex == Indexed(index, keys, instance)
      modifies this`actionIndex
      ensures actionIndex == Indexed(index, keys + ProtocolKeys(instance, className, action), instance)
    {
      ghost var names := ProtocolKeys(instance, className, action);
      assert keys + names[..0] == keys;
      for k := 0 to |instance.protocols|
        invariant actionIndex == Indexed(index, keys + names[..k], instance)
      {
        var mungedName := StoreKey(instance.sector, className, action.name, action.version, instance.protocols[k]);
        var serviceProxies := [instance];
        if mungedName in actionIndex {
          serviceProxies := actionIndex[mungedName] + [instance];
        }
        assert serviceProxies == Bucket(actionIndex, mungedName) + [instance];
        IndexedSnoc(index, keys + names[..k], names[k], instance);
        TakeSnoc(names, k);
        Associate(keys, names[..k], [names[k]]);
        actionIndex := actionIndex[mungedName := serviceProxies];
      }
      assert names[..|names|] == names;
    }

    method RemoveNoLock(instance: Proxy) returns (ok: bool)
      modifies this`identIndex
      ensures Contents() == Apply(old(Contents()), Remove(instance))
      ensures ok <==> instance.ident in old(identIndex)
    {
      ok := instance.ident in identIndex;
      if !ok {
        assert identIndex - {instance.ident} == identIndex;
        return;
      }
      identIndex := identIndex - {instance.ident};
    }

    method ClearNoLock()
      modifies this`identIndex, this`actionIndex
      ensures Contents() == EMPTY
    {
      identIndex := map[];
      actionIndex := map[];
    }

    method Retrieve(ident: string) returns (instance: Option<Proxy>)
      ensures instance == if ident in identIndex then Some(identIndex[ident]) else None
    {
      if ident !in identIndex { return None; }
      instance := Some(identIndex[ident]);
    }

    /** Fails when nothing is found. */
    method SearchByAction(sector: string, action: string, version: int64, envelope: string)
        returns (instances: seq<Proxy>, found: bool)
      ensures instances == Bucket(actionIndex, SearchKey(sector, action, version, envelope))
      ensures found <==> instances != []
    {
      var mungedName := SearchKey(sector, action, version, envelope);
      instances := if mungedName in actionIndex then actionIndex[mungedName] else [];
      found := |instances| != 0;
    }

    method Size() returns (n: nat)
      ensures n == |identIndex|
    {
      n := |identIndex|;
    }

    /** Every proxy that is known under its ident, once each, in no particular order. */
    method All() returns (proxies: seq<Proxy>, ghost order: seq<string>)
      ensures |proxies| == |identIndex| && forall ident <- identIndex :: identIndex[ident] in proxies
      ensures |order| == |proxies|
      ensures forall i, j | 0 <= i < j < |order| :: order[i] != order[j]
      ensures forall i | 0 <= i < |order| :: order[i] in identIndex && proxies[i] == identIndex[order[i]]
    {
      proxies, order := [], [];
      var left := identIndex.Keys;
      while left != {}
        invariant left <= identIndex.Keys && |proxies| == |order| && |order| + |left| == |identIndex.Keys|
        invariant forall i, j | 0 <= i < j < |order| :: order[i] != order[j]
        invariant forall i | 0 <= i < |order| ::
            order[i] in identIndex && order[i] !in left && proxies[i] == identIndex[order[i]]
        invariant forall ident <- identIndex :: ident in left || identIndex[ident] in proxies
        decreases |left|
      {
        var ident :| ident in left;
        proxies, order := proxies + [identIndex[ident]], order + [ident];
        left := left - {ident};
      }
      assert |identIndex| == |identIndex.Keys|;
    }

    /** Decodes a record and stores what it announces, or removes it if it does not validate. */
    method Absorb(classRecords: Bytes, cert: Bytes, sig: Bytes) returns (err: Option<ScanError>)
      modifies this`identIndex, this`actionIndex
      ensures var p := DecodeProxy(codec, classRecords, cert, sig);
              && (p.Failure? ==> err == Some(BadRecord(p.error)) && Contents() == old(Contents()))
              && (p.Success? ==> err == None && Contents() == Apply(old(Contents()), OpFor(CurrentRules(), p.value)))
    {
      var serviceProxy := NewServiceProxy(codec, classRecords, cert, sig);
      if serviceProxy.Failure? { return Some(BadRecord(serviceProxy.error)); }
      if verifyRecords && !validate(serviceProxy.value) {
        var _ := RemoveNoLock(serviceProxy.value);
      } else {
        StoreNoLock(serviceProxy.value);
      }
      err := None;
    }

    /** Clears the cache and fills it from the lines of a discovery file. */
    method DoScan(s: Scanner) returns (err: Option<ScanError>)
      modifies this`identIndex, this`actionIndex, s
      ensures (Contents(), err) == Scanned(CurrentRules(), old(s.lines))
    {
      ClearNoLock();
      ghost var rules := CurrentRules();
      ghost var done: seq<Op> := [];
      ghost var goal := ScanOps(rules, Extract(s.lines));
      assert [] + goal.0 == goal.0;
      while true
        invariant CurrentRules() == rules && Contents() == ApplyAll(EMPTY, done)
        invariant goal == Remaining(rules, done, Extract(s.lines))
        decreases |s.lines|
      {
        assert done + [] == done;
        var piece := s.ReadRecord();
        match piece {
          case NoMore => return None;
          case NoBlankLine => return Some(ExpectedNewline);
          case Incomplete => continue;
          case Complete(_) =>
        }
        var r := piece.r;
        RemainingCons(rules, done, r, Extract(s.lines));
        err := Absorb(r.classRecords, r.cert, r.sig);
        if err.Some? { return err; }
        ghost var op := OpFor(rules, DecodeProxy(codec, r.classRecords, r.cert, r.sig).value);
        ApplyAllSnoc(EMPTY, done, op);
        done := done + [op];
      }
    }
  }

  /** What a scan comes to that has applied `done` and is still to apply the records of `e`. */
  ghost function Remaining(rules: Rules, done: seq<Op>, e: Extraction): (seq<Op>, Option<ScanError>) {
    (done + ScanOps(rules, e).0, ScanOps(rules, e).1)
  }

  lemma RemainingCons(rules: Rules, done: seq<Op>, r: Record, e: Extraction)
    ensures var p := DecodeProxy(rules.codec, r.classRecords, r.cert, r.sig);
            Remaining(rules, done, Cons(r, e))
            == if p.Failure? then (done, Some(BadRecord(p.error)))
               else Remaining(rules, done + [OpFor(rules, p.value)], e)
  {
    var p := DecodeProxy(rules.codec, r.classRecords, r.cert, r.sig);
    var whole := Cons(r, e);
    assert whole.(records := whole.records[1..]) == e;
    if p.Failure? {
      assert done + [] == done;
    } else {
      Associate(done, [OpFor(rules, p.value)], ScanOps(rules, e).0);
    }
  }

  lemma IndexedSnoc(index: map<string, seq<Proxy>>, keys: seq<string>, key: string, p: Proxy)
    ensures Indexed(index, keys + [key], p)
         == Indexed(index, keys, p)[key := Bucket(Indexed(index, keys, p), key) + [p]]
  {
    assert (keys + [key])[..|keys|] == keys;
  }
}
