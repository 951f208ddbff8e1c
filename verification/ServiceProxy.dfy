/** Service records: their JSON form, printed and parsed (`scamp/serviceproxy.go`). */
module ServiceProxy {
  import opened Text
  import opened Json

  datatype Action = Action(name: string, crudTags: string, version: int64)

  datatype Class = Class(name: string, actions: seq<Action>)

  /** The object that a record may carry among its protocols, with its lists left unread. */
  datatype Extension = Extension(
    vmin: int64,
    vmaj: int64,
    acSec: seq<Json>,
    acName: seq<Json>,
    acVer: seq<Json>,
    acEnv: seq<Json>,
    acFlag: seq<Json>,
    acNs: seq<Json>)

  const NO_EXTENSION := Extension(0, 0, [], [], [], [], [], [])

  /** `timestamp` counts millionths of a second. */
  datatype Proxy = Proxy(
    version: int64,
    ident: string,
    sector: string,
    weight: int64,
    announceInterval: int64,
    connspec: string,
    protocols: seq<string>,
    classes: seq<Class>,
    extension: Option<Extension>,
    rawClassRecords: Bytes,
    rawCert: Bytes,
    rawSig: Bytes,
    timestamp: int)

  // ---------- printing ----------

  function ActionToJson(a: Action): Json { Arr([Str(a.name), Str(a.crudTags), Int(a.version)]) }

  function ActionsToJson(actions: seq<Action>): (r: seq<Json>)
    ensures |r| == |actions|
  {
    seq(|actions|, i requires 0 <= i < |actions| => ActionToJson(actions[i]))
  }

  function ClassToJson(c: Class): Json { Arr([Str(c.name)] + ActionsToJson(c.actions)) }

  function ClassesToJson(classes: seq<Class>): (r: seq<Json>)
    ensures |r| == |classes|
  {
    seq(|classes|, i requires 0 <= i < |classes| => ClassToJson(classes[i]))
  }

  function StringsToJson(strings: seq<string>): (r: seq<Json>)
    ensures |r| == |strings|
  {
    seq(|strings|, i requires 0 <= i < |strings| => Str(strings[i]))
  }

  /** The nine entries of a class record. */
  function Entries(p: Proxy): seq<Json> {
    [Int(p.version), Str(p.ident), Str(p.sector), Int(p.weight), Int(p.announceInterval), Str(p.connspec),
     Arr(StringsToJson(p.protocols)), Arr(ClassesToJson(p.classes)), Fixed(p.timestamp)]
  }

  function ProxyToJson(p: Proxy): Json { Arr(Entries(p)) }

  /** Builds the entry of one class, action by action. */
  method MarshalClass(c: Class) returns (entry: Json)
    ensures entry == ClassToJson(c)
  {
    var elems := [Str(c.name)];
    for j := 0 to |c.actions|
      invariant elems == [Str(c.name)] + ActionsToJson(c.actions)[..j]
    {
      var action := c.actions[j];
      elems := elems + [Arr([Str(action.name), Str(action.crudTags), Int(action.version)])];
    }
    entry := Arr(elems);
  }

  method MarshalJSON(codec: Codec, p: Proxy) returns (b: Bytes)
    ensures b == codec.encode(ProxyToJson(p))
  {
    var classSpecs: seq<Json> := [];
    for i := 0 to |p.classes|
      invariant classSpecs == ClassesToJson(p.classes)[..i]
    {
      var entry := MarshalClass(p.classes[i]);
      classSpecs := classSpecs + [entry];
    }
    assert classSpecs == ClassesToJson(p.classes);
    var arr := [Int(p.version), Str(p.ident), Str(p.sector), Int(p.weight), Int(p.announceInterval), Str(p.connspec),
                Arr(StringsToJson(p.protocols)), Arr(classSpecs), Fixed(p.timestamp)];
    b := codec.encode(Arr(arr));
  }

  // ---------- parsing ----------

  /** `Panics`: the record makes the decoder index past the end of a list, or follow a null. */
  datatype Failure = Malformed | Panics

  function Prepend<T>(done: seq<T>, r: Result<seq<T>, Failure>): Result<seq<T>, Failure> {
    match r
    case Success(rest) => Success(done + rest)
    case Failure(e) => Failure(e)
  }

  /** The version of an action: an integer, or a string that spells one. */
  function DecodeVersion(v: Json): Option<int64> {
    match v
    case Str(s) => ParseInt(s)
    case _ => DecodeInt(v, 0)
  }

  /** An action is a list of name, tags and, optionally, version; further entries are ignored. */
  function DecodeAction(spec: Json): Result<Action, Failure> {
    var entries := DecodeArr(spec);
    if entries.None? then Failure(Malformed)
    else if |entries.value| == 0 then Failure(Panics)
    else
      var name := DecodeStr(entries.value[0], "");
      if name.None? then Failure(Malformed)
      else if |entries.value| == 1 then Failure(Panics)
      else
        var tags := DecodeStr(entries.value[1], "");
        if tags.None? then Failure(Malformed)
        else if |entries.value| == 2 then Success(Action(name.value, tags.value, 1))
        else
          var version := DecodeVersion(entries.value[2]);
          if version.None? then Failure(Malformed) else Success(Action(name.value, tags.value, version.value))
  }

  function DecodeActions(specs: seq<Json>): Result<seq<Action>, Failure> {
    if specs == [] then Success([])
    else
      var action := DecodeAction(specs[0]);
      if action.Failure? then Failure(action.error) else Prepend([action.value], DecodeActions(specs[1..]))
  }

  /** A class is a list of its name and at least one action. */
  function DecodeClass(entries: seq<Json>): Result<Class, Failure> {
    if |entries| < 2 then Failure(Malformed)
    else
      var name := DecodeStr(entries[0], "");
      if name.None? then Failure(Malformed)
      else
        var actions := DecodeActions(entries[1..]);
        if actions.Failure? then Failure(actions.error) else Success(Class(name.value, actions.value))
  }

  function DecodeClasses(rawClasses: seq<seq<Json>>): Result<seq<Class>, Failure> {
    if rawClasses == [] then Success([])
    else
      var class_ := DecodeClass(rawClasses[0]);
      if class_.Failure? then Failure(class_.error) else Prepend([class_.value], DecodeClasses(rawClasses[1..]))
  }

  /** Unmarshalling into a list of lists. */
  function DecodeLists(elems: seq<Json>): Option<seq<seq<Json>>> {
    if elems == [] then Some([])
    else
      match (DecodeArr(elems[0]), DecodeLists(elems[1..]))
      case (Some(first), Some(rest)) => Some([first] + rest)
      case _ => None
  }

  /** Unmarshalling one member of an extension object; unknown names are skipped. */
  function DecodeMember(x: Extension, name: string, v: Json): Option<Extension> {
    if name == "vmin" then
      match DecodeInt(v, x.vmin) case Some(i) => Some(x.(vmin := i)) case None => None
    else if name == "vmaj" then
      match DecodeInt(v, x.vmaj) case Some(i) => Some(x.(vmaj := i)) case None => None
    else if name == "acsec" then
      match DecodeArr(v) case Some(l) => Some(x.(acSec := l)) case None => None
    else if name == "acname" then
      match DecodeArr(v) case Some(l) => Some(x.(acName := l)) case None => None
    else if name == "acver" then
      match DecodeArr(v) case Some(l) => Some(x.(acVer := l)) case None => None
    else if name == "acenv" then
      match DecodeArr(v) case Some(l) => Some(x.(acEnv := l)) case None => None
    else if name == "acflag" then
      match DecodeArr(v) case Some(l) => Some(x.(acFlag := l)) case None => None
    else if name == "acns" then
      match DecodeArr(v) case Some(l) => Some(x.(acNs := l)) case None => None
    else Some(x)
  }

  function DecodeMembers(x: Extension, fields: seq<(string, Json)>): Option<Extension>
    decreases |fields|
  {
    if fields == [] then Some(x)
    else
      match DecodeMember(x, fields[0].0, fields[0].1)
      case Some(x') => DecodeMembers(x', fields[1..])
      case None => None
  }

  function DecodeExtension(v: Json): Option<Extension> {
    match v
    case Obj(fields) => DecodeMembers(NO_EXTENSION, fields)
    case _ => None
  }

  /** What the list of protocols yields: its strings, and the last of its objects that can be read. */
  datatype Protocols = Protocols(names: seq<string>, extension: Option<Extension>)

  /** Strings and extension objects are kept, a null makes the decoder panic, anything else is passed over. */
  function DecodeProtocols(found: Protocols, elems: seq<Json>): Result<Protocols, Failure>
    decreases |elems|
  {
    if elems == [] then Success(found)
    else if elems[0].Null? then Failure(Panics)
    else if elems[0].Str? then DecodeProtocols(found.(names := found.names + [elems[0].s]), elems[1..])
    else
      var x := DecodeExtension(elems[0]);
      DecodeProtocols(if x.Some? then found.(extension := x) else found, elems[1..])
  }

  /** The six leading entries, in order: the first that is missing or of the wrong type decides. */
  function DecodeLeading(p: Proxy, e: seq<Json>): Result<Proxy, Failure> {
    var version := IntAt(e, 0);
    if version.Failure? then Failure(version.error)
    else
      var ident := StrAt(e, 1);
      if ident.Failure? then Failure(ident.error)
      else
        var sector := StrAt(e, 2);
        if sector.Failure? then Failure(sector.error)
        else
          var weight := IntAt(e, 3);
          if weight.Failure? then Failure(weight.error)
          else
            var interval := IntAt(e, 4);
            if interval.Failure? then Failure(interval.error)
            else
              var connspec := StrAt(e, 5);
              if connspec.Failure? then Failure(connspec.error)
              else
                Success(p.(version := version.value, ident := ident.value, sector := sector.value,
                           weight := weight.value, announceInterval := interval.value, connspec := connspec.value))
  }

  /** Indexing a list past its end panics. */
  function IntAt(e: seq<Json>, i: nat): Result<int64, Failure> {
    if i >= |e| then Failure(Panics)
    else match DecodeInt(e[i], 0) case Some(n) => Success(n) case None => Failure(Malformed)
  }

  function StrAt(e: seq<Json>, i: nat): Result<string, Failure> {
    if i >= |e| then Failure(Panics)
    else match DecodeStr(e[i], "") case Some(s) => Success(s) case None => Failure(Malformed)
  }

  /** The protocols and the classes; a ninth entry is never looked at. */
  function DecodeTrailing(p: Proxy, e: seq<Json>): Result<Proxy, Failure>
    requires |e| >= 6
  {
    if |e| < 7 then Failure(Panics)
    else
      var rawProtocols := DecodeArr(e[6]);
      if rawProtocols.None? then Failure(Malformed)
      else
        var protocols := DecodeProtocols(Protocols([], None), rawProtocols.value);
        if protocols.Failure? then Failure(protocols.error)
        else if |e| < 8 then Failure(Panics)
        else
          var elems := DecodeArr(e[7]);
          var rawClasses := if elems.None? then None else DecodeLists(elems.value);
          if rawClasses.None? then Failure(Malformed)
          else
            var classes := DecodeClasses(rawClasses.value);
            if classes.Failure? then Failure(classes.error)
            else
              Success(p.(protocols := protocols.value.names, extension := protocols.value.extension,
                         classes := classes.value))
  }

  const EMPTY_PROXY := Proxy(0, "", "", 0, 0, "", [], [], None, [], [], [], 0)

  function DecodeEntries(e: seq<Json>, classRecords: Bytes, cert: Bytes, sig: Bytes): Result<Proxy, Failure> {
    var start := EMPTY_PROXY.(rawClassRecords := classRecords, rawCert := cert, rawSig := sig);
    var leading := DecodeLeading(start, e);
    if leading.Failure? then leading else DecodeTrailing(leading.value, e)
  }

  /** `newServiceProxy`. */
  function DecodeProxy(codec: Codec, classRecords: Bytes, cert: Bytes, sig: Bytes): Result<Proxy, Failure> {
    var v := codec.decode(classRecords);
    if v.None? then Failure(Malformed)
    else
      var e := DecodeArr(v.value);
      if e.None? then Failure(Malformed) else DecodeEntries(e.value, classRecords, cert, sig)
  }

  lemma PrependTwice<T>(a: seq<T>, b: seq<T>, r: Result<seq<T>, Failure>)
    ensures Prepend(a, Prepend(b, r)) == Prepend(a + b, r)
  {
    if r.Success? { Associate(a, b, r.value); }
  }

  lemma PrependEmpty<T>(done: seq<T>, r: Result<seq<T>, Failure>)
    ensures Prepend([], r) == r
    ensures Prepend(done, Success([])) == Success(done)
  {
    if r.Success? { assert [] + r.value == r.value; }
    assert done + [] == done;
  }

  method DecodeActionList(specs: seq<Json>) returns (r: Result<seq<Action>, Failure>)
    ensures r == DecodeActions(specs)
  {
    var actions, left := [], specs;
    PrependEmpty(actions, DecodeActions(left));
    while left != []
      invariant Prepend(actions, DecodeActions(left)) == DecodeActions(specs)
      decreases |left|
    {
      var action := DecodeAction(left[0]);
      if action.Failure? { return Failure(action.error); }
      PrependTwice(actions, [action.value], DecodeActions(left[1..]));
      actions, left := actions + [action.value], left[1..];
    }
    PrependEmpty(actions, DecodeActions(left));
    r := Success(actions);
  }

  method DecodeClassList(rawClasses: seq<seq<Json>>) returns (r: Result<seq<Class>, Failure>)
    ensures r == DecodeClasses(rawClasses)
  {
    var classes, left := [], rawClasses;
    PrependEmpty(classes, DecodeClasses(left));
    while left != []
      invariant Prepend(classes, DecodeClasses(left)) == DecodeClasses(rawClasses)
      decreases |left|
    {
      var rawClass := left[0];
      if |rawClass| < 2 { return Failure(Malformed); }
      var className := DecodeStr(rawClass[0], "");
      if className.None? { return Failure(Malformed); }
      var actions := DecodeActionList(rawClass[1..]);
      if actions.Failure? { return Failure(actions.error); }
      var class_ := Class(className.value, actions.value);
      assert DecodeClass(left[0]) == Success(class_);
      PrependTwice(classes, [class_], DecodeClasses(left[1..]));
      classes, left := classes + [class_], left[1..];
    }
    PrependEmpty(classes, DecodeClasses(left));
    r := Success(classes);
  }

  method DecodeProtocolList(rawProtocols: seq<Json>) returns (r: Result<Protocols, Failure>)
    ensures r == DecodeProtocols(Protocols([], None), rawProtocols)
  {
    var protocols: seq<string>, extension: Option<Extension>, left := [], None, rawProtocols;
    while left != []
      invariant DecodeProtocols(Protocols(protocols, extension), left)
             == DecodeProtocols(Protocols([], None), rawProtocols)
      decreases |left|
    {
      if left[0].Null? { return Failure(Panics); }
      if left[0].Str? {
        protocols := protocols + [left[0].s];
      } else {
        var x := DecodeExtension(left[0]);
        if x.Some? { extension := x; }
      }
      left := left[1..];
    }
    r := Success(Protocols(protocols, extension));
  }

  /** Fills in the six leading entries one after another. */
  method DecodeLeadingEntries(start: Proxy, e: seq<Json>) returns (r: Result<Proxy, Failure>)
    ensures r == DecodeLeading(start, e)
  {
    var sp := start;
    if |e| < 1 { return Failure(Panics); }
    var version := DecodeInt(e[0], 0);
    if version.None? { return Failure(Malformed); }
    sp := sp.(version := version.value);
    if |e| < 2 { return Failure(Panics); }
    var ident := DecodeStr(e[1], "");
    if ident.None? { return Failure(Malformed); }
    sp := sp.(ident := ident.value);
    if |e| < 3 { return Failure(Panics); }
    var sector := DecodeStr(e[2], "");
    if sector.None? { return Failure(Malformed); }
    sp := sp.(sector := sector.value);
    if |e| < 4 { return Failure(Panics); }
    var weight := DecodeInt(e[3], 0);
    if weight.None? { return Failure(Malformed); }
    sp := sp.(weight := weight.value);
    if |e| < 5 { return Failure(Panics); }
    var announceInterval := DecodeInt(e[4], 0);
    if announceInterval.None? { return Failure(Malformed); }
    sp := sp.(announceInterval := announceInterval.value);
    if |e| < 6 { return Failure(Panics); }
    var connspec := DecodeStr(e[5], "");
    if connspec.None? { return Failure(Malformed); }
    sp := sp.(connspec := connspec.value);
    r := Success(sp);
  }

  /** Decodes a record into a proxy, entry by entry. */
  method NewServiceProxy(codec: Codec, classRecords: Bytes, cert: Bytes, sig: Bytes)
      returns (r: Result<Proxy, Failure>)
    ensures r == DecodeProxy(codec, classRecords, cert, sig)
  {
    var v := codec.decode(classRecords);
    if v.None? { return Failure(Malformed); }
    var entries := DecodeArr(v.value);
    if entries.None? { return Failure(Malformed); }
    var e := entries.value;
    var sp := EMPTY_PROXY.(rawClassRecords := classRecords, rawCert := cert, rawSig := sig);
    var leading := DecodeLeadingEntries(sp, e);
    if leading.Failure? { return leading; }
    sp := leading.value;
    if |e| < 7 { return Failure(Panics); }
    var rawProtocols := DecodeArr(e[6]);
    if rawProtocols.None? { return Failure(Malformed); }
    var protocols := DecodeProtocolList(rawProtocols.value);
    if protocols.Failure? { return Failure(protocols.error); }
    sp := sp.(protocols := protocols.value.names, extension := protocols.value.extension);
    if |e| < 8 { return Failure(Panics); }
    var elems := DecodeArr(e[7]);
    if elems.None? { return Failure(Malformed); }
    var rawClasses := DecodeLists(elems.value);
    if rawClasses.None? { return Failure(Malformed); }
    var classes := DecodeClassList(rawClasses.value);
    if classes.Failure? { return Failure(classes.error); }
    sp := sp.(classes := classes.value);
    r := Success(sp);
  }

  // ---------- the record round trip ----------

  predicate NoEmptyClass(p: Proxy) { forall i | 0 <= i < |p.classes| :: p.classes[i].actions != [] }

  lemma ActionRead(name: string, tags: string, v: Json, version: int64)
    requires DecodeVersion(v) == Some(version)
    ensures DecodeAction(Arr([Str(name), Str(tags), v])) == Success(Action(name, tags, version))
  {
  }

  lemma PrependCons<T>(a: seq<T>)
    requires a != []
    ensures Prepend([a[0]], Success(a[1..])) == Success(a)
  {
    assert [a[0]] + a[1..] == a;
  }

  lemma {:induction false} ActionsRoundTrip(actions: seq<Action>)
    ensures DecodeActions(ActionsToJson(actions)) == Success(actions)
  {
    if actions != [] {
      ActionsRoundTrip(actions[1..]);
      assert ActionsToJson(actions)[1..] == ActionsToJson(actions[1..]);
      ActionRead(actions[0].name, actions[0].crudTags, Int(actions[0].version), actions[0].version);
      PrependCons(actions);
    }
  }

  function ClassEntries(classes: seq<Class>): (r: seq<seq<Json>>)
    ensures |r| == |classes|
  {
    seq(|classes|, i requires 0 <= i < |classes| => [Str(classes[i].name)] + ActionsToJson(classes[i].actions))
  }

  lemma {:induction false} ListsRoundTrip(classes: seq<Class>)
    ensures DecodeLists(ClassesToJson(classes)) == Some(ClassEntries(classes))
  {
    if classes != [] {
      ListsRoundTrip(classes[1..]);
      assert ClassesToJson(classes)[1..] == ClassesToJson(classes[1..]);
      EntriesCons(classes);
    }
  }

  lemma EntriesCons(classes: seq<Class>)
    requires classes != []
    ensures ClassEntries(classes)[1..] == ClassEntries(classes[1..])
    ensures ClassEntries(classes)
         == [[Str(classes[0].name)] + ActionsToJson(classes[0].actions)] + ClassEntries(classes[1..])
  {
  }

  lemma ClassRoundTrip(c: Class)
    ensures DecodeClass([Str(c.name)] + ActionsToJson(c.actions))
         == if c.actions == [] then Failure(Malformed) else Success(c)
  {
    if c.actions != [] {
      ActionsRoundTrip(c.actions);
      assert ([Str(c.name)] + ActionsToJson(c.actions))[1..] == ActionsToJson(c.actions);
    }
  }

  lemma {:induction false} ClassesRoundTrip(classes: seq<Class>)
    ensures DecodeClasses(ClassEntries(classes))
         == if forall i | 0 <= i < |classes| :: classes[i].actions != [] then Success(classes) else Failure(Malformed)
  {
    if classes != [] {
      ClassesRoundTrip(classes[1..]);
      EntriesCons(classes);
      ClassRoundTrip(classes[0]);
      assert forall i | 1 <= i < |classes| :: classes[i] == classes[1..][i - 1];
      assert [classes[0]] + classes[1..] == classes;
    }
  }

  lemma {:induction false} ProtocolsRoundTrip(found: seq<string>, protocols: seq<string>)
    ensures DecodeProtocols(Protocols(found, None), StringsToJson(protocols))
         == Success(Protocols(found + protocols, None))
    decreases |protocols|
  {
    if protocols == [] {
      assert found + protocols == found;
    } else {
      assert StringsToJson(protocols)[1..] == StringsToJson(protocols[1..]);
      ProtocolsRoundTrip(found + [protocols[0]], protocols[1..]);
      assert found + [protocols[0]] + protocols[1..] == found + protocols;
    }
  }

  /** The proxy as another process sees it. */
  function AsRead(codec: Codec, p: Proxy, cert: Bytes, sig: Bytes): Proxy {
    p.(rawClassRecords := codec.encode(ProxyToJson(p)), rawCert := cert, rawSig := sig, timestamp := 0,
       extension := None)
  }

  lemma LeadingRoundTrip(start: Proxy, p: Proxy)
    ensures DecodeLeading(start, Entries(p))
         == Success(start.(version := p.version, ident := p.ident, sector := p.sector, weight := p.weight,
                           announceInterval := p.announceInterval, connspec := p.connspec))
  {
  }

  lemma TrailingRoundTrip(start: Proxy, p: Proxy)
    ensures DecodeTrailing(start, Entries(p))
         == if NoEmptyClass(p) then Success(start.(protocols := p.protocols, classes := p.classes, extension := None))
            else Failure(Malformed)
  {
    ProtocolsRoundTrip([], p.protocols);
    assert [] + p.protocols == p.protocols;
    ListsRoundTrip(p.classes);
    ClassesRoundTrip(p.classes);
  }

  /** Decoding what was printed gives the same record back, except for the timestamp, which is not read, the
      extension, which is not printed, and the raw texts, which are those given: if and only if every class has
      an action. A class without actions is printed but refused when read. */
  lemma RecordRoundTripIff(codec: Codec, p: Proxy, cert: Bytes, sig: Bytes)
    requires Faithful(codec, ProxyToJson(p))
    ensures DecodeProxy(codec, codec.encode(ProxyToJson(p)), cert, sig)
         == if NoEmptyClass(p) then Success(AsRead(codec, p, cert, sig)) else Failure(Malformed)
  {
    var text := codec.encode(ProxyToJson(p));
    assert codec.decode(text) == Some(Arr(Entries(p)));
    var start := EMPTY_PROXY.(rawClassRecords := text, rawCert := cert, rawSig := sig);
    LeadingRoundTrip(start, p);
    TrailingRoundTrip(DecodeLeading(start, Entries(p)).value, p);
  }

  /** An action without a version decodes as one with version 1; a version written as a string decodes as
      the number it spells. */
  lemma ActionVariants(name: string, tags: string, version: int64)
    ensures DecodeAction(Arr([Str(name), Str(tags)])) == DecodeAction(ActionToJson(Action(name, tags, 1)))
    ensures DecodeAction(Arr([Str(name), Str(tags), Str(DecimalInt(version))]))
         == DecodeAction(ActionToJson(Action(name, tags, version)))
         == Success(Action(name, tags, version))
  {
    ParseDecimalInt(version);
    ActionRead(name, tags, Str(DecimalInt(version)), version);
    ActionRead(name, tags, Int(version), version);
  }

  // ---------- protocols ----------

  /** The strings of a list, in order. */
  function StringsOf(elems: seq<Json>): seq<string> {
    if elems == [] then []
    else StringsOf(elems[..|elems| - 1]) + if elems[|elems| - 1].Str? then [elems[|elems| - 1].s] else []
  }

  /** The last object of a list that can be read as an extension. */
  function LastExtension(elems: seq<Json>): Option<Extension> {
    if elems == [] then None
    else
      var init, v := elems[..|elems| - 1], elems[|elems| - 1];
      if v.Obj? && DecodeExtension(v).Some? then DecodeExtension(v) else LastExtension(init)
  }

  lemma ProtocolsSnoc(found: Protocols, elems: seq<Json>, v: Json)
    ensures DecodeProtocols(found, elems + [v])
         == match DecodeProtocols(found, elems)
            case Failure(e) => Failure(e)
            case Success(r) => DecodeProtocols(r, [v])
    decreases |elems|
  {
    if elems == [] {
      assert elems + [v] == [v];
    } else {
      Tail(elems, [v]);
      if elems[0].Str? {
        ProtocolsSnoc(found.(names := found.names + [elems[0].s]), elems[1..], v);
      } else if !elems[0].Null? {
        var x := DecodeExtension(elems[0]);
        ProtocolsSnoc(if x.Some? then found.(extension := x) else found, elems[1..], v);
      }
    }
  }

  lemma OneProtocol(found: Protocols, v: Json)
    ensures DecodeProtocols(found, [v])
         == if v.Null? then Failure(Panics)
            else if v.Str? then Success(found.(names := found.names + [v.s]))
            else if DecodeExtension(v).Some? then Success(found.(extension := DecodeExtension(v)))
            else Success(found)
  {
  }

  /** What a list of protocols yields, told without its loop: all of its strings, and the last of its objects that
      can be read; any null makes the decoder panic. */
  lemma {:induction false} ProtocolsAre(elems: seq<Json>)
    ensures DecodeProtocols(Protocols([], None), elems)
         == if Null in elems then Failure(Panics) else Success(Protocols(StringsOf(elems), LastExtension(elems)))
  {
    if elems != [] {
      var init, v := elems[..|elems| - 1], elems[|elems| - 1];
      ProtocolsAre(init);
      InitLast(elems);
      ProtocolsSnoc(Protocols([], None), init, v);
      OneProtocol(Protocols(StringsOf(init), LastExtension(init)), v);
      assert Null in elems <==> Null in init || v == Null;
      assert StringsOf(init) + [] == StringsOf(init);
    }
  }

  lemma MemberStep(x: Extension, fields: seq<(string, Json)>, k: nat, x': Extension)
    requires k < |fields| && DecodeMember(x, fields[k].0, fields[k].1) == Some(x')
    ensures DecodeMembers(x, fields[k..]) == DecodeMembers(x', fields[k + 1..])
  {
    assert fields[k..][1..] == fields[k + 1..];
  }

  /** The members of an extension object. */
  function Members(x: Extension): seq<(string, Json)> {
    [("vmin", Int(x.vmin)), ("vmaj", Int(x.vmaj)), ("acsec", Arr(x.acSec)), ("acname", Arr(x.acName)),
     ("acver", Arr(x.acVer)), ("acenv", Arr(x.acEnv)), ("acflag", Arr(x.acFlag)), ("acns", Arr(x.acNs))]
  }

  /** An extension object with each of its eight members gives each field its value. */
  lemma ExtensionMembers(x: Extension)
    ensures DecodeExtension(Obj(Members(x))) == Some(x)
  {
    var f := Members(x);
    var x2 := NO_EXTENSION.(vmin := x.vmin, vmaj := x.vmaj);
    var x5 := x2.(acSec := x.acSec, acName := x.acName, acVer := x.acVer);
    assert f[0..] == f;
    MemberStep(NO_EXTENSION, f, 0, NO_EXTENSION.(vmin := x.vmin));
    MemberStep(NO_EXTENSION.(vmin := x.vmin), f, 1, x2);
    MemberStep(x2, f, 2, x2.(acSec := x.acSec));
    MemberStep(x2.(acSec := x.acSec), f, 3, x2.(acSec := x.acSec, acName := x.acName));
    MemberStep(x2.(acSec := x.acSec, acName := x.acName), f, 4, x5);
    MemberStep(x5, f, 5, x5.(acEnv := x.acEnv));
    MemberStep(x5.(acEnv := x.acEnv), f, 6, x5.(acEnv := x.acEnv, acFlag := x.acFlag));
    MemberStep(x5.(acEnv := x.acEnv, acFlag := x.acFlag), f, 7, x);
  }

  // ---------- records that are refused ----------

  /** The check of the length of an action is void: a list of fewer than two entries makes the decoder panic, and
      entries behind the third are ignored. */
  lemma ActionLengths(name: string, tags: string, version: int64, more: seq<Json>)
    ensures DecodeAction(Arr([])) == DecodeAction(Null) == Failure(Panics)
    ensures DecodeAction(Arr([Str(name)])) == Failure(Panics)
    ensures DecodeAction(Arr([Str(name), Str(tags), Int(version)] + more)) == Success(Action(name, tags, version))
  {
  }

  predicate IntOrNull(v: Json) { v.Null? || (v.Int? && -0x8000_0000_0000_0000 <= v.i <= 0x7FFF_FFFF_FFFF_FFFF) }

  predicate StrOrNull(v: Json) { v.Null? || v.Str? }

  /** Which six leading entries are read: three texts and three integers that fit, each of which may be null and then
      leaves its field empty or zero. */
  lemma LeadingReadableIff(e: seq<Json>)
    requires |e| >= 6
    ensures var r := DecodeLeading(EMPTY_PROXY, e);
            && (r.Success? <==>
                  && IntOrNull(e[0]) && StrOrNull(e[1]) && StrOrNull(e[2])
                  && IntOrNull(e[3]) && IntOrNull(e[4]) && StrOrNull(e[5]))
            && (r.Failure? ==> r.error == Malformed)
            && (r.Success? && e[1].Null? ==> r.value.ident == "")
            && (r.Success? && e[3].Null? ==> r.value.weight == 0)
  {
  }

  /** Of the rest of a record: a class must have an entry behind its name, and what is wrong with a class or an action
      is wrong with the record. */
  lemma {:induction false} ClassesReadableIff(rawClasses: seq<seq<Json>>)
    ensures DecodeClasses(rawClasses).Success?
       <==> forall i | 0 <= i < |rawClasses| ::
              && |rawClasses[i]| >= 2 && StrOrNull(rawClasses[i][0])
              && forall j | 1 <= j < |rawClasses[i]| :: DecodeAction(rawClasses[i][j]).Success?
  {
    if rawClasses != [] {
      var first := rawClasses[0];
      if |first| >= 2 {
        ActionsReadableIff(first[1..]);
        assert forall j | 1 <= j < |first| :: first[j] == first[1..][j - 1];
        assert forall j | 0 <= j < |first[1..]| :: first[1..][j] == first[j + 1];
      }
      ClassesReadableIff(rawClasses[1..]);
      assert forall i | 1 <= i < |rawClasses| :: rawClasses[i] == rawClasses[1..][i - 1];
    }
  }

  lemma {:induction false} ActionsReadableIff(specs: seq<Json>)
    ensures DecodeActions(specs).Success? <==> forall j | 0 <= j < |specs| :: DecodeAction(specs[j]).Success?
  {
    if specs != [] {
      ActionsReadableIff(specs[1..]);
      assert forall j | 1 <= j < |specs| :: specs[j] == specs[1..][j - 1];
    }
  }
}
