/** A service: the actions it registers, the record it announces and the text of that record (`scamp/service.go`,
    and `serviceAsServiceProxy` in `scamp/serviceproxy.go`). */
module Service {
  import opened Text
  import Json
  import opened ServiceProxy

  /** What is registered under a dotted name, without the callback. */
  datatype ServiceAction = ServiceAction(crudTags: string, version: int64)

  /** What a service announces. Its connection string is given by its listener. */
  datatype Sv = Sv(name: string, sector: string, connspec: string, pemCert: Bytes, actions: map<string, ServiceAction>)

  /** Whether the record can be built: the code panics at a name without a dot. */
  predicate AllDotted(actions: map<string, ServiceAction>) { forall name <- actions :: LastDot(name) >= 0 }

  /** A class of its own for every action, split at the last dot. */
  function ClassOf(name: string, a: ServiceAction): Class
    requires LastDot(name) >= 0
  {
    Class(name[..LastDot(name)], [Action(name[LastDot(name) + 1..], a.crudTags, a.version)])
  }

  /** An order in which Go may range over a map. */
  predicate OrderOf(order: seq<string>, actions: map<string, ServiceAction>) {
    && (forall i | 0 <= i < |order| :: order[i] in actions)
    && (forall name <- actions :: name in order)
    && (forall i, j | 0 <= i < j < |order| :: order[i] != order[j])
  }

  function ClassesOf(order: seq<string>, actions: map<string, ServiceAction>): (r: seq<Class>)
    requires forall i | 0 <= i < |order| :: order[i] in actions && LastDot(order[i]) >= 0
    ensures |r| == |order|
  {
    seq(|order|, i requires 0 <= i < |order| => ClassOf(order[i], actions[order[i]]))
  }

  /** The names in `order` have been visited and have a dot; those in `left` have not been visited. */
  predicate Visited(order: seq<string>, left: set<string>, actions: map<string, ServiceAction>) {
    && left <= actions.Keys
    && (forall i | 0 <= i < |order| :: order[i] in actions && LastDot(order[i]) >= 0 && order[i] !in left)
    && (forall name <- actions :: name in left || name in order)
    && (forall i, j | 0 <= i < j < |order| :: order[i] != order[j])
  }

  lemma VisitedNext(order: seq<string>, left: set<string>, actions: map<string, ServiceAction>, name: string)
    requires Visited(order, left, actions) && name in left && LastDot(name) >= 0
    ensures Visited(order + [name], left - {name}, actions)
    ensures ClassesOf(order + [name], actions) == ClassesOf(order, actions) + [ClassOf(name, actions[name])]
  {
    assert forall n | n in order :: n in order + [name];
  }

  /** The record of a service at a given time. */
  function Announced(sv: Sv, order: seq<string>, timestamp: int): Proxy
    requires AllDotted(sv.actions) && OrderOf(order, sv.actions)
  {
    Proxy(3, sv.name, sv.sector, 1, 2500, sv.connspec, ["json"], ClassesOf(order, sv.actions), None,
          "rawClassRecords", "rawCert", "rawSig", timestamp)
  }

  /** Splitting at the last dot and joining with a dot gives the registered name back, however many dots it has;
      the action itself has none. */
  lemma NameRejoined(name: string, a: ServiceAction)
    requires LastDot(name) >= 0
    ensures ClassOf(name, a).name + "." + ClassOf(name, a).actions[0].name == name
    ensures '.' !in ClassOf(name, a).actions[0].name
  {
  }

  // ---------- rows ----------

  /** The signature cut into rows. The code ignores the row length it is given and always uses 76. */
  function Rows(input: Bytes): (rows: seq<Bytes>)
    ensures rows != []
  {
    if |input| <= 76 then [input] else [input[..76]] + Rows(input[76..])
  }

  /** Every row but the last has exactly 76 characters; the last has at most 76 and is empty only if it is the
      only one. */
  predicate RowLengths(rows: seq<Bytes>) {
    && rows != []
    && (forall i | 0 <= i < |rows| - 1 :: |rows[i]| == 76)
    && |rows[|rows| - 1]| <= 76
    && (rows[|rows| - 1] == [] ==> |rows| == 1)
  }

  /** The rows are the only way to cut the text into rows of these lengths. */
  lemma {:induction false} RowsIff(input: Bytes, rows: seq<Bytes>)
    ensures rows == Rows(input) <==> RowLengths(rows) && Concat(rows) == input
    decreases |input|
  {
    if |input| <= 76 {
      RowsOfShort(input, rows);
    } else {
      RowsIff(input[76..], if rows == [] then [] else rows[1..]);
      RowsOfLong(input, rows);
    }
  }

  lemma RowsOfShort(input: Bytes, rows: seq<Bytes>)
    requires |input| <= 76
    ensures rows == [input] <==> RowLengths(rows) && Concat(rows) == input
  {
    if |rows| == 1 {
      assert rows == [rows[0]] && rows[1..] == [];
      assert Concat(rows) == rows[0] + [] == rows[0];
    } else if |rows| > 1 {
      assert Concat(rows[1..]) == rows[1] + Concat(rows[2..]);
    }
  }

  lemma LongRowsAreRows(input: Bytes, rest: seq<Bytes>)
    requires |input| > 76 && RowLengths(rest) && Concat(rest) == input[76..]
    ensures RowLengths([input[..76]] + rest) && Concat([input[..76]] + rest) == input
  {
    var rows := [input[..76]] + rest;
    assert rows[1..] == rest && rows[|rows| - 1] == rest[|rest| - 1];
    assert input[..76] + input[76..] == input;
  }

  lemma FirstRow(rows: seq<Bytes>, input: Bytes)
    requires |input| > 76 && RowLengths(rows) && Concat(rows) == input
    ensures |rows| > 1 && rows[0] == input[..76] && Concat(rows[1..]) == input[76..]
  {
    assert input == rows[0] + Concat(rows[1..]);
  }

  lemma RowsAfterFirst(rows: seq<Bytes>, input: Bytes)
    requires |input| > 76 && RowLengths(rows) && Concat(rows) == input
    ensures RowLengths(rows[1..])
  {
    FirstRow(rows, input);
    var rest := rows[1..];
    assert forall i | 0 <= i < |rest| :: rest[i] == rows[i + 1];
  }

  lemma RowsOfLong(input: Bytes, rows: seq<Bytes>)
    requires |input| > 76
    requires var rest := if rows == [] then [] else rows[1..];
             rest == Rows(input[76..]) <==> RowLengths(rest) && Concat(rest) == input[76..]
    ensures rows == [input[..76]] + Rows(input[76..]) <==> RowLengths(rows) && Concat(rows) == input
  {
    if RowLengths(rows) && Concat(rows) == input {
      FirstRow(rows, input);
      RowsAfterFirst(rows, input);
      assert rows == [rows[0]] + rows[1..];
    }
    if rows == [input[..76]] + Rows(input[76..]) {
      assert rows[1..] == Rows(input[76..]);
      LongRowsAreRows(input, rows[1..]);
    }
  }

  method StringToRows(input: Bytes, rowlen: int) returns (output: seq<Bytes>)
    ensures output == Rows(input)
  {
    output := [];
    if |input| <= 76 {
      output := output + [input];
    } else {
      var substr := input;
      var done := false;
      while !done
        invariant if done then output == Rows(input) else output + Rows(substr) == Rows(input)
        decreases |substr|, !done
      {
        var row;
        if |substr| > 76 {
          row := substr[0..76];
          Associate(output, [row], Rows(substr[76..]));
          substr := substr[76..];
        } else {
          row := substr;
          done := true;
        }
        output := output + [row];
      }
    }
  }

  // ---------- the text of a record ----------

  function RecordText(classRecord: Bytes, cert: Bytes, sig: Bytes): Bytes {
    classRecord + "\n\n" + cert + "\n\n" + Unlines(Rows(sig)) + "\n"
  }

  datatype MarshalError = BadActionName | NotSigned

  class Service {
    const name: string
    const sector: string
    const connspec: string
    const pemCert: Bytes
    var actions: map<string, ServiceAction>
    var isRunning: bool

    function Contents(): Sv
      reads this`actions
    {
      Sv(name, sector, connspec, pemCert, actions)
    }

    constructor (name: string, sector: string, connspec: string, pemCert: Bytes)
      ensures Contents() == Sv(name, sector, connspec, pemCert, map[]) && !isRunning
    {
      this.name, this.sector, this.connspec, this.pemCert := name, sector, connspec, pemCert;
      actions, isRunning := map[], false;
    }

    /** Registering a name again replaces what was registered; a running service accepts no registration. */
    method Register(name: string) returns (ok: bool)
      modifies this`actions
      ensures ok <==> !isRunning
      ensures actions == if ok then old(actions)[name := ServiceAction("", 1)] else old(actions)
    {
      if isRunning { return false; }
      actions := actions[name := ServiceAction("", 1)];
      ok := true;
    }

    method ServiceAsServiceProxy(timestamp: int) returns (sp: Option<Proxy>, ghost order: seq<string>)
      ensures sp.Some? <==> AllDotted(actions)
      ensures sp.Some? ==> OrderOf(order, actions) && sp == Some(Announced(Contents(), order, timestamp))
    {
      order := [];
      var classes: seq<Class> := [];
      var left := actions.Keys;
      while left != {}
        invariant Visited(order, left, actions) && classes == ClassesOf(order, actions)
        decreases |left|
      {
        var classAndActionName :| classAndActionName in left;
        var actionDotIndex := LastDot(classAndActionName);
        if actionDotIndex == -1 { return None, order; }
        var className := classAndActionName[0..actionDotIndex];
        var actionName := classAndActionName[actionDotIndex + 1..];
        var serviceAction := actions[classAndActionName];
        var newServiceProxyClass :=
          Class(className, [Action(actionName, serviceAction.crudTags, serviceAction.version)]);
        VisitedNext(order, left, actions, classAndActionName);
        classes := classes + [newServiceProxyClass];
        order := order + [classAndActionName];
        left := left - {classAndActionName};
      }
      sp := Some(Proxy(3, name, sector, 1, 2500, connspec, ["json"], classes, None,
                       "rawClassRecords", "rawCert", "rawSig", timestamp));
    }

    /** The text that is announced: class record, certificate and signature rows, each block closed by a blank line. */
    method MarshalText(codec: Json.Codec, sign: Bytes -> Option<Bytes>, timestamp: int)
        returns (b: Result<Bytes, MarshalError>, ghost order: seq<string>)
      ensures b == Failure(BadActionName) <==> !AllDotted(actions)
      ensures AllDotted(actions) ==>
                && OrderOf(order, actions)
                && var classRecord := codec.encode(ProxyToJson(Announced(Contents(), order, timestamp)));
                   b == if sign(classRecord).None? then Failure(NotSigned)
                        else Success(RecordText(classRecord, pemCert, sign(classRecord).value))
    {
      var serviceProxy;
      serviceProxy, order := ServiceAsServiceProxy(timestamp);
      if serviceProxy.None? { return Failure(BadActionName), order; }
      var classRecord := MarshalJSON(codec, serviceProxy.value);
      var sig := sign(classRecord);
      if sig.None? { return Failure(NotSigned), order; }
      var sigParts := StringToRows(sig.value, 76);
      var buf := classRecord;
      buf := buf + "\n\n";
      buf := buf + pemCert;
      buf := buf + "\n\n";
      ghost var head := buf;
      assert head + [] == head;
      for i := 0 to |sigParts|
        invariant buf == head + Unlines(sigParts[..i])
      {
        var part := sigParts[i];
        TakeSnoc(sigParts, i);
        UnlinesConcat(sigParts[..i], [part]);
        assert Unlines([part]) == part + NEWLINE + [];
        assert head + Unlines(sigParts[..i]) + part + "\n" == head + (Unlines(sigParts[..i]) + (part + NEWLINE + []));
        buf := buf + part;
        buf := buf + "\n";
      }
      assert sigParts[..|sigParts|] == sigParts;
      buf := buf + "\n";
      b := Success(buf);
    }
  }
}
