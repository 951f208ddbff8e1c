/** The header of a message and its JSON form (`scamp/packetheader.go`). */
module PacketHeader {
  import opened Text
  import opened Json

  const ENVELOPE_JSON := 0
  const ENVELOPE_JSONSTORE := 1

  const MESSAGE_TYPE_REQUEST := 1
  const MESSAGE_TYPE_REPLY := 2

  datatype Header = Header(
    action: string,
    envelope: int64,
    error: string,
    errorCode: string,
    requestID: int64,
    clientID: int64,
    ticket: string,
    identifyingToken: string,
    messageType: int64,
    version: int64)

  /** The zero value of the Go struct. */
  const ZERO_HEADER := Header("", 0, "", "", 0, 0, "", "", 0, 0)

  function EnvelopeToJson(e: int64): Option<Json> {
    if e == ENVELOPE_JSON then Some(Str("json"))
    else if e == ENVELOPE_JSONSTORE then Some(Str("jsonstore"))
    else None
  }

  function EnvelopeFromJson(v: Json): Option<int64> {
    if v == Str("json") then Some(ENVELOPE_JSON)
    else if v == Str("jsonstore") then Some(ENVELOPE_JSONSTORE)
    else None
  }

  function MessageTypeToJson(t: int64): Option<Json> {
    if t == MESSAGE_TYPE_REQUEST then Some(Str("request"))
    else if t == MESSAGE_TYPE_REPLY then Some(Str("reply"))
    else None
  }

  function MessageTypeFromJson(v: Json): Option<int64> {
    if v == Str("request") then Some(MESSAGE_TYPE_REQUEST)
    else if v == Str("reply") then Some(MESSAGE_TYPE_REPLY)
    else None
  }

  /** `flexInt`: an integer, or a string that spells one. A null reads as the empty string and fails. */
  function FlexIntFromJson(v: Json): Option<int64> {
    match v
    case Str(s) => ParseInt(s)
    case Int(i) => DecodeInt(v, 0)
    case _ => None
  }

  /** A string announcing an integer decodes as the integer itself does. */
  lemma FlexIntAgrees(i: int64)
    ensures FlexIntFromJson(Str(DecimalInt(i))) == FlexIntFromJson(Int(i)) == Some(i)
  {
    ParseDecimalInt(i);
  }

  /** A header the encoder accepts: both enumerations hold a value it knows. */
  predicate Encodable(h: Header) {
    && (h.envelope == ENVELOPE_JSON || h.envelope == ENVELOPE_JSONSTORE)
    && (h.messageType == MESSAGE_TYPE_REQUEST || h.messageType == MESSAGE_TYPE_REPLY)
  }

  /** A field tagged `omitempty`. */
  function OmitEmpty(name: string, s: string): seq<(string, Json)> {
    if s == "" then [] else [(name, Str(s))]
  }

  /** The members that a request carries first. */
  function FrontFields(h: Header, envelope: Json, rest: seq<(string, Json)>): seq<(string, Json)> {
    [("action", Str(h.action))]
    + ([("envelope", envelope)]
       + (OmitEmpty("error", h.error)
          + (OmitEmpty("error_code", h.errorCode) + rest)))
  }

  function MiddleFields(h: Header, rest: seq<(string, Json)>): seq<(string, Json)> {
    [("request_id", Int(h.requestID))]
    + ([("client_id", Int(h.clientID))]
       + ([("ticket", Str(h.ticket))] + rest))
  }

  function BackFields(h: Header, messageType: Json): seq<(string, Json)> {
    [("identifying_token", Str(h.identifyingToken))]
    + ([("type", messageType)]
       + ([("version", Int(h.version))] + []))
  }

  /** Marshalling the struct, in the order of its fields. */
  function ToJson(h: Header): Option<Json> {
    match (EnvelopeToJson(h.envelope), MessageTypeToJson(h.messageType))
    case (Some(envelope), Some(messageType)) =>
      Some(Obj(FrontFields(h, envelope, MiddleFields(h, BackFields(h, messageType)))))
    case _ => None
  }

  /** Unmarshalling one member of the object; unknown names are skipped. */
  function DecodeField(h: Header, name: string, v: Json): Option<Header> {
    if name == "action" then
      match DecodeStr(v, h.action) case Some(s) => Some(h.(action := s)) case None => None
    else if name == "envelope" then
      match EnvelopeFromJson(v) case Some(e) => Some(h.(envelope := e)) case None => None
    else if name == "error" then
      match DecodeStr(v, h.error) case Some(s) => Some(h.(error := s)) case None => None
    else if name == "error_code" then
      match DecodeStr(v, h.errorCode) case Some(s) => Some(h.(errorCode := s)) case None => None
    else if name == "request_id" then
      match DecodeInt(v, h.requestID) case Some(i) => Some(h.(requestID := i)) case None => None
    else if name == "client_id" then
      match FlexIntFromJson(v) case Some(i) => Some(h.(clientID := i)) case None => None
    else if name == "ticket" then
      match DecodeStr(v, h.ticket) case Some(s) => Some(h.(ticket := s)) case None => None
    else if name == "identifying_token" then
      match DecodeStr(v, h.identifyingToken) case Some(s) => Some(h.(identifyingToken := s)) case None => None
    else if name == "type" then
      match MessageTypeFromJson(v) case Some(t) => Some(h.(messageType := t)) case None => None
    else if name == "version" then
      match DecodeInt(v, h.version) case Some(i) => Some(h.(version := i)) case None => None
    else Some(h)
  }

  function DecodeFields(h: Header, fields: seq<(string, Json)>): Option<Header>
    decreases |fields|
  {
    if fields == [] then Some(h)
    else
      match DecodeField(h, fields[0].0, fields[0].1)
      case Some(h') => DecodeFields(h', fields[1..])
      case None => None
  }

  /** Unmarshalling into a zero header. */
  function FromJson(v: Json): Option<Header> {
    match v
    case Obj(fields) => DecodeFields(ZERO_HEADER, fields)
    case Null => Some(ZERO_HEADER)
    case _ => None
  }

  lemma DecodeStep(h: Header, field: (string, Json), rest: seq<(string, Json)>, h': Header)
    requires DecodeField(h, field.0, field.1) == Some(h')
    ensures DecodeFields(h, [field] + rest) == DecodeFields(h', rest)
  {
    assert ([field] + rest)[1..] == rest;
  }

  lemma DecodeOmitEmpty(h: Header, name: string, s: string, rest: seq<(string, Json)>, h': Header)
    requires s == "" ==> h' == h
    requires s != "" ==> DecodeField(h, name, Str(s)) == Some(h')
    ensures DecodeFields(h, OmitEmpty(name, s) + rest) == DecodeFields(h', rest)
  {
    if s == "" {
      assert OmitEmpty(name, s) + rest == rest;
    } else {
      DecodeStep(h, (name, Str(s)), rest, h');
    }
  }

  lemma DecodeFront(h: Header, envelope: Json, rest: seq<(string, Json)>)
    requires EnvelopeFromJson(envelope) == Some(h.envelope)
    ensures DecodeFields(ZERO_HEADER, FrontFields(h, envelope, rest))
         == DecodeFields(Header(h.action, h.envelope, h.error, h.errorCode, 0, 0, "", "", 0, 0), rest)
  {
    var f3 := OmitEmpty("error_code", h.errorCode) + rest;
    var f2 := OmitEmpty("error", h.error) + f3;
    var h1 := ZERO_HEADER.(action := h.action);
    var h2 := h1.(envelope := h.envelope);
    var h3 := h2.(error := h.error);
    DecodeStep(ZERO_HEADER, ("action", Str(h.action)), [("envelope", envelope)] + f2, h1);
    DecodeStep(h1, ("envelope", envelope), f2, h2);
    DecodeOmitEmpty(h2, "error", h.error, f3, h3);
    DecodeOmitEmpty(h3, "error_code", h.errorCode, rest, h3.(errorCode := h.errorCode));
  }

  lemma DecodeMiddle(h: Header, start: Header, rest: seq<(string, Json)>)
    ensures DecodeFields(start, MiddleFields(h, rest))
         == DecodeFields(start.(requestID := h.requestID, clientID := h.clientID, ticket := h.ticket), rest)
  {
    var f2 := [("ticket", Str(h.ticket))] + rest;
    var h1 := start.(requestID := h.requestID);
    var h2 := h1.(clientID := h.clientID);
    DecodeStep(start, ("request_id", Int(h.requestID)), [("client_id", Int(h.clientID))] + f2, h1);
    DecodeStep(h1, ("client_id", Int(h.clientID)), f2, h2);
    DecodeStep(h2, ("ticket", Str(h.ticket)), rest, h2.(ticket := h.ticket));
  }

  lemma DecodeBack(h: Header, messageType: Json, start: Header)
    requires MessageTypeFromJson(messageType) == Some(h.messageType)
    ensures DecodeFields(start, BackFields(h, messageType))
         == Some(start.(identifyingToken := h.identifyingToken, messageType := h.messageType, version := h.version))
  {
    var f2 := [("version", Int(h.version))] + [];
    var h1 := start.(identifyingToken := h.identifyingToken);
    var h2 := h1.(messageType := h.messageType);
    DecodeStep(start, ("identifying_token", Str(h.identifyingToken)), [("type", messageType)] + f2, h1);
    DecodeStep(h1, ("type", messageType), f2, h2);
    DecodeStep(h2, ("version", Int(h.version)), [], h2.(version := h.version));
  }

  /** The encoder accepts exactly the encodable headers, and what it writes decodes to the same header. */
  lemma HeaderRoundTrip(h: Header)
    ensures ToJson(h).Some? <==> Encodable(h)
    ensures Encodable(h) ==> FromJson(ToJson(h).value) == Some(h)
  {
    if Encodable(h) {
      var envelope, messageType := EnvelopeToJson(h.envelope).value, MessageTypeToJson(h.messageType).value;
      var back := BackFields(h, messageType);
      var front := Header(h.action, h.envelope, h.error, h.errorCode, 0, 0, "", "", 0, 0);
      DecodeFront(h, envelope, MiddleFields(h, back));
      DecodeMiddle(h, front, back);
      DecodeBack(h, messageType, front.(requestID := h.requestID, clientID := h.clientID, ticket := h.ticket));
    }
  }
}
