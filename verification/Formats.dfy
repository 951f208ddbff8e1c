/** The texts that other programs see, written out. A printer and a parser that agree with each other could still
    be wrong together; here the names, the separators and the positions themselves are stated. */
module Formats {
  import opened Text
  import opened Json
  import opened PacketHeader
  import opened Packet
  import opened Message
  import opened Connection
  import ServiceProxy
  import Scan
  import ServiceCache

  // ---------- frames (`scamp/packet.go`) ----------

  /** A frame is the name of its type, the message number and the length of the body, in decimal and separated by
      single blanks; CR LF; the body; END, CR LF. */
  lemma FrameText(codec: Codec, p: Packet, body: Bytes)
    requires BodyBytes(codec, p) == Some(body)
    ensures var numbers := Decimal(p.msgNo) + " " + Decimal(|body|);
            Frame(codec, p) == Some(
              match p.kind
              case HEADER => "HEADER " + numbers + "\r\n" + body + "END\r\n"
              case DATA => "DATA " + numbers + "\r\n" + body + "END\r\n"
              case EOF => "EOF " + numbers + "\r\n" + body + "END\r\n"
              case TXERR => "TXERR " + numbers + "\r\n" + body + "END\r\n"
              case ACK => "ACK " + numbers + "\r\n" + body + "END\r\n")
  {
    RegroupFrame(TypeBytes(p.kind), " ", Decimal(p.msgNo), Decimal(|body|), "\r\n", body, "END\r\n");
    match p.kind {
      case HEADER => assert "HEADER " == "HEADER" + " ";
      case DATA => assert "DATA " == "DATA" + " ";
      case EOF => assert "EOF " == "EOF" + " ";
      case TXERR => assert "TXERR " == "TXERR" + " ";
      case ACK => assert "ACK " == "ACK" + " ";
    }
  }

  lemma RegroupFrame<T>(name: seq<T>, blank: seq<T>, a: seq<T>, b: seq<T>, crlf: seq<T>, body: seq<T>, end: seq<T>)
    ensures name + (blank + (a + (blank + b))) + (crlf + (body + end))
         == (name + blank) + (a + blank + b) + crlf + body + end
  {
  }

  /** Decimal digits, the most significant first. */
  lemma DecimalText()
    ensures Decimal(12345) == "12345" && Decimal(67890) == "67890"
  {
    assert Decimal(1) == "1" && Decimal(6) == "6";
    assert Decimal(12) == "12" && Decimal(67) == "67";
    assert Decimal(123) == "123" && Decimal(678) == "678";
    assert Decimal(1234) == "1234" && Decimal(6789) == "6789";
  }

  /** A frame as it stands on the wire. */
  const GREETING: Bytes := "DATA 12 5\r\nhelloEND\r\n"

  lemma GreetingPrinted(codec: Codec)
    ensures Frame(codec, Packet(DATA, 12, ZERO_HEADER, "hello")) == Some(GREETING)
  {
    assert Decimal(1) == "1";
    assert Decimal(12) == "12" && Decimal(5) == "5";
    FrameText(codec, Packet(DATA, 12, ZERO_HEADER, "hello"), "hello");
    GreetingJoined();
  }

  lemma GreetingJoined()
    ensures "DATA " + ("12" + " " + "5") + "\r\n" + "hello" + "END\r\n" == GREETING
  {
  }

  lemma GreetingRead(codec: Codec, rest: Bytes)
    ensures ReadFrame(codec, GREETING + rest) == Success((Packet(DATA, 12, ZERO_HEADER, "hello"), rest))
  {
    GreetingPrinted(codec);
    FrameRoundTrip(codec, Packet(DATA, 12, ZERO_HEADER, "hello"), rest);
  }

  /** An acknowledgement carries the number of its message, and the bytes received so far in decimal as its body. */
  lemma AckText(codec: Codec, a: Ack, rest: Bytes)
    ensures var count := Decimal(a.count);
            && AckFrame(a) == "ACK " + (Decimal(a.msgNo) + " " + Decimal(|count|)) + "\r\n" + count + "END\r\n"
            && ReadFrame(codec, AckFrame(a) + rest) == Success((Packet(ACK, a.msgNo, ZERO_HEADER, count), rest))
            && AllDigits(count) && Value(count) == a.count
  {
    DecimalValue(a.count);
    DecimalLengthU64(a.count);
    FrameText(codec, AckPacket(a), Decimal(a.count));
    FrameRoundTrip(codec, AckPacket(a), rest);
  }

  // ---------- frames that are refused ----------

  predicate IsTypeName(name: Bytes) {
    name == "HEADER" || name == "DATA" || name == "EOF" || name == "TXERR" || name == "ACK"
  }

  /** A header line with its line end and what follows. */
  function AfterLine(line: Bytes, rest: Bytes): Bytes { line + ("\r\n" + rest) }

  /** A header line that can be read. */
  predicate Heads(line: Bytes, name: Bytes, msgNo: uint64, size: int64) {
    |line| < 4000 && '\n' !in line && ParseHead(line) == Some(LineHead(name, msgNo, size))
  }

  lemma FrameRead(codec: Codec, line: Bytes, name: Bytes, msgNo: uint64, size: int64, rest: Bytes)
    requires Heads(line, name, msgNo, size)
    ensures ReadFrame(codec, AfterLine(line, rest))
         == if TypeOf(name).None? then Failure(UnknownType)
            else if size < 0 then Failure(NegativeLength)
            else ReadRest(codec, TypeOf(name).value, msgNo, size, rest)
  {
    ReadShortLine(line, rest);
  }

  /** What becomes of a frame whose line can be read: the type must be one of the five names, the length not
      negative; the body and the five bytes behind it must be there, these must be END, CR LF, and the body of a
      HEADER must decode. Then and only then the packet is read. */
  lemma FrameFaults(codec: Codec, line: Bytes, name: Bytes, msgNo: uint64, size: int64, rest: Bytes)
    requires Heads(line, name, msgNo, size)
    ensures var r := ReadFrame(codec, AfterLine(line, rest));
            if !IsTypeName(name) then r == Failure(UnknownType)
            else if size < 0 then r == Failure(NegativeLength)
            else if |rest| < size then r == Failure(ShortBody)
            else if !("END\r\n" <= rest[size..]) then r == Failure(MissingTrailer)
            else if name == "HEADER" && HeaderUnreadable(codec, rest[..size]) then r == Failure(BadHeader)
            else r.Success? && r.value.0.msgNo == msgNo && r.value.1 == rest[size + 5..]
  {
    FrameRead(codec, line, name, msgNo, size, rest);
    TypeOfIff(name);
    if IsTypeName(name) && size >= 0 { RestFaults(codec, TypeOf(name).value, msgNo, size, rest); }
  }

  predicate HeaderUnreadable(codec: Codec, body: Bytes) {
    codec.decode(body).None? || FromJson(codec.decode(body).value).None?
  }

  lemma TypeOfIff(name: Bytes)
    ensures TypeOf(name).Some? <==> IsTypeName(name)
    ensures TypeOf(name) == Some(HEADER) <==> name == "HEADER"
  {
  }

  lemma RestFaults(codec: Codec, kind: PacketType, msgNo: uint64, size: nat, rest: Bytes)
    ensures var r := ReadRest(codec, kind, msgNo, size, rest);
            if |rest| < size then r == Failure(ShortBody)
            else if !("END\r\n" <= rest[size..]) then r == Failure(MissingTrailer)
            else if kind == HEADER && HeaderUnreadable(codec, rest[..size]) then r == Failure(BadHeader)
            else r.Success? && r.value.0.msgNo == msgNo && r.value.1 == rest[size + 5..]
  {
  }

  /** A line must have all three parts. */
  lemma LineParts(name: Bytes, msgNo: uint64)
    requires name != [] && (forall c <- name :: !IsSpace(c))
    ensures ParseHead([]) == None
    ensures ParseHead(name + (" " + (Decimal(msgNo) + []))) == None
  {
    ParseFirstWord(name, " " + (Decimal(msgNo) + []));
    ScanPrinted(msgNo, [], TWO_64);
  }

  /** A length may have a sign. */
  lemma NegativeLine(name: Bytes, msgNo: uint64, k: int64)
    requires name != [] && (forall c <- name :: !IsSpace(c)) && k < 0
    ensures ParseHead(name + (" " + (Decimal(msgNo) + (" " + DecimalInt(k))))) == Some(LineHead(name, msgNo, k))
  {
    ScanNegative(k);
    LineWithSize(name, msgNo, " " + DecimalInt(k), k);
  }

  lemma LineWithSize(name: Bytes, msgNo: uint64, t: Bytes, k: int64)
    requires name != [] && (forall c <- name :: !IsSpace(c))
    requires t != [] && t[0] == ' ' && ScanInt(t) == Some(k)
    ensures ParseHead(name + (" " + (Decimal(msgNo) + t))) == Some(LineHead(name, msgNo, k))
  {
    ParseFirstWord(name, " " + (Decimal(msgNo) + t));
    ScanPrinted(msgNo, t, TWO_64);
  }

  lemma ScanNegative(k: int64)
    requires k < 0
    ensures ScanInt(" " + DecimalInt(k)) == Some(k)
  {
    var i := k as int;
    DecimalValue(-i);
    ScanMinus(Decimal(-i));
    ParseDecimalInt(k);
  }

  lemma ScanMinus(digits: Bytes)
    requires digits != [] && AllDigits(digits)
    ensures ScanInt(" " + ("-" + digits)) == ParseInt("-" + digits)
  {
    var t: Bytes := "-" + digits;
    SpanOf(" ", t, IsSpace);
    assert (" " + t)[1..] == t && t[1..] == digits;
    assert digits + [] == digits;
    SpanOf(digits, [], IsDigit);
    assert t[..1 + |digits|] == t;
  }

  predicate Blanks(s: Bytes) { s != [] && forall c <- s :: c == ' ' || c == '\t' }

  lemma ScanBehindBlanks(blanks: Bytes, n: nat, rest: Bytes, limit: nat)
    requires Blanks(blanks) && n < limit && (rest == [] || !IsDigit(rest[0]))
    ensures ScanNumber(blanks + (Decimal(n) + rest), limit) == Some(Number(n, rest))
  {
    DecimalValue(n);
    var tail := Decimal(n) + rest;
    assert tail[0] == Decimal(n)[0];
    assert IsDigit(tail[0]) && !IsSpace(tail[0]);
    SpanOf(blanks, tail, IsSpace);
    assert (blanks + tail)[|blanks|..] == tail;
    SpanOf(Decimal(n), rest, IsDigit);
    assert tail[..|Decimal(n)|] == Decimal(n) && tail[|Decimal(n)|..] == rest;
  }

  lemma IntBehindBlanks(blanks: Bytes, n: nat)
    requires Blanks(blanks) && n < TWO_63
    ensures ScanInt(blanks + Decimal(n)) == Some(n)
  {
    var digits := Decimal(n);
    DecimalValue(n);
    ParseDecimalInt(n);
    assert IsDigit(digits[0]);
    SpanOf(blanks, digits, IsSpace);
    assert (blanks + digits)[|blanks|..] == digits && digits[0..] == digits;
    assert digits + [] == digits;
    SpanOf(digits, [], IsDigit);
    assert digits[..|digits|] == digits;
  }

  lemma WordBehindBlanks(lead: Bytes, name: Bytes, a: Bytes, more: Bytes)
    requires (lead == [] || Blanks(lead)) && name != [] && (forall c <- name :: !IsSpace(c)) && Blanks(a)
    ensures ParseHead(lead + (name + (a + more))) == ParseNumbers(name, a + more)
  {
    var tail := a + more;
    var s := name + tail;
    assert tail[0] == a[0] && a[0] in a;
    assert s[0] in name;
    SpanOf(lead, s, IsSpace);
    assert (lead + s)[|lead|..] == s;
    SpanOf(name, tail, c => !IsSpace(c));
    assert s[..|name|] == name && s[|name|..] == tail;
  }

  lemma NumbersBehindBlanks(name: Bytes, a: Bytes, msgNo: uint64, b: Bytes, t: Bytes, k: int64)
    requires Blanks(a) && Blanks(b) && ScanInt(b + t) == Some(k)
    ensures ParseNumbers(name, a + (Decimal(msgNo) + (b + t))) == Some(LineHead(name, msgNo, k))
  {
    assert (b + t)[0] == b[0] && b[0] in b;
    ScanBehindBlanks(a, msgNo, b + t, TWO_64);
  }

  /** The parts of a header line may be set off by any blanks and tabs, and any may stand before the first. */
  lemma BlanksBetween(lead: Bytes, name: Bytes, a: Bytes, msgNo: uint64, b: Bytes, size: nat)
    requires (lead == [] || Blanks(lead)) && Blanks(a) && Blanks(b)
    requires name != [] && (forall c <- name :: !IsSpace(c)) && size < TWO_63
    ensures ParseHead(lead + (name + (a + (Decimal(msgNo) + (b + Decimal(size)))))) == Some(LineHead(name, msgNo, size))
  {
    IntBehindBlanks(b, size);
    NumbersBehindBlanks(name, a, msgNo, b, Decimal(size), size);
    WordBehindBlanks(lead, name, a, Decimal(msgNo) + (b + Decimal(size)));
  }

  /** Integers as texts: with a sign or without, and no more than fits 64 bits. */
  lemma IntTexts(n: nat)
    ensures ParseInt(Decimal(n)) == ParseInt("+" + Decimal(n)) == if n < 0x8000_0000_0000_0000 then Some(n) else None
    ensures ParseInt("-" + Decimal(n)) == if n <= 0x8000_0000_0000_0000 then Some(0 - n) else None
  {
    DecimalValue(n);
    assert IsDigit(Decimal(n)[0]);
    SignedText("+", Decimal(n));
    SignedText("-", Decimal(n));
  }

  lemma SignedText(sign: string, digits: string)
    requires |sign| == 1
    ensures (sign + digits)[0] == sign[0] && (sign + digits)[1..] == digits
  {
  }

  /** A text with any other character is no integer. */
  lemma NoIntText(s: string, i: nat)
    requires i < |s| && !IsDigit(s[i]) && (i > 0 || (s[0] != '-' && s[0] != '+'))
    ensures ParseInt(s) == None
  {
    if i > 0 { assert s[1..][i - 1] == s[i]; }
  }

  /** A line longer than the reader's buffer is cut there, but never between a carriage return and its newline. */
  lemma OverlongLine(input: Bytes)
    requires |input| >= 4096 && '\n' !in input[..4096]
    ensures var cut := if input[4095] == '\r' then 4095 else 4096;
            ReadLine(input) == Some((input[..cut], input[cut..]))
  {
    forall i | 0 <= i < 4096 ensures input[i] != '\n' {
      assert input[i] == input[..4096][i];
    }
  }

  /** A scanner reads lines that end in CR LF like lines that end in LF. */
  lemma CrLfLine(line: Bytes, more: Bytes)
    requires '\n' !in line
    ensures Lines(line + "\r\n" + more) == [line] + Lines(more)
  {
    var lineCR: Bytes := line + "\r";
    var text := lineCR + ("\n" + more);
    assert line + "\r\n" + more == text;
    SpanOf(lineCR, "\n" + more, c => c != '\n');
    assert LineEnd(text) == |lineCR|;
    assert text[..|lineCR|] == lineCR && text[|lineCR| + 1..] == more;
    assert lineCR[..|lineCR| - 1] == line;
  }

  /** A payload of up to 128 KiB is one packet; a longer one makes one more than the times 128 KiB goes into it, all
      but the last of them full. */
  lemma ChunkSize(payload: Bytes)
    ensures var chunks := Chunks(payload, MSG_CHUNK_SIZE);
            && Concat(chunks) == payload
            && |chunks| == (if |payload| <= 131072 then 1 else |payload| / 131072 + 1)
            && forall i | 0 <= i < |chunks| - 1 :: |chunks[i]| == 131072
  {
    ChunksConserve(payload, MSG_CHUNK_SIZE);
  }

  // ---------- the header of a message (`scamp/packetheader.go`) ----------

  /** The members of an encoded header, in order; an empty error or error code has none. */
  lemma HeaderText(h: Header)
    requires Encodable(h)
    ensures ToJson(h) == Some(Obj(
              [("action", Str(h.action)), ("envelope", Str(if h.envelope == 0 then "json" else "jsonstore"))]
              + (if h.error == "" then [] else [("error", Str(h.error))])
              + (if h.errorCode == "" then [] else [("error_code", Str(h.errorCode))])
              + [("request_id", Int(h.requestID)), ("client_id", Int(h.clientID)), ("ticket", Str(h.ticket)),
                 ("identifying_token", Str(h.identifyingToken)),
                 ("type", Str(if h.messageType == 1 then "request" else "reply")), ("version", Int(h.version))]))
  {
    RegroupMembers(
      ("action", Str(h.action)), ("envelope", Str(if h.envelope == 0 then "json" else "jsonstore")),
      OmitEmpty("error", h.error), OmitEmpty("error_code", h.errorCode),
      ("request_id", Int(h.requestID)), ("client_id", Int(h.clientID)), ("ticket", Str(h.ticket)),
      ("identifying_token", Str(h.identifyingToken)),
      ("type", Str(if h.messageType == 1 then "request" else "reply")), ("version", Int(h.version)));
  }

  lemma RegroupMembers<T>(a: T, b: T, c: seq<T>, d: seq<T>, e: T, f: T, g: T, h: T, i: T, j: T)
    ensures [a] + ([b] + (c + (d + ([e] + ([f] + ([g] + ([h] + ([i] + ([j] + [])))))))))
         == [a, b] + c + d + [e, f, g, h, i, j]
  {
  }

  /** A member that makes a header unreadable: a value of the wrong type, an integer that does not fit, a name of an
      envelope or of a message type that is not known. A null is taken for texts and integers, not for the rest. */
  predicate BadMember(name: string, v: Json) {
    if name in ["action", "error", "error_code", "ticket", "identifying_token"] then !v.Str? && !v.Null?
    else if name in ["request_id", "version"] then !v.Null? && !(v.Int? && -TWO_63 <= v.i < TWO_63)
    else if name == "client_id" then !(v.Int? && -TWO_63 <= v.i < TWO_63) && !(v.Str? && ParseInt(v.s).Some?)
    else if name == "envelope" then v != Str("json") && v != Str("jsonstore")
    else if name == "type" then v != Str("request") && v != Str("reply")
    else false
  }

  lemma MemberReadableIff(h: Header, name: string, v: Json)
    ensures DecodeField(h, name, v).Some? <==> !BadMember(name, v)
  {
  }

  /** A header is readable if and only if none of its members is bad; members of other names do not matter. */
  lemma {:induction false} HeaderReadableIff(h: Header, fields: seq<(string, Json)>)
    ensures DecodeFields(h, fields).Some? <==> forall i | 0 <= i < |fields| :: !BadMember(fields[i].0, fields[i].1)
    decreases |fields|
  {
    if fields != [] {
      MemberReadableIff(h, fields[0].0, fields[0].1);
      match DecodeField(h, fields[0].0, fields[0].1) {
        case Some(h') =>
          HeaderReadableIff(h', fields[1..]);
          assert forall i | 1 <= i < |fields| :: fields[i] == fields[1..][i - 1];
        case None =>
      }
    }
  }

  // ---------- discovery records (`scamp/serviceproxy.go`, `scamp/servicecache.go`) ----------

  /** The nine entries of a record and what stands where. */
  lemma RecordPositions(p: ServiceProxy.Proxy)
    ensures var e := ServiceProxy.Entries(p);
            && ServiceProxy.ProxyToJson(p) == Arr(e) && |e| == 9
            && e[0] == Int(p.version) && e[1] == Str(p.ident) && e[2] == Str(p.sector) && e[3] == Int(p.weight)
            && e[4] == Int(p.announceInterval) && e[5] == Str(p.connspec)
            && e[6].Arr? && |e[6].elems| == |p.protocols|
            && (forall i | 0 <= i < |p.protocols| :: e[6].elems[i] == Str(p.protocols[i]))
            && e[7].Arr? && |e[7].elems| == |p.classes|
            && (forall i | 0 <= i < |p.classes| :: ClassAt(p.classes[i], e[7].elems[i]))
            && e[8] == Fixed(p.timestamp)
  {
  }

  /** A class is its name followed by its actions, an action its name, its tags and its version. */
  predicate ClassAt(c: ServiceProxy.Class, v: Json) {
    && v.Arr? && |v.elems| == 1 + |c.actions| && v.elems[0] == Str(c.name)
    && forall j | 0 <= j < |c.actions| ::
         v.elems[1 + j] == Arr([Str(c.actions[j].name), Str(c.actions[j].crudTags), Int(c.actions[j].version)])
  }

  /** Of a printed record the decoder needs the first eight entries: with fewer it panics, and the ninth, the time, is
      not looked at. */
  lemma RecordCut(p: ServiceProxy.Proxy, n: nat, classRecords: Bytes, cert: Bytes, sig: Bytes)
    requires n <= 9
    ensures ServiceProxy.DecodeEntries(ServiceProxy.Entries(p)[..n], classRecords, cert, sig)
         == if n < 8 then Failure(ServiceProxy.Panics)
            else ServiceProxy.DecodeEntries(ServiceProxy.Entries(p), classRecords, cert, sig)
  {
    ServiceProxy.ProtocolsRoundTrip([], p.protocols);
  }

  /** A file with one record: the separator, the class record, the certificate and the signature, with a blank line
      behind each of the three. */
  lemma FileWithOneRecord(classRecord: Bytes, cert: Bytes, sig: Bytes)
    requires CleanLine(classRecord) && CleanLine(cert) && CleanLine(sig)
    requires classRecord != [] && cert != [] && sig != [] && sig != "%%%"
    ensures Scan.Extract(Lines("%%%\n" + classRecord + "\n\n" + cert + "\n\n" + sig + "\n\n"))
         == Scan.Extraction([Scan.Record(classRecord, cert, sig)], false)
  {
    OneRecordClean(classRecord, cert, sig);
    LinesBack(OneRecord(classRecord, cert, sig));
    OneRecordText(classRecord, cert, sig);
    OneRecordExtracted(classRecord, cert, sig);
  }

  lemma LinesBack(lines: seq<Bytes>)
    requires CleanLines(lines)
    ensures Lines(Unlines(lines)) == lines
  {
    LinesOfUnlines(lines, []);
    assert Unlines(lines) + [] == Unlines(lines) && lines + [] == lines;
  }

  lemma OneRecordClean(classRecord: Bytes, cert: Bytes, sig: Bytes)
    requires CleanLine(classRecord) && CleanLine(cert) && CleanLine(sig)
    ensures CleanLines(OneRecord(classRecord, cert, sig))
  {
  }

  function OneRecord(classRecord: Bytes, cert: Bytes, sig: Bytes): seq<Bytes> {
    ["%%%", classRecord, [], cert, [], sig, []]
  }

  lemma OneRecordExtracted(classRecord: Bytes, cert: Bytes, sig: Bytes)
    requires classRecord != [] && cert != [] && sig != [] && sig != "%%%"
    ensures Scan.Extract(OneRecord(classRecord, cert, sig))
         == Scan.Extraction([Scan.Record(classRecord, cert, sig)], false)
  {
    var r := Scan.Printed(classRecord, [cert], [sig]);
    assert Scan.RecordLines([], r) + [] == OneRecord(classRecord, cert, sig);
    assert Scan.FileLines([[]], [r]) == Scan.RecordLines([], r) + Scan.FileLines([], []);
    assert Scan.FileLines([[]], [r]) + [] == OneRecord(classRecord, cert, sig);
    Scan.ScanRoundTrip([[]], [r], []);
    assert Scan.RecordsOf([r]) == [Scan.RecordOf(r)] + Scan.RecordsOf([]);
    assert Scan.RecordOf(r) == Scan.Record(classRecord, cert, sig);
  }

  lemma UnlinesCons(line: Bytes, rest: seq<Bytes>)
    ensures Unlines([line] + rest) == line + NEWLINE + Unlines(rest)
  {
  }

  lemma OneRecordText(classRecord: Bytes, cert: Bytes, sig: Bytes)
    ensures Unlines(OneRecord(classRecord, cert, sig))
         == "%%%\n" + classRecord + "\n\n" + cert + "\n\n" + sig + "\n\n"
  {
    UnlinesTwice(sig, []);
    UnlinesTwice(cert, [sig, []]);
    UnlinesTwice(classRecord, [cert, [], sig, []]);
    UnlinesCons("%%%", [classRecord, [], cert, [], sig, []]);
    assert "%%%" + NEWLINE == "%%%\n";
    RegroupText("%%%\n", classRecord, cert, sig, "\n\n");
    assert OneRecord(classRecord, cert, sig) == ["%%%"] + [classRecord, [], cert, [], sig, []];
  }

  lemma UnlinesTwice(line: Bytes, rest: seq<Bytes>)
    ensures Unlines([line, []] + rest) == line + "\n\n" + Unlines(rest)
  {
    UnlinesCons([], rest);
    UnlinesCons(line, [[]] + rest);
    assert [line, []] + rest == [line] + ([[]] + rest);
    assert line + NEWLINE + ([] + NEWLINE + Unlines(rest)) == line + "\n\n" + Unlines(rest);
  }

  lemma RegroupText<T>(head: seq<T>, a: seq<T>, b: seq<T>, c: seq<T>, end: seq<T>)
    ensures head + (a + end + (b + end + (c + end + []))) == head + a + end + b + end + c + end
  {
  }
}
