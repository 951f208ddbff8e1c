/** Frames on the wire: the printer and the parser of one packet (`scamp/packet.go`). */
module Packet {
  import opened Text
  import opened Json
  import opened PacketHeader

  datatype PacketType = HEADER | DATA | EOF | TXERR | ACK

  /** Only a HEADER carries a header and only the others carry a body. */
  datatype Packet = Packet(kind: PacketType, msgNo: uint64, header: Header, body: Bytes)

  const THE_REST: Bytes := "END\r\n"

  /** The size of the buffer of a `bufio.Reader`. */
  const READ_BUFFER := 4096

  function TypeBytes(kind: PacketType): Bytes {
    match kind
    case HEADER => "HEADER"
    case DATA => "DATA"
    case EOF => "EOF"
    case TXERR => "TXERR"
    case ACK => "ACK"
  }

  function TypeOf(name: Bytes): Option<PacketType> {
    if name == "HEADER" then Some(HEADER)
    else if name == "DATA" then Some(DATA)
    else if name == "EOF" then Some(EOF)
    else if name == "TXERR" then Some(TXERR)
    else if name == "ACK" then Some(ACK)
    else None
  }

  // ---------- printing ----------

  /** The bytes between the header line and the trailer; none when the header cannot be encoded. */
  function BodyBytes(codec: Codec, p: Packet): Option<Bytes> {
    if p.kind == HEADER then
      match ToJson(p.header)
      case Some(v) => Some(codec.encode(v) + NEWLINE)
      case None => None
    else Some(p.body)
  }

  function HeadLine(kind: PacketType, msgNo: uint64, size: nat): Bytes {
    TypeBytes(kind) + (" " + (Decimal(msgNo) + (" " + Decimal(size))))
  }

  function FrameOf(kind: PacketType, msgNo: uint64, body: Bytes): Bytes {
    HeadLine(kind, msgNo, |body|) + ("\r\n" + (body + THE_REST))
  }

  /** Everything `Packet.Write` writes. */
  function Frame(codec: Codec, p: Packet): Option<Bytes> {
    match BodyBytes(codec, p)
    case Some(body) => Some(FrameOf(p.kind, p.msgNo, body))
    case None => None
  }

  // ---------- parsing ----------

  /** `NegativeLength`: allocating the body panics. */
  datatype ReadError =
    ReadlineEof | HeaderParts | UnknownType | NegativeLength | ShortBody | MissingTrailer | BadHeader

  /** `bufio.Reader.ReadLine` on all the input that is left: the line and what follows it.
      A line longer than the buffer is cut there, keeping a final carriage return for the next call. */
  function ReadLine(input: Bytes): (r: Option<(Bytes, Bytes)>)
    ensures r.None? <==> input == []
    ensures r.Some? ==> |r.value.1| < |input|
  {
    var i := LineEnd(input);
    if i < |input| && i < READ_BUFFER then Some((DropCR(input[..i]), input[i + 1..]))
    else if |input| >= READ_BUFFER then
      var cut := if input[READ_BUFFER - 1] == '\r' then READ_BUFFER - 1 else READ_BUFFER;
      Some((input[..cut], input[cut..]))
    else if input == [] then None
    else Some((input, []))
  }

  predicate IsSpace(c: char) { '\t' <= c <= '\r' || c == ' ' || c as int == 0x85 || c as int == 0xA0 }

  function SkipSpaces(s: Bytes): Bytes { s[Span(s, IsSpace)..] }

  datatype Number = Number(value: nat, rest: Bytes)

  /** The `%d` verb reading an unsigned number below `limit`; also what follows the number. */
  function ScanNumber(s: Bytes, limit: nat): (r: Option<Number>)
    ensures r.Some? ==> r.value.value < limit
  {
    var t := SkipSpaces(s);
    var n := Span(t, IsDigit);
    if n == 0 || Value(t[..n]) >= limit then None else Some(Number(Value(t[..n]), t[n..]))
  }

  /** The `%d` verb reading an `int`, which may have a sign. */
  function ScanInt(s: Bytes): Option<int64> {
    var t := SkipSpaces(s);
    var sign := if t != [] && (t[0] == '-' || t[0] == '+') then 1 else 0;
    var n := Span(t[sign..], IsDigit);
    if n == 0 then None else ParseInt(t[..sign + n])
  }

  datatype LineHead = LineHead(name: Bytes, msgNo: uint64, size: int64)

  /** The two numbers of a header line, after the type name. */
  function ParseNumbers(name: Bytes, s: Bytes): Option<LineHead> {
    var msgNo := ScanNumber(s, TWO_64);
    if msgNo.None? then None
    else
      var size := ScanInt(msgNo.value.rest);
      if size.None? then None else Some(LineHead(name, msgNo.value.value, size.value))
  }

  /** `Sscanf(line, "%s %d %d")`: the type name, the message number and the body length. */
  function ParseHead(line: Bytes): Option<LineHead> {
    var s := SkipSpaces(line);
    var n := Span(s, c => !IsSpace(c));
    if n == 0 then None else ParseNumbers(s[..n], s[n..])
  }

  /** The packet a complete frame stands for. */
  function PacketOf(codec: Codec, kind: PacketType, msgNo: uint64, body: Bytes): Result<Packet, ReadError> {
    if kind != HEADER then Success(Packet(kind, msgNo, ZERO_HEADER, body))
    else
      match codec.decode(body)
      case None => Failure(BadHeader)
      case Some(v) =>
        match FromJson(v)
        case Some(h) => Success(Packet(HEADER, msgNo, h, []))
        case None => Failure(BadHeader)
  }

  /** Everything after the header line of a frame. */
  function ReadRest(codec: Codec, kind: PacketType, msgNo: uint64, size: nat, input: Bytes)
      : (r: Result<(Packet, Bytes), ReadError>)
    ensures r.Success? ==> |input| == size + |THE_REST| + |r.value.1|
    ensures r.Failure? ==> r.error != ReadlineEof
  {
    if |input| < size then Failure(ShortBody)
    else
      var body, tail := input[..size], input[size..];
      if |tail| < |THE_REST| || tail[..|THE_REST|] != THE_REST then Failure(MissingTrailer)
      else
        match PacketOf(codec, kind, msgNo, body)
        case Success(p) => Success((p, tail[|THE_REST|..]))
        case Failure(e) => Failure(e)
  }

  /** `ReadPacket` on all the input that is left: the packet and what follows its frame. */
  function ReadFrame(codec: Codec, input: Bytes): (r: Result<(Packet, Bytes), ReadError>)
    ensures r.Success? ==> |r.value.1| < |input|
    ensures r == Failure(ReadlineEof) <==> input == []
  {
    match ReadLine(input)
    case None => Failure(ReadlineEof)
    case Some((line, rest)) =>
      match ParseHead(line)
      case None => Failure(HeaderParts)
      case Some(LineHead(name, msgNo, size)) =>
        match TypeOf(name)
        case None => Failure(UnknownType)
        case Some(kind) => if size < 0 then Failure(NegativeLength) else ReadRest(codec, kind, msgNo, size, rest)
  }

  /** What `ReadPacket` leaves unread, whether it succeeds or fails. */
  function Leftover(input: Bytes): Bytes {
    match ReadLine(input)
    case None => []
    case Some((line, rest)) =>
      var head := ParseHead(line);
      if head.None? || TypeOf(head.value.name).None? || head.value.size < 0 then rest
      else DropUpTo(DropUpTo(rest, head.value.size), |THE_REST|)
  }

  /** What is left after reading `n` bytes, or all there are. */
  function DropUpTo(input: Bytes, n: nat): Bytes { if |input| < n then [] else input[n..] }

  // ---------- the frame round trip ----------

  /** A packet with nothing in the part its kind does not transmit, small enough for a Go slice. */
  predicate WellFormed(codec: Codec, p: Packet) {
    && (p.kind == HEADER ==> p.body == [])
    && (p.kind != HEADER ==> p.header == ZERO_HEADER)
    && (BodyBytes(codec, p).Some? ==> |BodyBytes(codec, p).value| < TWO_63)
  }

  /** The header of the packet, if it has one, survives being written as text. */
  predicate Legible(codec: Codec, p: Packet) {
    p.kind == HEADER && ToJson(p.header).Some? ==> Faithful(codec, ToJson(p.header).value)
  }

  lemma ScanPrinted(n: nat, rest: Bytes, limit: nat)
    requires n < limit
    requires rest == [] || rest[0] == ' '
    ensures ScanNumber(" " + (Decimal(n) + rest), limit) == Some(Number(n, rest))
  {
    DecimalValue(n);
    var tail := Decimal(n) + rest;
    assert tail[0] == Decimal(n)[0];
    assert IsDigit(tail[0]) && !IsSpace(tail[0]);
    SpanOf(" ", tail, IsSpace);
    assert (" " + tail)[1..] == tail;
    SpanOf(Decimal(n), rest, IsDigit);
    assert tail[..|Decimal(n)|] == Decimal(n) && tail[|Decimal(n)|..] == rest;
  }

  lemma ParsePrintedNumbers(name: Bytes, msgNo: uint64, size: nat)
    requires size < TWO_63
    ensures ParseNumbers(name, " " + (Decimal(msgNo) + (" " + Decimal(size)))) == Some(LineHead(name, msgNo, size))
  {
    ScanPrinted(msgNo, " " + Decimal(size), TWO_64);
    ScanPrintedInt(size);
  }

  lemma ScanPrintedInt(n: nat)
    requires n < TWO_63
    ensures ScanInt(" " + Decimal(n)) == Some(n)
  {
    var digits := Decimal(n);
    DecimalValue(n);
    ParseDecimalInt(n);
    assert IsDigit(digits[0]) && !IsSpace(digits[0]);
    SpanOf(" ", digits, IsSpace);
    assert (" " + digits)[1..] == digits && digits[0..] == digits;
    assert digits + [] == digits;
    SpanOf(digits, [], IsDigit);
    assert digits[..|digits|] == digits;
  }

  lemma ParseFirstWord(name: Bytes, tail: Bytes)
    requires name != [] && forall c <- name :: !IsSpace(c)
    requires tail != [] && tail[0] == ' '
    ensures ParseHead(name + tail) == ParseNumbers(name, tail)
  {
    var line := name + tail;
    assert line[0] in name;
    assert [] + line == line;
    SpanOf([], line, IsSpace);
    SpanOf(name, tail, c => !IsSpace(c));
    assert line[..|name|] == name && line[|name|..] == tail;
  }

  lemma ParsePrintedHead(kind: PacketType, msgNo: uint64, size: nat)
    requires size < TWO_63
    ensures ParseHead(HeadLine(kind, msgNo, size)) == Some(LineHead(TypeBytes(kind), msgNo, size))
  {
    ParseFirstWord(TypeBytes(kind), " " + (Decimal(msgNo) + (" " + Decimal(size))));
    ParsePrintedNumbers(TypeBytes(kind), msgNo, size);
  }

  /** Every header line the printer produces is free of line breaks and far below the reader's buffer,
      so the flag for an over-long line is never set. */
  lemma HeadLineFits(kind: PacketType, msgNo: uint64, size: nat)
    requires size < TWO_63
    ensures |HeadLine(kind, msgNo, size)| <= 48 < READ_BUFFER
    ensures forall c <- HeadLine(kind, msgNo, size) :: c != '\r' && c != '\n'
  {
    DecimalLengthU64(msgNo);
    DecimalLengthU64(size);
    DecimalValue(msgNo);
    DecimalValue(size);
  }

  /** Any line without line breaks that fits the buffer is read as it was written. */
  lemma ReadShortLine(line: Bytes, rest: Bytes)
    requires |line| + 1 < READ_BUFFER && '\n' !in line
    ensures ReadLine(line + ("\r\n" + rest)) == Some((line, rest))
  {
    var lineCR: Bytes := line + "\r";
    var input := lineCR + ("\n" + rest);
    assert line + ("\r\n" + rest) == input;
    SpanOf(lineCR, "\n" + rest, c => c != '\n');
    assert LineEnd(input) == |lineCR|;
    assert input[..|lineCR|] == lineCR && input[|lineCR| + 1..] == rest;
    assert lineCR[..|lineCR| - 1] == line;
  }

  lemma ReadPrintedLine(kind: PacketType, msgNo: uint64, size: nat, rest: Bytes)
    requires size < TWO_63
    ensures ReadLine(HeadLine(kind, msgNo, size) + ("\r\n" + rest)) == Some((HeadLine(kind, msgNo, size), rest))
  {
    HeadLineFits(kind, msgNo, size);
    ReadShortLine(HeadLine(kind, msgNo, size), rest);
  }

  lemma TypeOfPrinted(kind: PacketType)
    ensures TypeOf(TypeBytes(kind)) == Some(kind)
  {
  }

  lemma PacketOfPrinted(codec: Codec, p: Packet)
    requires Legible(codec, p) && WellFormed(codec, p) && BodyBytes(codec, p).Some?
    ensures PacketOf(codec, p.kind, p.msgNo, BodyBytes(codec, p).value) == Success(p)
  {
    if p.kind == HEADER {
      HeaderRoundTrip(p.header);
      var v := ToJson(p.header).value;
      assert codec.decode(codec.encode(v) + NEWLINE) == Some(v);
    }
  }

  lemma ReadPrintedRest(codec: Codec, p: Packet, body: Bytes, rest: Bytes)
    requires PacketOf(codec, p.kind, p.msgNo, body) == Success(p)
    ensures ReadRest(codec, p.kind, p.msgNo, |body|, body + (THE_REST + rest)) == Success((p, rest))
  {
    var input := body + (THE_REST + rest);
    assert input[..|body|] == body && input[|body|..] == THE_REST + rest;
    assert (THE_REST + rest)[..|THE_REST|] == THE_REST && (THE_REST + rest)[|THE_REST|..] == rest;
  }

  /** Reading what was written gives the packet back and leaves exactly what followed it, whatever
      bytes the body and the rest of the stream hold. */
  lemma FrameRoundTrip(codec: Codec, p: Packet, rest: Bytes)
    requires Legible(codec, p) && WellFormed(codec, p) && Frame(codec, p).Some?
    ensures ReadFrame(codec, Frame(codec, p).value + rest) == Success((p, rest))
  {
    var body := BodyBytes(codec, p).value;
    RegroupRight(HeadLine(p.kind, p.msgNo, |body|), "\r\n", body, THE_REST, rest);
    ReadPrintedLine(p.kind, p.msgNo, |body|, body + (THE_REST + rest));
    ParsePrintedHead(p.kind, p.msgNo, |body|);
    TypeOfPrinted(p.kind);
    PacketOfPrinted(codec, p);
    ReadPrintedRest(codec, p, body, rest);
  }

  lemma UnterminatedLine(codec: Codec, cut: Bytes)
    requires |cut| < READ_BUFFER && '\n' !in cut
    ensures ReadFrame(codec, cut).Failure?
  {
    assert cut + [] == cut;
    SpanOf(cut, [], c => c != '\n');
    if cut != [] { OnlyLineFails(codec, cut, cut); }
  }

  lemma OnlyLineFails(codec: Codec, input: Bytes, line: Bytes)
    requires ReadLine(input) == Some((line, []))
    ensures ReadFrame(codec, input).Failure?
  {
    var head := ParseHead(line);
    if head.Some? && TypeOf(head.value.name).Some? && head.value.size >= 0 {
      NothingLeft(codec, TypeOf(head.value.name).value, head.value.msgNo, head.value.size);
    }
  }

  lemma NothingLeft(codec: Codec, kind: PacketType, msgNo: uint64, size: nat)
    ensures ReadRest(codec, kind, msgNo, size, []).Failure?
  {
  }

  lemma TruncatedBody(codec: Codec, kind: PacketType, msgNo: uint64, size: nat, cut: Bytes)
    requires size < TWO_63 && |cut| < size + |THE_REST|
    ensures ReadFrame(codec, HeadLine(kind, msgNo, size) + ("\r\n" + cut)).Failure?
  {
    ReadPrintedLine(kind, msgNo, size, cut);
    ParsePrintedHead(kind, msgNo, size);
    TypeOfPrinted(kind);
  }

  /** A stream that ends inside a frame never yields that frame's packet; it ends cleanly only at the
      frame's very start. */
  lemma TruncatedFrame(codec: Codec, p: Packet, k: nat)
    requires WellFormed(codec, p) && Frame(codec, p).Some? && k < |Frame(codec, p).value|
    ensures ReadFrame(codec, Frame(codec, p).value[..k]).Failure?
    ensures ReadFrame(codec, Frame(codec, p).value[..k]) == Failure(ReadlineEof) <==> k == 0
  {
    var body := BodyBytes(codec, p).value;
    var line := HeadLine(p.kind, p.msgNo, |body|);
    var frame := Frame(codec, p).value;
    HeadLineFits(p.kind, p.msgNo, |body|);
    if k <= |line| + 1 {
      var lineCR: Bytes := line + "\r";
      assert frame == lineCR + ("\n" + (body + THE_REST));
      assert frame[..k] == lineCR[..k];
      UnterminatedLine(codec, lineCR[..k]);
    } else {
      var cut := (body + THE_REST)[..k - |line| - 2];
      assert frame[..k] == line + ("\r\n" + cut);
      TruncatedBody(codec, p.kind, p.msgNo, |body|, cut);
    }
  }

  // ---------- the buffered connection ----------

  /** A `bufio.ReadWriter`: the bytes still to be read and the bytes written so far. */
  class Stream {
    var input: Bytes
    var output: Bytes

    constructor (incoming: Bytes)
      ensures input == incoming && output == []
    {
      input, output := incoming, [];
    }

    /** `io.ReadFull` into a buffer of `n` bytes; a short stream is used up. */
    method ReadFull(n: nat) returns (bytes: Option<Bytes>)
      modifies this`input
      ensures old(|input|) >= n ==> bytes == Some(old(input[..n])) && input == old(input[n..])
      ensures old(|input|) < n ==> bytes == None && input == []
    {
      if |input| < n {
        bytes, input := None, [];
      } else {
        bytes, input := Some(input[..n]), input[n..];
      }
    }

    method NextLine() returns (line: Option<Bytes>)
      modifies this`input
      ensures match ReadLine(old(input))
              case Some((l, rest)) => line == Some(l) && input == rest
              case None => line == None && input == old(input)
    {
      match ReadLine(input) {
        case Some((l, rest)) => line, input := Some(l), rest;
        case None => line := None;
      }
    }

    method Write(bytes: Bytes) returns (n: nat)
      modifies this`output
      ensures output == old(output) + bytes && n == |bytes|
    {
      output, n := output + bytes, |bytes|;
    }
  }

  /** Reads body and trailer, and the header if the packet has one. */
  method ReadBody(codec: Codec, kind: PacketType, msgNo: uint64, size: nat, rw: Stream)
      returns (r: Result<Packet, ReadError>)
    modifies rw`input
    ensures match ReadRest(codec, kind, msgNo, size, old(rw.input))
            case Success((p, _)) => r == Success(p)
            case Failure(e) => r == Failure(e)
    ensures rw.input == DropUpTo(DropUpTo(old(rw.input), size), |THE_REST|)
  {
    var body := rw.ReadFull(size);
    if body.None? { return Failure(ShortBody); }
    var theRest := rw.ReadFull(|THE_REST|);
    if theRest != Some(THE_REST) { return Failure(MissingTrailer); }
    var pkt := Packet(kind, msgNo, ZERO_HEADER, body.value);
    if pkt.kind == HEADER {
      var v := codec.decode(pkt.body);
      if v.None? { return Failure(BadHeader); }
      var header := FromJson(v.value);
      if header.None? { return Failure(BadHeader); }
      pkt := pkt.(header := header.value, body := []);
    }
    r := Success(pkt);
  }

  /** Parses the next frame of the stream. */
  method ReadPacket(codec: Codec, rw: Stream) returns (r: Result<Packet, ReadError>)
    modifies rw`input
    ensures match ReadFrame(codec, old(rw.input))
            case Success((p, rest)) => r == Success(p) && rw.input == rest
            case Failure(e) => r == Failure(e)
    ensures rw.input == Leftover(old(rw.input))
  {
    var line := rw.NextLine();
    if line.None? { return Failure(ReadlineEof); }
    var head := ParseHead(line.value);
    if head.None? { return Failure(HeaderParts); }
    var kind := TypeOf(head.value.name);
    if kind.None? { return Failure(UnknownType); }
    if head.value.size < 0 { return Failure(NegativeLength); }
    RestIsLeft(codec, kind.value, head.value.msgNo, head.value.size, rw.input);
    r := ReadBody(codec, kind.value, head.value.msgNo, head.value.size, rw);
  }

  lemma RestIsLeft(codec: Codec, kind: PacketType, msgNo: uint64, size: nat, input: Bytes)
    ensures var r := ReadRest(codec, kind, msgNo, size, input);
            r.Success? ==> r.value.1 == DropUpTo(DropUpTo(input, size), |THE_REST|)
  {
  }

  /** Writes the frame of a packet; a header that cannot be encoded leaves the stream as it was. */
  method WritePacket(codec: Codec, p: Packet, rw: Stream) returns (written: nat, ok: bool)
    modifies rw`output
    ensures ok <==> Frame(codec, p).Some?
    ensures ok ==> rw.output == old(rw.output) + Frame(codec, p).value && written == |Frame(codec, p).value|
    ensures !ok ==> rw.output == old(rw.output) && written == 0
  {
    var bodyBytes := p.body;
    if p.kind == HEADER {
      var v := ToJson(p.header);
      if v.None? { return 0, false; }
      bodyBytes := codec.encode(v.value) + NEWLINE;
    }
    written := rw.Write(HeadLine(p.kind, p.msgNo, |bodyBytes|) + "\r\n");
    var n := rw.Write(bodyBytes);
    written := written + n;
    n := rw.Write(THE_REST);
    written, ok := written + n, true;
    assert rw.output == old(rw.output) + Frame(codec, p).value;
  }
}
