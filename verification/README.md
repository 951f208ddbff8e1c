# SCAMP: a verified model

A Dafny 4.11 model of the two stateful systems of the `scamp` Go package, and proofs about them.

**The wire stack.** A message is a header and a list of body packets. A connection numbers its messages, writes each as
a HEADER frame, DATA frames and an EOF frame, reads the other side's frames, puts them together again by message number
and acknowledges every body packet. A client numbers requests and hands each incoming reply to whoever waits for its id.
The main results:

- what one side sends is what the other delivers, in order and whole, if and only if every header can be encoded
  (`Delivery`); a stream that breaks off anywhere delivers a prefix; with such headers it holds at both ends at once, at
  every moment of a conversation in which each end sends while it reads (`Duplex`);
- a client that is told its message went out is told so exactly when the other side delivers it; it then waits for a
  reply under the id the message carries (`Delivery`, `Client`);
- however the packets of different messages are interleaved, the demultiplexer delivers what filtering the stream by
  message number gives, and exactly the streams that are accepted are characterised (`Demux`);
- over every interleaving of the goroutines around a client no channel is closed twice or sent on after closing; the one
  panic of these steps, and the one way to leave a caller waiting for ever, are pinned down exactly (`Sessions`);
- the k-th reply reaches the k-th request, whichever request it was written for, unless it is processed before that
  request is registered; so callers get their own answers if and only if the service answers in order and no reply
  overtakes its registration (`ReplyMatching`).

**Service discovery.** A service prints a record of its actions; a file collects records; a cache scans the file into an
index by ident and an index by action name. The main results:

- a registered action is found by `SearchByAction` in any letter case, however many dots its name has, and nothing else
  is found; the list that a search returns is given exactly, with order and repetitions (`Discovery`), through the
  record round trip (`ServiceProxy`), the file grammar (`Scan`), and the signature rows (`Service`);
- what `Retrieve` returns for the name of a service is the last record printed under it, if that one is
  accepted, with that service's address and actions in their fields (`Discovery`);
- every record of a file is found if and only if none but the last runs into the next separator (`Scan`);
- the action index refines a naive search through all stores; the two indexes agree if and only if every store of a
  proxy that announces something is, or repeats, the last operation on its ident; after a scan the last record of each
  ident decides (`CacheIndex`).

## How it is built

One module a file. `Text`, `Json` and `Channel` are the parts of Go's library that are relied on, and `JsonCodec`
shows that what is assumed of the JSON text can be met; `Packet`, `PacketHeader`, `Message`, `Connection`, `Client`,
`ServiceProxy`, `ServiceCache` and `Service` follow the source files of the same names, with a class for every object
that the source updates in place. The methods of these classes are proved against functions on values (`Route`,
`Pump`, `Sending`, `Split`, `Apply`, `Scanned`, ...), and the theorems, in the remaining modules, are about these
functions over all inputs and all runs. `Formats` states the texts that other programs see as literals, so that a
printer and its parser cannot be wrong together. A class holds its value in a ghost field (`state`, `table`) where its
fields are spread over several objects, tied to the real fields by `Valid()`.

Where the code and its documentation or names disagree, the model follows the code:

- `DisableRecordVerification` turns verification on and `EnableRecordVerification` turns it off
  (`scamp/servicecache.go:38-44`).
- A message whose header cannot be encoded uses up a message number and writes nothing; the other side then refuses
  every later message of the connection (`scamp/connection.go:273-313`, theorem `Delivery.EncodeFailurePoisons`).
- `Client.Send` replaces the request id of replies too, so a reply never carries the id its handler gave it
  (`scamp/client.go:73-74`), and nothing but the order of replies decides who gets which.
- The check for nine entries in a class record and for two or three entries in an action sets an error that is
  overwritten (`scamp/serviceproxy.go:217-222, 307-311`); short lists panic instead, longer ones are accepted.
- A class without actions is printed but refused when read (`scamp/serviceproxy.go:288-291, 410-426`).
- `stringToRows` ignores the row length it is given (`scamp/service.go:326-334`).
- A separator that directly follows a signature is used up by it, and the record it announces is lost
  (`scamp/servicecache.go:253-254`).
- A splitter whose client is closed under it dereferences a nil connection (`scamp/client.go:129, 140`).

## Model

| member | source | states |
|---|---|---|
| `PacketHeader.HeaderRoundTrip` | scamp/packetheader.go:26-143 | a header is encoded if and only if both enumerations hold a known value, and decoding gives every field back |
| `PacketHeader.FlexIntAgrees` | scamp/packetheader.go:71-92 | a client id sent as a decimal string decodes like the integer, for every 64-bit value |
| `Formats.HeaderText` | scamp/packetheader.go:26-124 | the members of an encoded header by name and in order, the names of envelopes and message types, and which members are left out when empty |
| `Formats.HeaderReadableIff` | scamp/packetheader.go:26-136 | a header is readable if and only if each of its members has a value of its type; members of other names do not matter |
| `JsonCodec.FaithfulCodecExists` | scamp/packetheader.go:138-143 | what is assumed of the JSON text of a value (printing is undone by parsing, one clean line) can be met on all values: a text form that does |
| `Packet.FrameRoundTrip` | scamp/packet.go:48-186 | reading a written frame followed by anything gives the packet and leaves exactly what followed, whatever bytes the body holds |
| `Packet.HeadLineFits` | scamp/packet.go:62-67 | every printed header line is at most 48 bytes and has no line break, so the ignored prefix flag of ReadLine is never set |
| `Packet.TruncatedFrame` | scamp/packet.go:62-102 | a stream that ends inside a frame never yields its packet, and is seen to end cleanly only at the frame's first byte |
| `Formats.FrameText` | scamp/packet.go:40-45 | a frame written out: the name of its type, number and length in decimal, CR LF, the body, END, CR LF |
| `Formats.GreetingPrinted` | scamp/packet.go:129-186 | a DATA frame as literal text |
| `Formats.GreetingRead` | scamp/packet.go:48-115 | and the packet read from that text |
| `Formats.FrameFaults` | scamp/packet.go:62-115 | which error refuses a frame: its type, its length, its body, its trailer, its header; and when it is read |
| `Formats.LineParts` | scamp/packet.go:67-72 | a header line without a length, or an empty one, is refused |
| `Formats.NegativeLine` | scamp/packet.go:67-92 | a negative length is read as such |
| `Formats.BlanksBetween` | scamp/packet.go:67-72 | the three parts of a header line are read with any blanks and tabs before and between them |
| `Formats.IntTexts` | scamp/serviceproxy.go:335 | a decimal text is read with or without a sign, if it fits 64 bits |
| `Formats.NoIntText` | scamp/serviceproxy.go:335 | a text with any other character is not |
| `Formats.OverlongLine` | scamp/packet.go:62 | a line longer than the reader's buffer is cut at 4096 bytes, or one earlier before a carriage return |
| `Packet.ReadPacket` | scamp/packet.go:48-127 | returns the packet or the error of the frame parser, and leaves the stream behind what was read, on success and on every failure |
| `Packet.WritePacket` | scamp/packet.go:129-186 | appends the frame and returns its length; a header that cannot be encoded leaves the stream as it was |
| `Packet.Stream.ReadFull` | scamp/packet.go:92-99 | takes exactly n bytes, or uses up a shorter stream and fails |
| `Message.ChunksConserve` | scamp/message.go:139-159 | the pieces join up to the payload, none exceeds the chunk size, one piece up to that size and floor(L/C)+1 above, all but the last full |
| `Formats.ChunkSize` | scamp/message.go:126-159 | pieces are of 131072 bytes: one up to that length, otherwise one more than the times it goes into the payload |
| `Message.WrittenBody` | scamp/message.go:118-124 | Write appends its bytes to Bytes() and keeps the byte counter equal to its length |
| `Message.WrittenChunksBody` | scamp/message.go:130-162 | WriteJSON appends the encoded payload to Bytes() and keeps the byte counter equal to its length |
| `Message.StampedBody` | scamp/message.go:197-200 | stamping a message number changes no body and reaches every packet |
| `Message.Message.constructor` | scamp/message.go:25-28 | a new message is the zero value |
| `Message.Message.Write` | scamp/message.go:118-124 | one DATA packet and the counter advanced, modulo 2^64 |
| `Message.Message.WriteJSON` | scamp/message.go:130-162 | the loop appends exactly the chunks of the encoded payload |
| `Message.Message.AsPackets` | scamp/message.go:169-205 | header, bodies, EOF, all with the number; the stored packets are restamped in place |
| `Message.Message.Bytes` | scamp/message.go:208-215 | the bodies of the packets in order |
| `Connection.Connection.constructor` | scamp/connection.go:71-110 | both numbers start at zero, nothing is open |
| `Connection.Connection.RoutePacket` | scamp/connection.go:158-253 | one packet changes the connection as the routing function says, which `Demux` ties to the stream; an error changes nothing |
| `Connection.NewTracked` | scamp/connection.go:181-190 | the header fields are copied, except for the identifying token |
| `Connection.Connection.OpenMessage` | scamp/connection.go:181-197 | a new message enters the nursery under the next number |
| `Connection.Connection.AppendAndAck` | scamp/connection.go:207-208 | the body is kept and acknowledged with the bytes received so far |
| `Connection.Connection.Deliver` | scamp/connection.go:220-223 | the message leaves the nursery and goes up the stack |
| `Connection.Connection.FailAndDeliver` | scamp/connection.go:233-244 | sets the error, keeps and acknowledges the body, delivers, in this order; the text of the error is that of `Demux.EndedMessage` |
| `Connection.Connection.AckBytes` | scamp/connection.go:324-350 | one ACK frame with the count in decimal |
| `Formats.AckText` | scamp/connection.go:324-350 | an acknowledgement frame as text; reading it gives the message number and, in decimal, the count |
| `Connection.Connection.PacketReader` | scamp/connection.go:117-156 | routes packets until reading or routing fails, delivers nothing after that failure, and closes the channel of messages, once |
| `Connection.Connection.Send` | scamp/connection.go:258-322 | a message with an id takes the next number and writes its packets; a closed connection is noticed only afterwards; what the answer tells is `Connection.OutcomeShows` and `Delivery.SendOkIffDelivered` |
| `Connection.OnlyHeaderFails` | scamp/connection.go:278-318 | of the packets of a message only the header can fail to encode, and then nothing at all is written |
| `Connection.OutcomeShows` | scamp/connection.go:258-322 | each answer of Send read off its effect: no number taken, a number taken and nothing written, or written with the connection closed or open |
| `Connection.Connection.Close` | scamp/connection.go:353-372 | the socket is closed by the first call only |
| `Demux.Demultiplexes` | scamp/connection.go:158-253 | after any accepted stream, deliveries, nursery and acknowledgements are those of filtering the stream by message number |
| `Demux.AcceptedIff` | scamp/connection.go:165-218 | exactly which streams are accepted: headers numbered consecutively, bodies and ends only for open messages |
| `Demux.AssembledBody` | scamp/connection.go:207-244 | a delivered body is the concatenation, in order of arrival, of the bodies that carried its number |
| `Demux.EndedMessage` | scamp/connection.go:198-244 | the message an EOF or TXERR ends has the fields of its header without the identifying token, the text of the TXERR, or the default text if that is empty, as its error, and the bodies in between |
| `Demux.EndingDelivers` | scamp/connection.go:210-244 | in every accepted stream the packet that ends a message is accepted and delivers it |
| `Demux.RefusedBecause` | scamp/connection.go:165-232 | which error refuses which packet, told from the stream: a header without the next number, a header for an open message, a body or an end without one |
| `Demux.AcksIrrelevant` | scamp/connection.go:246-250 | deleting the ACK packets from a stream changes neither state nor deliveries nor acceptance |
| `Demux.MsgnoPartition` | scamp/connection.go:165-244 | for up to 2^64 headers the numbers used split into open ones and ones delivered exactly once |
| `Demux.AlreadyTrackingUnreachable` | scamp/connection.go:172-177 | the check for a header already tracked never fires before 2^64 headers |
| `Demux.AcksMonotone` | scamp/connection.go:198-244 | in the log of acknowledgements sent, those for one message never decrease, for up to 2^64 headers and fewer than 2^64 bytes |
| `Demux.AckCountGrows` | scamp/connection.go:207-208 | before reduction to 64 bits, the count for a later body exceeds an earlier one by at least the later body, whatever comes between |
| `Demux.LastAckIsLength` | scamp/connection.go:198-244 | in every run a delivered message with a body was last acknowledged with the length of its Bytes() |
| `Delivery.EndToEnd` | scamp/connection.go:117-350 | messages sent with any acknowledgements between them are delivered in order and whole, the nursery ends empty, both sides reach the same number |
| `Duplex.TurnsAreIndependent` | scamp/connection.go:117-350 | however sending and reading take turns at one end, what it reads is what reading alone gives, and what it writes is its messages and acknowledgements in order |
| `Duplex.BothEnds` | scamp/connection.go:117-350 | at every moment of a conversation neither end has refused a packet and each has delivered the first few of the other's messages; an end that has read everything has delivered all, with an empty nursery and the number the other uses next |
| `Duplex.ReadAllFrames` | scamp/packet.go:48-115 | reading a concatenation of frames packet by packet gives back exactly the packets |
| `Delivery.DeliveredIffEncodable` | scamp/connection.go:258-322 | everything sent is delivered if and only if every header can be encoded |
| `Delivery.SendOkIffDelivered` | scamp/connection.go:258-322 | on an open connection Send answers that all is well if and only if the other side delivers the message, whatever was sent before; on a closed one it never does |
| `Delivery.EncodeFailurePoisons` | scamp/connection.go:273-313 | after a header that cannot be encoded exactly the earlier messages are delivered, and the next message written stops the reader |
| `Delivery.BrokenStreamDeliversPrefix` | scamp/connection.go:127-156 | if the stream breaks off after any number of bytes, what is delivered is a prefix of what was sent |
| `Delivery.ReadingDemultiplexes` | scamp/connection.go:117-253 | reading the frames of any interleaving of messages ends cleanly if and only if the packets are in order, and then leaves what filtering them by message number gives |
| `Delivery.UntypedIsLost` | scamp/packetheader.go:113-124 | a message given only a request id has no type, cannot be encoded and is not delivered |
| `Delivery.PumpFrames` | scamp/connection.go:128-152 | reading a concatenation of frames is routing the list of their packets |
| `Delivery.PumpCut` | scamp/packet.go:62-102 | reading a stream cut anywhere is routing the frames it holds whole; it ends cleanly only between two frames |
| `Delivery.WireIsFrames` | scamp/connection.go:273-345 | the bytes written are the frames of the messages, consecutively numbered, and of the acknowledgements, in the order of the calls |
| `Delivery.ArrivedBody` | scamp/message.go:208-215 | the body of a message is the same on arrival |
| `Client.Client.constructor` | scamp/client.go:38-59 | no requests, no open replies |
| `Client.Client.Send` | scamp/client.go:69-92 | the message gets the next id in any case and keeps its other fields; a reply channel is made, under that id, if and only if there is an open connection and the message is a request with a non-zero id and a known envelope |
| `Client.Client.SendConnected` | scamp/client.go:73-86 | the same over a connection, in order: id, connection, reply channel |
| `Client.Client.TakeID` | scamp/client.go:73-74 | the message carries the next id and is otherwise as it was |
| `Client.NextIDWraps` | scamp/client.go:73 | the next id is one more, modulo 2^64 |
| `Client.Client.SplitOne` | scamp/client.go:143-178 | a request goes to the service, a reply to whoever waits for its id and to nobody twice, the rest is dropped; no closed channel is sent on |
| `Client.SplitKeeps` | scamp/client.go:151-178 | splitting keeps open ids leading to open channels made for them |
| `Client.SplitHandsOnRequests` | scamp/client.go:151-154 | splitting any messages hands the service exactly the requests, in the order in which they came |
| `Client.Client.CloseReplies` | scamp/client.go:177-183 | the channel of requests and every open reply channel are closed, each once, no other |
| `Client.Client.SplitReqsAndReps` | scamp/client.go:133-187 | splits all messages in order, then closes the channels and the client |
| `Client.Client.Close` | scamp/client.go:103-130 | the connection is closed and forgotten by the first call only |
| `Sessions.AlwaysSafe` | scamp/client.go:69-187 | over every interleaving: no channel closed twice or sent on when closed, one socket close, at most one message per reply channel, a reply with the id it was made for |
| `Sessions.PanicIff` | scamp/client.go:125-142 | a run panics if and only if its last step is the splitter looking for its channel after the client was closed |
| `Sessions.PanicReachable` | scamp/client.go:125-142 | a run that panics this way |
| `Sessions.NothingAfterError` | scamp/connection.go:131-155 | among all the goroutines, the channel of messages stays as the reader left it when its loop ended |
| `Sessions.IdsNeverRepeat` | scamp/client.go:73-87 | below 2^63 sends ids never repeat and every open id lies between one and the last id used |
| `Sessions.SecondReplyDropped` | scamp/client.go:155-164 | once a reply was passed on its id is gone: a second reply with it changes nothing |
| `Sessions.LeftWaitingIff` | scamp/client.go:75-87 | after shutdown a caller's channel is neither used nor closed if and only if the step that registers it comes after the splitter has taken the table's lock |
| `Sessions.LateIff` | scamp/client.go:75-87 | the channels that escape closing are those registered after that lock |
| `Sessions.LateRequestWaitsForever` | scamp/client.go:75-87 | a run that leaves a caller waiting this way |
| `Sessions.SortThenAnswerIsSplit` | scamp/client.go:151-171 | the atomic steps of the splitter, taken together, are one turn of its loop |
| `Sessions.WriteThenRegisterIsSend` | scamp/client.go:69-92 | writing and then registering are what `Client.Send` does to the table |
| `Sessions.FailedSendIsSend` | scamp/client.go:73-80 | a send that fails, for whatever reason, only uses up its id |
| `Sessions.DrainingClosesAll` | scamp/client.go:176-183 | the splitter's last steps close the channel of requests and every open reply channel, in whatever order the map is ranged over |
| `Sessions.RequestsHandedOn` | scamp/client.go:133-176 | over every interleaving the service is handed exactly the requests that arrived, in order, up to where the splitter is, and all of them once their channel is closed |
| `Sessions.ClosedTogether` | scamp/client.go:103-187 | a closed client has closed its connection, and the splitter leaves a closed client behind |
| `ReplyMatching.KthReplyToKthRequest` | scamp/client.go:69-171 | in every run of both ends the k-th reply carries id k and reaches the channel of the k-th request or nobody |
| `ReplyMatching.OwnAnswerIff` | scamp/client.go:69-171 | a caller is given its own answer if and only if the k-th reply was written for the k-th request and was processed after that request was registered |
| `ReplyMatching.InTurnIsSequential` | scamp/service.go:217-255 | a handler that answers each request before the next sends the k-th reply for the k-th request |
| `ReplyMatching.StampedByClient` | scamp/client.go:73-74 | a request or reply that the client stamps is the one this model puts on the wire |
| `ReplyMatching.RequestIsSend` | scamp/client.go:69-92 | requesting and registering are what `Client.Send` does with a request on an open connection |
| `ReplyMatching.AnswerIsSend` | scamp/client.go:69-92 | answering is what `Client.Send` does with a reply, under an id of the service's own |
| `ReplyMatching.DroppedIffOvertakes` | scamp/client.go:75-87 | exactly those replies are dropped that are processed before their request is registered |
| `ReplyMatching.SequentialHandlerMatches` | scamp/service.go:217-255 | with such a handler the k-th reply reaches the caller it was written for, and nobody else, if and only if it is processed after that request was registered |
| `ReplyMatching.OverTheWire` | scamp/client.go:69-171 | the messages each end is taken to receive are those that reading the other end's bytes delivers |
| `ReplyMatching.OutOfTurnMixesUp` | scamp/client.go:73-74 | a run in which a service answers out of turn and a caller is given another's answer |
| `ReplyMatching.EarlyReplyIsLost` | scamp/client.go:75-87 | a reply that overtakes its registration is dropped and its caller's channel can never be served |
| `ReplyMatching.ReplyOvertakes` | scamp/client.go:75-87 | a run in which a reply overtakes its registration |
| `ServiceProxy.RecordRoundTripIff` | scamp/serviceproxy.go:205-348 | decoding what MarshalJSON prints gives the record back if and only if every class has an action |
| `ServiceProxy.ActionVariants` | scamp/serviceproxy.go:323-341 | a two-entry action decodes like version 1, a version written as a string like the integer |
| `Formats.RecordPositions` | scamp/serviceproxy.go:395-431 | what stands at each of the nine positions of a record, the time at the last, and in each class and action |
| `Formats.RecordCut` | scamp/serviceproxy.go:217-348 | a printed record with fewer than eight entries makes the decoder panic; the ninth is not looked at |
| `ServiceProxy.ProtocolsAre` | scamp/serviceproxy.go:252-275 | a list of protocols gives all its strings in order and the last of its objects that can be read, and panics if and only if it holds a null |
| `ServiceProxy.ExtensionMembers` | scamp/serviceproxy.go:23-32 | each of the eight members of an extension object goes into its own field |
| `ServiceProxy.ActionLengths` | scamp/serviceproxy.go:301-343 | an action of fewer than two entries panics in spite of the check; entries behind the third are ignored |
| `ServiceProxy.LeadingReadableIff` | scamp/serviceproxy.go:222-250 | the six leading entries are read if and only if they are texts and integers that fit, or null |
| `ServiceProxy.ClassesReadableIff` | scamp/serviceproxy.go:284-344 | classes are read if and only if each has a name, at least one entry behind it, and only readable actions |
| `ServiceProxy.MarshalJSON` | scamp/serviceproxy.go:395-431 | the nested loops build the nine-entry value that is encoded |
| `ServiceProxy.NewServiceProxy` | scamp/serviceproxy.go:205-348 | the loops decode exactly what the decoding function says, with its errors and panics |
| `ServiceProxy.DecodeActionList` | scamp/serviceproxy.go:301-343 | the actions of a class, in order, up to the first error |
| `ServiceProxy.DecodeClassList` | scamp/serviceproxy.go:284-344 | the classes in order, each with at least one action |
| `ServiceProxy.DecodeProtocolList` | scamp/serviceproxy.go:252-275 | strings are kept in order, the last readable extension object is kept, other entries are passed over, a null panics |
| `ServiceProxy.LeadingRoundTrip` | scamp/serviceproxy.go:222-250 | the six leading entries decode to the values that were printed, each into its own field |
| `ServiceProxy.DecodeLeadingEntries` | scamp/serviceproxy.go:222-250 | the step-by-step decoding that `ServiceProxy.LeadingRoundTrip` is about; the first entry that is missing or of the wrong type decides |
| `Scan.ScanRoundTrip` | scamp/servicecache.go:198-265 | extraction finds exactly the printed records, in order, with any separator-free lines before, between and after |
| `Scan.SeparatorSwallowed` | scamp/servicecache.go:248-257 | a signature that runs into the next separator makes the record behind it disappear |
| `Scan.GluedScan` | scamp/servicecache.go:206-265 | which records of a file are found when any signatures run into the next separator: the record behind is lost, the one behind that is found again |
| `Scan.AllFoundIff` | scamp/servicecache.go:206-265 | every record of a file is found, in order, if and only if none but the last runs into the next separator |
| `Scan.IncompletePassedOver` | scamp/servicecache.go:231-265 | a record without certificate or without signature is passed over and scanning goes on behind it |
| `Scan.ScanStops` | scamp/servicecache.go:216-229 | a blank line after a separator ends the scan; a class record that no blank line follows is an error |
| `Scan.SkipLines` | scamp/servicecache.go:207-215 | lines without a separator are passed over |
| `Formats.FileWithOneRecord` | scamp/servicecache.go:167-265 | a file with one record as text, and the record that is found in it |
| `Formats.CrLfLine` | scamp/servicecache.go:206-265 | lines that end in CR LF are read like lines that end in LF |
| `ServiceCache.Scanner.SkipToSeparator` | scamp/servicecache.go:206-215 | reads through the first separator, if there is one |
| `ServiceCache.Scanner.ReadBlock` | scamp/servicecache.go:231-265 | the lines up to a terminator, joined by newlines; the terminator is used up |
| `ServiceCache.Scanner.ReadBody` | scamp/servicecache.go:231-265 | certificate and signature of a record; a record that lacks either is passed over |
| `ServiceCache.Scanner.ReadRecord` | scamp/servicecache.go:206-265 | one turn of the loop finds the next record, passes over an incomplete one, ends, or fails, as extraction says |
| `ServiceCache.ServiceCache.StoreNoLock` | scamp/servicecache.go:65-94 | the ident entry is replaced, the proxy appended to the bucket of each of its names |
| `ServiceCache.ServiceCache.RemoveNoLock` | scamp/servicecache.go:96-106 | the ident entry goes, the action index stays, and it fails if there was none |
| `ServiceCache.ServiceCache.ClearNoLock` | scamp/servicecache.go:110-115 | both indexes are emptied |
| `ServiceCache.ServiceCache.Retrieve` | scamp/servicecache.go:117-128 | the proxy known under the ident, or none |
| `ServiceCache.ServiceCache.SearchByAction` | scamp/servicecache.go:130-141 | the bucket of the munged name, whose parts are those of `CacheIndex.KeyParts`; an empty result is an error |
| `ServiceCache.ServiceCache.Size` | scamp/servicecache.go:143-148 | the number of idents |
| `ServiceCache.ServiceCache.All` | scamp/servicecache.go:150-164 | every known proxy, once each, in some order |
| `ServiceCache.ServiceCache.Absorb` | scamp/servicecache.go:269-287 | a record is stored, or removes its ident if it does not validate, or stops the scan |
| `ServiceCache.ServiceCache.DoScan` | scamp/servicecache.go:198-291 | terminates; the cache ends up with exactly the operations of the extracted records, and the error is theirs |
| `ServiceCache.ServiceCache.DisableRecordVerification` | scamp/servicecache.go:38-40 | turns verification on, as the code does |
| `ServiceCache.ServiceCache.EnableRecordVerification` | scamp/servicecache.go:42-44 | turns verification off, as the code does |
| `CacheIndex.KeysIff` | scamp/servicecache.go:76-91 | a proxy is stored under the names of its class, action and protocol triples and no others |
| `CacheIndex.KeyParts` | scamp/servicecache.go:79-134 | a munged name is sector, colon, action, tilde, version, hash, envelope, the texts in lower case |
| `CacheIndex.IndexRefinesSearch` | scamp/servicecache.go:65-141 | after any run of stores and removes each bucket equals the naive search through all stores, and none is empty |
| `CacheIndex.SearchKeyFaithful` | scamp/servicecache.go:79-134 | two searches share a name if and only if they agree in the version and, letter by letter up to case, in the texts, for sectors without colon and actions without tilde |
| `Text.SameTextIff` | scamp/servicecache.go:79-134 | texts are the same in lower case if and only if they are of the same length and differ only in the case of letters, by the two alphabets |
| `CacheIndex.ColonCollides` | scamp/servicecache.go:134 | without that restriction sectors and actions can be confused |
| `CacheIndex.TildeCollides` | scamp/servicecache.go:134 | without that restriction actions and versions can be confused |
| `CacheIndex.StoredUnderDottedName` | scamp/servicecache.go:79-134 | the name built when storing is the name searched for class, dot, action |
| `CacheIndex.SearchExact` | scamp/servicecache.go:65-141 | a search returns exactly the proxies ever stored that offer what is searched for, up to letter case |
| `CacheIndex.SearchFinds` | scamp/servicecache.go:65-141 | what was stored and is offered is found, whatever characters names hold |
| `CacheIndex.AgreementKeptIff` | scamp/servicecache.go:65-106 | the two indexes keep agreeing through an operation if and only if it does not replace or remove the record of a proxy that announces something |
| `CacheIndex.AgreementOfRun` | scamp/servicecache.go:65-106 | after any run search and ident index agree if and only if every store of a proxy that announces something is, or repeats, the last operation on its ident |
| `CacheIndex.AgreementThroughout` | scamp/servicecache.go:65-106 | they agree after every operation of a run if and only if no operation replaces or removes the record of a proxy that announces something |
| `CacheIndex.RemovedIsStillFound` | scamp/servicecache.go:96-106 | a proxy stored and then removed is unknown under its ident and still found by its action |
| `CacheIndex.DistinctStoresAgree` | scamp/servicecache.go:65-94 | in particular after any stores under distinct idents |
| `CacheIndex.ScanOpsAre` | scamp/servicecache.go:269-287 | a scan applies the records one for one, in order, and stops at the first that cannot be decoded |
| `CacheIndex.RefusedIff` | scamp/servicecache.go:276-287 | a record is refused, and its ident forgotten, if and only if records are verified and it does not validate; otherwise it is stored, validated or not |
| `CacheIndex.LastRecordDecides` | scamp/servicecache.go:117-287 | after a scan the last record of each ident decides what Retrieve returns: it, if accepted, otherwise nothing |
| `CacheIndex.SizeCountsSurviving` | scamp/servicecache.go:143-164 | after any run the known idents are those whose last operation is a store, once each, and Size counts them |
| `Service.Service.Register` | scamp/service.go:148-167 | a name is registered with version 1, replacing an earlier registration, unless the service runs |
| `Service.Service.ServiceAsServiceProxy` | scamp/serviceproxy.go:154-203 | one class for each registered name, in whatever order the map is ranged over; a name without a dot panics; what its fields are is `Discovery.SeenIs` |
| `Service.NameRejoined` | scamp/serviceproxy.go:171-178 | class, dot, action is the registered name, and the action has no dot |
| `Service.StringToRows` | scamp/service.go:323-348 | terminates with the rows of the input |
| `Service.RowsIff` | scamp/service.go:323-348 | the rows are the only way to cut the input into rows of 76 with a last row of at most 76, empty only for empty input |
| `Service.Service.MarshalText` | scamp/service.go:294-321 | the record of the service, its certificate and the signature rows, separated by blank lines; what is read from it is `Discovery.SeenIs` and `Discovery.SeenActions` |
| `Discovery.RecordTextIsLines` | scamp/service.go:306-319 | the printed text is the lines of the documented grammar |
| `Discovery.FileScanned` | scamp/servicecache.go:198-291 | scanning a file of printed records among any other lines applies exactly these records, in order, without error |
| `Discovery.SeenIs` | scamp/serviceproxy.go:154-203 | what is read of a printed record: name, sector and address of the service each in its field, version 3, weight 1, interval 2500, protocol json |
| `Discovery.SeenActions` | scamp/serviceproxy.go:169-192 | and of its actions: one for each registered name, with its version and its tags |
| `Discovery.LastAnnouncedIsKnown` | scamp/servicecache.go:117-287 | after a scan Retrieve returns, for the name of a service, the last record printed under it, with that service's address, if that record is accepted, and otherwise nothing |
| `Discovery.UnannouncedIsUnknown` | scamp/servicecache.go:117-287 | a name that no service of the file has is not known |
| `Discovery.UnverifiedIsKnown` | scamp/servicecache.go:276-287 | with verification off the last record printed under a name is known, whether it would validate or not |
| `Discovery.RegisteredActionIsFound` | scamp/servicecache.go:130-141 | a registered action is found whatever the case of its letters and with any number of dots, if its record is accepted |
| `Discovery.SearchFindsExactlyRegistered` | scamp/servicecache.go:130-141 | and a search finds nothing but accepted records of services that registered the action |
| `Discovery.SearchReturnsListing` | scamp/servicecache.go:65-141 | a search returns the accepted records that register the action, in the order of the file, each once for every registered name that is the one searched for up to letter case |
| `Discovery.AcceptedIffSigned` | scamp/serviceproxy.go:353-393 | a printed record is accepted if and only if its signature is good for the class record as printed |
| `Discovery.RowsUnwrapped` | scamp/service.go:323-348 | a signature cut into rows and read without line breaks is the signature |

## Left out

- Connection.Connection.Send: the writer never fails, so the retry loop on write errors and partial writes is not modelled.
- Client.Client.SplitReqsAndReps: takes all messages of its channel at once, and the channel as an argument; what happens when `Client.Close` drops the connection between two messages is modelled by the steps of `Sessions`.
- Client.Client.Close: the notifications to the service and to the service cache are not modelled.
- Packet.ReadPacket: a negative length is an error here, where the code panics while allocating the body, as it does for a length that exceeds memory.
- PacketHeader.HeaderRoundTrip: JSON member names are matched exactly, not ignoring case.
- Packet.FrameRoundTrip: the text form of JSON is an arbitrary pair of functions; of the values that are written it is assumed that printing is undone by parsing and gives one clean line, as `encoding/json` does when all strings are valid UTF-8. What becomes of other strings is not modelled.
- ServiceProxy.NewServiceProxy: integers written with a fraction or an exponent are refused; the elements of an extension's lists stay JSON values; a panic is an error value here.
- ServiceCache.ServiceCache.DoScan: limits on the length of a line are not modelled, nor is reading the file.
- Discovery.AcceptedIffSigned: RSA, SHA-256, base64 and PEM are an arbitrary predicate of certificate, record and unwrapped signature.
- ReplyMatching.InTurnIsSequential: `Service.Handle` is modelled as the order in which it answers, not as a loop over a channel; the answer to an unknown action is a reply like any other.
- Service.Service.MarshalText: time and listener address are arguments, the signing function is arbitrary, and the certificate is given without surrounding white space.
- CacheIndex.SearchKeyFaithful: letter case is that of ASCII.
- Sessions.IdsNeverRepeat: says nothing once 2^63 requests have been sent and ids wrap around.
- Channels are unbounded, which allows more interleavings than unbuffered ones; blocking, timeouts and liveness are not modelled.
- Each step of `Sessions` is atomic, as locks and channel operations make it in the code; data races on single fields are not modelled beyond that order.
- Byte slices and packets are values: writing to a slice after `Write`, or sending a message object that the same connection delivered, is not modelled.
- TLS, dialling, multicast, configuration, logging, the debugger's tee and statistics are input and output.
- Tickets, privileges, fingerprints, authorized services, `RemoveClient`, `ActionList`, load-ordered client choice and cache refreshing are not modelled.
