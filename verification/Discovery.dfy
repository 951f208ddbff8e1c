/** Discovery end to end: services print their records, a file collects them, a cache scans the file, and a
    search by action finds the services. */
module Discovery {
  import opened Text
  import opened Json
  import opened ServiceProxy
  import opened Service
  import opened Scan
  import opened ServiceCache
  import opened CacheIndex

  /** One record of the file: the service that prints it, the order in which it lists its actions, the time, the
      lines of its certificate and the signature. */
  datatype Announcement =
    Announcement(sv: Sv, order: seq<string>, timestamp: int, certLines: seq<Bytes>, sig: Bytes)

  /** Base64 has neither line breaks nor percent signs, PEM has no blank lines. */
  predicate Announceable(a: Announcement) {
    && AllDotted(a.sv.actions) && OrderOf(a.order, a.sv.actions)
    && a.sv.pemCert == Join(a.certLines)
    && a.certLines != [] && CleanLines(a.certLines) && NoBlank(a.certLines)
    && a.sig != [] && '\n' !in a.sig && '\r' !in a.sig && '%' !in a.sig
  }

  predicate AllAnnounceable(announcements: seq<Announcement>) {
    forall i | 0 <= i < |announcements| :: Announceable(announcements[i])
  }

  /** The record survives being written as text. */
  predicate Legible(codec: Codec, a: Announcement)
    requires Announceable(a)
  {
    Faithful(codec, ProxyToJson(Announced(a.sv, a.order, a.timestamp)))
  }

  predicate AllLegible(codec: Codec, announcements: seq<Announcement>)
    requires AllAnnounceable(announcements)
  {
    forall i | 0 <= i < |announcements| :: Legible(codec, announcements[i])
  }

  function ClassRecord(codec: Codec, a: Announcement): Bytes
    requires Announceable(a)
  {
    codec.encode(ProxyToJson(Announced(a.sv, a.order, a.timestamp)))
  }

  /** The separator line and the text that `MarshalText` returns, after any other lines. */
  function Posting(codec: Codec, slop: seq<Bytes>, a: Announcement): Bytes
    requires Announceable(a)
  {
    Unlines(slop) + (SEP + NEWLINE + RecordText(ClassRecord(codec, a), a.sv.pemCert, a.sig))
  }

  function FileText(codec: Codec, slops: seq<seq<Bytes>>, announcements: seq<Announcement>): Bytes
    requires |slops| == |announcements| && AllAnnounceable(announcements)
    decreases |slops|
  {
    if slops == [] then []
    else Posting(codec, slops[0], announcements[0]) + FileText(codec, slops[1..], announcements[1..])
  }

  predicate Slop(slops: seq<seq<Bytes>>) {
    forall i | 0 <= i < |slops| :: CleanLines(slops[i]) && NoSeparator(slops[i])
  }

  // ---------- from text to lines ----------

  function PrintedOf(codec: Codec, a: Announcement): Printed
    requires Announceable(a)
  {
    Printed(ClassRecord(codec, a), a.certLines, Rows(a.sig))
  }

  function PrintedAll(codec: Codec, announcements: seq<Announcement>): (r: seq<Printed>)
    requires AllAnnounceable(announcements)
    ensures |r| == |announcements|
    ensures forall i | 0 <= i < |r| :: r[i] == PrintedOf(codec, announcements[i])
    decreases |announcements|
  {
    if announcements == [] then []
    else [PrintedOf(codec, announcements[0])] + PrintedAll(codec, announcements[1..])
  }

  lemma UnlinesOne(line: Bytes)
    ensures Unlines([line]) == line + NEWLINE
  {
    assert Unlines([line]) == line + NEWLINE + [];
  }

  lemma UnlinesTwo(a: Bytes, b: Bytes)
    ensures Unlines([a, b]) == a + NEWLINE + (b + NEWLINE)
  {
    UnlinesOne(b);
    assert [a, b][1..] == [b];
  }

  lemma RecordTextIsLines(classRecord: Bytes, certLines: seq<Bytes>, sig: Bytes)
    requires certLines != []
    ensures RecordText(classRecord, Join(certLines), sig)
         == Unlines(OpenLines(Printed(classRecord, certLines, Rows(sig))) + [[]])
  {
    var rows := Rows(sig);
    UnlinesTwo(classRecord, []);
    UnlinesOne([]);
    UnlinesConcat([classRecord, []] + (certLines + ([[]] + rows)), [[]]);
    UnlinesConcat([classRecord, []], certLines + ([[]] + rows));
    UnlinesConcat(certLines, [[]] + rows);
    UnlinesConcat([[]], rows);
    JoinNewline(certLines);
    RecordTextRegrouped(classRecord, Join(certLines), Unlines(rows));
  }

  lemma RecordTextRegrouped(classRecord: Bytes, cert: Bytes, rows: Bytes)
    ensures classRecord + "\n\n" + cert + "\n\n" + rows + "\n"
         == classRecord + NEWLINE + ([] + NEWLINE) + (cert + NEWLINE + ([] + NEWLINE + rows)) + ([] + NEWLINE)
  {
  }

  lemma PostingIsLines(codec: Codec, slop: seq<Bytes>, a: Announcement)
    requires Announceable(a)
    ensures Posting(codec, slop, a) == Unlines(RecordLines(slop, PrintedOf(codec, a)))
  {
    var open := OpenLines(PrintedOf(codec, a)) + [[]];
    RecordTextIsLines(ClassRecord(codec, a), a.certLines, a.sig);
    UnlinesConcat(slop, [SEP] + open);
    UnlinesConcat([SEP], open);
    UnlinesOne(SEP);
  }

  lemma {:induction false} FileIsLines(codec: Codec, slops: seq<seq<Bytes>>, announcements: seq<Announcement>)
    requires |slops| == |announcements| && AllAnnounceable(announcements)
    ensures FileText(codec, slops, announcements) == Unlines(FileLines(slops, PrintedAll(codec, announcements)))
    decreases |slops|
  {
    if slops != [] {
      FileIsLines(codec, slops[1..], announcements[1..]);
      PostingIsLines(codec, slops[0], announcements[0]);
      var printed := PrintedAll(codec, announcements);
      assert printed[1..] == PrintedAll(codec, announcements[1..]);
      UnlinesConcat(RecordLines(slops[0], printed[0]), FileLines(slops[1..], printed[1..]));
    }
  }

  // ---------- printed records are proper and clean ----------

  lemma {:induction false} RowsFromSig(sig: Bytes)
    requires sig != []
    ensures forall i | 0 <= i < |Rows(sig)| :: Rows(sig)[i] != [] && forall c <- Rows(sig)[i] :: c in sig
    decreases |sig|
  {
    if |sig| > 76 {
      RowsFromSig(sig[76..]);
      assert forall i | 1 <= i < |Rows(sig)| :: Rows(sig)[i] == Rows(sig[76..])[i - 1];
    }
  }

  lemma RowsAreProper(sig: Bytes)
    requires sig != [] && '\n' !in sig && '\r' !in sig && '%' !in sig
    ensures CleanLines(Rows(sig)) && NoBlank(Rows(sig)) && NoSeparator(Rows(sig))
  {
    RowsFromSig(sig);
    forall i | 0 <= i < |Rows(sig)| ensures CleanLine(Rows(sig)[i]) && Rows(sig)[i] != SEP {
      assert SEP[0] == '%';
    }
  }

  lemma CleanConcat(a: seq<Bytes>, b: seq<Bytes>)
    requires CleanLines(a) && CleanLines(b)
    ensures CleanLines(a + b)
  {
  }

  lemma PrintedIsProper(codec: Codec, slop: seq<Bytes>, a: Announcement)
    requires Announceable(a) && Legible(codec, a) && CleanLines(slop)
    ensures Proper(PrintedOf(codec, a)) && CleanLines(RecordLines(slop, PrintedOf(codec, a)))
  {
    var r := PrintedOf(codec, a);
    assert r.classLine != [] && CleanLine(r.classLine);
    RowsAreProper(a.sig);
    CleanConcat([[]], r.sigLines);
    CleanConcat(r.certLines, [[]] + r.sigLines);
    CleanConcat([r.classLine, []], r.certLines + ([[]] + r.sigLines));
    CleanConcat(OpenLines(r), [[]]);
    CleanConcat([SEP], OpenLines(r) + [[]]);
    CleanConcat(slop, [SEP] + (OpenLines(r) + [[]]));
  }

  lemma {:induction false} FileIsClean(codec: Codec, slops: seq<seq<Bytes>>, announcements: seq<Announcement>)
    requires |slops| == |announcements| && AllAnnounceable(announcements)
    requires AllLegible(codec, announcements) && Slop(slops)
    ensures CleanLines(FileLines(slops, PrintedAll(codec, announcements)))
    decreases |slops|
  {
    if slops != [] {
      FileIsClean(codec, slops[1..], announcements[1..]);
      PrintedIsProper(codec, slops[0], announcements[0]);
      var printed := PrintedAll(codec, announcements);
      assert printed[1..] == PrintedAll(codec, announcements[1..]);
      CleanConcat(RecordLines(slops[0], printed[0]), FileLines(slops[1..], printed[1..]));
    }
  }

  // ---------- from lines to the cache ----------

  /** The announcement as the scanning process sees it: the record that was signed, byte for byte, the
      certificate, and the signature with newlines between its rows. */
  function Seen(codec: Codec, a: Announcement): Proxy
    requires Announceable(a)
  {
    AsRead(codec, Announced(a.sv, a.order, a.timestamp), a.sv.pemCert, Join(Rows(a.sig)))
  }

  function OpsOf(rules: Rules, announcements: seq<Announcement>): (r: seq<Op>)
    requires AllAnnounceable(announcements)
    ensures |r| == |announcements|
    ensures forall i | 0 <= i < |r| :: r[i] == OpFor(rules, Seen(rules.codec, announcements[i]))
    decreases |announcements|
  {
    if announcements == [] then []
    else [OpFor(rules, Seen(rules.codec, announcements[0]))] + OpsOf(rules, announcements[1..])
  }

  lemma AnnouncedDecodes(codec: Codec, a: Announcement)
    requires Announceable(a) && Legible(codec, a)
    ensures var r := RecordOf(PrintedOf(codec, a));
            DecodeProxy(codec, r.classRecords, r.cert, r.sig) == Success(Seen(codec, a))
  {
    RecordRoundTripIff(codec, Announced(a.sv, a.order, a.timestamp), a.sv.pemCert, Join(Rows(a.sig)));
  }

  lemma {:induction false} AnnouncedOps(rules: Rules, announcements: seq<Announcement>)
    requires AllAnnounceable(announcements) && AllLegible(rules.codec, announcements)
    ensures ScanOps(rules, Extraction(RecordsOf(PrintedAll(rules.codec, announcements)), false))
         == (OpsOf(rules, announcements), None)
    decreases |announcements|
  {
    if announcements != [] {
      var printed := PrintedAll(rules.codec, announcements);
      assert printed[1..] == PrintedAll(rules.codec, announcements[1..]);
      AnnouncedOps(rules, announcements[1..]);
      AnnouncedDecodes(rules.codec, announcements[0]);
      var e := Extraction(RecordsOf(printed), false);
      assert e.(records := e.records[1..]) == Extraction(RecordsOf(printed[1..]), false);
    }
  }

  /** Scanning a file of announcements, whatever else stands between them, applies exactly these announcements,
      in order and without error. */
  lemma FileScanned(rules: Rules, slops: seq<seq<Bytes>>, announcements: seq<Announcement>, tail: Bytes)
    requires |slops| == |announcements| && AllAnnounceable(announcements)
    requires AllLegible(rules.codec, announcements) && Slop(slops) && NoSeparator(Lines(tail))
    ensures Scanned(rules, Lines(FileText(rules.codec, slops, announcements) + tail))
         == (ApplyAll(EMPTY, OpsOf(rules, announcements)), None)
  {
    var printed := PrintedAll(rules.codec, announcements);
    FileIsLines(rules.codec, slops, announcements);
    FileIsClean(rules.codec, slops, announcements);
    LinesOfUnlines(FileLines(slops, printed), tail);
    forall i | 0 <= i < |printed| ensures Proper(printed[i]) {
      PrintedIsProper(rules.codec, [], announcements[i]);
    }
    ScanRoundTrip(slops, printed, Lines(tail));
    AnnouncedOps(rules, announcements);
  }

  // ---------- what is known under the name of a service ----------

  /** What a scanning process learns of a service: its name, sector and address, each in its own field, version 3,
      weight 1, an announcement every 2500 milliseconds, the one protocol, and no extension. */
  lemma SeenIs(codec: Codec, a: Announcement)
    requires Announceable(a)
    ensures var p := Seen(codec, a);
            && p.ident == a.sv.name && p.sector == a.sv.sector && p.connspec == a.sv.connspec
            && p.version == 3 && p.weight == 1 && p.announceInterval == 2500
            && p.protocols == ["json"] && p.extension == None
            && p.rawCert == a.sv.pemCert && p.rawClassRecords == ClassRecord(codec, a)
  {
  }

  /** And of its actions, in the order in which they were listed: one in each class, under the name it was
      registered with, with its version and its tags. */
  lemma SeenActions(codec: Codec, a: Announcement, i: nat)
    requires Announceable(a) && i < |a.order|
    ensures var p, name := Seen(codec, a), a.order[i];
            && |p.classes| == |a.order| && |p.classes[i].actions| == 1
            && p.classes[i].name + "." + p.classes[i].actions[0].name == name
            && p.classes[i].actions[0].version == a.sv.actions[name].version
            && p.classes[i].actions[0].crudTags == a.sv.actions[name].crudTags
  {
    NameRejoined(a.order[i], a.sv.actions[a.order[i]]);
  }

  /** No later announcement is of a service with this name. */
  predicate LastNamed(announcements: seq<Announcement>, n: nat) {
    n < |announcements| && forall m | n < m < |announcements| :: announcements[m].sv.name != announcements[n].sv.name
  }

  lemma LastNamedIsLast(rules: Rules, announcements: seq<Announcement>, n: nat)
    requires AllAnnounceable(announcements) && LastNamed(announcements, n)
    ensures LastFor(OpsOf(rules, announcements), announcements[n].sv.name)
         == Some(OpFor(rules, Seen(rules.codec, announcements[n])))
  {
    var ops := OpsOf(rules, announcements);
    forall m | n <= m < |ops| ensures ops[m].p.ident == announcements[m].sv.name {
      SeenIs(rules.codec, announcements[m]);
    }
    LastForIs(ops, announcements[n].sv.name, n);
  }

  /** What `Retrieve` returns for the name of a service, after a file was scanned, is the last record that a service
      of this name printed, if that one is accepted, and with it the address and the actions of that service;
      otherwise nothing. */
  lemma LastAnnouncedIsKnown(rules: Rules, slops: seq<seq<Bytes>>, announcements: seq<Announcement>, tail: Bytes,
                             n: nat)
    requires |slops| == |announcements| && AllAnnounceable(announcements)
    requires AllLegible(rules.codec, announcements) && Slop(slops) && NoSeparator(Lines(tail))
    requires LastNamed(announcements, n)
    ensures var index := Scanned(rules, Lines(FileText(rules.codec, slops, announcements) + tail)).0.identIndex;
            var a := announcements[n];
            && (a.sv.name in index <==> Accepts(rules, Seen(rules.codec, a)))
            && (a.sv.name in index ==>
                  && index[a.sv.name] == Seen(rules.codec, a)
                  && index[a.sv.name].connspec == a.sv.connspec
                  && index[a.sv.name].sector == a.sv.sector)
  {
    var ops := OpsOf(rules, announcements);
    FileScanned(rules, slops, announcements, tail);
    IdentIndexIsLast(ops, announcements[n].sv.name);
    LastNamedIsLast(rules, announcements, n);
    SeenIs(rules.codec, announcements[n]);
  }

  /** A name that no service in the file has is not known. */
  lemma UnannouncedIsUnknown(rules: Rules, slops: seq<seq<Bytes>>, announcements: seq<Announcement>, tail: Bytes,
                             ident: string)
    requires |slops| == |announcements| && AllAnnounceable(announcements)
    requires AllLegible(rules.codec, announcements) && Slop(slops) && NoSeparator(Lines(tail))
    requires forall n | 0 <= n < |announcements| :: announcements[n].sv.name != ident
    ensures ident !in Scanned(rules, Lines(FileText(rules.codec, slops, announcements) + tail)).0.identIndex
  {
    var ops := OpsOf(rules, announcements);
    FileScanned(rules, slops, announcements, tail);
    IdentIndexIsLast(ops, ident);
    forall m | 0 <= m < |ops| ensures ops[m].p.ident == announcements[m].sv.name {
      SeenIs(rules.codec, announcements[m]);
    }
    LastForNone(ops, ident);
  }

  /** With verification off every record is taken, whether it would validate or not: what is known under the name
      of a service is the last record printed for it. */
  lemma UnverifiedIsKnown(rules: Rules, slops: seq<seq<Bytes>>, announcements: seq<Announcement>, tail: Bytes, n: nat)
    requires |slops| == |announcements| && AllAnnounceable(announcements)
    requires AllLegible(rules.codec, announcements) && Slop(slops) && NoSeparator(Lines(tail))
    requires LastNamed(announcements, n) && !rules.verify
    ensures var index := Scanned(rules, Lines(FileText(rules.codec, slops, announcements) + tail)).0.identIndex;
            announcements[n].sv.name in index
            && index[announcements[n].sv.name] == Seen(rules.codec, announcements[n])
  {
    LastAnnouncedIsKnown(rules, slops, announcements, tail, n);
  }

  // ---------- finding what was registered ----------

  /** The service has registered the action, up to letter case. */
  ghost predicate Registered(a: Announcement, sector: string, action: string, version: int64) {
    && SameText(a.sv.sector, sector)
    && exists name :: RegisteredAs(a, name, action, version)
  }

  predicate RegisteredAs(a: Announcement, name: string, action: string, version: int64) {
    name in a.sv.actions && SameText(name, action) && a.sv.actions[name].version == version
  }

  lemma RegisteredIsOffered(codec: Codec, a: Announcement, name: string, action: string, version: int64,
                            envelope: string)
    requires Announceable(a) && RegisteredAs(a, name, action, version) && SameText(envelope, "json")
    ensures exists i: nat :: OffersBy(Seen(codec, a), i, 0, 0, action, version, envelope)
  {
    var i: nat :| i < |a.order| && a.order[i] == name;
    NameRejoined(name, a.sv.actions[name]);
    assert OffersBy(Seen(codec, a), i, 0, 0, action, version, envelope);
  }

  lemma OfferedIsRegistered(codec: Codec, a: Announcement, i: nat, j: nat, k: nat, action: string, version: int64,
                            envelope: string)
    requires Announceable(a) && OffersBy(Seen(codec, a), i, j, k, action, version, envelope)
    ensures RegisteredAs(a, a.order[i], action, version) && SameText(envelope, "json")
  {
    NameRejoined(a.order[i], a.sv.actions[a.order[i]]);
  }

  lemma OffersIffRegistered(codec: Codec, a: Announcement, sector: string, action: string, version: int64,
                            envelope: string)
    requires Announceable(a)
    ensures Offers(Seen(codec, a), sector, action, version, envelope)
       <==> Registered(a, sector, action, version) && SameText(envelope, "json")
  {
    if SameText(envelope, "json") && exists name :: RegisteredAs(a, name, action, version) {
      var name :| RegisteredAs(a, name, action, version);
      RegisteredIsOffered(codec, a, name, action, version, envelope);
    }
    if i: nat, j: nat, k: nat :| OffersBy(Seen(codec, a), i, j, k, action, version, envelope) {
      OfferedIsRegistered(codec, a, i, j, k, action, version, envelope);
    }
  }

  /** A registered action is found by its name, in any letter case and however many dots it has, if its record
      is accepted. */
  lemma RegisteredActionIsFound(rules: Rules, slops: seq<seq<Bytes>>, announcements: seq<Announcement>, tail: Bytes,
                                n: nat, sector: string, action: string, version: int64, envelope: string)
    requires |slops| == |announcements| && AllAnnounceable(announcements)
    requires AllLegible(rules.codec, announcements) && Slop(slops) && NoSeparator(Lines(tail))
    requires n < |announcements| && Accepts(rules, Seen(rules.codec, announcements[n]))
    requires Registered(announcements[n], sector, action, version) && SameText(envelope, "json")
    ensures var index := Scanned(rules, Lines(FileText(rules.codec, slops, announcements) + tail)).0.actionIndex;
            Seen(rules.codec, announcements[n]) in Bucket(index, SearchKey(sector, action, version, envelope))
  {
    var ops, p := OpsOf(rules, announcements), Seen(rules.codec, announcements[n]);
    FileScanned(rules, slops, announcements, tail);
    OffersIffRegistered(rules.codec, announcements[n], sector, action, version, envelope);
    assert ops[n] == Store(p);
    SearchFinds(ops, sector, action, version, envelope, p);
  }

  predicate Plain(a: Announcement) { ':' !in a.sv.sector && forall name <- a.sv.actions :: '~' !in name }

  ghost predicate Answers(rules: Rules, announcements: seq<Announcement>, i: nat, sector: string, action: string,
                        version: int64, envelope: string, p: Proxy)
    requires AllAnnounceable(announcements)
  {
    && i < |announcements| && p == Seen(rules.codec, announcements[i]) && Accepts(rules, p)
    && Registered(announcements[i], sector, action, version) && SameText(envelope, "json")
  }

  lemma SeenIsPlain(codec: Codec, a: Announcement)
    requires Announceable(a) && Plain(a)
    ensures PlainNames(Seen(codec, a))
  {
    var p := Seen(codec, a);
    forall i | 0 <= i < |p.classes| ensures '~' !in p.classes[i].name && '~' !in p.classes[i].actions[0].name {
      NameRejoined(a.order[i], a.sv.actions[a.order[i]]);
      assert forall c <- p.classes[i].name :: c in a.order[i];
      assert forall c <- p.classes[i].actions[0].name :: c in a.order[i];
    }
  }

  lemma FoundIsRegistered(rules: Rules, announcements: seq<Announcement>, sector: string, action: string,
                          version: int64, envelope: string, p: Proxy) returns (i: nat)
    requires AllAnnounceable(announcements) && forall i | 0 <= i < |announcements| :: Plain(announcements[i])
    requires ':' !in sector && '~' !in action
    requires p in Bucket(ApplyAll(EMPTY, OpsOf(rules, announcements)).actionIndex,
                         SearchKey(sector, action, version, envelope))
    ensures Answers(rules, announcements, i, sector, action, version, envelope, p)
  {
    var ops, key := OpsOf(rules, announcements), SearchKey(sector, action, version, envelope);
    i := StoredAt(ops, key, p);
    var a := announcements[i];
    assert Accepts(rules, Seen(rules.codec, a)) && p == Seen(rules.codec, a);
    SeenIsPlain(rules.codec, a);
    SearchExact(ops, sector, action, version, envelope, p);
    OffersIffRegistered(rules.codec, a, sector, action, version, envelope);
  }

  lemma StoredAt(ops: seq<Op>, key: string, p: Proxy) returns (i: nat)
    requires p in Bucket(ApplyAll(EMPTY, ops).actionIndex, key)
    ensures i < |ops| && ops[i] == Store(p)
  {
    IndexRefinesSearch(ops, key);
    NaiveIff(ops, key, p);
    i :| i < |ops| && ops[i] == Store(p);
  }

  /** And nothing else is found: a search returns exactly the accepted announcements that register the action. */
  lemma SearchFindsExactlyRegistered(rules: Rules, slops: seq<seq<Bytes>>, announcements: seq<Announcement>,
                                     tail: Bytes, sector: string, action: string, version: int64, envelope: string,
                                     p: Proxy)
    requires |slops| == |announcements| && AllAnnounceable(announcements)
    requires AllLegible(rules.codec, announcements) && Slop(slops) && NoSeparator(Lines(tail))
    requires forall i | 0 <= i < |announcements| :: Plain(announcements[i])
    requires ':' !in sector && '~' !in action
    ensures var index := Scanned(rules, Lines(FileText(rules.codec, slops, announcements) + tail)).0.actionIndex;
            p in Bucket(index, SearchKey(sector, action, version, envelope))
            <==> exists i: nat :: Answers(rules, announcements, i, sector, action, version, envelope, p)
  {
    FileScanned(rules, slops, announcements, tail);
    if p in Bucket(ApplyAll(EMPTY, OpsOf(rules, announcements)).actionIndex,
                   SearchKey(sector, action, version, envelope)) {
      var i := FoundIsRegistered(rules, announcements, sector, action, version, envelope, p);
    }
    if i: nat :| Answers(rules, announcements, i, sector, action, version, envelope, p) {
      RegisteredActionIsFound(rules, slops, announcements, tail, i, sector, action, version, envelope);
    }
  }

  // ---------- the list that a search returns ----------

  /** The names under which the announcement has registered what is searched for. */
  function Matches(a: Announcement, sector: string, action: string, version: int64, envelope: string): set<string> {
    if SameText(a.sv.sector, sector) && SameText(envelope, "json")
    then set name | name in a.sv.actions && RegisteredAs(a, name, action, version)
    else {}
  }

  /** The accepted announcements in the order of the file, each once for every name that matches. */
  function Listing(rules: Rules, announcements: seq<Announcement>,
                   sector: string, action: string, version: int64, envelope: string): seq<Proxy>
    requires AllAnnounceable(announcements)
  {
    if announcements == [] then []
    else
      var a := announcements[|announcements| - 1];
      Listing(rules, announcements[..|announcements| - 1], sector, action, version, envelope)
      + if Accepts(rules, Seen(rules.codec, a))
        then Copies(Seen(rules.codec, a), |Matches(a, sector, action, version, envelope)|) else []
  }

  /** The names of an announcement, as searched for, in the order in which its actions are listed. */
  function AnnouncedKeys(a: Announcement): (r: seq<string>)
    requires Announceable(a)
    ensures |r| == |a.order|
    ensures forall i | 0 <= i < |r| ::
              r[i] == SearchKey(a.sv.sector, a.order[i], a.sv.actions[a.order[i]].version, "json")
  {
    seq(|a.order|, i requires 0 <= i < |a.order| =>
      SearchKey(a.sv.sector, a.order[i], a.sv.actions[a.order[i]].version, "json"))
  }

  lemma OneKeyEach(codec: Codec, a: Announcement, i: nat)
    requires Announceable(a) && i < |a.order|
    ensures var p := Seen(codec, a);
            ActionKeys(p, p.classes[i].name, p.classes[i].actions) == [AnnouncedKeys(a)[i]]
  {
    var p := Seen(codec, a);
    var c, x := p.classes[i], p.classes[i].actions[0];
    NameRejoined(a.order[i], a.sv.actions[a.order[i]]);
    StoredUnderDottedName(p.sector, c.name, x.name, x.version, "json");
    assert c.actions == [x] && c.actions[..0] == [];
    assert ProtocolKeys(p, c.name, x) == [StoreKey(p.sector, c.name, x.name, x.version, "json")];
  }

  lemma ClassKeysSucc(p: Proxy, n: nat)
    requires n < |p.classes|
    ensures ClassKeys(p, p.classes[..n + 1])
         == ClassKeys(p, p.classes[..n]) + ActionKeys(p, p.classes[n].name, p.classes[n].actions)
  {
    assert p.classes[..n + 1][..n] == p.classes[..n];
  }

  /** Where every class is stored under one name, the names are these. */
  lemma {:induction false} KeysUpTo(p: Proxy, keys: seq<string>, n: nat)
    requires n <= |p.classes| == |keys|
    requires forall i | 0 <= i < |keys| :: ActionKeys(p, p.classes[i].name, p.classes[i].actions) == [keys[i]]
    ensures ClassKeys(p, p.classes[..n]) == keys[..n]
  {
    if n > 0 {
      KeysUpTo(p, keys, n - 1);
      ClassKeysSucc(p, n - 1);
      TakeSnoc(keys, n - 1);
    }
  }

  lemma SeenKeys(codec: Codec, a: Announcement)
    requires Announceable(a)
    ensures Keys(Seen(codec, a)) == AnnouncedKeys(a)
  {
    var p, keys := Seen(codec, a), AnnouncedKeys(a);
    forall i | 0 <= i < |keys| ensures ActionKeys(p, p.classes[i].name, p.classes[i].actions) == [keys[i]] {
      OneKeyEach(codec, a, i);
    }
    KeysUpTo(p, keys, |keys|);
    assert p.classes[..|keys|] == p.classes && keys[..|keys|] == keys;
  }

  function Positions<T(==)>(s: seq<T>, x: T): set<nat> { set i: nat | i < |s| && s[i] == x }

  lemma {:induction false} CountIsPositions<T>(s: seq<T>, x: T)
    ensures multiset(s)[x] == |Positions(s, x)|
  {
    if s != [] {
      var n := |s| - 1;
      CountIsPositions(s[..n], x);
      CountLast(s, x);
      assert Positions(s, x) == Positions(s[..n], x) + if s[n] == x then {n} else {};
    }
  }

  /** A name of the announcement is the one searched for exactly if it matches. */
  lemma KeyMatches(a: Announcement, i: nat, sector: string, action: string, version: int64, envelope: string)
    requires Announceable(a) && Plain(a) && i < |a.order| && ':' !in sector && '~' !in action
    ensures AnnouncedKeys(a)[i] == SearchKey(sector, action, version, envelope)
       <==> a.order[i] in Matches(a, sector, action, version, envelope)
  {
    SearchKeyFaithful(a.sv.sector, a.order[i], a.sv.actions[a.order[i]].version, "json",
                      sector, action, version, envelope);
  }

  /** Counting the places of a key in one list by the names that stand there in another. */
  lemma CountByNames(keys: seq<string>, key: string, order: seq<string>, names: set<string>)
    requires |keys| == |order| && forall i, j | 0 <= i < j < |order| :: order[i] != order[j]
    requires forall i | 0 <= i < |order| :: keys[i] == key <==> order[i] in names
    requires forall name <- names :: name in order
    ensures multiset(keys)[key] == |names|
  {
    var nameAt := (i: nat) => if i < |order| then order[i] else "";
    CountIsPositions(keys, key);
    forall name | name in names ensures exists i :: i in Positions(keys, key) && nameAt(i) == name {
      var i: nat :| i < |order| && order[i] == name;
      assert i in Positions(keys, key);
    }
    assert names == set i | i in Positions(keys, key) :: nameAt(i);
    ImageSize(Positions(keys, key), names, nameAt);
  }

  lemma MatchCount(a: Announcement, sector: string, action: string, version: int64, envelope: string)
    requires Announceable(a) && Plain(a) && ':' !in sector && '~' !in action
    ensures multiset(AnnouncedKeys(a))[SearchKey(sector, action, version, envelope)]
         == |Matches(a, sector, action, version, envelope)|
  {
    var key, names := SearchKey(sector, action, version, envelope), Matches(a, sector, action, version, envelope);
    forall i | 0 <= i < |a.order| ensures AnnouncedKeys(a)[i] == key <==> a.order[i] in names {
      KeyMatches(a, i, sector, action, version, envelope);
    }
    assert forall name <- names :: name in a.order;
    CountByNames(AnnouncedKeys(a), key, a.order, names);
  }

  lemma OpsOfInit(rules: Rules, announcements: seq<Announcement>)
    requires AllAnnounceable(announcements) && announcements != []
    ensures OpsOf(rules, announcements)[..|announcements| - 1] == OpsOf(rules, announcements[..|announcements| - 1])
  {
  }

  lemma {:induction false} NaiveIsListing(rules: Rules, announcements: seq<Announcement>,
                                          sector: string, action: string, version: int64, envelope: string)
    requires AllAnnounceable(announcements) && forall i | 0 <= i < |announcements| :: Plain(announcements[i])
    requires ':' !in sector && '~' !in action
    ensures Naive(OpsOf(rules, announcements), SearchKey(sector, action, version, envelope))
         == Listing(rules, announcements, sector, action, version, envelope)
    decreases |announcements|
  {
    if announcements != [] {
      var a := announcements[|announcements| - 1];
      NaiveIsListing(rules, announcements[..|announcements| - 1], sector, action, version, envelope);
      OpsOfInit(rules, announcements);
      SeenKeys(rules.codec, a);
      MatchCount(a, sector, action, version, envelope);
    }
  }

  /** What a search returns: the accepted announcements that register the action, in the order of the file, each
      once for every registered name that is the one searched for up to letter case. */
  lemma SearchReturnsListing(rules: Rules, slops: seq<seq<Bytes>>, announcements: seq<Announcement>, tail: Bytes,
                             sector: string, action: string, version: int64, envelope: string)
    requires |slops| == |announcements| && AllAnnounceable(announcements)
    requires AllLegible(rules.codec, announcements) && Slop(slops) && NoSeparator(Lines(tail))
    requires forall i | 0 <= i < |announcements| :: Plain(announcements[i])
    requires ':' !in sector && '~' !in action
    ensures var index := Scanned(rules, Lines(FileText(rules.codec, slops, announcements) + tail)).0.actionIndex;
            Bucket(index, SearchKey(sector, action, version, envelope))
            == Listing(rules, announcements, sector, action, version, envelope)
  {
    FileScanned(rules, slops, announcements, tail);
    IndexRefinesSearch(OpsOf(rules, announcements), SearchKey(sector, action, version, envelope));
    NaiveIsListing(rules, announcements, sector, action, version, envelope);
  }

  // ---------- what is signed is accepted ----------

  /** Text without line breaks, as a base64 decoder reads it. */
  function Unwrapped(text: Bytes): Bytes {
    if text == [] then []
    else (if text[0] == '\n' || text[0] == '\r' then [] else [text[0]]) + Unwrapped(text[1..])
  }

  lemma {:induction false} UnwrappedConcat(a: Bytes, b: Bytes)
    ensures Unwrapped(a + b) == Unwrapped(a) + Unwrapped(b)
  {
    if a == [] {
      assert a + b == b;
    } else {
      assert (a + b)[1..] == a[1..] + b;
      UnwrappedConcat(a[1..], b);
    }
  }

  lemma {:induction false} UnwrappedPlain(a: Bytes)
    requires '\n' !in a && '\r' !in a
    ensures Unwrapped(a) == a
  {
    if a != [] { UnwrappedPlain(a[1..]); }
  }

  /** Cutting a signature into rows and joining them by newlines loses nothing. */
  lemma {:induction false} RowsUnwrapped(sig: Bytes)
    requires '\n' !in sig && '\r' !in sig
    ensures Unwrapped(Join(Rows(sig))) == sig
    decreases |sig|
  {
    if |sig| <= 76 {
      UnwrappedPlain(sig);
    } else {
      RowsUnwrapped(sig[76..]);
      UnwrappedPlain(sig[..76]);
      assert Rows(sig)[1..] == Rows(sig[76..]);
      UnwrappedConcat(sig[..76] + NEWLINE, Join(Rows(sig[76..])));
      UnwrappedConcat(sig[..76], NEWLINE);
      assert Unwrapped(NEWLINE) == [];
      assert sig[..76] + [] + sig[76..] == sig;
    }
  }

  /** Validation checks the signature, read without line breaks, over the raw class record, with the certificate. */
  ghost predicate ChecksSignatures(rules: Rules, verifies: (Bytes, Bytes, Bytes) -> bool) {
    forall p: Proxy :: rules.validate(p) == verifies(p.rawCert, p.rawClassRecords, Unwrapped(p.rawSig))
  }

  /** An announcement is accepted by a verifying cache if and only if its signature is good for the record as the
      service printed it. */
  lemma AcceptedIffSigned(rules: Rules, a: Announcement, verifies: (Bytes, Bytes, Bytes) -> bool)
    requires Announceable(a) && rules.verify && ChecksSignatures(rules, verifies)
    ensures Accepts(rules, Seen(rules.codec, a))
       <==> verifies(a.sv.pemCert, ClassRecord(rules.codec, a), a.sig)
  {
    RowsUnwrapped(a.sig);
  }
}
