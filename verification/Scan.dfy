/** The line grammar of the discovery file (`scamp/servicecache.go`): which records a file holds. */
module Scan {
  import opened Text

  const SEP: Bytes := "%%%"

  /** A record as its three raw texts. */
  datatype Record = Record(classRecords: Bytes, cert: Bytes, sig: Bytes)

  /** What extraction finds: the records, and whether it stopped at a class record that no blank line follows. */
  datatype Extraction = Extraction(records: seq<Record>, expectedNewline: bool)

  /** One more record, before the others. */
  function Cons(r: Record, e: Extraction): Extraction { e.(records := [r] + e.records) }

  /** How many lines come before the first that satisfies `stop`. */
  function SpanLines(lines: seq<Bytes>, stop: Bytes -> bool): (n: nat)
    ensures n <= |lines|
    ensures forall i | 0 <= i < n :: !stop(lines[i])
    ensures n < |lines| ==> stop(lines[n])
  {
    if lines == [] || stop(lines[0]) then 0 else 1 + SpanLines(lines[1..], stop)
  }

  /** What is left after `n` lines and the one that ended them. */
  function DropThrough(lines: seq<Bytes>, n: nat): (r: seq<Bytes>)
    ensures |r| <= |lines|
    ensures n < |lines| ==> r == lines[n + 1..]
  {
    if n < |lines| then lines[n + 1..] else []
  }

  predicate IsSeparator(line: Bytes) { line == SEP }

  predicate IsBlank(line: Bytes) { line == [] }

  predicate EndsSig(line: Bytes) { line == [] || line == SEP }

  /** Everything before a separator is passed over. A record without certificate or signature is passed
      over too. A separator that ends a signature is used up by it. */
  function Extract(lines: seq<Bytes>): Extraction
    decreases |lines|, 0
  {
    var i := SpanLines(lines, IsSeparator);
    if i == |lines| then Extraction([], false) else ExtractRecord(lines[i + 1..])
  }

  /** Extraction just after a separator. */
  function ExtractRecord(rest: seq<Bytes>): Extraction
    decreases |rest|
  {
    if rest == [] || rest[0] == [] then Extraction([], false)
    else if |rest| > 1 && rest[1] != [] then Extraction([], true)
    else ExtractBody(rest[0], if |rest| > 1 then rest[2..] else [])
  }

  /** Extraction after a class record and its blank line. */
  function ExtractBody(classRecords: Bytes, body: seq<Bytes>): Extraction
    decreases |body|, 1
  {
    var n := SpanLines(body, IsBlank);
    var afterCert := DropThrough(body, n);
    if n == 0 then Extract(afterCert)
    else
      var m := SpanLines(afterCert, EndsSig);
      var afterSig := DropThrough(afterCert, m);
      if m == 0 then Extract(afterSig)
      else
        Cons(Record(classRecords, Join(body[..n]), Join(afterCert[..m])), Extract(afterSig))
  }

  // ---------- records as they are printed ----------

  /** A record in the documented grammar: a class line, certificate lines, signature lines. */
  datatype Printed = Printed(classLine: Bytes, certLines: seq<Bytes>, sigLines: seq<Bytes>)

  predicate NoBlank(lines: seq<Bytes>) { forall i | 0 <= i < |lines| :: lines[i] != [] }

  predicate NoSeparator(lines: seq<Bytes>) { forall i | 0 <= i < |lines| :: lines[i] != SEP }

  predicate Proper(r: Printed) {
    && r.classLine != []
    && r.certLines != [] && NoBlank(r.certLines)
    && r.sigLines != [] && NoBlank(r.sigLines) && NoSeparator(r.sigLines)
  }

  function RecordOf(r: Printed): Record { Record(r.classLine, Join(r.certLines), Join(r.sigLines)) }

  /** The lines of a record after the separator, without the blank line that ends them. */
  function OpenLines(r: Printed): seq<Bytes> {
    [r.classLine, []] + (r.certLines + ([[]] + r.sigLines))
  }

  /** Slop, separator, record, blank line. */
  function RecordLines(slop: seq<Bytes>, r: Printed): seq<Bytes> {
    slop + ([SEP] + (OpenLines(r) + [[]]))
  }

  function FileLines(slops: seq<seq<Bytes>>, records: seq<Printed>): seq<Bytes>
    requires |slops| == |records|
  {
    if records == [] then [] else RecordLines(slops[0], records[0]) + FileLines(slops[1..], records[1..])
  }

  function RecordsOf(records: seq<Printed>): seq<Record> {
    if records == [] then [] else [RecordOf(records[0])] + RecordsOf(records[1..])
  }

  // ---------- the scan round trip ----------

  lemma {:induction false} SpanLinesOf(a: seq<Bytes>, b: seq<Bytes>, stop: Bytes -> bool)
    requires forall i | 0 <= i < |a| :: !stop(a[i])
    requires b != [] ==> stop(b[0])
    ensures SpanLines(a + b, stop) == |a|
  {
    if a == [] {
      assert a + b == b;
    } else {
      Tail(a, b);
      SpanLinesOf(a[1..], b, stop);
    }
  }

  /** A block of lines, the line that ends it, and the rest. */
  lemma Block<T>(a: seq<T>, x: T, b: seq<T>)
    ensures (a + ([x] + b))[..|a|] == a
    ensures (a + ([x] + b))[|a| + 1..] == b
    ensures ([x] + b)[0] == x
  {
  }

  lemma SkipSlop(slop: seq<Bytes>, rest: seq<Bytes>)
    requires NoSeparator(slop)
    ensures Extract(slop + ([SEP] + rest)) == ExtractRecord(rest)
  {
    SpanLinesOf(slop, [SEP] + rest, IsSeparator);
    Block(slop, SEP, rest);
  }

  lemma ExtractOpenLines(r: Printed, end: Bytes, rest: seq<Bytes>)
    requires Proper(r) && EndsSig(end)
    ensures ExtractBody(r.classLine, r.certLines + ([[]] + (r.sigLines + ([end] + rest))))
         == Cons(RecordOf(r), Extract(rest))
  {
    BlockSplit(r.certLines, [], r.sigLines + ([end] + rest), IsBlank);
    BlockSplit(r.sigLines, end, rest, EndsSig);
  }

  lemma BlockSplit(block: seq<Bytes>, end: Bytes, rest: seq<Bytes>, stop: Bytes -> bool)
    requires stop(end) && forall i | 0 <= i < |block| :: !stop(block[i])
    ensures var lines := block + ([end] + rest);
            && SpanLines(lines, stop) == |block|
            && lines[..|block|] == block
            && DropThrough(lines, |block|) == rest
  {
    SpanLinesOf(block, [end] + rest, stop);
    Block(block, end, rest);
  }

  lemma RegroupRecord<T>(head: seq<T>, a: seq<T>, b: seq<T>, c: seq<T>, d: seq<T>, e: seq<T>)
    ensures head + (a + (b + c)) + d + e == head + (a + (b + (c + (d + e))))
  {
  }

  lemma ExtractAfterSeparator(r: Printed, end: Bytes, rest: seq<Bytes>)
    requires Proper(r) && EndsSig(end)
    ensures ExtractRecord(OpenLines(r) + [end] + rest)
         == Cons(RecordOf(r), Extract(rest))
  {
    var body := r.certLines + ([[]] + (r.sigLines + ([end] + rest)));
    RegroupRecord([r.classLine, []], r.certLines, [[]], r.sigLines, [end], rest);
    TwoThen(r.classLine, [], body);
    ExtractOpenLines(r, end, rest);
  }

  lemma TwoThen<T>(x: T, y: T, rest: seq<T>)
    ensures ([x, y] + rest)[0] == x && ([x, y] + rest)[1] == y && ([x, y] + rest)[2..] == rest
  {
  }

  lemma ExtractOneRecord(slop: seq<Bytes>, r: Printed, rest: seq<Bytes>)
    requires NoSeparator(slop) && Proper(r)
    ensures Extract(RecordLines(slop, r) + rest)
         == Cons(RecordOf(r), Extract(rest))
  {
    Associate(slop, [SEP] + (OpenLines(r) + [[]]), rest);
    Associate([SEP], OpenLines(r) + [[]], rest);
    SkipSlop(slop, OpenLines(r) + [[]] + rest);
    ExtractAfterSeparator(r, [], rest);
  }

  /** Extraction finds exactly the records that were printed, in order, whatever separator-free lines come
      before, between and after them. */
  lemma {:induction false} ScanRoundTrip(slops: seq<seq<Bytes>>, records: seq<Printed>, tail: seq<Bytes>)
    requires |slops| == |records| && NoSeparator(tail)
    requires forall i | 0 <= i < |records| :: NoSeparator(slops[i]) && Proper(records[i])
    ensures Extract(FileLines(slops, records) + tail) == Extraction(RecordsOf(records), false)
    decreases |records|
  {
    if records == [] {
      assert [] + tail == tail;
      assert tail + [] == tail;
      SpanLinesOf(tail, [], IsSeparator);
    } else {
      var rest := FileLines(slops[1..], records[1..]);
      Associate(RecordLines(slops[0], records[0]), rest, tail);
      ScanRoundTrip(slops[1..], records[1..], tail);
      ExtractOneRecord(slops[0], records[0], rest + tail);
    }
  }

  /** A record without certificate, or without signature, is passed over; scanning goes on behind it. */
  lemma IncompletePassedOver(slop: seq<Bytes>, classLine: Bytes, certLines: seq<Bytes>, end: Bytes, rest: seq<Bytes>)
    requires NoSeparator(slop) && classLine != [] && certLines != [] && NoBlank(certLines) && EndsSig(end)
    ensures Extract(slop + ([SEP] + ([classLine, []] + ([[]] + rest)))) == Extract(rest)
    ensures Extract(slop + ([SEP] + ([classLine, []] + (certLines + ([[]] + ([end] + rest)))))) == Extract(rest)
  {
    SkipSlop(slop, [classLine, []] + ([[]] + rest));
    TwoThen(classLine, [], [[]] + rest);
    BlockSplit([], [], rest, IsBlank);
    assert [] + ([[]] + rest) == [[]] + rest;
    SkipSlop(slop, [classLine, []] + (certLines + ([[]] + ([end] + rest))));
    TwoThen(classLine, [], certLines + ([[]] + ([end] + rest)));
    BlockSplit(certLines, [], [end] + rest, IsBlank);
    BlockSplit([], end, rest, EndsSig);
    assert [] + ([end] + rest) == [end] + rest;
  }

  /** A blank line after a separator ends the scan; a class record that no blank line follows is an error. */
  lemma ScanStops(slop: seq<Bytes>, classLine: Bytes, next: Bytes, rest: seq<Bytes>)
    requires NoSeparator(slop) && classLine != [] && next != []
    ensures Extract(slop + ([SEP] + ([[]] + rest))) == Extraction([], false)
    ensures Extract(slop + ([SEP] + ([classLine, next] + rest))) == Extraction([], true)
  {
    SkipSlop(slop, [[]] + rest);
    SkipSlop(slop, [classLine, next] + rest);
  }

  /** A signature that runs straight into the next separator uses it up: the record that separator
      announces is lost, and scanning resumes behind it. */
  lemma SeparatorSwallowed(slop: seq<Bytes>, r: Printed, next: Printed, rest: seq<Bytes>)
    requires NoSeparator(slop) && Proper(r) && Proper(next)
    requires next.classLine != SEP && NoSeparator(next.certLines)
    ensures Extract(slop + ([SEP] + (OpenLines(r) + [SEP] + (OpenLines(next) + [[]] + rest))))
         == Cons(RecordOf(r), Extract(rest))
  {
    var tail := OpenLines(next) + [[]] + rest;
    SkipSlop(slop, OpenLines(r) + [SEP] + tail);
    ExtractAfterSeparator(r, SEP, tail);
    OpenLinesHaveNoSeparator(next);
    SkipLines(OpenLines(next) + [[]], rest);
  }

  lemma OpenLinesHaveNoSeparator(r: Printed)
    requires Proper(r) && r.classLine != SEP && NoSeparator(r.certLines)
    ensures NoSeparator(OpenLines(r) + [[]])
  {
    NoSeparatorConcat([[]], r.sigLines);
    NoSeparatorConcat(r.certLines, [[]] + r.sigLines);
    NoSeparatorConcat([r.classLine, []], r.certLines + ([[]] + r.sigLines));
    NoSeparatorConcat(OpenLines(r), [[]]);
  }

  lemma NoSeparatorConcat(a: seq<Bytes>, b: seq<Bytes>)
    requires NoSeparator(a) && NoSeparator(b)
    ensures NoSeparator(a + b)
  {
  }

  lemma SkipLines(lines: seq<Bytes>, rest: seq<Bytes>)
    requires NoSeparator(lines)
    ensures Extract(lines + rest) == Extract(rest)
  {
    SpanAcross(lines, rest, IsSeparator);
    if SpanLines(rest, IsSeparator) < |rest| {
      DropAcross(lines, rest, SpanLines(rest, IsSeparator));
    }
  }

  lemma {:induction false} SpanAcross(a: seq<Bytes>, b: seq<Bytes>, stop: Bytes -> bool)
    requires forall i | 0 <= i < |a| :: !stop(a[i])
    ensures SpanLines(a + b, stop) == |a| + SpanLines(b, stop)
  {
    if a == [] {
      assert a + b == b;
    } else {
      Tail(a, b);
      SpanAcross(a[1..], b, stop);
    }
  }

  lemma DropAcross<T>(a: seq<T>, b: seq<T>, i: nat)
    requires i < |b|
    ensures (a + b)[|a| + i + 1..] == b[i + 1..]
  {
  }

  // ---------- signatures that run into the next separator ----------

  /** A record of a file with the lines before its separator. A `glued` record has no blank line after its
      signature: the next separator, or the end of the file, follows directly. */
  datatype Entry = Entry(slop: seq<Bytes>, record: Printed, glued: bool)

  /** The lines of an entry after its separator. */
  function AfterSeparator(e: Entry): seq<Bytes> { if e.glued then OpenLines(e.record) else OpenLines(e.record) + [[]] }

  function EntryLines(entries: seq<Entry>): seq<Bytes> {
    if entries == [] then []
    else entries[0].slop + ([SEP] + (AfterSeparator(entries[0]) + EntryLines(entries[1..])))
  }

  /** Nothing stands between a glued record and the next separator, and no line of the record behind that separator
      is a separator itself. */
  predicate WellLaid(entries: seq<Entry>, tail: seq<Bytes>) {
    && NoSeparator(tail)
    && (forall i | 0 <= i < |entries| :: NoSeparator(entries[i].slop) && Proper(entries[i].record))
    && (forall i | 0 < i < |entries| && entries[i - 1].glued ::
          entries[i].slop == [] && NoSeparator(OpenLines(entries[i].record)))
    && (entries != [] && entries[|entries| - 1].glued ==> tail == [])
  }

  /** The records that are found: the one behind a glued record that is found is lost, the one behind a lost record
      is found again. */
  function Found(entries: seq<Entry>, swallowed: bool): seq<Record> {
    if entries == [] then []
    else if swallowed then Found(entries[1..], false)
    else [RecordOf(entries[0].record)] + Found(entries[1..], entries[0].glued)
  }

  lemma WellLaidRest(entries: seq<Entry>, tail: seq<Bytes>)
    requires WellLaid(entries, tail) && entries != []
    ensures WellLaid(entries[1..], tail)
    ensures entries[0].glued && |entries| > 1 ==> entries[1].slop == [] && NoSeparator(OpenLines(entries[1].record))
    ensures entries[0].glued && |entries| == 1 ==> tail == []
  {
    var rest := entries[1..];
    assert forall i | 0 <= i < |rest| :: rest[i] == entries[i + 1];
  }

  lemma BlankHasNoSeparator(lines: seq<Bytes>)
    requires NoSeparator(lines)
    ensures NoSeparator(lines + [[]])
  {
  }

  /** Scanning resumes inside an entry whose separator was used up: its lines are passed over. */
  lemma SwallowedEntry(e: Entry, rest: seq<Bytes>)
    requires NoSeparator(OpenLines(e.record))
    ensures Extract(AfterSeparator(e) + rest) == Extract(rest)
  {
    BlankHasNoSeparator(OpenLines(e.record));
    SkipLines(AfterSeparator(e), rest);
  }

  /** A record whose signature ends with the file. */
  lemma LastOpenRecord(r: Printed)
    requires Proper(r)
    ensures ExtractRecord(OpenLines(r)) == Extraction([RecordOf(r)], false)
  {
    TwoThen(r.classLine, [], r.certLines + ([[]] + r.sigLines));
    BlockSplit(r.certLines, [], r.sigLines, IsBlank);
    assert r.sigLines + [] == r.sigLines;
    SpanLinesOf(r.sigLines, [], EndsSig);
    assert r.sigLines[..|r.sigLines|] == r.sigLines;
    assert Extract([]) == Extraction([], false);
  }

  lemma ClosedEntry(e: Entry, rest: seq<Bytes>)
    requires NoSeparator(e.slop) && Proper(e.record) && !e.glued
    ensures Extract(e.slop + ([SEP] + (AfterSeparator(e) + rest))) == Cons(RecordOf(e.record), Extract(rest))
  {
    SkipSlop(e.slop, AfterSeparator(e) + rest);
    ExtractAfterSeparator(e.record, [], rest);
  }

  lemma GluedEntry(e: Entry, rest: seq<Bytes>)
    requires NoSeparator(e.slop) && Proper(e.record) && e.glued
    ensures Extract(e.slop + ([SEP] + (AfterSeparator(e) + ([SEP] + rest)))) == Cons(RecordOf(e.record), Extract(rest))
  {
    SkipSlop(e.slop, AfterSeparator(e) + ([SEP] + rest));
    Associate(OpenLines(e.record), [SEP], rest);
    ExtractAfterSeparator(e.record, SEP, rest);
  }

  lemma GluedLast(e: Entry)
    requires NoSeparator(e.slop) && Proper(e.record) && e.glued
    ensures Extract(e.slop + ([SEP] + AfterSeparator(e))) == Extraction([RecordOf(e.record)], false)
  {
    SkipSlop(e.slop, AfterSeparator(e));
    LastOpenRecord(e.record);
  }

  lemma EntriesThen(entries: seq<Entry>, tail: seq<Bytes>)
    requires entries != []
    ensures EntryLines(entries) + tail
         == entries[0].slop + ([SEP] + (AfterSeparator(entries[0]) + (EntryLines(entries[1..]) + tail)))
  {
    RegroupRight(entries[0].slop, [SEP], AfterSeparator(entries[0]), EntryLines(entries[1..]), tail);
  }

  /** Which records of a file are found when signatures may run into the next separator; with `swallowed`, the
      separator of the first entry has been used up already. */
  lemma {:induction false} GluedScan(entries: seq<Entry>, tail: seq<Bytes>, swallowed: bool)
    requires WellLaid(entries, tail)
    requires swallowed ==> entries != [] && NoSeparator(OpenLines(entries[0].record))
    ensures Extract(if swallowed then AfterSeparator(entries[0]) + (EntryLines(entries[1..]) + tail)
                    else EntryLines(entries) + tail)
         == Extraction(Found(entries, swallowed), false)
    decreases |entries|
  {
    if entries == [] {
      assert [] + tail == tail && tail + [] == tail;
      SpanLinesOf(tail, [], IsSeparator);
    } else {
      var e, rest := entries[0], EntryLines(entries[1..]) + tail;
      WellLaidRest(entries, tail);
      EntriesThen(entries, tail);
      if swallowed {
        GluedScan(entries[1..], tail, false);
        SwallowedEntry(e, rest);
      } else if !e.glued {
        GluedScan(entries[1..], tail, false);
        ClosedEntry(e, rest);
      } else if |entries| == 1 {
        assert rest == [] && AfterSeparator(e) + [] == AfterSeparator(e);
        GluedLast(e);
      } else {
        GluedScan(entries[1..], tail, true);
        EntriesThen(entries[1..], tail);
        var body := AfterSeparator(entries[1]) + (EntryLines(entries[1..][1..]) + tail);
        assert [] + ([SEP] + body) == [SEP] + body;
        GluedEntry(e, body);
      }
    }
  }

  function AllRecords(entries: seq<Entry>): seq<Record> {
    if entries == [] then [] else [RecordOf(entries[0].record)] + AllRecords(entries[1..])
  }

  /** Only the last record of the file may lack its blank line. */
  predicate OnlyLastGlued(entries: seq<Entry>) { forall i | 0 <= i < |entries| - 1 :: !entries[i].glued }

  lemma {:induction false} FoundCount(entries: seq<Entry>, swallowed: bool)
    ensures |AllRecords(entries)| == |entries|
    ensures |Found(entries, swallowed)| <= |entries| - if swallowed && entries != [] then 1 else 0
    ensures !swallowed && !OnlyLastGlued(entries) ==> |Found(entries, false)| < |entries|
    ensures !swallowed && OnlyLastGlued(entries) ==> Found(entries, false) == AllRecords(entries)
    decreases |entries|
  {
    if entries != [] {
      FoundCount(entries[1..], false);
      FoundCount(entries[1..], entries[0].glued);
      if |entries| > 1 && !entries[0].glued {
        assert OnlyLastGlued(entries) <==> OnlyLastGlued(entries[1..]) by {
          assert forall i | 0 <= i < |entries| - 1 :: entries[i + 1] == entries[1..][i];
        }
      }
    }
  }

  /** Every record of a file is found, in order, if and only if none but the last runs into the next separator. */
  lemma AllFoundIff(entries: seq<Entry>, tail: seq<Bytes>)
    requires WellLaid(entries, tail)
    ensures Extract(EntryLines(entries) + tail) == Extraction(AllRecords(entries), false) <==> OnlyLastGlued(entries)
  {
    GluedScan(entries, tail, false);
    FoundCount(entries, false);
  }
}
