/** Trace files byte by byte: what the writer puts where, and what the reader
    makes of tables and records that are not as they should be
    (src/format/writer.rs, src/format/reader.rs). */
module FileLayout {
  import opened Collections
  import opened Events
  import opened Bytes
  import opened EventFormat
  import opened Writer
  import opened Reader

  // ---------- records ----------

  /** Type, length in four bytes, payload. */
  lemma RecordIsLaidOut(r: Record)
    ensures RecordBytes(r) == [r.recType] + Le4(|r.payload|) + r.payload
  {
    BytesOf(|r.payload|);
  }

  /** The record of event `e`, 45 bytes from `at` on. */
  ghost predicate EventRecordAt(data: seq<u8>, at: nat, e: WperfEvent) {
    && at + 45 <= |data| && data[at..at + 5] == [1, 40, 0, 0, 0] && LaidOut(data[at + 5..at + 45], e)
  }

  lemma EventRecordIsLaidOut(e: WperfEvent)
    ensures EventRecordAt(RecordBytes(EventRecord(e)), 0, e)
  {
    EventIsLaidOut(e);
    FortyByteRecord(EventBytes(e));
    HeadAndPayload(RecordBytes(EventRecord(e)), EventBytes(e), e);
  }

  lemma FortyByteRecord(payload: seq<u8>)
    requires |payload| == 40
    ensures RecordBytes(Record(REC_TYPE_SCHED_EVENT, payload)) == [1] + [40, 0, 0, 0] + payload
  {
    RecordIsLaidOut(Record(REC_TYPE_SCHED_EVENT, payload));
    assert Le4(40) == [40, 0, 0, 0];
  }

  lemma HeadAndPayload(bytes: seq<u8>, payload: seq<u8>, e: WperfEvent)
    requires LaidOut(payload, e) && bytes == [1] + [40, 0, 0, 0] + payload
    ensures EventRecordAt(bytes, 0, e)
  {
    assert bytes[0..5] == [1, 40, 0, 0, 0] && bytes[5..45] == payload;
  }

  lemma {:induction false} RecordsLaidOut(es: seq<WperfEvent>, k: nat)
    requires k < |es|
    ensures 45 * k + 45 <= |Encode(EventRecords(es))|
    ensures EventRecordAt(Encode(EventRecords(es)), 45 * k, es[k])
  {
    var rs := EventRecords(es);
    var first, rest := RecordBytes(rs[0]), Encode(EventRecords(es[1..]));
    EventRecordsLength(es);
    EventRecordIsLaidOut(es[0]);
    assert rs[1..] == EventRecords(es[1..]);
    assert Encode(rs) == first + rest;
    if k == 0 {
      RecordInFront(first, rest, es[0]);
    } else {
      RecordsLaidOut(es[1..], k - 1);
      RecordBehind(first, rest, 45 * (k - 1), es[k]);
    }
  }

  lemma RecordInFront(first: seq<u8>, rest: seq<u8>, e: WperfEvent)
    requires |first| == 45 && EventRecordAt(first, 0, e)
    ensures EventRecordAt(first + rest, 0, e)
  {
    var all := first + rest;
    assert all[0..5] == first[0..5] && all[5..45] == first[5..45];
  }

  lemma RecordBehind(front: seq<u8>, rest: seq<u8>, at: nat, e: WperfEvent)
    requires EventRecordAt(rest, at, e)
    ensures EventRecordAt(front + rest, |front| + at, e)
  {
    var all, from := front + rest, |front| + at;
    assert all[from..from + 5] == rest[at..at + 5] && all[from + 5..from + 45] == rest[at + 5..at + 45];
  }

  lemma RecordAhead(data: seq<u8>, tail: seq<u8>, at: nat, e: WperfEvent)
    requires EventRecordAt(data, at, e)
    ensures EventRecordAt(data + tail, at, e)
  {
    var all := data + tail;
    assert all[at..at + 5] == data[at..at + 5] && all[at + 5..at + 45] == data[at + 5..at + 45];
  }

  // ---------- whole files ----------

  /** "EVENT_COUNT" and "DROP_COUNT" in ASCII. */
  const EVENT_COUNT: seq<u8> := [0x45, 0x56, 0x45, 0x4e, 0x54, 0x5f, 0x43, 0x4f, 0x55, 0x4e, 0x54]
  const DROP_COUNT: seq<u8> := [0x44, 0x52, 0x4f, 0x50, 0x5f, 0x43, 0x4f, 0x55, 0x4e, 0x54]

  /** A metadata entry: key length, key, value length, value. */
  function CountBytes(key: seq<u8>, count: nat): seq<u8> {
    Le2(|key|) + key + [8, 0] + Le8(count)
  }

  /** Metadata and section table behind `n` records: the two counts, then section
      3 with its offset and size. */
  function FooterBytes(n: nat, dropCount: nat): seq<u8> {
    CountBytes(EVENT_COUNT, n) + CountBytes(DROP_COUNT, dropCount)
    + ([3, 0, 0, 0] + Le8(64 + 45 * n) + Le8(45))
  }

  lemma CountIsLaidOut(key: seq<u8>, count: nat)
    ensures MetaEntry(key, ToLe(count, 8)) == CountBytes(key, count)
  {
    BytesOf(|key|);
    BytesOf(8);
    BytesOf(count);
    assert Le2(8) == [8, 0];
  }

  lemma TableIsLaidOut(offset: nat, size: nat)
    ensures SectionEntry(3, offset, size) == [3, 0, 0, 0] + Le8(offset) + Le8(size)
  {
    BytesOf(3);
    BytesOf(offset);
    BytesOf(size);
    assert Le4(3) == [3, 0, 0, 0];
  }

  lemma FooterIsLaidOut(n: nat, dropCount: nat)
    ensures BuildMetadata(n, dropCount) + SectionEntry(SECTION_ID_METADATA, DataEnd(n), 45)
         == FooterBytes(n, dropCount)
  {
    CountIsLaidOut(EVENT_COUNT, n);
    CountIsLaidOut(DROP_COUNT, dropCount);
    TableIsLaidOut(DataEnd(n), 45);
  }

  /** The header of a file of the current version with these two offsets. */
  ghost predicate HeaderAt(data: seq<u8>, hostArch: u8, bookmark: nat, table: nat, features: u8) {
    && |data| >= 64 && data[0..8] == [0x77, 0x50, 0x52, 0x46, 1, 1, hostArch, 0]
    && data[8..16] == Le8(bookmark) && data[16..24] == Le8(table)
    && data[24] == features && (forall i | 25 <= i < 64 :: data[i] == 0)
  }

  lemma HeaderPlaced(h: WprfHeader, rest: seq<u8>, features: u8)
    requires ValidHeader(h) && h.version == 1 && h.endianness == 1
    requires h.featureBitmap[0] == features && forall i | 1 <= i < 32 :: h.featureBitmap[i] == 0
    ensures HeaderAt(HeaderBytes(h) + rest, h.hostArch, h.dataSectionEndOffset, h.sectionTableOffset, features)
  {
    var b := HeaderBytes(h);
    var data := b + rest;
    HeaderIsLaidOut(h);
    assert data[8..16] == b[8..16] && data[16..24] == b[16..24];
    assert data[0..8] == b[0..4] + [b[4], b[5], b[6], b[7]];
    forall i | 24 <= i < 56 ensures data[i] == h.featureBitmap[i - 24] {
      assert data[i] == b[24..56][i - 24];
    }
    forall i | 56 <= i < 64 ensures data[i] == 0 {
      assert data[i] == b[56..64][i - 56];
    }
  }

  /** One record per event, from the end of the header on. */
  ghost predicate RecordsAt(data: seq<u8>, es: seq<WperfEvent>) {
    forall k | 0 <= k < |es| :: EventRecordAt(data, 64 + 45 * k, es[k])
  }

  lemma RecordsPlaced(head: seq<u8>, es: seq<WperfEvent>, footer: seq<u8>, data: seq<u8>)
    requires |head| == 64 && data == head + (Encode(EventRecords(es)) + footer)
    ensures RecordsAt(data, es)
  {
    var body := Encode(EventRecords(es));
    forall k | 0 <= k < |es| ensures EventRecordAt(data, 64 + 45 * k, es[k]) {
      RecordsLaidOut(es, k);
      RecordAhead(body, footer, 45 * k, es[k]);
      RecordBehind(head, body + footer, 45 * k, es[k]);
    }
  }

  /** Header, bookmark behind the last full 8192 records, no table yet, and the
      records. */
  ghost predicate OpenLayout(data: seq<u8>, hostArch: u8, es: seq<WperfEvent>) {
    && |data| == 64 + 45 * |es| && HeaderAt(data, hostArch, 64 + 45 * (|es| / 8192 * 8192), 0, 0)
    && RecordsAt(data, es)
  }

  /** A file in the making. */
  lemma OpenFileIsLaidOut(hostArch: u8, es: seq<WperfEvent>)
    ensures OpenLayout(OpenFile(hostArch, es), hostArch, es)
  {
    var h, body := OpenHeader(hostArch, |es|), Encode(EventRecords(es));
    EventRecordsLength(es);
    HeaderPlaced(h, body, 0);
    BatchEnd(|es|);
    assert body + [] == body;
    RecordsPlaced(HeaderBytes(h), es, [], OpenFile(hostArch, es));
  }

  lemma BatchEnd(n: nat)
    ensures Bookmark(n) == 64 + 45 * (n / 8192 * 8192)
  {}

  /** Header with both offsets and the first feature bit, the records, metadata and
      section table. */
  ghost predicate FinishedLayout(data: seq<u8>, hostArch: u8, es: seq<WperfEvent>, dropCount: nat) {
    && |data| == 64 + 45 * |es| + 65 && HeaderAt(data, hostArch, 64 + 45 * |es|, 64 + 45 * |es| + 45, 1)
    && RecordsAt(data, es)
    && data[64 + 45 * |es|..] == FooterBytes(|es|, dropCount)
  }

  lemma FinishedParts(head: seq<u8>, body: seq<u8>, metadata: seq<u8>, table: seq<u8>)
    ensures head + body + metadata + table == head + (body + (metadata + table))
  {}

  lemma FinishedFileParts(hostArch: u8, es: seq<WperfEvent>, dropCount: nat)
    ensures FinishedFile(hostArch, es, dropCount)
         == HeaderBytes(FinishedHeader(hostArch, |es|)) + (Encode(EventRecords(es)) + FooterBytes(|es|, dropCount))
  {
    var n := |es|;
    FooterIsLaidOut(n, dropCount);
    FinishedParts(HeaderBytes(FinishedHeader(hostArch, n)), Encode(EventRecords(es)),
                  BuildMetadata(n, dropCount), SectionEntry(SECTION_ID_METADATA, DataEnd(n), 45));
  }

  /** A finished file. */
  lemma FinishedFileIsLaidOut(hostArch: u8, es: seq<WperfEvent>, dropCount: nat)
    ensures FinishedLayout(FinishedFile(hostArch, es, dropCount), hostArch, es, dropCount)
  {
    FinishedFileParts(hostArch, es, dropCount);
    PartsAreLaidOut(FinishedHeader(hostArch, |es|), es, dropCount, FooterBytes(|es|, dropCount),
                    FinishedFile(hostArch, es, dropCount));
  }

  lemma PartsAreLaidOut(h: WprfHeader, es: seq<WperfEvent>, dropCount: nat, footer: seq<u8>, data: seq<u8>)
    requires h == FinishedHeader(h.hostArch, |es|) && footer == FooterBytes(|es|, dropCount)
    requires data == HeaderBytes(h) + (Encode(EventRecords(es)) + footer)
    ensures FinishedLayout(data, h.hostArch, es, dropCount)
  {
    EventRecordsLength(es);
    RecordsPlaced(HeaderBytes(h), es, footer, data);
    HeaderPlaced(h, Encode(EventRecords(es)) + footer, 1);
    FooterPlacedBehind(HeaderBytes(h), Encode(EventRecords(es)), footer, data);
  }

  lemma FooterPlacedBehind(head: seq<u8>, body: seq<u8>, footer: seq<u8>, data: seq<u8>)
    requires data == head + (body + footer)
    ensures |data| == |head| + |body| + |footer| && data[|head| + |body|..] == footer
  {}

  // ---------- records that cannot be read ----------

  lemma {:induction false} EncodeWhole(rs: seq<Record>)
    requires forall r | r in rs :: WellFormedRecord(r)
    ensures EventsWithin(rs, |Encode(rs)|) == AllEvents(rs)
  {
    if rs != [] {
      assert rs[0] in rs;
      EncodeWhole(rs[1..]);
    }
  }

  /** The events of all records, in order. */
  ghost function AllEvents(rs: seq<Record>): seq<WperfEvent> {
    if rs == [] then []
    else
      (if rs[0].recType == 1 && |rs[0].payload| == 40 then [EventFromBytes(rs[0].payload)] else [])
      + AllEvents(rs[1..])
  }

  /** What the head of a record says, at `at`. */
  ghost predicate RecordHeadAt(data: seq<u8>, at: nat, dataEnd: nat, recType: u8, length: u32) {
    at + 5 <= dataEnd <= |data| && data[at] == recType && data[at + 1..at + 5] == Le4(length)
  }

  /** Too long, not ending before the boundary, or an event record of the wrong size. */
  predicate Bad(at: nat, dataEnd: nat, recType: u8, length: u32) {
    length > 16_777_216 || at + 5 + length > dataEnd || (recType == 1 && length != 40)
  }

  /** How reading ends there: only a record cut off by the boundary is no error. */
  function Verdict(at: nat, dataEnd: nat, recType: u8, length: u32): Result<seq<WperfEvent>, ReaderError> {
    if length > 16_777_216 then Err(PayloadTooLarge(recType, length))
    else if at + 5 + length > dataEnd then Ok([])
    else Err(UnexpectedPayloadSize(1, 40, length))
  }

  lemma BadRecord(data: seq<u8>, at: nat, dataEnd: nat, recType: u8, length: u32)
    requires RecordHeadAt(data, at, dataEnd, recType, length) && Bad(at, dataEnd, recType, length)
    ensures ReadFrom(data, at, dataEnd) == Verdict(at, dataEnd, recType, length)
  {
    BytesOf(length);
    DecodesU32(length);
  }

  lemma SplitRecord(data: seq<u8>, pos: nat, at: nat, first: seq<u8>, rest: seq<u8>)
    requires pos <= at <= |data| && data[pos..at] == first + rest
    ensures data[pos..pos + |first|] == first && data[pos + |first|..at] == rest
  {
    SliceOfSlice(data, pos, at, 0, |first|);
    SliceOfSlice(data, pos, at, |first|, at - pos);
    assert (first + rest)[0..|first|] == first && (first + rest)[|first|..at - pos] == rest;
  }

  lemma PrependTwice(a: seq<WperfEvent>, b: seq<WperfEvent>, r: Result<seq<WperfEvent>, ReaderError>)
    ensures Prepend(a, Prepend(b, r)) == Prepend(a + b, r)
  {
    if r.Ok? {
      Associative(a, b, r.value);
    }
  }

  /** Behind any well-formed records: a record longer than 16 MiB and an event
      record that is not 40 bytes long are errors; a record that does not end
      before the boundary ends the reading, with all events before it. */
  lemma {:induction false} ReadsUpToBadRecord(data: seq<u8>, pos: nat, dataEnd: nat, rs: seq<Record>,
                                              at: nat, recType: u8, length: u32)
    requires forall r | r in rs :: WellFormedRecord(r)
    requires at == pos + |Encode(rs)| && RecordHeadAt(data, at, dataEnd, recType, length)
    requires data[pos..at] == Encode(rs) && Bad(at, dataEnd, recType, length)
    ensures ReadFrom(data, pos, dataEnd) == Prepend(AllEvents(rs), Verdict(at, dataEnd, recType, length))
    decreases |rs|
  {
    var verdict := Verdict(at, dataEnd, recType, length);
    if rs == [] {
      BadRecord(data, at, dataEnd, recType, length);
      PrependNone(verdict);
    } else {
      var first, rest := RecordBytes(rs[0]), Encode(rs[1..]);
      assert rs[0] in rs;
      SplitRecord(data, pos, at, first, rest);
      ReadsUpToBadRecord(data, pos + |first|, dataEnd, rs[1..], at, recType, length);
      PassRecord(data, pos, dataEnd, rs[0], pos + |first|, AllEvents(rs[1..]), verdict);
      assert AllEvents(rs) == EventOf(rs[0]) + AllEvents(rs[1..]);
    }
  }

  lemma PassRecord(data: seq<u8>, pos: nat, dataEnd: nat, r: Record, next: nat, rest: seq<WperfEvent>,
                   verdict: Result<seq<WperfEvent>, ReaderError>)
    requires dataEnd <= |data| && WellFormedRecord(r)
    requires next == pos + |RecordBytes(r)| <= dataEnd && data[pos..next] == RecordBytes(r)
    requires ReadFrom(data, next, dataEnd) == Prepend(rest, verdict)
    ensures ReadFrom(data, pos, dataEnd) == Prepend(EventOf(r) + rest, verdict)
  {
    ReadStep(data, pos, dataEnd, r);
    PrependTwice(EventOf(r), rest, verdict);
  }

  // ---------- the section table ----------

  /** Entry `i` of the table, 20 bytes, is whole. */
  predicate HasEntry(data: seq<u8>, table: nat, i: nat) {
    table + 20 * i + 20 <= |data|
  }

  function EntryId(data: seq<u8>, table: nat, i: nat): nat
    requires HasEntry(data, table, i)
  {
    Number4(data[table + 20 * i..table + 20 * i + 4])
  }

  /** The first entry with section number 3 is found, its offset and size read. */
  lemma {:induction false} TableEntryIsFound(data: seq<u8>, table: nat, k: nat)
    requires HasEntry(data, table, k) && EntryId(data, table, k) == 3
    requires forall i: nat | i < k :: HasEntry(data, table, i) && EntryId(data, table, i) != 3
    ensures FindSection(data, table)
         == Some(Section(Number8(data[table + 20 * k + 4..table + 20 * k + 12]),
                         Number8(data[table + 20 * k + 12..table + 20 * k + 20])))
    decreases k
  {
    NumberOf4(data[table..table + 4]);
    if k == 0 {
      NumberOf8(data[table + 4..table + 12]);
      NumberOf8(data[table + 12..table + 20]);
    } else {
      assert HasEntry(data, table, 0) && EntryId(data, table, 0) != 3;
      var next: nat := table + 20;
      forall i: nat | i < k - 1 ensures HasEntry(data, next, i) && EntryId(data, next, i) != 3 {
        assert HasEntry(data, table, i + 1) && EntryId(data, table, i + 1) != 3;
      }
      TableEntryIsFound(data, next, k - 1);
    }
  }

  /** Without such an entry, nothing is found. */
  lemma {:induction false} TableWithoutEntry(data: seq<u8>, table: nat)
    requires forall i: nat | HasEntry(data, table, i) :: EntryId(data, table, i) != 3
    ensures FindSection(data, table) == None
    decreases |data| - table
  {
    if HasEntry(data, table, 0) {
      NumberOf4(data[table..table + 4]);
      assert EntryId(data, table, 0) != 3;
      var next: nat := table + 20;
      forall i: nat | HasEntry(data, next, i) ensures EntryId(data, next, i) != 3 {
        assert HasEntry(data, table, i + 1) && EntryId(data, table, i + 1) != 3;
      }
      TableWithoutEntry(data, next);
    }
  }
}
