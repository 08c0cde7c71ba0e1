/** The trace file writer (src/format/writer.rs): TLV records after a header
    whose bookmark is refreshed in place every 8192 events. */
module Writer {
  import opened Collections
  import opened Events
  import opened Bytes
  import opened EventFormat

  const REC_TYPE_SCHED_EVENT: u8 := 1
  const TLV_HEADER_SIZE: nat := 5
  const RECORD_SIZE: nat := TLV_HEADER_SIZE + EVENT_SIZE
  const SECTION_ID_METADATA: u32 := 3
  const SECTION_ENTRY_SIZE: nat := 20
  const MAX_PAYLOAD_SIZE: nat := 16 * 1024 * 1024
  const BOOKMARK_INTERVAL: nat := 8192

  /** A type-length-value record. */
  datatype Record = Record(recType: u8, payload: seq<u8>)

  function RecordBytes(r: Record): (s: seq<u8>)
    ensures |s| == TLV_HEADER_SIZE + |r.payload|
  {
    [r.recType] + ToLe(|r.payload|, 4) + r.payload
  }

  ghost function Encode(rs: seq<Record>): seq<u8> {
    if rs == [] then [] else RecordBytes(rs[0]) + Encode(rs[1..])
  }

  ghost function EventRecord(e: WperfEvent): Record {
    Record(REC_TYPE_SCHED_EVENT, EventBytes(e))
  }

  ghost function EventRecords(es: seq<WperfEvent>): seq<Record> {
    seq(|es|, i requires 0 <= i < |es| => EventRecord(es[i]))
  }

  lemma {:induction false} EncodeSnoc(rs: seq<Record>, r: Record)
    ensures Encode(rs + [r]) == Encode(rs) + RecordBytes(r)
  {
    if rs == [] {
      assert Encode([r]) == RecordBytes(r) + Encode([]);
    } else {
      EncodeSnoc(rs[1..], r);
      assert (rs + [r])[1..] == rs[1..] + [r] && (rs + [r])[0] == rs[0];
      Associative(RecordBytes(rs[0]), Encode(rs[1..]), RecordBytes(r));
    }
  }

  lemma {:induction false} EventRecordsLength(es: seq<WperfEvent>)
    ensures |Encode(EventRecords(es))| == RECORD_SIZE * |es|
  {
    if es != [] {
      EventRecordsLength(es[1..]);
      assert EventRecords(es)[1..] == EventRecords(es[1..]);
    }
  }

  lemma EventRecordsSnoc(es: seq<WperfEvent>, e: WperfEvent)
    ensures Encode(EventRecords(es + [e])) == Encode(EventRecords(es)) + RecordBytes(EventRecord(e))
  {
    assert EventRecords(es + [e]) == EventRecords(es) + [EventRecord(e)];
    EncodeSnoc(EventRecords(es), EventRecord(e));
  }

  // ---------- metadata ----------

  const EVENT_COUNT_KEY: seq<u8> := [69, 86, 69, 78, 84, 95, 67, 79, 85, 78, 84]
  const DROP_COUNT_KEY: seq<u8> := [68, 82, 79, 80, 95, 67, 79, 85, 78, 84]

  function MetaEntry(key: seq<u8>, value: seq<u8>): seq<u8> {
    ToLe(|key|, 2) + key + ToLe(|value|, 2) + value
  }

  function BuildMetadata(eventCount: nat, dropCount: nat): (s: seq<u8>)
    ensures |s| == 45
  {
    MetaEntry(EVENT_COUNT_KEY, ToLe(eventCount, 8)) + MetaEntry(DROP_COUNT_KEY, ToLe(dropCount, 8))
  }

  datatype Metadata = Metadata(eventCount: Option<u64>, dropCount: Option<u64>)

  function Noted(acc: Metadata, key: seq<u8>, value: seq<u8>): Metadata {
    if key == EVENT_COUNT_KEY && |value| == 8 then acc.(eventCount := Some(DecodeU64(value)))
    else if key == DROP_COUNT_KEY && |value| == 8 then acc.(dropCount := Some(DecodeU64(value)))
    else acc
  }

  /** Entries of `data` from `pos` on, until one does not fit. */
  ghost function ParseFrom(data: seq<u8>, pos: nat, acc: Metadata): Metadata
    decreases |data| - pos
  {
    if pos + 4 > |data| then acc
    else
      var keyLen := DecodeU16(data[pos..pos + 2]);
      var keyEnd := pos + 2 + keyLen;
      if keyEnd + 2 > |data| then acc
      else
        var valLen := DecodeU16(data[keyEnd..keyEnd + 2]);
        var valEnd := keyEnd + 2 + valLen;
        if valEnd > |data| then acc
        else ParseFrom(data, valEnd, Noted(acc, data[pos + 2..keyEnd], data[keyEnd + 2..valEnd]))
  }

  method ParseMetadata(data: seq<u8>) returns (counts: Metadata)
    ensures counts == ParseFrom(data, 0, Metadata(None, None))
  {
    counts := Metadata(None, None);
    var pos := 0;
    while pos + 4 <= |data|
      invariant ParseFrom(data, pos, counts) == ParseFrom(data, 0, Metadata(None, None))
      decreases |data| - pos
    {
      var keyLen := DecodeU16(data[pos..pos + 2]);
      var keyStart := pos + 2;
      if keyStart + keyLen + 2 > |data| {
        return;
      }
      var key := data[keyStart..keyStart + keyLen];
      var lenStart := keyStart + keyLen;
      var valLen := DecodeU16(data[lenStart..lenStart + 2]);
      var valStart := lenStart + 2;
      if valStart + valLen > |data| {
        return;
      }
      var value := data[valStart..valStart + valLen];
      pos := valStart + valLen;
      counts := Noted(counts, key, value);
    }
  }

  /** Where the parts of an entry lie inside a longer payload. */
  ghost predicate EntryAt(data: seq<u8>, pos: nat, key: seq<u8>, value: seq<u8>) {
    var keyEnd := pos + 2 + |key|;
    && keyEnd + 2 + |value| <= |data|
    && data[pos..pos + 2] == ToLe(|key|, 2) && data[pos + 2..keyEnd] == key
    && data[keyEnd..keyEnd + 2] == ToLe(|value|, 2) && data[keyEnd + 2..keyEnd + 2 + |value|] == value
  }

  lemma EntryPlaced(before: seq<u8>, key: seq<u8>, value: seq<u8>, rest: seq<u8>)
    ensures EntryAt(before + MetaEntry(key, value) + rest, |before|, key, value)
  {}

  /** One well-formed entry is consumed whole. */
  lemma ParseEntry(data: seq<u8>, pos: nat, key: seq<u8>, value: seq<u8>, acc: Metadata)
    requires |key| < 0x1_0000 && |value| < 0x1_0000 && EntryAt(data, pos, key, value)
    ensures ParseFrom(data, pos, acc) == ParseFrom(data, pos + 4 + |key| + |value|, Noted(acc, key, value))
  {
    DecodesU16(|key|);
    DecodesU16(|value|);
  }

  /** The footer reads back as the two counts it was built from. */
  lemma MetadataRoundTrip(eventCount: u64, dropCount: u64)
    ensures ParseFrom(BuildMetadata(eventCount, dropCount), 0, Metadata(None, None))
         == Metadata(Some(eventCount), Some(dropCount))
  {
    var first := MetaEntry(EVENT_COUNT_KEY, ToLe(eventCount, 8));
    var second := MetaEntry(DROP_COUNT_KEY, ToLe(dropCount, 8));
    var data := BuildMetadata(eventCount, dropCount);
    assert data == [] + first + second;
    assert data == first + second + [];
    EntryPlaced([], EVENT_COUNT_KEY, ToLe(eventCount, 8), second);
    EntryPlaced(first, DROP_COUNT_KEY, ToLe(dropCount, 8), []);
    ParseEntry(data, 0, EVENT_COUNT_KEY, ToLe(eventCount, 8), Metadata(None, None));
    DecodesU64(eventCount);
    ParseEntry(data, |first|, DROP_COUNT_KEY, ToLe(dropCount, 8), Metadata(Some(eventCount), None));
    DecodesU64(dropCount);
    assert EVENT_COUNT_KEY[0] != DROP_COUNT_KEY[0];
  }

  // ---------- the file, as a function of what was written ----------

  /** Bookmark after `n` events: the end of the last full batch. */
  function Bookmark(n: nat): nat {
    HEADER_SIZE + RECORD_SIZE * (n - n % BOOKMARK_INTERVAL)
  }

  function DataEnd(n: nat): nat {
    HEADER_SIZE + RECORD_SIZE * n
  }

  ghost function OpenHeader(hostArch: u8, n: nat): WprfHeader {
    NewHeader(hostArch).(dataSectionEndOffset := Bookmark(n))
  }

  /** Bytes on disk while recording: what a crash leaves behind. */
  ghost function OpenFile(hostArch: u8, es: seq<WperfEvent>): seq<u8> {
    HeaderBytes(OpenHeader(hostArch, |es|)) + Encode(EventRecords(es))
  }

  function WithTimestampBit(bitmap: seq<u8>): seq<u8>
    requires |bitmap| == 32
  {
    bitmap[0 := if bitmap[0] % 2 == 1 then bitmap[0] else bitmap[0] + 1]
  }

  ghost function FinishedHeader(hostArch: u8, n: nat): WprfHeader {
    var h := NewHeader(hostArch);
    h.(dataSectionEndOffset := DataEnd(n),
       sectionTableOffset := DataEnd(n) + 45,
       featureBitmap := WithTimestampBit(h.featureBitmap))
  }

  function SectionEntry(id: u32, offset: nat, size: nat): (s: seq<u8>)
    ensures |s| == SECTION_ENTRY_SIZE
  {
    ToLe(id, 4) + ToLe(offset, 8) + ToLe(size, 8)
  }

  /** Bytes on disk after `finish`. */
  ghost function FinishedFile(hostArch: u8, es: seq<WperfEvent>, dropCount: nat): seq<u8> {
    HeaderBytes(FinishedHeader(hostArch, |es|)) + Encode(EventRecords(es))
    + BuildMetadata(|es|, dropCount)
    + SectionEntry(SECTION_ID_METADATA, DataEnd(|es|), 45)
  }

  ghost predicate Recorded(data: seq<u8>, pos: nat, header: WprfHeader, hostArch: u8, es: seq<WperfEvent>) {
    && header == OpenHeader(hostArch, |es|)
    && data == OpenFile(hostArch, es)
    && pos == |data| == DataEnd(|es|)
  }

  class WperfWriter {
    var inner: ByteStream
    var header: WprfHeader
    var eventCount: nat
    var startTimestampNs: Option<u64>
    var endTimestampNs: u64
    const hostArch: u8
    ghost var written: seq<WperfEvent>

    /** The stream holds exactly the open file for the events written so far and
        stands at its end. */
    ghost predicate Valid()
      reads this, inner
    {
      && eventCount == |written|
      && Recorded(inner.data, inner.pos, header, hostArch, written)
      && Spans(written, startTimestampNs, endTimestampNs)
    }

    /** Take over a stream that holds nothing but the initial header. */
    constructor (stream: ByteStream, arch: u8)
      requires stream.data == HeaderBytes(NewHeader(arch)) && stream.pos == HEADER_SIZE
      ensures Valid() && inner == stream && written == [] && hostArch == arch
    {
      inner, hostArch := stream, arch;
      header := NewHeader(arch);
      eventCount, startTimestampNs, endTimestampNs := 0, None, 0;
      written := [];
      new;
      StartsRecorded(arch);
    }

    /** Common tail of `write_event` and `write_event_raw`. */
    method Append(e: WperfEvent, payload: seq<u8>)
      requires Valid() && payload == EventBytes(e)
      modifies this, inner
      ensures Valid() && inner == old(inner) && written == old(written) + [e]
    {
      NoteTimestamp(e);
      WriteRecord(e, payload);
      eventCount := eventCount + 1;
      written := written + [e];
    }

    /** The record at the end of the stream, then the bookmark if it is due. */
    method WriteRecord(e: WperfEvent, payload: seq<u8>)
      requires Recorded(inner.data, inner.pos, header, hostArch, written)
      requires eventCount == |written| && payload == EventBytes(e)
      modifies this`header, inner
      ensures Recorded(inner.data, inner.pos, header, hostArch, written + [e])
    {
      ghost var before, h := inner.data, header;
      inner.Append(RecordBytes(Record(REC_TYPE_SCHED_EVENT, payload)));
      RecordFits(before, h, hostArch, written, e);
      if (eventCount + 1) % BOOKMARK_INTERVAL == 0 {
        UpdateDataOffset();
      }
    }

    method NoteTimestamp(e: WperfEvent)
      requires Spans(written, startTimestampNs, endTimestampNs)
      modifies this`startTimestampNs, this`endTimestampNs
      ensures Spans(written + [e], startTimestampNs, endTimestampNs)
    {
      if startTimestampNs.None? {
        startTimestampNs := Some(e.timestampNs);
      }
      endTimestampNs := Max(endTimestampNs, e.timestampNs);
      MaximumExtends(written, e, old(endTimestampNs), endTimestampNs);
    }

    method WriteEvent(e: WperfEvent)
      requires Valid()
      modifies this, inner
      ensures Valid() && inner == old(inner) && written == old(written) + [e]
    {
      var buf := EventToBytes(e);
      Append(e, buf[..]);
    }

    /** Skips the parse: the payload goes to disk as it came. */
    method WriteEventRaw(raw: seq<u8>)
      requires Valid() && |raw| == EVENT_SIZE
      modifies this, inner
      ensures Valid() && inner == old(inner) && written == old(written) + [EventFromBytes(raw)]
    {
      WireRoundTrip(raw);
      Append(EventFromBytes(raw), raw);
    }

    /** Put the current position into the bookmark field and come back. */
    method UpdateDataOffset()
      requires ValidHeader(header) && inner.pos == |inner.data| >= HEADER_SIZE
      requires inner.data[..HEADER_SIZE] == HeaderBytes(header)
      modifies this`header, inner
      ensures header == old(header).(dataSectionEndOffset := old(inner.pos))
      ensures inner.data == HeaderBytes(header) + old(inner.data)[HEADER_SIZE..]
      ensures inner.pos == old(inner.pos)
    {
      var currentPos := inner.pos;
      ghost var rest := inner.data[HEADER_SIZE..];
      assert inner.data == HeaderBytes(header) + rest;
      BookmarkInPlace(header, rest, currentPos);
      header := header.(dataSectionEndOffset := currentPos);
      inner.SeekTo(8);
      inner.WriteAll(ToLe(currentPos, 8));
      inner.SeekTo(currentPos);
    }

    /** Footer and section table at the end of the data. */
    method WriteFooter(dropCount: nat) returns (tableOffset: nat)
      requires inner.pos == |inner.data|
      modifies inner
      ensures inner.data == old(inner.data) + BuildMetadata(eventCount, dropCount)
                            + SectionEntry(SECTION_ID_METADATA, |old(inner.data)|, 45)
      ensures inner.pos == |inner.data| && tableOffset == |old(inner.data)| + 45
    {
      var dataEnd := inner.pos;
      var metadata := BuildMetadata(eventCount, dropCount);
      inner.Append(metadata);
      tableOffset := inner.pos;
      ghost var before := inner.data;
      inner.Append(ToLe(SECTION_ID_METADATA, 4));
      inner.Append(ToLe(dataEnd, 8));
      inner.Append(ToLe(|metadata|, 8));
      assert inner.data == before + SectionEntry(SECTION_ID_METADATA, dataEnd, 45);
    }

    /** The header rewritten in place, then back to the end. */
    method RewriteHeader(ghost before: WprfHeader, ghost rest: seq<u8>)
      requires ValidHeader(before) && ValidHeader(header)
      requires inner.data == HeaderBytes(before) + rest
      modifies inner
      ensures inner.data == HeaderBytes(header) + rest && inner.pos == old(inner.pos)
    {
      var finalPos := inner.pos;
      HeaderInPlace(before, header, rest);
      inner.SeekTo(0);
      var buf := HeaderToBytes(header);
      inner.WriteAll(buf[..]);
      inner.SeekTo(finalPos);
    }

    method Finish(dropCount: nat) returns (stream: ByteStream)
      requires Valid()
      modifies this, inner
      ensures stream == old(inner)
      ensures stream.data == FinishedFile(hostArch, old(written), dropCount)
    {
      ghost var before, rest := header, Encode(EventRecords(written)) + Footer(|written|, dropCount);
      var dataEnd := inner.pos;
      var tableOffset := WriteFooter(dropCount);
      FooterFollows(hostArch, written, dropCount);
      CloseHeader(dataEnd, tableOffset);
      RewriteHeader(before, rest);
      FinishedFileParts(hostArch, written, dropCount);
      stream := inner;
    }

    method CloseHeader(dataEnd: nat, tableOffset: nat)
      requires header == OpenHeader(hostArch, |written|)
      requires dataEnd == DataEnd(|written|) && tableOffset == dataEnd + 45
      modifies this`header
      ensures header == FinishedHeader(hostArch, |written|)
    {
      header := header.(dataSectionEndOffset := dataEnd);
      header := header.(sectionTableOffset := tableOffset);
      header := header.(featureBitmap := WithTimestampBit(header.featureBitmap));
    }
  }

  ghost function Footer(n: nat, dropCount: nat): seq<u8> {
    BuildMetadata(n, dropCount) + SectionEntry(SECTION_ID_METADATA, DataEnd(n), 45)
  }

  lemma FooterFollows(hostArch: u8, es: seq<WperfEvent>, dropCount: nat)
    ensures OpenFile(hostArch, es) + BuildMetadata(|es|, dropCount)
            + SectionEntry(SECTION_ID_METADATA, DataEnd(|es|), 45)
         == HeaderBytes(OpenHeader(hostArch, |es|)) + (Encode(EventRecords(es)) + Footer(|es|, dropCount))
  {
    Regroup(HeaderBytes(OpenHeader(hostArch, |es|)), Encode(EventRecords(es)), BuildMetadata(|es|, dropCount),
            SectionEntry(SECTION_ID_METADATA, DataEnd(|es|), 45));
  }

  lemma FinishedFileParts(hostArch: u8, es: seq<WperfEvent>, dropCount: nat)
    ensures FinishedFile(hostArch, es, dropCount)
         == HeaderBytes(FinishedHeader(hostArch, |es|)) + (Encode(EventRecords(es)) + Footer(|es|, dropCount))
  {
    Regroup(HeaderBytes(FinishedHeader(hostArch, |es|)), Encode(EventRecords(es)), BuildMetadata(|es|, dropCount),
            SectionEntry(SECTION_ID_METADATA, DataEnd(|es|), 45));
  }

  lemma Regroup(a: seq<u8>, b: seq<u8>, c: seq<u8>, d: seq<u8>)
    ensures a + b + c + d == a + (b + (c + d))
  {}

  method HeaderStream(h: WprfHeader) returns (stream: ByteStream)
    requires ValidHeader(h)
    ensures fresh(stream) && stream.data == HeaderBytes(h) && stream.pos == HEADER_SIZE
  {
    stream := new ByteStream([]);
    var buf := HeaderToBytes(h);
    stream.Append(buf[..]);
    assert [] + buf[..] == buf[..];
  }

  /** `WperfWriter::new`: write the initial header, then start recording. */
  method CreateWriter(arch: u8) returns (w: WperfWriter)
    ensures fresh(w) && fresh(w.inner) && w.Valid() && w.written == [] && w.hostArch == arch
  {
    var stream := HeaderStream(NewHeader(arch));
    w := new WperfWriter(stream, arch);
  }

  /** First and largest timestamp of what was written. */
  ghost predicate Spans(es: seq<WperfEvent>, first: Option<u64>, last: u64) {
    && first == (if es == [] then None else Some(es[0].timestampNs))
    && (forall i | 0 <= i < |es| :: es[i].timestampNs <= last)
    && (last == 0 || exists i :: 0 <= i < |es| && es[i].timestampNs == last)
  }

  lemma MaximumExtends(es: seq<WperfEvent>, e: WperfEvent, before: u64, after: u64)
    requires forall i | 0 <= i < |es| :: es[i].timestampNs <= before
    requires before == 0 || exists i :: 0 <= i < |es| && es[i].timestampNs == before
    requires after == Max(before, e.timestampNs)
    ensures forall i | 0 <= i < |es + [e]| :: (es + [e])[i].timestampNs <= after
    ensures after == 0 || exists i :: 0 <= i < |es + [e]| && (es + [e])[i].timestampNs == after
  {
    var more := es + [e];
    if after == e.timestampNs {
      assert more[|es|].timestampNs == after;
    } else if before != 0 {
      var i :| 0 <= i < |es| && es[i].timestampNs == before;
      assert more[i].timestampNs == after;
    }
  }

  lemma BookmarkStep(n: nat)
    ensures Bookmark(n + 1) == if (n + 1) % BOOKMARK_INTERVAL == 0 then DataEnd(n + 1) else Bookmark(n)
  {
    assert (n + 1) % BOOKMARK_INTERVAL != 0 ==>
      n + 1 - (n + 1) % BOOKMARK_INTERVAL == n - n % BOOKMARK_INTERVAL;
  }

  lemma OpenFileParts(hostArch: u8, es: seq<WperfEvent>)
    ensures |OpenFile(hostArch, es)| == DataEnd(|es|)
    ensures OpenFile(hostArch, es)[..HEADER_SIZE] == HeaderBytes(OpenHeader(hostArch, |es|))
    ensures OpenFile(hostArch, es)[HEADER_SIZE..] == Encode(EventRecords(es))
  {
    EventRecordsLength(es);
  }

  lemma StartsRecorded(hostArch: u8)
    ensures Recorded(HeaderBytes(NewHeader(hostArch)), HEADER_SIZE, NewHeader(hostArch), hostArch, [])
  {
    assert NewHeader(hostArch) == OpenHeader(hostArch, 0);
    assert HeaderBytes(NewHeader(hostArch)) + [] == HeaderBytes(NewHeader(hostArch));
  }

  lemma GrownParts(data: seq<u8>, header: WprfHeader, hostArch: u8, es: seq<WperfEvent>, e: WperfEvent)
    requires Recorded(data, |data|, header, hostArch, es)
    ensures var grown := data + RecordBytes(EventRecord(e));
            && |grown| == DataEnd(|es| + 1)
            && grown[..HEADER_SIZE] == HeaderBytes(header)
            && grown[HEADER_SIZE..] == Encode(EventRecords(es + [e]))
  {
    EventRecordsSnoc(es, e);
    OpenFileParts(hostArch, es);
    PartsGrow(data, RecordBytes(EventRecord(e)), HEADER_SIZE);
  }

  lemma PartsGrow(data: seq<u8>, more: seq<u8>, n: nat)
    requires n <= |data|
    ensures (data + more)[..n] == data[..n] && (data + more)[n..] == data[n..] + more
  {}

  /** The open file after one more record: the bookmark is untouched, or it is
      due and moves to the new end. */
  lemma RecordFits(data: seq<u8>, header: WprfHeader, hostArch: u8, es: seq<WperfEvent>, e: WperfEvent)
    requires Recorded(data, |data|, header, hostArch, es)
    ensures var grown := data + RecordBytes(EventRecord(e));
            var due := header.(dataSectionEndOffset := |grown|);
            && grown[..HEADER_SIZE] == HeaderBytes(header)
            && if (|es| + 1) % BOOKMARK_INTERVAL == 0
               then Recorded(HeaderBytes(due) + grown[HEADER_SIZE..], |grown|, due, hostArch, es + [e])
               else Recorded(grown, |grown|, header, hostArch, es + [e])
  {
    var grown := data + RecordBytes(EventRecord(e));
    GrownParts(data, header, hostArch, es, e);
    BookmarkStep(|es|);
    assert grown == grown[..HEADER_SIZE] + grown[HEADER_SIZE..];
  }

  /** At any moment fewer than one batch of fully written events lies behind the
      bookmark. */
  lemma BookmarkLag(n: nat)
    ensures Bookmark(n) == HEADER_SIZE + RECORD_SIZE * (BOOKMARK_INTERVAL * (n / BOOKMARK_INTERVAL))
    ensures Bookmark(n) <= DataEnd(n) <= Bookmark(n) + RECORD_SIZE * (BOOKMARK_INTERVAL - 1)
  {}
}
