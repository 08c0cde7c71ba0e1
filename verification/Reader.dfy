/** The trace file reader (src/format/reader.rs): a bounded TLV scan that
    recovers a prefix of any truncated file, and the footer. */
module Reader {
  import opened Collections
  import opened Events
  import opened Bytes
  import opened EventFormat
  import opened Writer

  datatype ReaderError =
    | Header(error: HeaderError)
    | PayloadTooLarge(recType: u8, length: nat)
    | UnexpectedPayloadSize(badType: u8, expected: nat, actual: nat)
    | UnexpectedEndOfFile

  // ---------- scanning ----------

  /** How a scan ends, and where it leaves the stream. */
  datatype Scan = Exhausted(next: nat) | Found(event: WperfEvent, next: nat) | Failed(error: ReaderError, next: nat)

  /** The next event at or after `pos`, looking no further than `dataEnd`. */
  ghost function ScanFrom(data: seq<u8>, pos: nat, dataEnd: nat): (s: Scan)
    requires dataEnd <= |data|
    ensures s.Found? ==> pos < s.next <= dataEnd
    decreases dataEnd - pos
  {
    if pos + TLV_HEADER_SIZE > dataEnd then Exhausted(pos)
    else
      var recType, length := data[pos], DecodeU32(data[pos + 1..pos + 5]);
      var payloadEnd := pos + TLV_HEADER_SIZE + length;
      if length > MAX_PAYLOAD_SIZE then Failed(PayloadTooLarge(recType, length), pos + TLV_HEADER_SIZE)
      else if payloadEnd > dataEnd then Exhausted(pos + TLV_HEADER_SIZE)
      else if recType != REC_TYPE_SCHED_EVENT then ScanFrom(data, payloadEnd, dataEnd)
      else if length != EVENT_SIZE then
        Failed(UnexpectedPayloadSize(recType, EVENT_SIZE, length), pos + TLV_HEADER_SIZE)
      else Found(EventFromBytes(data[pos + 5..payloadEnd]), payloadEnd)
  }

  /** An unknown record is passed over. */
  lemma SkipUnknown(data: seq<u8>, pos: nat, dataEnd: nat, length: u32)
    requires pos + TLV_HEADER_SIZE + length <= dataEnd <= |data| && length <= MAX_PAYLOAD_SIZE
    requires data[pos] != REC_TYPE_SCHED_EVENT && length == DecodeU32(data[pos + 1..pos + 5])
    ensures ScanFrom(data, pos, dataEnd) == ScanFrom(data, pos + TLV_HEADER_SIZE + length, dataEnd)
  {}

  ghost function ReadFrom(data: seq<u8>, pos: nat, dataEnd: nat): Result<seq<WperfEvent>, ReaderError>
    requires dataEnd <= |data|
    decreases dataEnd - pos
  {
    match ScanFrom(data, pos, dataEnd)
    case Exhausted(_) => Ok([])
    case Failed(error, _) => Err(error)
    case Found(e, next) => Prepend([e], ReadFrom(data, next, dataEnd))
  }

  ghost function Prepend(es: seq<WperfEvent>, r: Result<seq<WperfEvent>, ReaderError>):
    Result<seq<WperfEvent>, ReaderError>
  {
    match r
    case Ok(rest) => Ok(es + rest)
    case Err(error) => Err(error)
  }

  lemma PrependNone(r: Result<seq<WperfEvent>, ReaderError>)
    ensures Prepend([], r) == r
  {
    if r.Ok? {
      assert [] + r.value == r.value;
    }
  }

  lemma PrependOne(es: seq<WperfEvent>, e: WperfEvent, r: Result<seq<WperfEvent>, ReaderError>)
    ensures Prepend(es, Prepend([e], r)) == Prepend(es + [e], r)
  {
    if r.Ok? {
      assert es + ([e] + r.value) == es + [e] + r.value;
    }
  }

  datatype Section = Section(offset: u64, size: u64)

  /** First metadata entry of the section table at `pos`; the table ends where
      no whole entry is left. */
  ghost function FindSection(data: seq<u8>, pos: nat): Option<Section>
    decreases |data| - pos
  {
    if pos + SECTION_ENTRY_SIZE > |data| then None
    else if DecodeU32(data[pos..pos + 4]) == SECTION_ID_METADATA then
      Some(Section(DecodeU64(data[pos + 4..pos + 12]), DecodeU64(data[pos + 12..pos + 20])))
    else FindSection(data, pos + SECTION_ENTRY_SIZE)
  }

  ghost function MetadataOf(data: seq<u8>, tableOffset: nat): Result<Metadata, ReaderError> {
    if tableOffset == 0 then Ok(Metadata(None, None))
    else
      match FindSection(data, tableOffset)
      case None => Ok(Metadata(None, None))
      case Some(s) =>
        if s.size > MAX_PAYLOAD_SIZE then Err(PayloadTooLarge(SECTION_ID_METADATA, Min(s.size, 0xFFFF_FFFF)))
        else if s.size == 0 then Ok(Metadata(None, None))
        else if s.offset + s.size > |data| then Err(UnexpectedEndOfFile)
        else
          Ok(ParseFrom(data[s.offset..s.offset + s.size], 0, Metadata(None, None)))
  }

  class WperfReader {
    var inner: ByteStream
    var header: WprfHeader
    var dataEnd: nat

    ghost predicate Valid()
      reads this, inner
    {
      dataEnd <= |inner.data|
    }

    constructor (stream: ByteStream, h: WprfHeader, end: nat)
      ensures inner == stream && header == h && dataEnd == end
    {
      inner, header, dataEnd := stream, h, end;
    }

    /** Skip unknown records, stop at the boundary or at a record that does not
        fit before it. */
    method NextEvent() returns (r: Result<Option<WperfEvent>, ReaderError>)
      requires Valid()
      modifies inner`pos
      ensures var s := ScanFrom(inner.data, old(inner.pos), dataEnd);
              && (s.Exhausted? ==> r == Ok(None))
              && (s.Failed? ==> r == Err(s.error))
              && (s.Found? ==> r == Ok(Some(s.event)))
              && inner.pos == s.next
    {
      while true
        invariant ScanFrom(inner.data, inner.pos, dataEnd) == ScanFrom(inner.data, old(inner.pos), dataEnd)
        decreases dataEnd - inner.pos
      {
        var pos := inner.pos;
        if pos >= dataEnd || pos + TLV_HEADER_SIZE > dataEnd {
          return Ok(None);
        }
        var recType, length := ReadTlvHeader();
        if length > MAX_PAYLOAD_SIZE {
          return Err(PayloadTooLarge(recType, length));
        }
        var payloadEnd := inner.pos + length;
        if payloadEnd > dataEnd {
          return Ok(None);
        }
        if recType == REC_TYPE_SCHED_EVENT {
          if length != EVENT_SIZE {
            return Err(UnexpectedPayloadSize(recType, EVENT_SIZE, length));
          }
          var payload := inner.ReadExact(EVENT_SIZE);
          return Ok(Some(EventFromBytes(payload.value)));
        }
        inner.SeekTo(inner.pos + length);
        SkipUnknown(inner.data, pos, dataEnd, length);
      }
    }

    method ReadTlvHeader() returns (recType: u8, length: u32)
      requires inner.pos + TLV_HEADER_SIZE <= |inner.data|
      modifies inner`pos
      ensures inner.pos == old(inner.pos) + TLV_HEADER_SIZE
      ensures recType == inner.data[old(inner.pos)]
      ensures length == DecodeU32(inner.data[old(inner.pos) + 1..old(inner.pos) + 5])
    {
      var pos := inner.pos;
      var tlv := inner.ReadExact(TLV_HEADER_SIZE);
      SliceOfSlice(inner.data, pos, pos + 5, 1, 5);
      recType, length := tlv.value[0], DecodeU32(tlv.value[1..5]);
    }

    method ReadAllEvents() returns (r: Result<seq<WperfEvent>, ReaderError>)
      requires Valid()
      modifies inner`pos
      ensures r == ReadFrom(inner.data, old(inner.pos), dataEnd)
    {
      var events := [];
      PrependNone(ReadFrom(inner.data, inner.pos, dataEnd));
      while true
        invariant ReadFrom(inner.data, old(inner.pos), dataEnd)
               == Prepend(events, ReadFrom(inner.data, inner.pos, dataEnd))
        decreases dataEnd - inner.pos
      {
        var next := NextEvent();
        match next {
          case Err(error) => return Err(error);
          case Ok(None) =>
            assert events + [] == events;
            return Ok(events);
          case Ok(Some(e)) =>
            PrependOne(events, e, ReadFrom(inner.data, inner.pos, dataEnd));
            events := events + [e];
        }
      }
    }

    method ReadMetadata() returns (r: Result<Metadata, ReaderError>)
      requires Valid()
      modifies inner`pos
      ensures r == MetadataOf(inner.data, header.sectionTableOffset)
    {
      if header.sectionTableOffset == 0 {
        return Ok(Metadata(None, None));
      }
      inner.SeekTo(header.sectionTableOffset);
      var section := SearchTable();
      if section.None? {
        return Ok(Metadata(None, None));
      }
      var Section(offset, size) := section.value;
      if size > MAX_PAYLOAD_SIZE {
        return Err(PayloadTooLarge(SECTION_ID_METADATA, Min(size, 0xFFFF_FFFF)));
      }
      inner.SeekTo(offset);
      var buf := inner.ReadExact(size);
      if buf.None? {
        return Err(UnexpectedEndOfFile);
      }
      var counts := ParseMetadata(buf.value);
      return Ok(counts);
    }

    method SearchTable() returns (section: Option<Section>)
      modifies inner`pos
      ensures section == FindSection(inner.data, old(inner.pos))
    {
      while true
        invariant FindSection(inner.data, inner.pos) == FindSection(inner.data, old(inner.pos))
        decreases |inner.data| - inner.pos
      {
        var pos := inner.pos;
        var entry := inner.ReadExact(SECTION_ENTRY_SIZE);
        if entry.None? {
          return None;
        }
        var e := entry.value;
        assert e[0..4] == inner.data[pos..pos + 4] && e[4..12] == inner.data[pos + 4..pos + 12];
        assert e[12..20] == inner.data[pos + 12..pos + 20];
        if DecodeU32(e[0..4]) == SECTION_ID_METADATA {
          return Some(Section(DecodeU64(e[4..12]), DecodeU64(e[12..20])));
        }
      }
    }

    method Rewind()
      modifies inner`pos
      ensures inner.pos == HEADER_SIZE
    {
      inner.SeekTo(HEADER_SIZE);
    }
  }

  ghost function HeaderOf(data: seq<u8>): Result<WprfHeader, ReaderError> {
    if |data| < HEADER_SIZE then Err(Header(UnexpectedEof))
    else
      match HeaderFromBytes(data[..HEADER_SIZE])
      case Ok(h) => Ok(h)
      case Err(error) => Err(Header(error))
  }

  /** Parse the header and clamp the bookmark to what is really there. */
  method Open(stream: ByteStream) returns (r: Result<WperfReader, ReaderError>)
    modifies stream`pos
    ensures HeaderOf(stream.data).Err? ==> r == Err(HeaderOf(stream.data).error)
    ensures HeaderOf(stream.data).Ok? ==>
              && r.Ok? && fresh(r.value) && r.value.inner == stream && r.value.Valid()
              && r.value.header == HeaderOf(stream.data).value
              && r.value.dataEnd == Min(r.value.header.dataSectionEndOffset, |stream.data|)
              && stream.pos == HEADER_SIZE
  {
    stream.SeekTo(0);
    var buf := stream.ReadExact(HEADER_SIZE);
    if buf.None? {
      return Err(Header(UnexpectedEof));
    }
    match HeaderFromBytes(buf.value) {
      case Err(error) => return Err(Header(error));
      case Ok(h) =>
        var fileLen := |stream.data|;
        var dataEnd := Min(h.dataSectionEndOffset, fileLen);
        stream.SeekTo(HEADER_SIZE);
        var reader := new WperfReader(stream, h, dataEnd);
        return Ok(reader);
    }
  }

  // ---------- recovery from any truncation ----------

  /** What a writer of this or a later version may produce: payloads within the
      size limit, event records of the event size. */
  ghost predicate WellFormedRecord(r: Record) {
    |r.payload| <= MAX_PAYLOAD_SIZE && (r.recType == REC_TYPE_SCHED_EVENT ==> |r.payload| == EVENT_SIZE)
  }

  /** The event of a record, if it is an event record. */
  ghost function EventOf(r: Record): seq<WperfEvent>
    requires WellFormedRecord(r)
  {
    if r.recType == REC_TYPE_SCHED_EVENT then [EventFromBytes(r.payload)] else []
  }

  /** Events of the records that lie wholly within the first `limit` bytes. */
  ghost function EventsWithin(rs: seq<Record>, limit: nat): seq<WperfEvent>
    requires forall r | r in rs :: WellFormedRecord(r)
  {
    if rs == [] then []
    else
      var r := rs[0];
      assert rs[0] in rs && WellFormedRecord(r);
      if |RecordBytes(r)| > limit then []
      else
        EventOf(r) + EventsWithin(rs[1..], limit - |RecordBytes(r)|)
  }

  /** One record at `pos`, wholly before `dataEnd`. */
  lemma ScanRecord(data: seq<u8>, pos: nat, dataEnd: nat, r: Record)
    requires dataEnd <= |data| && WellFormedRecord(r)
    requires pos + |RecordBytes(r)| <= dataEnd && data[pos..pos + |RecordBytes(r)|] == RecordBytes(r)
    ensures var next := pos + |RecordBytes(r)|;
            ScanFrom(data, pos, dataEnd) ==
            if r.recType == REC_TYPE_SCHED_EVENT then Found(EventFromBytes(r.payload), next)
            else ScanFrom(data, next, dataEnd)
  {
    var bytes := RecordBytes(r);
    var next := pos + |bytes|;
    assert data[pos] == data[pos..next][0] == r.recType;
    SliceOfSlice(data, pos, next, 1, 5);
    assert bytes[1..5] == ToLe(|r.payload|, 4);
    SliceOfSlice(data, pos, next, 5, |bytes|);
    assert bytes[5..|bytes|] == r.payload;
    DecodesU32(|r.payload|);
  }

  /** A record cut off before its end stops the scan without an error. */
  lemma ScanCutRecord(data: seq<u8>, pos: nat, dataEnd: nat, r: Record)
    requires pos <= dataEnd <= |data| && WellFormedRecord(r)
    requires dataEnd - pos < |RecordBytes(r)| && data[pos..dataEnd] == RecordBytes(r)[..dataEnd - pos]
    ensures ScanFrom(data, pos, dataEnd).Exhausted?
  {
    if pos + TLV_HEADER_SIZE <= dataEnd {
      SliceOfSlice(data, pos, dataEnd, 1, 5);
      assert RecordBytes(r)[..dataEnd - pos][1..5] == RecordBytes(r)[1..5] == ToLe(|r.payload|, 4);
      DecodesU32(|r.payload|);
    }
  }

  lemma ReadsCut(data: seq<u8>, pos: nat, dataEnd: nat, rs: seq<Record>)
    requires pos <= dataEnd <= |data| && (forall r | r in rs :: WellFormedRecord(r))
    requires rs != [] && rs[0] in rs && dataEnd - pos < |RecordBytes(rs[0])|
    requires data[pos..dataEnd] == Encode(rs)[..dataEnd - pos]
    ensures ReadFrom(data, pos, dataEnd) == Ok(EventsWithin(rs, dataEnd - pos))
  {
    assert Encode(rs)[..dataEnd - pos] == RecordBytes(rs[0])[..dataEnd - pos];
    ScanCutRecord(data, pos, dataEnd, rs[0]);
  }

  /** Reading past one whole record. */
  lemma ReadStep(data: seq<u8>, pos: nat, dataEnd: nat, r: Record)
    requires dataEnd <= |data| && WellFormedRecord(r)
    requires pos + |RecordBytes(r)| <= dataEnd && data[pos..pos + |RecordBytes(r)|] == RecordBytes(r)
    ensures var rest := ReadFrom(data, pos + |RecordBytes(r)|, dataEnd);
            ReadFrom(data, pos, dataEnd) == if rest.Ok? then Ok(EventOf(r) + rest.value) else rest
  {
    PrependNone(ReadFrom(data, pos + |RecordBytes(r)|, dataEnd));
    ScanRecord(data, pos, dataEnd, r);
  }

  lemma ReadsNothing(data: seq<u8>, pos: nat)
    requires pos <= |data|
    ensures ReadFrom(data, pos, pos) == Ok([])
  {}

  lemma WithinCons(rs: seq<Record>, limit: nat)
    requires (forall r | r in rs :: WellFormedRecord(r)) && rs != [] && rs[0] in rs
    requires |RecordBytes(rs[0])| <= limit
    ensures EventsWithin(rs, limit) == EventOf(rs[0]) + EventsWithin(rs[1..], limit - |RecordBytes(rs[0])|)
  {}

  lemma ReadsOneMore(data: seq<u8>, pos: nat, dataEnd: nat, r: Record, next: nat,
                     rest: seq<WperfEvent>, whole: seq<WperfEvent>)
    requires dataEnd <= |data| && WellFormedRecord(r)
    requires next == pos + |RecordBytes(r)| <= dataEnd && data[pos..next] == RecordBytes(r)
    requires ReadFrom(data, next, dataEnd) == Ok(rest) && whole == EventOf(r) + rest
    ensures ReadFrom(data, pos, dataEnd) == Ok(whole)
  {
    ReadStep(data, pos, dataEnd, r);
  }

  lemma SplitPrefix(data: seq<u8>, pos: nat, dataEnd: nat, a: seq<u8>, b: seq<u8>)
    requires pos <= dataEnd <= |data| && |a| <= dataEnd - pos <= |a + b|
    requires data[pos..dataEnd] == (a + b)[..dataEnd - pos]
    ensures data[pos..pos + |a|] == a && data[pos + |a|..dataEnd] == b[..dataEnd - pos - |a|]
  {
    SliceOfSlice(data, pos, dataEnd, 0, |a|);
    SliceOfSlice(data, pos, dataEnd, |a|, dataEnd - pos);
    PrefixOfSum(a, b, dataEnd - pos);
  }

  lemma PrefixOfSum(a: seq<u8>, b: seq<u8>, n: nat)
    requires |a| <= n <= |a + b|
    ensures (a + b)[..n][0..|a|] == a && (a + b)[..n][|a|..n] == b[..n - |a|]
  {}

  /** The first record, and the rest behind it. */
  lemma SplitEncoding(data: seq<u8>, pos: nat, dataEnd: nat, rs: seq<Record>, next: nat)
    requires rs != [] && next == pos + |RecordBytes(rs[0])| && pos <= next <= dataEnd <= |data|
    requires dataEnd - pos <= |Encode(rs)| && data[pos..dataEnd] == Encode(rs)[..dataEnd - pos]
    ensures data[pos..next] == RecordBytes(rs[0]) && dataEnd - next <= |Encode(rs[1..])|
    ensures data[next..dataEnd] == Encode(rs[1..])[..dataEnd - next]
  {
    SplitPrefix(data, pos, dataEnd, RecordBytes(rs[0]), Encode(rs[1..]));
  }

  /** If the bytes up to the boundary are a prefix of some well-formed records,
      reading returns exactly the events wholly before the boundary. */
  lemma {:induction false} ReadsPrefix(data: seq<u8>, pos: nat, dataEnd: nat, rs: seq<Record>)
    requires pos <= dataEnd <= |data| && forall r | r in rs :: WellFormedRecord(r)
    requires dataEnd - pos <= |Encode(rs)| && data[pos..dataEnd] == Encode(rs)[..dataEnd - pos]
    ensures ReadFrom(data, pos, dataEnd) == Ok(EventsWithin(rs, dataEnd - pos))
    decreases |rs|
  {
    if rs == [] {
      ReadsNothing(data, pos);
    } else {
      assert rs[0] in rs;
      var next: nat := pos + |RecordBytes(rs[0])|;
      if next > dataEnd {
        ReadsCut(data, pos, dataEnd, rs);
      } else {
        SplitEncoding(data, pos, dataEnd, rs, next);
        ReadsPrefix(data, next, dataEnd, rs[1..]);
        WithinCons(rs, dataEnd - pos);
        ReadsOneMore(data, pos, dataEnd, rs[0], next, EventsWithin(rs[1..], dataEnd - next),
                     EventsWithin(rs, dataEnd - pos));
      }
    }
  }

  /** Opening and reading a file of well-formed records, cut anywhere after the
      header and with any bookmark that does not reach past the records, never
      fails and loses only what lies beyond the cut or the bookmark. */
  lemma RecoversAnyTruncation(h: WprfHeader, rs: seq<Record>, tail: seq<u8>, cut: nat)
    requires ValidHeader(h) && OffsetsFit(h) && h.version == VERSION
    requires forall r | r in rs :: WellFormedRecord(r)
    requires var file := HeaderBytes(h) + Encode(rs) + tail;
             && HEADER_SIZE <= cut <= |file|
             && HEADER_SIZE <= Min(h.dataSectionEndOffset, cut) <= HEADER_SIZE + |Encode(rs)|
    ensures var data := (HeaderBytes(h) + Encode(rs) + tail)[..cut];
            var dataEnd := Min(h.dataSectionEndOffset, cut);
            && HeaderOf(data) == Ok(h)
            && ReadFrom(data, HEADER_SIZE, dataEnd) == Ok(EventsWithin(rs, dataEnd - HEADER_SIZE))
  {
    var head, body := HeaderBytes(h), Encode(rs);
    var data := (head + body + tail)[..cut];
    var dataEnd := Min(h.dataSectionEndOffset, cut);
    CutParts(head, body, tail, cut, dataEnd);
    HeaderRoundTrip(h);
    ReadsPrefix(data, HEADER_SIZE, dataEnd, rs);
  }

  lemma CutParts(head: seq<u8>, body: seq<u8>, tail: seq<u8>, cut: nat, end: nat)
    requires |head| <= end <= cut <= |head + body + tail| && end <= |head + body|
    ensures (head + body + tail)[..cut][..|head|] == head
    ensures (head + body + tail)[..cut][|head|..end] == body[..end - |head|]
  {
    var data := (head + body + tail)[..cut];
    assert forall i | 0 <= i < end - |head| :: data[|head| + i] == body[i];
  }

  // ---------- files of the writer ----------

  lemma EventRecordsWellFormed(es: seq<WperfEvent>)
    ensures forall r | r in EventRecords(es) :: WellFormedRecord(r)
  {
    var rs := EventRecords(es);
    forall r | r in rs ensures WellFormedRecord(r) {
      var i :| 0 <= i < |rs| && rs[i] == r;
    }
  }

  ghost function PayloadEvents(rs: seq<Record>): seq<WperfEvent>
    requires forall r | r in rs :: |r.payload| == EVENT_SIZE
  {
    if rs == [] then []
    else
      assert rs[0] in rs;
      [EventFromBytes(rs[0].payload)] + PayloadEvents(rs[1..])
  }

  /** How many of `n` event records fit into `limit` bytes. */
  ghost function Fitting(n: nat, limit: nat): nat {
    if n == 0 || limit < RECORD_SIZE then 0 else 1 + Fitting(n - 1, limit - RECORD_SIZE)
  }

  lemma {:induction false} FittingIsQuotient(n: nat, limit: nat)
    ensures Fitting(n, limit) == Min(n, limit / RECORD_SIZE)
  {
    if n > 0 && limit >= RECORD_SIZE {
      FittingIsQuotient(n - 1, limit - RECORD_SIZE);
      assert (limit - RECORD_SIZE) / RECORD_SIZE == limit / RECORD_SIZE - 1;
    }
  }

  lemma UniformCons(rs: seq<Record>, limit: nat)
    requires forall r | r in rs :: r.recType == REC_TYPE_SCHED_EVENT && |r.payload| == EVENT_SIZE
    requires rs != [] && rs[0] in rs && limit >= RECORD_SIZE
    ensures PayloadEvents(rs) != [] && PayloadEvents(rs)[1..] == PayloadEvents(rs[1..])
    ensures EventsWithin(rs, limit) == [PayloadEvents(rs)[0]] + EventsWithin(rs[1..], limit - RECORD_SIZE)
  {
    WithinCons(rs, limit);
  }

  /** Records of one size: as many as fit. */
  lemma {:induction false} EventsWithinUniform(rs: seq<Record>, limit: nat)
    requires forall r | r in rs :: r.recType == REC_TYPE_SCHED_EVENT && |r.payload| == EVENT_SIZE
    ensures Fitting(|rs|, limit) <= |PayloadEvents(rs)| == |rs|
    ensures EventsWithin(rs, limit) == PayloadEvents(rs)[..Fitting(|rs|, limit)]
  {
    if rs != [] {
      assert rs[0] in rs;
      var rest := rs[1..];
      EventsWithinUniform(rest, if limit < RECORD_SIZE then 0 else limit - RECORD_SIZE);
      if limit >= RECORD_SIZE {
        UniformCons(rs, limit);
        PrefixCons(PayloadEvents(rs), Fitting(|rest|, limit - RECORD_SIZE));
      }
    }
  }

  lemma PrefixCons(es: seq<WperfEvent>, n: nat)
    requires n < |es|
    ensures [es[0]] + es[1..][..n] == es[..n + 1]
  {}

  lemma {:induction false} PayloadEventsOf(es: seq<WperfEvent>)
    requires forall r | r in EventRecords(es) :: |r.payload| == EVENT_SIZE
    ensures PayloadEvents(EventRecords(es)) == es
  {
    if es != [] {
      assert EventRecords(es)[0] == EventRecord(es[0]) && EventRecords(es)[1..] == EventRecords(es[1..]);
      EventRoundTrip(es[0]);
      PayloadEventsOf(es[1..]);
    }
  }

  lemma EventsWithinEvents(es: seq<WperfEvent>, limit: nat)
    requires forall r | r in EventRecords(es) :: WellFormedRecord(r)
    ensures EventsWithin(EventRecords(es), limit) == es[..Min(|es|, limit / RECORD_SIZE)]
  {
    var rs := EventRecords(es);
    forall r | r in rs ensures r.recType == REC_TYPE_SCHED_EVENT && |r.payload| == EVENT_SIZE {
      var i :| 0 <= i < |rs| && rs[i] == r;
    }
    EventsWithinUniform(rs, limit);
    FittingIsQuotient(|rs|, limit);
    PayloadEventsOf(es);
  }

  lemma OpensWith(h: WprfHeader, data: seq<u8>)
    requires ValidHeader(h) && OffsetsFit(h) && h.version == VERSION
    requires HEADER_SIZE <= |data| && data[..HEADER_SIZE] == HeaderBytes(h)
    ensures HeaderOf(data) == Ok(h)
  {
    HeaderRoundTrip(h);
  }

  /** Behind any header: the event records before the boundary are read. */
  lemma ReadsEvents(data: seq<u8>, dataEnd: nat, es: seq<WperfEvent>)
    requires HEADER_SIZE <= dataEnd <= |data| && dataEnd <= DataEnd(|es|) == HEADER_SIZE + |Encode(EventRecords(es))|
    requires data[HEADER_SIZE..dataEnd] == Encode(EventRecords(es))[..dataEnd - HEADER_SIZE]
    ensures ReadFrom(data, HEADER_SIZE, dataEnd) == Ok(es[..Min(|es|, (dataEnd - HEADER_SIZE) / RECORD_SIZE)])
  {
    EventRecordsWellFormed(es);
    EventsWithinEvents(es, dataEnd - HEADER_SIZE);
    ReadsPrefix(data, HEADER_SIZE, dataEnd, EventRecords(es));
  }

  lemma CrashedEvents(es: seq<WperfEvent>, file: seq<u8>, cut: nat)
    requires HEADER_SIZE <= cut <= |file| == DataEnd(|es|) && file[HEADER_SIZE..] == Encode(EventRecords(es))
    ensures HEADER_SIZE <= Min(Bookmark(|es|), cut)
    ensures ReadFrom(file[..cut], HEADER_SIZE, Min(Bookmark(|es|), cut))
         == Ok(es[..Min(|es| - |es| % BOOKMARK_INTERVAL, (cut - HEADER_SIZE) / RECORD_SIZE)])
  {
    BookmarkLag(|es|);
    CutAt(es, file, cut, Min(Bookmark(|es|), cut));
    RecordsBefore(|es|, cut);
  }

  lemma CutAt(es: seq<WperfEvent>, file: seq<u8>, cut: nat, dataEnd: nat)
    requires HEADER_SIZE <= dataEnd <= cut <= |file| == DataEnd(|es|)
    requires file[HEADER_SIZE..] == Encode(EventRecords(es))
    ensures ReadFrom(file[..cut], HEADER_SIZE, dataEnd)
         == Ok(es[..Min(|es|, (dataEnd - HEADER_SIZE) / RECORD_SIZE)])
  {
    PrefixSlice(file, HEADER_SIZE, dataEnd, cut);
    ReadsEvents(file[..cut], dataEnd, es);
  }

  lemma PrefixSlice(s: seq<u8>, from: nat, to: nat, cut: nat)
    requires from <= to <= cut <= |s|
    ensures s[..cut][from..to] == s[from..][..to - from] && s[..cut][..from] == s[..from]
  {}

  lemma RecordsBefore(n: nat, cut: nat)
    requires HEADER_SIZE <= cut
    ensures Min(n, (Min(Bookmark(n), cut) - HEADER_SIZE) / RECORD_SIZE)
         == Min(n - n % BOOKMARK_INTERVAL, (cut - HEADER_SIZE) / RECORD_SIZE)
  {}

  /** A crash while recording, with the file further cut anywhere after the
      header, loses only events past the cut or past the last bookmark. */
  lemma CrashRecovery(hostArch: u8, es: seq<WperfEvent>, cut: nat)
    requires HEADER_SIZE <= cut <= |OpenFile(hostArch, es)|
    requires DataEnd(|es|) < 0x1_0000_0000_0000_0000
    ensures var data := OpenFile(hostArch, es)[..cut];
            var h := OpenHeader(hostArch, |es|);
            var dataEnd := Min(h.dataSectionEndOffset, cut);
            && HeaderOf(data) == Ok(h)
            && ReadFrom(data, HEADER_SIZE, dataEnd)
               == Ok(es[..Min(|es| - |es| % BOOKMARK_INTERVAL, (cut - HEADER_SIZE) / RECORD_SIZE)])
  {
    var file := OpenFile(hostArch, es);
    OpenFileParts(hostArch, es);
    BookmarkLag(|es|);
    PrefixSlice(file, HEADER_SIZE, cut, cut);
    OpensWith(OpenHeader(hostArch, |es|), file[..cut]);
    CrashedEvents(es, file, cut);
  }

  /** A finished file reads back as exactly the events written. */
  lemma FinishedRoundTrip(hostArch: u8, es: seq<WperfEvent>, dropCount: nat)
    requires DataEnd(|es|) + 45 < 0x1_0000_0000_0000_0000
    ensures var data := FinishedFile(hostArch, es, dropCount);
            && HeaderOf(data) == Ok(FinishedHeader(hostArch, |es|))
            && ReadFrom(data, HEADER_SIZE, Min(DataEnd(|es|), |data|)) == Ok(es)
  {
    var n, file := |es|, FinishedFile(hostArch, es, dropCount);
    FinishedFileParts(hostArch, es, dropCount);
    EventRecordsLength(es);
    HeaderBodyFooter(HeaderBytes(FinishedHeader(hostArch, n)), Encode(EventRecords(es)), Footer(n, dropCount), file);
    OpensWith(FinishedHeader(hostArch, n), file);
    FinishedEvents(es, file);
  }

  lemma HeaderBodyFooter(head: seq<u8>, body: seq<u8>, footer: seq<u8>, file: seq<u8>)
    requires |head| == HEADER_SIZE && file == head + (body + footer)
    ensures HEADER_SIZE + |body| <= |file| && file[..HEADER_SIZE] == head
    ensures file[HEADER_SIZE..HEADER_SIZE + |body|] == body
  {}

  lemma WholePrefix<T>(s: seq<T>)
    ensures s[..|s|] == s
  {}

  lemma WholeRecords(n: nat)
    ensures RECORD_SIZE * n / RECORD_SIZE == n
  {}

  lemma FinishedEvents(es: seq<WperfEvent>, file: seq<u8>)
    requires DataEnd(|es|) <= |file| && DataEnd(|es|) == HEADER_SIZE + |Encode(EventRecords(es))|
    requires file[HEADER_SIZE..DataEnd(|es|)] == Encode(EventRecords(es))
    ensures ReadFrom(file, HEADER_SIZE, Min(DataEnd(|es|), |file|)) == Ok(es)
  {
    var n, body := |es|, Encode(EventRecords(es));
    WholePrefix(body);
    WholePrefix(es);
    WholeRecords(n);
    ReadsEvents(file, DataEnd(n), es);
  }

  /** Any truncation of a finished file yields the exact counts or none, never an
      error. */
  lemma MetadataUnderTruncation(hostArch: u8, es: seq<WperfEvent>, n: u64, dropCount: u64, cut: nat)
    requires n == |es| && DataEnd(n) + 45 < 0x1_0000_0000_0000_0000
    requires HEADER_SIZE <= cut <= |FinishedFile(hostArch, es, dropCount)|
    ensures MetadataOf(FinishedFile(hostArch, es, dropCount)[..cut], FinishedHeader(hostArch, n).sectionTableOffset)
         == Ok(if cut == |FinishedFile(hostArch, es, dropCount)|
               then Metadata(Some(n), Some(dropCount)) else Metadata(None, None))
  {
    var file := FinishedFile(hostArch, es, dropCount);
    FooterPlaced(hostArch, es, dropCount);
    if cut == |file| {
      FooterReadsBack(file, n, dropCount);
      WholePrefix(file);
    } else {
      NoTable(file[..cut], DataEnd(n) + 45);
    }
  }

  lemma NoTable(data: seq<u8>, tableOffset: nat)
    requires |data| < tableOffset + SECTION_ENTRY_SIZE
    ensures MetadataOf(data, tableOffset) == Ok(Metadata(None, None))
  {}

  lemma FooterReadsBack(file: seq<u8>, n: u64, dropCount: u64)
    requires var at := DataEnd(n);
             && at + 45 < 0x1_0000_0000_0000_0000
             && |file| == at + 65
             && file[at..at + 45] == BuildMetadata(n, dropCount)
             && file[at + 45..at + 49] == ToLe(SECTION_ID_METADATA, 4)
             && file[at + 49..at + 57] == ToLe(at, 8) && file[at + 57..at + 65] == ToLe(45, 8)
    ensures MetadataOf(file, DataEnd(n) + 45) == Ok(Metadata(Some(n), Some(dropCount)))
  {
    DecodesU32(SECTION_ID_METADATA);
    DecodesU64(DataEnd(n));
    DecodesU64(45);
    MetadataRoundTrip(n, dropCount);
  }

  lemma FooterPlaced(hostArch: u8, es: seq<WperfEvent>, dropCount: nat)
    ensures var file, at := FinishedFile(hostArch, es, dropCount), DataEnd(|es|);
            && |file| == at + 65
            && file[at..at + 45] == BuildMetadata(|es|, dropCount)
            && file[at + 45..at + 49] == ToLe(SECTION_ID_METADATA, 4)
            && file[at + 49..at + 57] == ToLe(at, 8) && file[at + 57..at + 65] == ToLe(45, 8)
  {
    EventRecordsLength(es);
    var front := HeaderBytes(FinishedHeader(hostArch, |es|)) + Encode(EventRecords(es));
    PartsPlaced(front, BuildMetadata(|es|, dropCount), SectionEntry(SECTION_ID_METADATA, DataEnd(|es|), 45));
    EntryParts(SECTION_ID_METADATA, DataEnd(|es|), 45);
  }

  lemma PartsPlaced(front: seq<u8>, metadata: seq<u8>, entry: seq<u8>)
    requires |metadata| == 45 && |entry| == SECTION_ENTRY_SIZE
    ensures var file, at := front + metadata + entry, |front|;
            && |file| == at + 65 && file[at..at + 45] == metadata
            && file[at + 45..at + 49] == entry[0..4]
            && file[at + 49..at + 57] == entry[4..12] && file[at + 57..at + 65] == entry[12..20]
  {}

  lemma EntryParts(id: u32, offset: nat, size: nat)
    ensures var entry := SectionEntry(id, offset, size);
            entry[0..4] == ToLe(id, 4) && entry[4..12] == ToLe(offset, 8) && entry[12..20] == ToLe(size, 8)
  {}
}
