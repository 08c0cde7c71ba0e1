/** The 40-byte wire form of an event and the 64-byte file header
    (src/format/event.rs, src/format/header.rs). */
module EventFormat {
  import opened Collections
  import opened Events
  import opened Bytes

  const EVENT_SIZE: nat := 40
  const HEADER_SIZE: nat := 64

  /** Timestamp and thread ids. */
  ghost function FrontBytes(e: WperfEvent): (s: seq<u8>)
    ensures |s| == 24
  {
    ToLe(e.timestampNs, 8) + ToLe(e.pid, 4) + ToLe(e.tid, 4) + ToLe(e.prevTid, 4) + ToLe(e.nextTid, 4)
  }

  /** Field by field at its documented offset. */
  ghost function EventBytes(e: WperfEvent): (s: seq<u8>)
    ensures |s| == EVENT_SIZE
  {
    FrontBytes(e)
    + ToLe(e.prevPid, 4) + ToLe(e.nextPid, 4)
    + ToLe(e.cpu, 2) + [e.eventType, e.prevState] + ToLe(e.flags, 4)
  }

  function EventFromBytes(buf: seq<u8>): WperfEvent
    requires |buf| == EVENT_SIZE
  {
    WperfEvent(
      DecodeU64(buf[0..8]),
      DecodeU32(buf[8..12]), DecodeU32(buf[12..16]), DecodeU32(buf[16..20]), DecodeU32(buf[20..24]),
      DecodeU32(buf[24..28]), DecodeU32(buf[28..32]),
      DecodeU16(buf[32..34]), buf[34], buf[35], DecodeU32(buf[36..40]))
  }

  lemma EventBytesAt(e: WperfEvent)
    ensures var b := EventBytes(e);
            && b[0..8] == ToLe(e.timestampNs, 8)
            && b[8..12] == ToLe(e.pid, 4) && b[12..16] == ToLe(e.tid, 4)
            && b[16..20] == ToLe(e.prevTid, 4) && b[20..24] == ToLe(e.nextTid, 4)
            && b[24..28] == ToLe(e.prevPid, 4) && b[28..32] == ToLe(e.nextPid, 4)
            && b[32..34] == ToLe(e.cpu, 2) && b[34] == e.eventType && b[35] == e.prevState
            && b[36..40] == ToLe(e.flags, 4)
  {}

  /** No event is lost or altered by being written and read. */
  lemma EventRoundTrip(e: WperfEvent)
    ensures EventFromBytes(EventBytes(e)) == e
  {
    EventBytesAt(e);
    DecodesU64(e.timestampNs);
    DecodesU32(e.pid);
    DecodesU32(e.tid);
    DecodesU32(e.prevTid);
    DecodesU32(e.nextTid);
    DecodesU32(e.prevPid);
    DecodesU32(e.nextPid);
    DecodesU16(e.cpu);
    DecodesU32(e.flags);
  }

  lemma Fields(buf: seq<u8>)
    requires |buf| == EVENT_SIZE
    ensures buf == buf[0..8] + buf[8..12] + buf[12..16] + buf[16..20] + buf[20..24] + buf[24..28] + buf[28..32]
                   + buf[32..34] + [buf[34], buf[35]] + buf[36..40]
  {}

  /** Every 40-byte block is the wire form of the event it decodes to. */
  lemma WireRoundTrip(buf: seq<u8>)
    requires |buf| == EVENT_SIZE
    ensures EventBytes(EventFromBytes(buf)) == buf
  {
    LeEncodes(buf[0..8]);
    LeEncodes(buf[8..12]);
    LeEncodes(buf[12..16]);
    LeEncodes(buf[16..20]);
    LeEncodes(buf[20..24]);
    LeEncodes(buf[24..28]);
    LeEncodes(buf[28..32]);
    LeEncodes(buf[32..34]);
    LeEncodes(buf[36..40]);
    Fields(buf);
  }

  /** The documented layout: each field at its offset, least significant byte first. */
  ghost predicate LaidOut(b: seq<u8>, e: WperfEvent) {
    && |b| == 40
    && b[0..8] == Le8(e.timestampNs) && b[8..12] == Le4(e.pid) && b[12..16] == Le4(e.tid)
    && b[16..20] == Le4(e.prevTid) && b[20..24] == Le4(e.nextTid)
    && b[24..28] == Le4(e.prevPid) && b[28..32] == Le4(e.nextPid)
    && b[32..34] == Le2(e.cpu) && b[34] == e.eventType && b[35] == e.prevState && b[36..40] == Le4(e.flags)
  }

  lemma EventIsLaidOut(e: WperfEvent)
    ensures LaidOut(EventBytes(e), e)
  {
    EventBytesAt(e);
    BytesOf(e.timestampNs);
    BytesOf(e.pid);
    BytesOf(e.tid);
    BytesOf(e.prevTid);
    BytesOf(e.nextTid);
    BytesOf(e.prevPid);
    BytesOf(e.nextPid);
    BytesOf(e.cpu);
    BytesOf(e.flags);
  }

  /** An event is read from 40 bytes field by field, at the documented offsets. */
  lemma EventIsRead(buf: seq<u8>)
    requires |buf| == 40
    ensures var e := EventFromBytes(buf);
            && e.timestampNs == Number8(buf[0..8]) && e.pid == Number4(buf[8..12]) && e.tid == Number4(buf[12..16])
            && e.prevTid == Number4(buf[16..20]) && e.nextTid == Number4(buf[20..24])
            && e.prevPid == Number4(buf[24..28]) && e.nextPid == Number4(buf[28..32])
            && e.cpu == Number2(buf[32..34]) && e.eventType == buf[34] && e.prevState == buf[35]
            && e.flags == Number4(buf[36..40])
  {
    NumberOf8(buf[0..8]);
    NumberOf4(buf[8..12]);
    NumberOf4(buf[12..16]);
    NumberOf4(buf[16..20]);
    NumberOf4(buf[20..24]);
    NumberOf4(buf[24..28]);
    NumberOf4(buf[28..32]);
    NumberOf2(buf[32..34]);
    NumberOf4(buf[36..40]);
  }

  method FillFront(buf: array<u8>, e: WperfEvent)
    requires buf.Length == EVENT_SIZE
    modifies buf
    ensures buf[..24] == FrontBytes(e)
  {
    CopyInto(buf, 0, ToLe(e.timestampNs, 8));
    CopyInto(buf, 8, ToLe(e.pid, 4));
    CopyInto(buf, 12, ToLe(e.tid, 4));
    CopyInto(buf, 16, ToLe(e.prevTid, 4));
    CopyInto(buf, 20, ToLe(e.nextTid, 4));
  }

  /** `to_bytes`: fill a zeroed buffer field by field. */
  method EventToBytes(e: WperfEvent) returns (buf: array<u8>)
    ensures fresh(buf) && buf[..] == EventBytes(e) && LaidOut(buf[..], e)
  {
    buf := new u8[EVENT_SIZE](_ => 0);
    FillFront(buf, e);
    CopyInto(buf, 24, ToLe(e.prevPid, 4));
    CopyInto(buf, 28, ToLe(e.nextPid, 4));
    CopyInto(buf, 32, ToLe(e.cpu, 2));
    CopyInto(buf, 34, [e.eventType, e.prevState]);
    CopyInto(buf, 36, ToLe(e.flags, 4));
    assert buf[..40] == buf[..];
    EventIsLaidOut(e);
  }

  // ---------- file header ----------

  const MAGIC: seq<u8> := [0x77, 0x50, 0x52, 0x46]
  const VERSION: u8 := 1
  const ENDIAN_LE: u8 := 1

  datatype WprfHeader = WprfHeader(
    version: u8,
    endianness: u8,
    hostArch: u8,
    dataSectionEndOffset: nat,
    sectionTableOffset: nat,
    featureBitmap: seq<u8>)

  datatype HeaderError = BadMagic | UnsupportedVersion(version: u8) | UnexpectedEof

  ghost predicate ValidHeader(h: WprfHeader) {
    |h.featureBitmap| == 32
  }

  /** The two offsets fit their 64-bit fields. */
  ghost predicate OffsetsFit(h: WprfHeader) {
    h.dataSectionEndOffset < 0x1_0000_0000_0000_0000 && h.sectionTableOffset < 0x1_0000_0000_0000_0000
  }

  function NewHeader(hostArch: u8): WprfHeader {
    WprfHeader(VERSION, ENDIAN_LE, hostArch, HEADER_SIZE, 0, seq(32, _ => 0))
  }

  ghost function HeaderBytes(h: WprfHeader): (s: seq<u8>)
    requires ValidHeader(h)
    ensures |s| == HEADER_SIZE
  {
    MAGIC + [h.version, h.endianness, h.hostArch, 0]
    + ToLe(h.dataSectionEndOffset, 8) + ToLe(h.sectionTableOffset, 8)
    + h.featureBitmap + [0, 0, 0, 0, 0, 0, 0, 0]
  }

  function HeaderFromBytes(buf: seq<u8>): Result<WprfHeader, HeaderError>
    requires |buf| == HEADER_SIZE
  {
    if buf[0..4] != MAGIC then Err(BadMagic)
    else if buf[4] != VERSION then Err(UnsupportedVersion(buf[4]))
    else Ok(WprfHeader(buf[4], buf[5], buf[6], DecodeU64(buf[8..16]), DecodeU64(buf[16..24]), buf[24..56]))
  }

  lemma HeaderBytesAt(h: WprfHeader)
    requires ValidHeader(h)
    ensures var b := HeaderBytes(h);
            && b[0..4] == MAGIC && b[4] == h.version && b[5] == h.endianness && b[6] == h.hostArch
            && b[8..16] == ToLe(h.dataSectionEndOffset, 8) && b[16..24] == ToLe(h.sectionTableOffset, 8)
            && b[24..56] == h.featureBitmap
  {}

  /** The documented header: "wPRF", version, byte order, architecture, a zero, the
      two offsets, the feature bits and eight zeros. */
  ghost predicate HeaderLaidOut(b: seq<u8>, h: WprfHeader) {
    && |b| == 64 && b[0..4] == [0x77, 0x50, 0x52, 0x46]
    && b[4] == h.version && b[5] == h.endianness && b[6] == h.hostArch && b[7] == 0
    && b[8..16] == Le8(h.dataSectionEndOffset) && b[16..24] == Le8(h.sectionTableOffset)
    && b[24..56] == h.featureBitmap && b[56..64] == [0, 0, 0, 0, 0, 0, 0, 0]
  }

  lemma HeaderIsLaidOut(h: WprfHeader)
    requires ValidHeader(h)
    ensures HeaderLaidOut(HeaderBytes(h), h)
  {
    HeaderBytesAt(h);
    BytesOf(h.dataSectionEndOffset);
    BytesOf(h.sectionTableOffset);
  }

  /** Which 64 bytes are a header, and what it says. */
  lemma HeaderIsRead(buf: seq<u8>)
    requires |buf| == 64
    ensures HeaderFromBytes(buf) ==
            if buf[0..4] != [0x77, 0x50, 0x52, 0x46] then Err(BadMagic)
            else if buf[4] != 1 then Err(UnsupportedVersion(buf[4]))
            else Ok(WprfHeader(1, buf[5], buf[6], Number8(buf[8..16]), Number8(buf[16..24]), buf[24..56]))
  {
    NumberOf8(buf[8..16]);
    NumberOf8(buf[16..24]);
  }

  /** A header reads back as itself exactly when its version is supported. */
  lemma HeaderRoundTrip(h: WprfHeader)
    requires ValidHeader(h) && OffsetsFit(h)
    ensures HeaderFromBytes(HeaderBytes(h)) ==
            if h.version == VERSION then Ok(h) else Err(UnsupportedVersion(h.version))
  {
    HeaderBytesAt(h);
    DecodesU64(h.dataSectionEndOffset);
    DecodesU64(h.sectionTableOffset);
  }

  /** `to_bytes`: fill a zeroed buffer, leaving the reserved bytes zero. */
  method HeaderToBytes(h: WprfHeader) returns (buf: array<u8>)
    requires ValidHeader(h)
    ensures fresh(buf) && buf[..] == HeaderBytes(h) && HeaderLaidOut(buf[..], h)
  {
    HeaderIsLaidOut(h);
    buf := new u8[HEADER_SIZE](_ => 0);
    ghost var padding := buf[56..];
    CopyInto(buf, 0, MAGIC);
    assert buf[56..] == buf[4..][52..] == padding;
    CopyInto(buf, 4, [h.version, h.endianness, h.hostArch, 0]);
    assert buf[56..] == buf[8..][48..] == padding;
    CopyInto(buf, 8, ToLe(h.dataSectionEndOffset, 8));
    assert buf[56..] == buf[16..][40..] == padding;
    CopyInto(buf, 16, ToLe(h.sectionTableOffset, 8));
    assert buf[56..] == buf[24..][32..] == padding;
    CopyInto(buf, 24, h.featureBitmap);
    assert buf[..] == buf[..56] + padding;
    assert padding == [0, 0, 0, 0, 0, 0, 0, 0];
  }

  /** Rewriting only the bookmark field gives the header with that bookmark. */
  lemma BookmarkInPlace(h: WprfHeader, rest: seq<u8>, bookmark: nat)
    requires ValidHeader(h)
    ensures Overwrite(HeaderBytes(h) + rest, 8, ToLe(bookmark, 8))
         == HeaderBytes(h.(dataSectionEndOffset := bookmark)) + rest
  {}

  /** Rewriting the whole header in place leaves the rest of the file alone. */
  lemma HeaderInPlace(before: WprfHeader, after: WprfHeader, rest: seq<u8>)
    requires ValidHeader(before) && ValidHeader(after)
    ensures Overwrite(HeaderBytes(before) + rest, 0, HeaderBytes(after)) == HeaderBytes(after) + rest
  {}
}
