/** What the metadata parser makes of any list of entries: the last count of
    each name counts (src/format/writer.rs, `parse_metadata`). */
module MetadataEntries {
  import opened Collections
  import opened Events
  import opened Bytes
  import opened Writer
  import opened Reader
  import opened FileLayout

  datatype Entry = Entry(key: seq<u8>, value: seq<u8>)

  ghost predicate Fits(e: Entry) {
    |e.key| < 65_536 && |e.value| < 65_536
  }

  /** Key length, key, value length, value. */
  ghost function BytesOfEntry(e: Entry): seq<u8> {
    Le2(|e.key|) + e.key + Le2(|e.value|) + e.value
  }

  ghost function BytesOfEntries(es: seq<Entry>): seq<u8> {
    if es == [] then [] else BytesOfEntry(es[0]) + BytesOfEntries(es[1..])
  }

  /** The last entry of that name with a value of eight bytes. */
  ghost function LastCount(es: seq<Entry>, name: seq<u8>): Option<nat> {
    if es == [] then None
    else
      var last := es[|es| - 1];
      if last.key == name && |last.value| == 8 then Some(Number8(last.value))
      else LastCount(es[..|es| - 1], name)
  }

  lemma EntryIsPlaced(data: seq<u8>, pos: nat, e: Entry, rest: seq<u8>)
    requires pos <= |data| && data[pos..] == BytesOfEntry(e) + rest
    ensures EntryAt(data, pos, e.key, e.value)
    ensures pos + 4 + |e.key| + |e.value| <= |data| && data[pos + 4 + |e.key| + |e.value|..] == rest
  {
    EntryIsLaidOut(e);
    TailAfter(data, pos, MetaEntry(e.key, e.value), rest);
    EntryPlaced(data[..pos], e.key, e.value, rest);
  }

  lemma EntryIsLaidOut(e: Entry)
    ensures MetaEntry(e.key, e.value) == BytesOfEntry(e) && |BytesOfEntry(e)| == 4 + |e.key| + |e.value|
  {
    BytesOf(|e.key|);
    BytesOf(|e.value|);
  }

  lemma TailAfter(data: seq<u8>, pos: nat, bytes: seq<u8>, rest: seq<u8>)
    requires pos <= |data| && data[pos..] == bytes + rest
    ensures data == data[..pos] + bytes + rest && pos + |bytes| <= |data| && data[pos + |bytes|..] == rest
  {
    assert data == data[..pos] + data[pos..];
  }

  /** Fewer than four bytes, or an entry cut off before its end. */
  ghost predicate Incomplete(tail: seq<u8>) {
    |tail| < 4 || exists e: Entry :: Fits(e) && |tail| < |BytesOfEntry(e)| && tail == BytesOfEntry(e)[..|tail|]
  }

  lemma CutEntry(data: seq<u8>, pos: nat, e: Entry, tail: seq<u8>, acc: Metadata)
    requires Fits(e) && pos <= |data| && data[pos..] == tail
    requires 4 <= |tail| < |BytesOfEntry(e)| && tail == BytesOfEntry(e)[..|tail|]
    ensures ParseFrom(data, pos, acc) == acc
  {
    var k := |e.key|;
    LengthFields(e);
    EntryIsLaidOut(e);
    FieldOfTail(data, pos, BytesOfEntry(e), tail, 0);
    LengthIsRead(data[pos..pos + 2], k);
    if pos + 2 + k + 2 <= |data| {
      FieldOfTail(data, pos, BytesOfEntry(e), tail, 2 + k);
      LengthIsRead(data[pos + 2 + k..pos + 4 + k], |e.value|);
    }
  }

  lemma LengthFields(e: Entry)
    ensures |BytesOfEntry(e)| >= 4 + |e.key|
    ensures BytesOfEntry(e)[0..2] == Le2(|e.key|)
    ensures BytesOfEntry(e)[2 + |e.key|..4 + |e.key|] == Le2(|e.value|)
  {}

  lemma FieldOfTail(data: seq<u8>, pos: nat, whole: seq<u8>, tail: seq<u8>, at: nat)
    requires pos <= |data| && data[pos..] == tail && |tail| <= |whole| && tail == whole[..|tail|]
    requires at + 2 <= |tail|
    ensures data[pos + at..pos + at + 2] == whole[at..at + 2]
  {
    assert data[pos + at..pos + at + 2] == tail[at..at + 2];
  }

  lemma LengthIsRead(s: seq<u8>, n: nat)
    requires s == Le2(n) && n < 65_536
    ensures DecodeU16(s) == n
  {
    NumberOf2(s);
  }

  lemma IncompleteStops(data: seq<u8>, pos: nat, tail: seq<u8>, acc: Metadata)
    requires pos <= |data| && data[pos..] == tail && Incomplete(tail)
    ensures ParseFrom(data, pos, acc) == acc
  {
    if |tail| >= 4 {
      var e: Entry :| Fits(e) && |tail| < |BytesOfEntry(e)| && tail == BytesOfEntry(e)[..|tail|];
      CutEntry(data, pos, e, tail, acc);
    }
  }

  ghost function NotedAll(acc: Metadata, es: seq<Entry>): Metadata
    decreases |es|
  {
    if es == [] then acc else NotedAll(Noted(acc, es[0].key, es[0].value), es[1..])
  }

  lemma {:induction false} ParsesFrom(data: seq<u8>, pos: nat, es: seq<Entry>, tail: seq<u8>, acc: Metadata)
    requires (forall e | e in es :: Fits(e)) && Incomplete(tail)
    requires pos <= |data| && data[pos..] == BytesOfEntries(es) + tail
    ensures ParseFrom(data, pos, acc) == NotedAll(acc, es)
    decreases |es|
  {
    if es == [] {
      assert data[pos..] == tail;
      IncompleteStops(data, pos, tail, acc);
    } else {
      var e, rest := es[0], BytesOfEntries(es[1..]) + tail;
      assert e in es;
      Associative(BytesOfEntry(e), BytesOfEntries(es[1..]), tail);
      var next := PassEntry(data, pos, e, rest, acc);
      ParsesFrom(data, next, es[1..], tail, Noted(acc, e.key, e.value));
    }
  }

  lemma PassEntry(data: seq<u8>, pos: nat, e: Entry, rest: seq<u8>, acc: Metadata) returns (next: nat)
    requires Fits(e) && pos <= |data| && data[pos..] == BytesOfEntry(e) + rest
    ensures next <= |data| && data[next..] == rest
    ensures ParseFrom(data, pos, acc) == ParseFrom(data, next, Noted(acc, e.key, e.value))
  {
    next := pos + 4 + |e.key| + |e.value|;
    EntryIsPlaced(data, pos, e, rest);
    ParseEntry(data, pos, e.key, e.value, acc);
  }

  lemma {:induction false} NotedLast(acc: Metadata, es: seq<Entry>, e: Entry)
    ensures NotedAll(acc, es + [e]) == Noted(NotedAll(acc, es), e.key, e.value)
    decreases |es|
  {
    if es == [] {
      assert NotedAll(Noted(acc, e.key, e.value), (es + [e])[1..]) == Noted(acc, e.key, e.value);
    } else {
      assert (es + [e])[1..] == es[1..] + [e];
      NotedLast(Noted(acc, es[0].key, es[0].value), es[1..], e);
    }
  }

  lemma NotedOne(acc: Metadata, e: Entry)
    ensures Noted(acc, e.key, e.value).eventCount
         == if e.key == EVENT_COUNT && |e.value| == 8 then Some(Number8(e.value)) else acc.eventCount
    ensures Noted(acc, e.key, e.value).dropCount
         == if e.key == DROP_COUNT && |e.value| == 8 then Some(Number8(e.value)) else acc.dropCount
  {
    if |e.value| == 8 {
      NumberOf8(e.value);
    }
    assert EVENT_COUNT[0] != DROP_COUNT[0];
  }

  lemma {:induction false} NotedIsLast(es: seq<Entry>)
    ensures NotedAll(Metadata(None, None), es).eventCount == LastCount(es, EVENT_COUNT)
    ensures NotedAll(Metadata(None, None), es).dropCount == LastCount(es, DROP_COUNT)
  {
    if es != [] {
      var init, last := es[..|es| - 1], es[|es| - 1];
      assert es == init + [last];
      NotedIsLast(init);
      NotedLast(Metadata(None, None), init, last);
      NotedOne(NotedAll(Metadata(None, None), init), last);
    }
  }

  /** Entries of any names and sizes, with stray bytes or part of an entry behind
      them: each count is the last one given under its name in eight bytes. */
  lemma EntriesAreParsed(es: seq<Entry>, tail: seq<u8>)
    requires (forall e | e in es :: Fits(e)) && Incomplete(tail)
    ensures var m := ParseFrom(BytesOfEntries(es) + tail, 0, Metadata(None, None));
            m.eventCount == LastCount(es, EVENT_COUNT) && m.dropCount == LastCount(es, DROP_COUNT)
  {
    var data := BytesOfEntries(es) + tail;
    assert data[0..] == data;
    ParsesFrom(data, 0, es, tail, Metadata(None, None));
    NotedIsLast(es);
  }

  // ---------- from the section table to the counts ----------

  /** Entry `k` of the table at `table` is the first with section number 3. */
  ghost predicate FirstMetadata(data: seq<u8>, table: nat, k: nat) {
    && HasEntry(data, table, k) && EntryId(data, table, k) == 3
    && forall i: nat | i < k :: HasEntry(data, table, i) && EntryId(data, table, i) != 3
  }

  /** Its section is too large beyond 16 MiB, cut off if it reaches past the file,
      and read otherwise; an empty one says nothing. */
  lemma SectionIsRead(data: seq<u8>, table: nat, k: nat, offset: nat, size: nat)
    requires table > 0 && FirstMetadata(data, table, k)
    requires offset == Number8(data[table + 20 * k + 4..table + 20 * k + 12])
    requires size == Number8(data[table + 20 * k + 12..table + 20 * k + 20])
    ensures size > 16_777_216 ==>
              MetadataOf(data, table) == Err(PayloadTooLarge(3, if size < 4_294_967_295 then size else 4_294_967_295))
    ensures size == 0 ==> MetadataOf(data, table) == Ok(Metadata(None, None))
    ensures 0 < size <= 16_777_216 && offset + size > |data| ==> MetadataOf(data, table) == Err(UnexpectedEndOfFile)
    ensures 0 < size <= 16_777_216 && offset + size <= |data| ==>
              MetadataOf(data, table) == Ok(ParseFrom(data[offset..offset + size], 0, Metadata(None, None)))
  {
    TableEntryIsFound(data, table, k);
  }

  /** Without a table, or without such an entry in it, there are no counts. */
  lemma NoSectionToRead(data: seq<u8>, table: nat)
    requires table == 0 || forall i: nat | HasEntry(data, table, i) :: EntryId(data, table, i) != 3
    ensures MetadataOf(data, table) == Ok(Metadata(None, None))
  {
    if table > 0 {
      TableWithoutEntry(data, table);
    }
  }
}
