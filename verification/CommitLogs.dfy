// CommitLog.putMessage and the append callback: how a message becomes bytes in the last
// file, a dispatch request and a queue offset.

module Appending {
  import opened Arithmetic
  import opened Bytes
  import opened Log
  import opened QueueKeys
  import opened Records

  datatype AppendStatus = AppendOk | EndOfFile | SizeExceeded | AppendUnknown
  datatype PutStatus = PutOk | CreateFailed | MessageIllegal | PutUnknown

  datatype AppendResult = AppendResult(
    status: AppendStatus, wroteOffset: int, wroteBytes: int, storeTimestamp: int64, logicsOffset: int64)

  // Free bytes in the file that takes the next append when the log ends at `end`.
  function Room(end: int, size: int): (r: int)
    requires size > 0
    ensures 0 < r <= size
  {
    size - InFile(end, size)
  }

  // The blank record that takes up the last `free` bytes of a file.
  function Rest(free: int): Item {
    Filler(if END_FILE_MIN_BLANK <= free < 0x8000_0000 then free else END_FILE_MIN_BLANK)
  }

  // The items one putMessage adds.  The third case is the unchecked retry: a message that
  // does not fit an empty file leaves two blank records and no message.
  function PutItems(end: int, size: int, m: Message, queueOffset: int64): seq<Item>
    requires 8 <= size < 0x8000_0000
  {
    if RecordLength(m) + END_FILE_MIN_BLANK <= Room(end, size) then [Record(m, queueOffset)]
    else if RecordLength(m) + END_FILE_MIN_BLANK <= size then [Rest(Room(end, size)), Record(m, queueOffset)]
    else [Rest(Room(end, size)), Rest(size)]
  }

  // The free space of the current file is never 1 to 7 bytes, so the blank record always fits.
  lemma {:induction false} RoomForBlank(items: seq<Item>, base: int, size: int)
    requires size >= END_FILE_MIN_BLANK && InFile(base, size) == 0 && Layout(items, base, size)
    ensures Room(base + Total(items), size) >= END_FILE_MIN_BLANK
  {
    hide InFile, RecordLength, Storable;
    if items != [] {
      var n := |items| - 1;
      var at := base + Total(items[..n]);
      match items[n]
      case Record(m, _) => InFileAdd(at, RecordLength(m), size);
      case Filler(length) => InFileRoll(at, size);
    }
  }

  // What a put adds fits the log; the message is stored, and stored whole in one file,
  // exactly when an empty file can hold it with a blank record behind it.
  lemma {:induction false} PutItemsFit(items: seq<Item>, base: int, size: int, m: Message, queueOffset: int64)
    requires 8 <= size < 0x8000_0000 && base >= 0 && InFile(base, size) == 0 && Layout(items, base, size) && Storable(m)
    requires base + Total(items) + 2 * size < 0x8000_0000_0000_0000
    ensures var added := PutItems(base + Total(items), size, m, queueOffset);
            && Layout(items + added, base, size)
            && (Record(m, queueOffset) in added <==> RecordLength(m) + END_FILE_MIN_BLANK <= size)
  {
    hide InFile, RecordLength, Layout, Total, LogBytes, ItemBytes;
    var end := base + Total(items);
    RoomForBlank(items, base, size);
    var added := PutItems(end, size, m, queueOffset);
    LayoutSnoc(items, added[0], base, size);
    if |added| == 1 {
      assert items + added == items + [added[0]];
    } else {
      InFileRoll(end, size);
      LayoutSnoc(items + [added[0]], added[1], base, size);
      assert items + added == items + [added[0]] + [added[1]];
    }
  }

  // What doAppend does at offset `at` of a file with `free` bytes left: the bytes it puts
  // into the file, its result, and the queue counters afterwards.
  datatype Effect = Effect(bytes: seq<byte>, result: AppendResult, table: map<seq<byte>, int64>)

  function Counter(table: map<seq<byte>, int64>, m: Message): int64 {
    var key := Key(m.topic, m.queueId);
    if key in table then table[key] else 0
  }

  // sysflag.GetTransactionValue: bits 2 and 3 of the system flag.
  function TransactionType(sysFlag: int32): (t: int)
    ensures t in {0, 4, 8, 12}
  {
    (sysFlag / 4 % 4) * 4
  }

  // Only plain and committed messages are numbered and indexed.
  predicate Indexed(sysFlag: int32) {
    TransactionType(sysFlag) == 0 || TransactionType(sysFlag) == 8
  }

  // Which is to say: bits 2 and 3 of the flag hold 0 or 2.
  lemma {:induction false} IndexedBits(sysFlag: int32)
    ensures Indexed(sysFlag) <==> (sysFlag / 4) % 4 in {0, 2}
  {
  }

  function AppendEffect(table: map<seq<byte>, int64>, maxMessageSize: int32, at: int, free: int, m: Message): Effect {
    var key := Key(m.topic, m.queueId);
    var q := Counter(table, m);
    var table' := table[key := q];
    if RecordLength(m) > maxMessageSize then
      Effect([], AppendResult(SizeExceeded, 0, 0, 0, 0), table')
    else if RecordLength(m) + END_FILE_MIN_BLANK > free then
      Effect(ItemBytes(Rest(free), at), AppendResult(EndOfFile, at, free, m.storeTimestamp, q), table')
    else
      Effect(ItemBytes(Record(m, q), at), AppendResult(AppendOk, at, RecordLength(m), m.storeTimestamp, q),
             if Indexed(m.sysFlag) then table[key := Wrap64(q + 1)] else table')
  }

  // The item a single append leaves in the log.
  function Added(r: AppendResult, m: Message, free: int): seq<Item> {
    if r.status == AppendOk then [Record(m, r.logicsOffset)]
    else if r.status == EndOfFile then [Rest(free)]
    else []
  }

  // What putMessage keeps besides the files: the queue counters and, for the proofs, the items.
  datatype Books = Books(table: map<seq<byte>, int64>, items: seq<Item>)

  datatype Tried = Tried(books: Books, result: AppendResult)

  // One try: fetch the last file, run the callback on it.
  function Try(b: Books, base: int, size: int, maxMessageSize: int32, m: Message): Tried
    requires size > 0
  {
    var free := Room(base + Total(b.items), size);
    var e := AppendEffect(b.table, maxMessageSize, base + Total(b.items), free, m);
    Tried(Books(e.table, b.items + Added(e.result, m, free)), e.result)
  }

  // putMessage: a second try after END_OF_FILE, whose outcome is not checked.
  function Put(b: Books, base: int, size: int, maxMessageSize: int32, m: Message): Tried
    requires size > 0
  {
    var t := Try(b, base, size, maxMessageSize, m);
    if t.result.status == EndOfFile then Try(t.books, base, size, maxMessageSize, m) else t
  }

  // putMessage given up because the next file could not be created: a blank record already
  // written to close the old file stays.
  function GivenUp(b: Books, base: int, size: int, maxMessageSize: int32, m: Message): Books
    requires size > 0
  {
    var t := Try(b, base, size, maxMessageSize, m);
    if t.result.status == EndOfFile then t.books else b
  }

  function RequestOf(m: Message, r: AppendResult): DispatchRequest {
    DispatchRequest(m.topic, m.queueId, Wrap64(r.wroteOffset), r.wroteBytes, m.tagsCode, m.storeTimestamp,
                    r.logicsOffset, m.keys, m.sysFlag, m.preparedTransactionOffset)
  }

  // The counters after one stored message.
  function Counted(table: map<seq<byte>, int64>, m: Message): map<seq<byte>, int64> {
    table[Key(m.topic, m.queueId) := if Indexed(m.sysFlag) then Wrap64(Counter(table, m) + 1) else Counter(table, m)]
  }

  lemma {:induction false} FirstTry(b: Books, base: int, size: int, maxMessageSize: int32, m: Message)
    requires END_FILE_MIN_BLANK <= size < 0x8000_0000 && RecordLength(m) <= maxMessageSize
    ensures var t := Try(b, base, size, maxMessageSize, m);
            var end := base + Total(b.items);
            if RecordLength(m) + END_FILE_MIN_BLANK <= Room(end, size) then
              && t.books == Books(Counted(b.table, m), b.items + [Record(m, Counter(b.table, m))])
              && t.result == AppendResult(AppendOk, end, RecordLength(m), m.storeTimestamp, Counter(b.table, m))
            else
              && t.books.items == b.items + [Rest(Room(end, size))] && t.result.status == EndOfFile
              && Counter(t.books.table, m) == Counter(b.table, m) && Counted(t.books.table, m) == Counted(b.table, m)
  {
    hide ItemBytes, InFile, RecordLength, TransactionType, Key;
  }

  // After END_OF_FILE the retry meets an empty file.
  lemma {:induction false} RetryRoom(items: seq<Item>, base: int, size: int)
    requires 0 < size < 0x8000_0000 && END_FILE_MIN_BLANK <= Room(base + Total(items), size)
    ensures Room(base + Total(items + [Rest(Room(base + Total(items), size))]), size) == size
  {
    hide InFile, Total, LogBytes, ItemBytes, Layout, Fits, RecordLength;
    LayoutSnoc(items, Rest(Room(base + Total(items), size)), base, size);
    InFileRoll(base + Total(items), size);
  }

  // putMessage adds PutItems; and it stores the message at the offset it reports, under the
  // queue offset it reports, exactly when the message fits an empty file.
  lemma {:induction false} PutStores(b: Books, base: int, size: int, maxMessageSize: int32, m: Message)
    requires END_FILE_MIN_BLANK <= size < 0x8000_0000 && base >= 0 && InFile(base, size) == 0
    requires Layout(b.items, base, size) && RecordLength(m) <= maxMessageSize
    ensures var t := Put(b, base, size, maxMessageSize, m);
            var q := Counter(b.table, m);
            && t.books.items == b.items + PutItems(base + Total(b.items), size, m, q)
            && (RecordLength(m) + END_FILE_MIN_BLANK <= size <==> t.result.status == AppendOk)
            && (t.result.status == AppendOk ==>
                  && t.books.table == Counted(b.table, m)
                  && t.result == AppendResult(AppendOk, base + Total(t.books.items) - RecordLength(m),
                                              RecordLength(m), m.storeTimestamp, q))
  {
    hide Try, Room, RecordLength, Counted, Counter, Layout, Total, LogBytes, ItemBytes, InFile, Fits, Rest;
    RoomForBlank(b.items, base, size);
    FirstTry(b, base, size, maxMessageSize, m);
    var t1 := Try(b, base, size, maxMessageSize, m);
    var q := Counter(b.table, m);
    RetryRoom(b.items, base, size);
    FirstTry(t1.books, base, size, maxMessageSize, m);
    LayoutSnoc(b.items, Record(m, q), base, size);
    LayoutSnoc(t1.books.items, Record(m, q), base, size);
    var free := Room(base + Total(b.items), size);
    assert b.items + [Rest(free)] + [Record(m, q)] == b.items + [Rest(free), Record(m, q)];
    assert b.items + [Rest(free)] + [Rest(size)] == b.items + [Rest(free), Rest(size)];
  }

  // One append keeps the layout and adds exactly the bytes of the item it leaves.
  lemma {:induction false} AppendKeepsLayout(items: seq<Item>, base: int, size: int, table: map<seq<byte>, int64>,
                          maxMessageSize: int32, m: Message)
    requires END_FILE_MIN_BLANK <= size < 0x8000_0000 && base >= 0 && InFile(base, size) == 0
    requires Layout(items, base, size) && Storable(m)
    requires base + Total(items) + size < 0x8000_0000_0000_0000
    ensures var free := Room(base + Total(items), size);
            var e := AppendEffect(table, maxMessageSize, base + Total(items), free, m);
            var items' := items + Added(e.result, m, free);
            && free >= END_FILE_MIN_BLANK && |e.bytes| <= free && Layout(items', base, size)
            && LogBytes(items', base) == LogBytes(items, base) + e.bytes
  {
    hide InFile, RecordLength, Layout, Total, LogBytes, ItemBytes, Key;
    RoomForBlank(items, base, size);
    var end := base + Total(items);
    var free := Room(end, size);
    var e := AppendEffect(table, maxMessageSize, end, free, m);
    if e.result.status == SizeExceeded {
      assert items + Added(e.result, m, free) == items;
      assert LogBytes(items, base) + [] == LogBytes(items, base);
    } else {
      LayoutSnoc(items, Added(e.result, m, free)[0], base, size);
    }
  }
}

module CommitLogs {
  import opened Appending
  import opened Arithmetic
  import opened Bytes
  import opened Decoding
  import opened Log
  import opened LogFiles
  import opened MapedFiles
  import opened QueueKeys
  import opened Records
  import opened Segments

  // One buffered field: if the buffer's prefix, this field and the rest make up the whole,
  // then after the write the longer prefix and the rest still do.
  method WriteField(b: MappedByteBuffer, data: seq<byte>, ghost rest: seq<byte>, ghost whole: seq<byte>)
    requires b.Valid() && b.limit <= b.len && b.writePos <= b.limit
    requires b.buf[..b.writePos] + (data + rest) == whole && |whole| <= b.limit
    modifies b`writePos, b.buf
    ensures b.writePos == old(b.writePos) + |data| <= b.limit
    ensures b.buf[..b.writePos] + rest == whole
  {
    ghost var before := b.buf[..b.writePos];
    var ok := b.Write(data);
    assert b.buf[..b.writePos] == before + data;
    assert before + (data + rest) == (before + data) + rest;
  }

  // resetMsgStoreItemMemory, whose last test can never hold for a non-negative length
  method ResetScratch(b: MappedByteBuffer, length: nat)
    requires b.Valid()
    modifies b`writePos, b`limit
    ensures b.writePos == 0 && b.limit == length
  {
    b.limit := b.writePos;
    b.writePos := 0;
    b.limit := length;
  }

  method WriteHead(b: MappedByteBuffer, m: Message, queueOffset: int64, at: int64)
    requires b.Valid() && b.writePos == 0 && 84 <= b.limit <= b.len
    modifies b`writePos, b.buf
    ensures b.writePos == 84 && b.buf[..84] == Head(m, queueOffset, at)
  {
    ghost var whole := Head(m, queueOffset, at);
    ghost var a7 := HeadEnd(m);
    ghost var a6 := I64(at) + a7;
    ghost var a5 := I64(queueOffset) + a6;
    ghost var a4 := I32(m.flag) + a5;
    ghost var a3 := I32(m.queueId) + a4;
    ghost var a2 := I32(m.bodyCRC) + a3;
    ghost var a1 := I32(MESSAGE_MAGIC) + a2;
    assert b.buf[..0] + whole == whole && whole == I32(Wrap32(RecordLength(m))) + a1;
    hide I32, I64, AsI32, AsI64, Wrap32, RecordLength, Head, HeadEnd;
    WriteField(b, I32(Wrap32(RecordLength(m))), a1, whole);  // 1 TOTALSIZE
    WriteField(b, I32(MESSAGE_MAGIC), a2, whole);            // 2 MAGICCODE
    WriteField(b, I32(m.bodyCRC), a3, whole);                // 3 BODYCRC
    WriteField(b, I32(m.queueId), a4, whole);                // 4 QUEUEID
    WriteField(b, I32(m.flag), a5, whole);                   // 5 FLAG
    WriteField(b, I64(queueOffset), a6, whole);              // 6 QUEUEOFFSET
    WriteField(b, I64(at), a7, whole);                       // 7 PHYSICALOFFSET
    WriteHeadEnd(b, m, whole);
  }

  method WriteHeadEnd(b: MappedByteBuffer, m: Message, ghost whole: seq<byte>)
    requires b.Valid() && b.limit <= b.len && b.writePos <= b.limit
    requires b.buf[..b.writePos] + HeadEnd(m) == whole && |whole| <= b.limit
    modifies b`writePos, b.buf
    ensures b.writePos == |whole| && b.buf[..b.writePos] == whole
  {
    ghost var a13 := I64(m.preparedTransactionOffset);
    ghost var a12 := I32(m.reconsumeTimes) + a13;
    ghost var a11 := m.storeHost + a12;
    ghost var a10 := I64(m.storeTimestamp) + a11;
    ghost var a9 := m.bornHost + a10;
    ghost var a8 := I64(m.bornTimestamp) + a9;
    assert HeadEnd(m) == I32(m.sysFlag) + a8;
    hide I32, I64, AsI32, AsI64, HeadEnd;
    WriteField(b, I32(m.sysFlag), a8, whole);                // 8 SYSFLAG
    WriteField(b, I64(m.bornTimestamp), a9, whole);          // 9 BORNTIMESTAMP
    WriteField(b, m.bornHost, a10, whole);                   // 10 BORNHOST
    WriteField(b, I64(m.storeTimestamp), a11, whole);        // 11 STORETIMESTAMP
    WriteField(b, m.storeHost, a12, whole);                  // 12 STOREHOST
    WriteField(b, I32(m.reconsumeTimes), a13, whole);        // 13 RECONSUMETIMES
    assert a13 + [] == a13;
    WriteField(b, I64(m.preparedTransactionOffset), [], whole);  // 14 prepared transaction offset
    assert b.buf[..b.writePos] + [] == b.buf[..b.writePos];
  }

  method WriteTail(b: MappedByteBuffer, m: Message)
    requires b.Valid() && b.writePos + |Tail(m)| <= b.limit <= b.len
    modifies b`writePos, b.buf
    ensures b.writePos == old(b.writePos) + |Tail(m)| && b.buf[..b.writePos] == old(b.buf[..b.writePos]) + Tail(m)
  {
    hide I8, I16, I32, AsI8, AsI16, AsI32, Wrap8, Wrap16, Wrap32;
    ghost var whole := b.buf[..b.writePos] + Tail(m);
    ghost var a3 := I16(Wrap16(|m.properties|)) + m.properties;
    ghost var a2 := TopicAndProperties(m);
    WriteField(b, I32(Wrap32(|m.body|)), m.body + a2, whole);  // 15 BODY
    if |m.body| > 0 {
      WriteField(b, m.body, a2, whole);
    } else {
      assert m.body + a2 == a2;
    }
    WriteField(b, I8(Wrap8(|m.topic|)), m.topic + a3, whole);  // 16 TOPIC
    WriteField(b, m.topic, a3, whole);
    WriteField(b, I16(Wrap16(|m.properties|)), m.properties, whole);  // 17 PROPERTIES
    if |m.properties| > 0 {
      assert m.properties + [] == m.properties;
      WriteField(b, m.properties, [], whole);
    } else {
      assert m.properties == [];
    }
    assert b.buf[..b.writePos] + [] == b.buf[..b.writePos];
  }

  method WriteRecord(b: MappedByteBuffer, m: Message, queueOffset: int64, at: int64)
    requires b.Valid() && Storable(m) && RecordLength(m) <= b.len
    modifies b`writePos, b`limit, b.buf
    ensures b.limit == b.writePos == RecordLength(m) && b.buf[..b.writePos] == Encode(m, queueOffset, at)
    ensures Decodes(b.buf[..b.writePos], m, queueOffset, at)
  {
    hide Head, Tail, Decodes;
    EncodeDecodes(m, queueOffset, at);
    ResetScratch(b, RecordLength(m));
    WriteHead(b, m, queueOffset, at);
    WriteTail(b, m);
  }

  method WriteBlank(b: MappedByteBuffer, length: int32)
    requires b.Valid() && END_FILE_MIN_BLANK <= length <= b.len
    modifies b`writePos, b`limit, b.buf
    ensures b.limit == b.writePos == length && b.buf[..b.writePos] == Blank(length)
  {
    hide I32, AsI32;
    ResetScratch(b, length);
    ghost var whole := Blank(length);
    ghost var zeros := Zeros(length - 8);
    assert b.buf[..0] + whole == whole;
    WriteField(b, I32(length), I32(BLANK_MAGIC) + zeros, whole);
    WriteField(b, I32(BLANK_MAGIC), zeros, whole);
    assert zeros + [] == zeros;
    WriteField(b, Zeros(length - 8), [], whole);
    assert b.buf[..b.writePos] + [] == b.buf[..b.writePos];
  }

  lemma {:induction false} EnsureHolds(fs: seq<File>, size: int, items: seq<Item>, contents: seq<byte>)
    requires HoldsItems(fs, size, items) && |contents| == size
    ensures var r := EnsureLast(fs, size, 0, contents);
            HoldsItems(r, size, items) && BaseOf(r) == BaseOf(fs) && r[|r| - 1].wrote < size
  {
    hide InFile, Rem, Layout, LogBytes;
    EnsureLastKeeps(fs, size, 0, contents);
    FirstFile(0, size, contents);
    hide Chain, Flat;
  }

  // The file the next append goes to starts its free space where the log ends.
  lemma {:induction false} LastRoom(r: seq<File>, size: int, items: seq<Item>)
    requires HoldsItems(r, size, items) && r != [] && r[|r| - 1].wrote < size
    ensures var last := r[|r| - 1];
            && last.from + last.wrote == BaseOf(r) + Total(items)
            && size - last.wrote == Room(BaseOf(r) + Total(items), size)
            && 0 <= last.from && 0 <= last.wrote == last.writePos
  {
    hide InFile, Flat, Layout, Total, LogBytes;
    var last := r[|r| - 1];
    FlatLength(r, size);
    assert Sound(last, size);
    hide Chain;
    InFileAdd(last.from, last.wrote, size);
  }

  lemma {:induction false} AppendHolds(fs: seq<File>, size: int, items: seq<Item>, items': seq<Item>, d: seq<byte>, stamp: int)
    requires HoldsItems(fs, size, items) && fs != [] && fs[|fs| - 1].wrote + |d| <= size
    requires Layout(items', BaseOf(fs), size) && LogBytes(items', BaseOf(fs)) == LogBytes(items, BaseOf(fs)) + d
    ensures var r := WithLast(fs, AppendTo(fs[|fs| - 1], d).(storeTimestamp := stamp));
            HoldsItems(r, size, items') && BaseOf(r) == BaseOf(fs)
  {
    AppendLast(fs, size, d, stamp);
  }

  class CommitLog {
    const queue: MapedFileQueue
    const scratch: MappedByteBuffer       // msgStoreItemMemory
    const maxMessageSize: int32
    var table: map<seq<byte>, int64>      // TopicQueueTable
    var requests: seq<DispatchRequest>    // handed to the dispatch service, oldest first
    ghost var items: seq<Item>

    constructor (fileSize: int, maxMessageSize: int32)
      requires END_FILE_MIN_BLANK <= fileSize < 0x8000_0000 && 0 <= maxMessageSize < 0x7FFF_FFF0
      ensures Valid() && items == [] && table == map[] && requests == []
      ensures queue.size == fileSize && this.maxMessageSize == maxMessageSize
    {
      queue := new MapedFileQueue(fileSize);
      var memory := new byte[maxMessageSize + END_FILE_MIN_BLANK];
      scratch := new MappedByteBuffer(memory, memory.Length);
      this.maxMessageSize := maxMessageSize;
      table, requests, items := map[], [], [];
    }

    ghost predicate Valid()
      reads this, queue, scratch, queue.files
    {
      && queue.Valid() && END_FILE_MIN_BLANK <= queue.size < 0x8000_0000
      && scratch.Valid() && 0 <= maxMessageSize < 0x7FFF_FFF0
      && scratch.len == maxMessageSize + END_FILE_MIN_BLANK
      && HoldsItems(queue.View(), queue.size, items)
    }

    ghost function Base(): int
      reads this, queue
    {
      if queue.files == [] then 0 else queue.files[0].from
    }

    // One past the last byte of the log.
    ghost function End(): int
      reads this, queue
    {
      Base() + Total(items)
    }

    // The queue's counter, entered as 0 when it is new.
    method QueryOffset(key: seq<byte>) returns (queryOffset: int64)
      modifies this`table
      ensures queryOffset == (if key in old(table) then old(table)[key] else 0) && table == old(table)[key := queryOffset]
    {
      queryOffset := 0;
      if key in table {
        queryOffset := table[key];
      } else {
        table := table[key := queryOffset];
      }
    }

    // DefaultAppendMessageCallback.doAppend
    method DoAppend(f: MapedFile, maxBlank: int32, m: Message) returns (r: AppendResult)
      requires Storable(m) && 0 <= maxMessageSize < 0x7FFF_FFF0
      requires scratch.Valid() && scratch.len == maxMessageSize + END_FILE_MIN_BLANK
      requires f.Valid() && END_FILE_MIN_BLANK <= maxBlank == f.size - f.writePos
      requires 0 <= f.from + f.writePos < 0x8000_0000_0000_0000
      modifies this`table, scratch`writePos, scratch`limit, scratch.buf, f`data, f`writePos
      ensures var e := AppendEffect(old(table), maxMessageSize, f.from + old(f.writePos), maxBlank, m);
              && r == e.result && table == e.table && f.Valid()
              && f.writePos == old(f.writePos) + |e.bytes| <= f.size
              && f.data == Overwrite(old(f.data), old(f.writePos), e.bytes)
    {
      hide Encode, Blank, Key, RecordLength, TransactionType, Overwrite, Decodes, Indexed;
      var wroteOffset := f.from + f.writePos;
      var key := Key(m.topic, m.queueId);
      var queryOffset := QueryOffset(key);
      var msgLen := Wrap32(RecordLength(m));
      if msgLen > maxMessageSize {
        OverwriteNothing(f.data, f.writePos);
        return AppendResult(SizeExceeded, 0, 0, 0, 0);
      }
      if msgLen + END_FILE_MIN_BLANK > maxBlank {
        WriteBlank(scratch, maxBlank);
        var _ := f.Write(scratch.buf[..scratch.writePos]);
        return AppendResult(EndOfFile, wroteOffset, maxBlank, m.storeTimestamp, queryOffset);
      }
      WriteRecord(scratch, m, queryOffset, wroteOffset);
      var _ := f.Write(scratch.buf[..scratch.writePos]);
      r := AppendResult(AppendOk, wroteOffset, msgLen, m.storeTimestamp, queryOffset);
      if Indexed(m.sysFlag) {
        table := table[key := Wrap64((queryOffset as int) + 1)];
      }
    }

    // MapedFile.AppendMessageWithCallBack on a file with room.
    method AppendMessageWithCallBack(f: MapedFile, m: Message) returns (r: AppendResult)
      requires Storable(m) && 0 <= maxMessageSize < 0x7FFF_FFF0
      requires scratch.Valid() && scratch.len == maxMessageSize + END_FILE_MIN_BLANK
      requires f.Valid() && f.wrote == f.writePos && END_FILE_MIN_BLANK <= f.size - f.wrote < 0x8000_0000
      requires 0 <= f.from + f.wrote < 0x8000_0000_0000_0000
      modifies this`table, scratch`writePos, scratch`limit, scratch.buf, f
      ensures var e := AppendEffect(old(table), maxMessageSize, f.from + old(f.wrote), f.size - old(f.wrote), m);
              && r == e.result && table == e.table && f.Valid() && old(f.wrote) + |e.bytes| <= f.size
              && f.View() == AppendTo(old(f.View()), e.bytes).(storeTimestamp := r.storeTimestamp)
    {
      hide AppendEffect, Overwrite;
      WroteBytes(table, maxMessageSize, f.from + f.wrote, f.size - f.wrote, m);
      r := DoAppend(f, f.size - f.wrote, m);
      f.wrote := f.wrote + r.wroteBytes;
      f.storeTimestamp := r.storeTimestamp;
    }

    method AppendInLast(f: MapedFile, m: Message) returns (r: AppendResult)
      requires Valid() && Storable(m) && End() + queue.size < 0x8000_0000_0000_0000
      requires queue.files != [] && f == queue.files[|queue.files| - 1] && f.wrote < queue.size
      modifies this`table, this`items, scratch`writePos, scratch`limit, scratch.buf, f
      ensures Valid()
      ensures Tried(Books(table, items), r) == Try(old(Books(table, items)), old(Base()), queue.size, maxMessageSize, m)
    {
      hide AppendEffect, Added, Room, Total, Layout, LogBytes, Flat, InFile, AppendTo;
      ghost var fs, free := queue.View(), Room(End(), queue.size);
      ghost var e := AppendEffect(table, maxMessageSize, End(), free, m);
      LastRoom(fs, queue.size, items);
      AppendKeepsLayout(items, Base(), queue.size, table, maxMessageSize, m);
      hide HoldsItems, WithLast;
      r := AppendMessageWithCallBack(f, m);
      queue.OnlyLastChanged(f);
      items := items + Added(r, m, free);
      AppendHolds(fs, queue.size, old(items), items, e.bytes, r.storeTimestamp);
    }

    // One try of putMessage: fetch (or create) the last file and run the callback on it.
    method AppendToLast(m: Message, createOk: bool, contents: seq<byte>) returns (r: AppendResult, created: bool)
      requires Valid() && Storable(m) && End() + queue.size < 0x8000_0000_0000_0000 && |contents| == queue.size
      modifies this`table, this`items, queue`files, scratch`writePos, scratch`limit, scratch.buf, queue.files
      ensures Valid() && Base() == old(Base())
      ensures fresh((set f | f in queue.files) - old(set f | f in queue.files))
      ensures !created ==> !createOk && table == old(table) && items == old(items)
      ensures created ==>
        Tried(Books(table, items), r) == Try(old(Books(table, items)), old(Base()), queue.size, maxMessageSize, m)
    {
      hide Try, Total, Layout, LogBytes, Flat, InFile, Rem, Storable;
      ghost var fs := queue.View();
      assert fs != [] ==> Sound(fs[|fs| - 1], queue.size);
      var f := queue.GetLastMapedFile(0, createOk, contents);
      if f == null {
        assert queue.View() == fs;
        return AppendResult(AppendUnknown, 0, 0, 0, 0), false;
      }
      EnsureHolds(fs, queue.size, items, contents);
      hide HoldsItems, EnsureLast;
      r := AppendInLast(f, m);
      created := true;
    }

    // CommitLog.putMessage up to the flush.  The retry after END_OF_FILE is not checked.
    method PutMessage(m: Message, create1: bool, contents1: seq<byte>, create2: bool, contents2: seq<byte>)
      returns (status: PutStatus, r: AppendResult)
      requires Valid() && Storable(m) && End() + 2 * queue.size < 0x8000_0000_0000_0000
      requires |contents1| == queue.size && |contents2| == queue.size
      modifies this`table, this`items, this`requests, queue`files, scratch`writePos, scratch`limit, scratch.buf
      modifies queue.files
      ensures Valid() && Base() == old(Base())
      ensures status in {PutOk, CreateFailed, MessageIllegal}
      ensures status == CreateFailed ==>
        && (!create1 || !create2)
        && (|| Books(table, items) == old(Books(table, items))
            || Books(table, items) == GivenUp(old(Books(table, items)), Base(), queue.size, maxMessageSize, m))
      ensures status != PutOk ==> requests == old(requests)
      ensures status != CreateFailed ==>
        Tried(Books(table, items), r) == Put(old(Books(table, items)), Base(), queue.size, maxMessageSize, m)
      ensures status == MessageIllegal ==> r.status == SizeExceeded
      ensures status == PutOk ==> r.status != SizeExceeded && requests == old(requests) + [RequestOf(m, r)]
    {
      hide AppendEffect, Added, HoldsItems, Total, Room, MapedFileQueue.Valid, MapedFileQueue.View, Try, Storable, Wrap64;
      var created;
      r, created := AppendToLast(m, create1, contents1);
      if !created {
        return CreateFailed, r;
      }
      if r.status == EndOfFile {
        OneFiller(old(Books(table, items)), Base(), queue.size, maxMessageSize, m);
        r, created := AppendToLast(m, create2, contents2);
        if !created {
          return CreateFailed, r;
        }
      } else if r.status == SizeExceeded {
        return MessageIllegal, r;
      }
      requests := requests + [DispatchRequest(
        m.topic, m.queueId, Wrap64(r.wroteOffset), r.wroteBytes, m.tagsCode, m.storeTimestamp,
        r.logicsOffset, m.keys, m.sysFlag, m.preparedTransactionOffset)];
      status := PutOk;
    }
  }

  lemma {:induction false} OneFiller(b: Books, base: int, size: int, maxMessageSize: int32, m: Message)
    requires END_FILE_MIN_BLANK <= size < 0x8000_0000
    ensures var t := Try(b, base, size, maxMessageSize, m);
            t.result.status == EndOfFile ==>
              && Total(t.books.items) <= Total(b.items) + size
              && Try(t.books, base, size, maxMessageSize, m).result.status != SizeExceeded
    ensures Try(b, base, size, maxMessageSize, m).result.status != AppendUnknown
  {
    hide ItemBytes, InFile, RecordLength;
    LayoutSnoc(b.items, Rest(Room(base + Total(b.items), size)), base, size);
  }

  lemma {:induction false} WroteBytes(table: map<seq<byte>, int64>, maxMessageSize: int32, at: int, free: int, m: Message)
    requires END_FILE_MIN_BLANK <= free < 0x8000_0000
    ensures var e := AppendEffect(table, maxMessageSize, at, free, m); e.result.wroteBytes == |e.bytes|
  {
  }

  lemma {:induction false} OverwriteNothing(s: seq<byte>, p: nat)
    requires p <= |s|
    ensures Overwrite(s, p, []) == s
  {
  }
}
