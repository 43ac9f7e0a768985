// The commit-log record: what DefaultAppendMessageCallback.doAppend writes and
// what CommitLog.checkMessageAndReturnSize reads back.

module Records {
  import opened Bytes

  const MESSAGE_MAGIC: int32 := -626843465  // int32(0xAABBCCDD ^ 1880681586 + 8)
  const BLANK_MAGIC: int32 := -875286108    // int32(0xBBCCDDEE ^ 1880681586 + 8)
  const END_FILE_MIN_BLANK: int := 8
  const FIXED_PART: int := 91               // every field but body, topic and properties

  // hostStringToBytes always yields four address and four port bytes.
  type Host = h: seq<byte> | |h| == 8 witness [0, 0, 0, 0, 0, 0, 0, 0]

  datatype Message = Message(
    topic: seq<byte>, queueId: int32, flag: int32, sysFlag: int32,
    bornTimestamp: int64, bornHost: Host, storeTimestamp: int64, storeHost: Host,
    reconsumeTimes: int32, preparedTransactionOffset: int64,
    body: seq<byte>, bodyCRC: int32, properties: seq<byte>,
    tagsCode: int64, keys: seq<byte>)

  datatype DispatchRequest = DispatchRequest(
    topic: seq<byte>, queueId: int32, commitLogOffset: int64, msgSize: int,
    tagsCode: int64, storeTimestamp: int64, consumeQueueOffset: int64,
    keys: seq<byte>, sysFlag: int32, preparedTransactionOffset: int64)

  // Code the record format depends on and does not define: the CRC, and what the
  // property string says about tags (with the topic, system flag and store time,
  // which matter for scheduled messages) and keys.
  datatype Codec = Codec(
    crc: seq<byte> -> int32,
    tags: (seq<byte>, seq<byte>, int32, int64) -> int64,
    keys: seq<byte> -> seq<byte>)

  // A request that carries only a size: 0 for a blank record, -1 for no record.
  function Sized(n: int): DispatchRequest {
    DispatchRequest([], 0, 0, n, 0, 0, 0, [], 0, 0)
  }

  // ---------------------------------------------------------------- writing

  function RecordLength(m: Message): nat {
    FIXED_PART + |m.body| + |m.topic| + |m.properties|
  }

  // The length guards of DefaultMessageStore.PutMessage, and a size an int32 can hold.
  predicate Storable(m: Message) {
    |m.topic| <= 127 && |m.properties| <= 32767 && RecordLength(m) < 0x8000_0000
  }

  function Head(m: Message, queueOffset: int64, physicalOffset: int64): (s: seq<byte>)
    ensures |s| == 84
  {
    I32(Wrap32(RecordLength(m))) + (I32(MESSAGE_MAGIC) + (I32(m.bodyCRC) + (I32(m.queueId) +
    (I32(m.flag) + (I64(queueOffset) + (I64(physicalOffset) + HeadEnd(m)))))))
  }

  function HeadEnd(m: Message): (s: seq<byte>)
    ensures |s| == 48
  {
    I32(m.sysFlag) + (I64(m.bornTimestamp) + (m.bornHost + (I64(m.storeTimestamp) + (m.storeHost +
    (I32(m.reconsumeTimes) + I64(m.preparedTransactionOffset))))))
  }

  function Tail(m: Message): (s: seq<byte>)
    ensures |s| == RecordLength(m) - 84
  {
    I32(Wrap32(|m.body|)) + (m.body + TopicAndProperties(m))
  }

  function TopicAndProperties(m: Message): (s: seq<byte>)
    ensures |s| == 3 + |m.topic| + |m.properties|
  {
    I8(Wrap8(|m.topic|)) + (m.topic + (I16(Wrap16(|m.properties|)) + m.properties))
  }

  function Encode(m: Message, queueOffset: int64, physicalOffset: int64): (s: seq<byte>)
    ensures |s| == RecordLength(m)
  {
    Head(m, queueOffset, physicalOffset) + Tail(m)
  }

  // The record that fills the rest of a file.
  function Blank(length: int32): (s: seq<byte>)
    requires length >= END_FILE_MIN_BLANK
    ensures |s| == length
  {
    I32(length) + (I32(BLANK_MAGIC) + Zeros(length - 8))
  }

  // ---------------------------------------------------------------- reading

  function From(s: seq<byte>, p: nat): seq<byte> { s[Min(p, |s|)..] }
  function R8(s: seq<byte>, p: nat): int8 { AsI8(Padded(From(s, p), 1)) }
  function R16(s: seq<byte>, p: nat): int16 { AsI16(Padded(From(s, p), 2)) }
  function R32(s: seq<byte>, p: nat): int32 { AsI32(Padded(From(s, p), 4)) }
  function R64(s: seq<byte>, p: nat): int64 { AsI64(Padded(From(s, p), 8)) }

  // Either a request and the number of bytes read, or the slice-bounds panic of a
  // read that starts past the end of the buffer.
  datatype Parsed = Parsed(request: DispatchRequest, consumed: nat) | Panic

  // What checkMessageAndReturnSize does with the unread bytes s of a buffer.  A read
  // at or past the end of s yields zeros.
  function Parse(c: Codec, s: seq<byte>, checkCRC: bool, readBody: bool): (r: Parsed)
    ensures r.Parsed? ==> r.consumed <= |s|
    ensures r.Parsed? && s != [] ==> r.consumed > 0
    ensures r.Parsed? && s == [] ==> r.request.msgSize == -1
  {
    if R32(s, 4) == BLANK_MAGIC then Parsed(Sized(0), Min(8, |s|))
    else if R32(s, 4) != MESSAGE_MAGIC || R32(s, 0) > |s| then Parsed(Sized(-1), Min(8, |s|))
    else
      var bodyLength := R32(s, 84);
      if bodyLength <= 0 then ParseTail(c, s, 88)
      else if !readBody then
        var p := Min(88, |s|) + bodyLength;
        if p > |s| then Panic else ParseTail(c, s, p)
      else if checkCRC && c.crc(Padded(From(s, 88), bodyLength)) != R32(s, 8) then
        Parsed(Sized(-1), Min(88 + bodyLength, |s|))
      else ParseTail(c, s, 88 + bodyLength)
  }

  function ParseTail(c: Codec, s: seq<byte>, p: nat): (r: Parsed)
    requires p >= 88
    ensures r.Parsed? && r.consumed <= |s| && (s != [] ==> r.consumed > 0)
    ensures r.request.msgSize == R32(s, 0)
  {
    var topicLength := Max(R8(s, p), 0);
    var topic := Padded(From(s, p + 1), topicLength);
    var q := p + 1 + topicLength;
    var propertiesLength := Max(R16(s, q), 0);
    var properties := Padded(From(s, q + 2), propertiesLength);
    var sysFlag := R32(s, 36);
    var storeTimestamp := R64(s, 56);
    Parsed(
      DispatchRequest(
        topic, R32(s, 12), R64(s, 28), R32(s, 0),
        if propertiesLength == 0 then 0 else c.tags(properties, topic, sysFlag, storeTimestamp),
        storeTimestamp, R64(s, 20),
        if propertiesLength == 0 then [] else c.keys(properties),
        sysFlag, R64(s, 76)),
      Min(q + 2 + propertiesLength, |s|))
  }

  // ---------------------------------------------------------------- round trip

  // The request putMessage builds for a message it has just written.
  function Live(m: Message, queueOffset: int64, physicalOffset: int64): DispatchRequest
    requires Storable(m)
  {
    DispatchRequest(m.topic, m.queueId, physicalOffset, RecordLength(m), m.tagsCode,
                    m.storeTimestamp, queueOffset, m.keys, m.sysFlag, m.preparedTransactionOffset)
  }

  // The same request with tags and keys taken from the stored properties.
  function Replayed(c: Codec, m: Message, queueOffset: int64, physicalOffset: int64): DispatchRequest
    requires Storable(m)
  {
    Live(m, queueOffset, physicalOffset).(
      tagsCode := if m.properties == [] then 0
                  else c.tags(m.properties, m.topic, m.sysFlag, m.storeTimestamp),
      keys := if m.properties == [] then [] else c.keys(m.properties))
  }

  lemma {:induction false} ReadAt(s: seq<byte>, p: nat, t: seq<byte>)
    requires At(s, p, t)
    ensures Padded(From(s, p), |t|) == t
  {
    assert From(s, p)[..|t|] == s[p..p + |t|];
  }

  lemma {:induction false} ReadsI8(s: seq<byte>, p: nat, i: int8)
    requires At(s, p, I8(i))
    ensures R8(s, p) == i
  {
    ReadAt(s, p, I8(i));
  }

  lemma {:induction false} ReadsI16(s: seq<byte>, p: nat, i: int16)
    requires At(s, p, I16(i))
    ensures R16(s, p) == i
  {
    ReadAt(s, p, I16(i));
  }

  lemma {:induction false} ReadsI32(s: seq<byte>, p: nat, i: int32)
    requires At(s, p, I32(i))
    ensures R32(s, p) == i
  {
    ReadAt(s, p, I32(i));
  }

  lemma {:induction false} ReadsI64(s: seq<byte>, p: nat, i: int64)
    requires At(s, p, I64(i))
    ensures R64(s, p) == i
  {
    ReadAt(s, p, I64(i));
  }

  ghost predicate HeadRead(s: seq<byte>, m: Message, queueOffset: int64, physicalOffset: int64) {
    && R32(s, 0) == Wrap32(RecordLength(m)) && R32(s, 4) == MESSAGE_MAGIC && R32(s, 8) == m.bodyCRC
    && R32(s, 12) == m.queueId && R64(s, 20) == queueOffset && R64(s, 28) == physicalOffset
    && R32(s, 36) == m.sysFlag && R64(s, 56) == m.storeTimestamp
    && R64(s, 76) == m.preparedTransactionOffset
  }

  // The header fields that only a consumer's decoder reads.
  ghost predicate HostsRead(s: seq<byte>, m: Message) {
    && R32(s, 16) == m.flag && R64(s, 40) == m.bornTimestamp && At(s, 48, m.bornHost)
    && At(s, 64, m.storeHost) && R32(s, 72) == m.reconsumeTimes
  }

  // Each header field sits where the parser and the decoder look for it.
  lemma {:induction false} HeadFields(s: seq<byte>, m: Message, queueOffset: int64, physicalOffset: int64)
    requires At(s, 0, Head(m, queueOffset, physicalOffset))
    ensures HeadRead(s, m, queueOffset, physicalOffset) && HostsRead(s, m)
  {
    var a13 := I64(m.preparedTransactionOffset);
    var a12 := I32(m.reconsumeTimes) + a13;
    var a11 := m.storeHost + a12;
    var a10 := I64(m.storeTimestamp) + a11;
    var a9 := m.bornHost + a10;
    var a8 := I64(m.bornTimestamp) + a9;
    var a7 := I32(m.sysFlag) + a8;
    var a6 := I64(physicalOffset) + a7;
    var a5 := I64(queueOffset) + a6;
    var a4 := I32(m.flag) + a5;
    var a3 := I32(m.queueId) + a4;
    var a2 := I32(m.bodyCRC) + a3;
    var a1 := I32(MESSAGE_MAGIC) + a2;
    AtSplit(s, 0, I32(Wrap32(RecordLength(m))), a1);
    ReadsI32(s, 0, Wrap32(RecordLength(m)));
    AtSplit(s, 4, I32(MESSAGE_MAGIC), a2);
    ReadsI32(s, 4, MESSAGE_MAGIC);
    AtSplit(s, 8, I32(m.bodyCRC), a3);
    ReadsI32(s, 8, m.bodyCRC);
    AtSplit(s, 12, I32(m.queueId), a4);
    ReadsI32(s, 12, m.queueId);
    AtSplit(s, 16, I32(m.flag), a5);
    ReadsI32(s, 16, m.flag);
    AtSplit(s, 20, I64(queueOffset), a6);
    ReadsI64(s, 20, queueOffset);
    AtSplit(s, 28, I64(physicalOffset), a7);
    ReadsI64(s, 28, physicalOffset);
    AtSplit(s, 36, I32(m.sysFlag), a8);
    ReadsI32(s, 36, m.sysFlag);
    AtSplit(s, 40, I64(m.bornTimestamp), a9);
    ReadsI64(s, 40, m.bornTimestamp);
    AtSplit(s, 48, m.bornHost, a10);
    AtSplit(s, 56, I64(m.storeTimestamp), a11);
    ReadsI64(s, 56, m.storeTimestamp);
    AtSplit(s, 64, m.storeHost, a12);
    AtSplit(s, 72, I32(m.reconsumeTimes), a13);
    ReadsI32(s, 72, m.reconsumeTimes);
    ReadsI64(s, 76, m.preparedTransactionOffset);
  }

  lemma {:induction false} RecordTime(m: Message, q: int64, at: int64, rest: seq<byte>)
    ensures R64(Encode(m, q, at) + rest, 56) == m.storeTimestamp
  {
    hide R32, R64, Head, Tail;
    var s := Encode(m, q, at) + rest;
    assert At(s, 0, Encode(m, q, at));
    AtSplit(s, 0, Head(m, q, at), Tail(m));
    HeadFields(s, m, q, at);
  }

  lemma {:induction false} BodyFields(s: seq<byte>, m: Message)
    requires Storable(m) && At(s, 84, Tail(m))
    ensures R32(s, 84) == |m.body| && At(s, 88, m.body)
    ensures At(s, 88 + |m.body|, TopicAndProperties(m))
  {
    hide AsI32, I32, TopicAndProperties;
    AtSplit(s, 84, I32(Wrap32(|m.body|)), m.body + TopicAndProperties(m));
    ReadsI32(s, 84, Wrap32(|m.body|));
    AtSplit(s, 88, m.body, TopicAndProperties(m));
  }

  lemma {:induction false} TopicFields(s: seq<byte>, p: nat, m: Message)
    requires Storable(m) && At(s, p, TopicAndProperties(m))
    ensures R8(s, p) == |m.topic| && At(s, p + 1, m.topic)
    ensures R16(s, p + 1 + |m.topic|) == |m.properties|
    ensures At(s, p + 3 + |m.topic|, m.properties)
  {
    hide AsI8, AsI16, I8, I16;
    var u := I16(Wrap16(|m.properties|));
    AtSplit(s, p, I8(Wrap8(|m.topic|)), m.topic + (u + m.properties));
    ReadsI8(s, p, Wrap8(|m.topic|));
    AtSplit(s, p + 1, m.topic, u + m.properties);
    AtSplit(s, p + 1 + |m.topic|, u, m.properties);
    ReadsI16(s, p + 1 + |m.topic|, Wrap16(|m.properties|));
  }

  // What the parser reads from the tail.
  lemma {:induction false} TailParts(s: seq<byte>, p: nat, m: Message)
    requires Storable(m) && At(s, p, TopicAndProperties(m))
    ensures R8(s, p) == |m.topic| && R16(s, p + 1 + |m.topic|) == |m.properties| && p + 3 + |m.topic| + |m.properties| <= |s|
    ensures Padded(From(s, p + 1), |m.topic|) == m.topic && Padded(From(s, p + 3 + |m.topic|), |m.properties|) == m.properties
  {
    hide R8, R16, From, Padded, I8, I16;
    TopicFields(s, p, m);
    ReadAt(s, p + 1, m.topic);
    ReadAt(s, p + 3 + |m.topic|, m.properties);
  }

  lemma {:induction false} ParseTailOf(c: Codec, m: Message, queueOffset: int64, physicalOffset: int64, s: seq<byte>)
    requires Storable(m) && HeadRead(s, m, queueOffset, physicalOffset)
    requires At(s, 88 + |m.body|, TopicAndProperties(m))
    ensures ParseTail(c, s, 88 + |m.body|) == Parsed(Replayed(c, m, queueOffset, physicalOffset), RecordLength(m))
  {
    hide R8, R16, R32, R64, From, Padded, At, TopicAndProperties;
    TailParts(s, 88 + |m.body|, m);
  }

  // Parsing what doAppend wrote reads exactly the record and rebuilds the request
  // putMessage dispatched, whatever follows the record and whether or not the body
  // is read and its CRC checked.
  lemma {:induction false} ParseOfEncode(c: Codec, m: Message, queueOffset: int64, physicalOffset: int64,
                      rest: seq<byte>, checkCRC: bool, readBody: bool)
    requires Storable(m) && (checkCRC && readBody ==> m.bodyCRC == c.crc(m.body))
    ensures Parse(c, Encode(m, queueOffset, physicalOffset) + rest, checkCRC, readBody)
         == Parsed(Replayed(c, m, queueOffset, physicalOffset), RecordLength(m))
  {
    hide AsI32, I32, Head, Tail, ParseTail, R32, R64, Padded, From;
    var s := Encode(m, queueOffset, physicalOffset) + rest;
    assert At(s, 0, Encode(m, queueOffset, physicalOffset));
    AtSplit(s, 0, Head(m, queueOffset, physicalOffset), Tail(m));
    HeadFields(s, m, queueOffset, physicalOffset);
    BodyFields(s, m);
    ReadAt(s, 88, m.body);
    ParseTailOf(c, m, queueOffset, physicalOffset, s);
  }

  // Live and replayed dispatch agree on everything but tags and keys, and on those
  // exactly when the broker derived them from the same properties.
  lemma {:induction false} LiveEqualsReplayed(c: Codec, m: Message, queueOffset: int64, physicalOffset: int64)
    requires Storable(m)
    ensures Live(m, queueOffset, physicalOffset).(tagsCode := 0, keys := [])
         == Replayed(c, m, queueOffset, physicalOffset).(tagsCode := 0, keys := [])
    ensures Live(m, queueOffset, physicalOffset) == Replayed(c, m, queueOffset, physicalOffset)
       <==> (if m.properties == [] then m.tagsCode == 0 && m.keys == []
             else m.tagsCode == c.tags(m.properties, m.topic, m.sysFlag, m.storeTimestamp)
                  && m.keys == c.keys(m.properties))
  {
  }

  // What recovery reads back from the log is the request putMessage dispatched, in every
  // field, exactly when the broker took tags and keys from the stored properties.
  lemma {:induction false} ParsedEqualsLive(c: Codec, m: Message, queueOffset: int64, physicalOffset: int64,
                                            rest: seq<byte>, checkCRC: bool, readBody: bool)
    requires Storable(m) && (checkCRC && readBody ==> m.bodyCRC == c.crc(m.body))
    ensures Parse(c, Encode(m, queueOffset, physicalOffset) + rest, checkCRC, readBody)
         == Parsed(Live(m, queueOffset, physicalOffset), RecordLength(m))
       <==> (if m.properties == [] then m.tagsCode == 0 && m.keys == []
             else m.tagsCode == c.tags(m.properties, m.topic, m.sysFlag, m.storeTimestamp)
                  && m.keys == c.keys(m.properties))
  {
    hide Parse, Encode, RecordLength;
    ParseOfEncode(c, m, queueOffset, physicalOffset, rest, checkCRC, readBody);
    LiveEqualsReplayed(c, m, queueOffset, physicalOffset);
  }

  // The last byte of each magic code is not zero, so a magic code cut short by the
  // end of the written bytes (and zero-padded by the reader) is never mistaken for one.
  lemma {:induction false} CutMagic(s: seq<byte>, magic: int32)
    requires magic == MESSAGE_MAGIC || magic == BLANK_MAGIC
    requires |s| < 8
    ensures R32(s, 4) != magic
  {
    assert Padded(From(s, 4), 4)[3] == 0;
    NoMagic(Padded(From(s, 4), 4), magic);
  }

  lemma {:induction false} NoMagic(w: seq<byte>, magic: int32)
    requires (magic == MESSAGE_MAGIC || magic == BLANK_MAGIC) && |w| == 4 && w[3] == 0
    ensures AsI32(w) != magic
  {
    if AsI32(w) == magic {
      Pow256Values();
      assert false;
    }
  }

  // A blank record is recognised from its first eight bytes, even when the rest of it
  // has not been written yet.
  lemma {:induction false} ParseOfBlank(c: Codec, length: int32, s: seq<byte>, checkCRC: bool, readBody: bool)
    requires length >= END_FILE_MIN_BLANK && 8 <= |s| && s[..8] == Blank(length)[..8]
    ensures Parse(c, s, checkCRC, readBody) == Parsed(Sized(0), 8)
  {
    hide AsI32, I32;
    assert s[4..8] == s[..8][4..];
    assert At(s, 4, I32(BLANK_MAGIC));
    ReadsI32(s, 4, BLANK_MAGIC);
  }

  // A proper prefix of a record parses as "no record": the reader must retry.
  lemma {:induction false} ParseOfCut(c: Codec, m: Message, queueOffset: int64, physicalOffset: int64,
                   taken: nat, checkCRC: bool, readBody: bool)
    requires Storable(m) && taken < RecordLength(m)
    ensures var r := Parse(c, Encode(m, queueOffset, physicalOffset)[..taken], checkCRC, readBody);
            r.Parsed? && r.request.msgSize == -1
  {
    var e := Encode(m, queueOffset, physicalOffset);
    if taken < 8 {
      CutMagic(e[..taken], MESSAGE_MAGIC);
      CutMagic(e[..taken], BLANK_MAGIC);
    } else {
      CutHead(e, taken, m, queueOffset, physicalOffset);
    }
  }

  lemma {:induction false} CutHead(e: seq<byte>, taken: nat, m: Message, queueOffset: int64, physicalOffset: int64)
    requires Storable(m) && 8 <= taken < RecordLength(m) && e == Encode(m, queueOffset, physicalOffset)
    ensures R32(e[..taken], 4) == MESSAGE_MAGIC && R32(e[..taken], 0) == RecordLength(m)
  {
    hide AsI8, AsI16, AsI32, AsI64, I8, I16, I32, I64;
    assert At(e, 0, e);
    AtSplit(e, 0, Head(m, queueOffset, physicalOffset), Tail(m));
    HeadFields(e, m, queueOffset, physicalOffset);
    assert From(e[..taken], 4)[..4] == From(e, 4)[..4];
    assert From(e[..taken], 0)[..4] == From(e, 0)[..4];
  }
}
