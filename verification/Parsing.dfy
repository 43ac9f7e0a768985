// CommitLog.checkMessageAndReturnSize as the field-by-field read it is, proved equal to
// the function Records.Parse.

module Parsing {
  import opened Bytes
  import opened MapedFiles
  import opened Records

  // The buffer stands p bytes into the bytes s it held unread at the start, or at their end.
  ghost predicate Stands(b: MappedByteBuffer, s: seq<byte>, p: nat)
    reads b, b.buf
  {
    b.Valid() && |s| <= b.len && b.readPos == b.len - |s| + Min(p, |s|) && b.buf[b.len - |s|..b.len] == s
  }

  lemma {:induction false} StandsAt(b: MappedByteBuffer, s: seq<byte>, p: nat)
    requires Stands(b, s, p)
    ensures |s| <= b.len && b.readPos == b.len - |s| + Min(p, |s|)
  {
  }

  method ReadBytes(b: MappedByteBuffer, n: nat, ghost s: seq<byte>, ghost p: nat) returns (data: seq<byte>)
    requires Stands(b, s, p)
    modifies b`readPos
    ensures Stands(b, s, p + n) && data == Padded(From(s, p), n)
  {
    assert b.Unread() == From(s, p);
    data := b.Read(n);
  }

  method ReadInt8(b: MappedByteBuffer, ghost s: seq<byte>, ghost p: nat) returns (i: int8)
    requires Stands(b, s, p)
    modifies b`readPos
    ensures Stands(b, s, p + 1) && i == R8(s, p)
  {
    var d := ReadBytes(b, 1, s, p);
    i := AsI8(d);
  }

  method ReadInt16(b: MappedByteBuffer, ghost s: seq<byte>, ghost p: nat) returns (i: int16)
    requires Stands(b, s, p)
    modifies b`readPos
    ensures Stands(b, s, p + 2) && i == R16(s, p)
  {
    var d := ReadBytes(b, 2, s, p);
    i := AsI16(d);
  }

  method ReadInt32(b: MappedByteBuffer, ghost s: seq<byte>, ghost p: nat) returns (i: int32)
    requires Stands(b, s, p)
    modifies b`readPos
    ensures Stands(b, s, p + 4) && i == R32(s, p)
  {
    var d := ReadBytes(b, 4, s, p);
    i := AsI32(d);
  }

  method ReadInt64(b: MappedByteBuffer, ghost s: seq<byte>, ghost p: nat) returns (i: int64)
    requires Stands(b, s, p)
    modifies b`readPos
    ensures Stands(b, s, p + 8) && i == R64(s, p)
  {
    var d := ReadBytes(b, 8, s, p);
    i := AsI64(d);
  }

  // The fixed fields behind size and magic code.
  datatype Header = Header(
    bodyCRC: int32, queueId: int32, queueOffset: int64, physicOffset: int64, sysFlag: int32,
    storeTimestamp: int64, preparedTransactionOffset: int64, bodyLen: int32)

  ghost function HeaderAt(s: seq<byte>): Header {
    Header(R32(s, 8), R32(s, 12), R64(s, 20), R64(s, 28), R32(s, 36), R64(s, 56), R64(s, 76), R32(s, 84))
  }

  method ReadHeader(b: MappedByteBuffer, ghost s: seq<byte>) returns (h: Header)
    requires Stands(b, s, 8)
    modifies b`readPos
    ensures Stands(b, s, 88) && h == HeaderAt(s)
  {
    hide R32, R64, Stands;
    var bodyCRC := ReadInt32(b, s, 8);                     // 3 BODYCRC
    var queueId := ReadInt32(b, s, 12);                    // 4 QUEUEID
    var _ := ReadInt32(b, s, 16);                          // 5 FLAG
    var queueOffset := ReadInt64(b, s, 20);                // 6 QUEUEOFFSET
    var physicOffset := ReadInt64(b, s, 28);               // 7 PHYSICALOFFSET
    var sysFlag := ReadInt32(b, s, 36);                    // 8 SYSFLAG
    var _ := ReadInt64(b, s, 40);                          // 9 BORNTIMESTAMP
    var _ := ReadBytes(b, 8, s, 48);                       // 10 BORNHOST
    var storeTimestamp := ReadInt64(b, s, 56);             // 11 STORETIMESTAMP
    var _ := ReadBytes(b, 8, s, 64);                       // 12 STOREHOST
    var _ := ReadInt32(b, s, 72);                          // 13 RECONSUMETIMES
    var preparedTransactionOffset := ReadInt64(b, s, 76);  // 14 prepared transaction offset
    var bodyLen := ReadInt32(b, s, 84);                    // 15 BODY
    h := Header(bodyCRC, queueId, queueOffset, physicOffset, sysFlag, storeTimestamp,
                preparedTransactionOffset, bodyLen);
  }

  // readPos += bodyLen, which panics at the next read if it passes the end.
  method SkipBody(b: MappedByteBuffer, bodyLen: nat, ghost s: seq<byte>) returns (ok: bool)
    requires Stands(b, s, 88)
    modifies b`readPos
    ensures ok == (Min(88, |s|) + bodyLen <= |s|) && (ok ==> Stands(b, s, Min(88, |s|) + bodyLen))
  {
    ok := b.readPos + bodyLen <= b.len;
    if ok {
      b.readPos := b.readPos + bodyLen;
    }
  }

  method CheckMessageAndReturnSize(c: Codec, b: MappedByteBuffer, checkCRC: bool, readBody: bool) returns (r: Parsed)
    requires b.Valid() && b.readPos <= b.writePos == b.len
    modifies b`readPos
    ensures r == Parse(c, old(b.Unread()), checkCRC, readBody)
    ensures r.Parsed? ==> b.readPos == old(b.readPos) + r.consumed
  {
    ghost var s := b.Unread();
    assert Stands(b, s, 0);
    r := CheckUnread(c, b, checkCRC, readBody, s);
  }

  method CheckUnread(c: Codec, b: MappedByteBuffer, checkCRC: bool, readBody: bool, ghost s: seq<byte>) returns (r: Parsed)
    requires Stands(b, s, 0) && b.writePos == b.len && b.readPos + |s| == b.len
    modifies b`readPos
    ensures r == Parse(c, s, checkCRC, readBody)
    ensures r.Parsed? ==> b.readPos == old(b.readPos) + r.consumed
  {
    hide R32, R64, Padded, From, ParseTail, Stands;
    var start, bufferLen := b.readPos, b.writePos - b.readPos;
    var totalSize := ReadInt32(b, s, 0);                   // 1 TOTALSIZE
    var magicCode := ReadInt32(b, s, 4);                   // 2 MAGICCODE
    StandsAt(b, s, 8);
    if magicCode == BLANK_MAGIC {
      return Parsed(Sized(0), b.readPos - start);
    } else if magicCode != MESSAGE_MAGIC {
      return Parsed(Sized(-1), b.readPos - start);
    }
    if totalSize > bufferLen {
      return Parsed(Sized(-1), b.readPos - start);
    }
    var h := ReadHeader(b, s);
    ghost var p := 88;
    if h.bodyLen > 0 {
      if readBody {
        var body := ReadBytes(b, h.bodyLen, s, 88);
        p := 88 + h.bodyLen;
        if checkCRC && c.crc(body) != h.bodyCRC {
          StandsAt(b, s, p);
          return Parsed(Sized(-1), b.readPos - start);
        }
      } else {
        var ok := SkipBody(b, h.bodyLen, s);
        if !ok {
          return Panic;
        }
        p := Min(88, bufferLen) + h.bodyLen;
      }
    }
    r := ReadTail(c, b, totalSize, h, start, s, p);
  }

  method ReadTail(c: Codec, b: MappedByteBuffer, totalSize: int32, h: Header,
                  start: nat, ghost s: seq<byte>, ghost p: nat) returns (r: Parsed)
    requires Stands(b, s, p) && p >= 88 && start == b.len - |s|
    requires totalSize == R32(s, 0) && h == HeaderAt(s)
    modifies b`readPos
    ensures r == ParseTail(c, s, p) && b.readPos == start + r.consumed
  {
    hide R8, R16, R32, R64;
    var topic, keys, tagsCode := [], [], 0;
    var topicLen := ReadInt8(b, s, p);                     // 16 TOPIC
    if topicLen > 0 {
      topic := ReadBytes(b, topicLen, s, p + 1);
    }
    ghost var q := p + 1 + Max(topicLen, 0);
    var propertiesLength := ReadInt16(b, s, q);            // 17 PROPERTIES
    if propertiesLength > 0 {
      var properties := ReadBytes(b, propertiesLength, s, q + 2);
      keys := c.keys(properties);
      tagsCode := c.tags(properties, topic, h.sysFlag, h.storeTimestamp);
    }
    assert Padded(From(s, p + 1), 0) == [] && Padded(From(s, q + 2), 0) == [];
    r := Parsed(
      DispatchRequest(topic, h.queueId, h.physicOffset, totalSize, tagsCode, h.storeTimestamp, h.queueOffset,
                      keys, h.sysFlag, h.preparedTransactionOffset),
      b.readPos - start);
  }
}
