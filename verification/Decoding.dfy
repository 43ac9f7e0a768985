// The message decoder of the clients: it reads back all seventeen fields of a record, one
// record after another.

module Decoding {
  import opened Bytes
  import opened Records
  import opened Segments

  // A host is four address bytes and a port; properties stay the bytes they were stored as.
  datatype MessageExt = MessageExt(
    storeSize: int32, bodyCRC: int32, queueId: int32, flag: int32, queueOffset: int64,
    commitLogOffset: int64, sysFlag: int32, bornTimestamp: int64, bornAddress: seq<byte>, bornPort: int32,
    storeTimestamp: int64, storeAddress: seq<byte>, storePort: int32, reconsumeTimes: int32,
    preparedTransactionOffset: int64, body: seq<byte>, topic: seq<byte>, properties: seq<byte>,
    msgId: seq<byte>)

  datatype Decoded = Decoded(message: MessageExt, rest: seq<byte>) | Failed

  // How a body is wanted: whether it is read, whether a compressed one is inflated, and zlib,
  // which can fail.
  datatype Reading = Reading(body: bool, inflate: bool, unzip: seq<byte> -> Option<seq<byte>>)

  const COMPRESSED_FLAG: int := 1

  // The body as the client gets it.
  function BodyOf(r: Reading, sysFlag: int32, stored: seq<byte>): Option<seq<byte>> {
    if r.body && r.inflate && stored != [] && sysFlag % 2 == COMPRESSED_FLAG then r.unzip(stored) else Some(stored)
  }

  // decodeMessageExt: every read but the last one, of the properties, fails when s ends early.
  function Decode(r: Reading, s: seq<byte>): (d: Decoded)
    ensures d.Decoded? ==> |d.rest| < |s|
  {
    if |s| < 88 then Failed
    else
      var bodyLength := Max(R32(s, 84), 0);
      if r.body && |s| < 88 + bodyLength then Failed
      else
        var p := Min(88 + bodyLength, |s|);
        match BodyOf(r, R32(s, 36), if r.body then s[88..p] else [])
        case None => Failed
        case Some(body) => DecodeTail(s, p, body)
  }

  function DecodeTail(s: seq<byte>, p: nat, body: seq<byte>): (d: Decoded)
    requires 88 <= p <= |s|
    ensures d.Decoded? ==> |d.rest| < |s|
  {
    if |s| < p + 1 || |s| < p + 3 + s[p] then Failed
    else
      var q := p + 1 + s[p];
      var propertiesLength := Max(R16(s, q), 0);
      Decoded(
        MessageExt(
          R32(s, 0), R32(s, 8), R32(s, 12), R32(s, 16), R64(s, 20), R64(s, 28), R32(s, 36), R64(s, 40),
          s[48..52], R32(s, 52), R64(s, 56), s[64..68], R32(s, 68), R32(s, 72), R64(s, 76), body, s[p + 1..q],
          if |s| < q + 2 + propertiesLength then Zeros(propertiesLength) else s[q + 2..q + 2 + propertiesLength],
          s[64..68] + (I32(R32(s, 68)) + I64(R64(s, 28)))),
        s[Min(q + 2 + propertiesLength, |s|)..])
  }

  // ---------------------------------------------------------------- one record

  // What the client should hold of message m, stored at offset `at` as number q of its queue.
  function Received(m: Message, q: int64, at: int64, body: seq<byte>): MessageExt
    requires Storable(m)
  {
    MessageExt(
      storeSize := RecordLength(m), bodyCRC := m.bodyCRC, queueId := m.queueId, flag := m.flag, queueOffset := q,
      commitLogOffset := at, sysFlag := m.sysFlag, bornTimestamp := m.bornTimestamp,
      bornAddress := m.bornHost[..4], bornPort := AsI32(m.bornHost[4..]),
      storeTimestamp := m.storeTimestamp, storeAddress := m.storeHost[..4], storePort := AsI32(m.storeHost[4..]),
      reconsumeTimes := m.reconsumeTimes, preparedTransactionOffset := m.preparedTransactionOffset,
      body := body, topic := m.topic, properties := m.properties, msgId := m.storeHost + I64(at))
  }

  lemma {:induction false} HostAt(s: seq<byte>, p: nat, h: Host)
    requires At(s, p, h)
    ensures p + 8 <= |s| && s[p..p + 4] == h[..4] && R32(s, p + 4) == AsI32(h[4..])
    ensures s[p..p + 4] + I32(R32(s, p + 4)) == h
  {
    assert h == s[p..p + 8];
    assert s[p..p + 4] == s[p..p + 8][..4] && s[p + 4..p + 8] == s[p..p + 8][4..];
    assert From(s, p + 4)[..4] == s[p + 4..p + 8];
    hide AsI32, I32;
    I32OfAsI32(h[4..]);
    assert h[..4] + h[4..] == h;
  }

  lemma {:induction false} HostsOf(s: seq<byte>, m: Message, at: int64)
    requires HostsRead(s, m) && R64(s, 28) == at
    ensures |s| >= 72 && s[48..52] == m.bornHost[..4] && R32(s, 52) == AsI32(m.bornHost[4..])
    ensures s[64..68] == m.storeHost[..4] && R32(s, 68) == AsI32(m.storeHost[4..])
    ensures s[64..68] + (I32(R32(s, 68)) + I64(R64(s, 28))) == m.storeHost + I64(at)
  {
    hide AsI32, AsI64, I32, I64, R32, R64, At;
    HostAt(s, 48, m.bornHost);
    HostAt(s, 64, m.storeHost);
    assert s[64..68] + (I32(R32(s, 68)) + I64(at)) == s[64..68] + I32(R32(s, 68)) + I64(at);
  }

  lemma {:induction false} TailOfRecord(s: seq<byte>, m: Message, q: int64, at: int64, rest: seq<byte>, body: seq<byte>)
    requires Storable(m) && s == Encode(m, q, at) + rest
    requires HeadRead(s, m, q, at) && HostsRead(s, m) && At(s, 88 + |m.body|, TopicAndProperties(m))
    ensures DecodeTail(s, 88 + |m.body|, body) == Decoded(Received(m, q, at, body), rest)
  {
    hide AsI8, AsI32, AsI64, I8, I32, I64, Encode, TopicAndProperties, R16, R32, R64, From;
    var p := 88 + |m.body|;
    TopicFields(s, p, m);
    TopicByte(s, p, m);
    HostsOf(s, m, at);
    assert R32(s, 0) == RecordLength(m);
  }

  // A topic of at most 127 bytes has the same length as a signed and as an unsigned byte.
  lemma {:induction false} TopicByte(s: seq<byte>, p: nat, m: Message)
    requires Storable(m) && p < |s| && R8(s, p) == |m.topic|
    ensures s[p] == |m.topic|
  {
    Pow256Values();
    var w := Padded(From(s, p), 1);
    assert w[0] == s[p] && w[..0] == [];
    assert ToNat(w) == 256 * ToNat(w[..0]) + w[0];
  }

  // Decoding what doAppend wrote gives every stored field back, the queue offset and the log
  // offset it was stored at, the message id its producer was told, and what follows the
  // record; it fails only where a compressed body cannot be inflated.
  lemma {:induction false} DecodeOfEncode(r: Reading, m: Message, q: int64, at: int64, rest: seq<byte>)
    requires Storable(m)
    ensures Decode(r, Encode(m, q, at) + rest)
         == match BodyOf(r, m.sysFlag, if r.body then m.body else [])
            case None => Failed
            case Some(body) => Decoded(Received(m, q, at, body), rest)
  {
    hide AsI32, I32, Head, Tail, DecodeTail, R32, R64, BodyOf, Received, TopicAndProperties;
    var s := Encode(m, q, at) + rest;
    assert At(s, 0, Encode(m, q, at));
    AtSplit(s, 0, Head(m, q, at), Tail(m));
    HeadFields(s, m, q, at);
    BodyFields(s, m);
    assert HeadRead(s, m, q, at) && R32(s, 84) == |m.body| && s[88..88 + |m.body|] == m.body;
    match BodyOf(r, m.sysFlag, if r.body then m.body else [])
    case None =>
    case Some(body) => TailOfRecord(s, m, q, at, rest, body);
  }

  // s is the record of m, for every way of decoding it and whatever follows it.
  ghost predicate Decodes(s: seq<byte>, m: Message, q: int64, at: int64)
    requires Storable(m)
  {
    forall r: Reading, rest: seq<byte> ::
      Decode(r, s + rest) == match BodyOf(r, m.sysFlag, if r.body then m.body else [])
                             case None => Failed
                             case Some(body) => Decoded(Received(m, q, at, body), rest)
  }

  lemma {:induction false} EncodeDecodes(m: Message, q: int64, at: int64)
    requires Storable(m)
    ensures Decodes(Encode(m, q, at), m, q, at)
  {
    hide Decode, Encode, Received, BodyOf, Storable;
    forall r: Reading, rest: seq<byte>
      ensures Decode(r, Encode(m, q, at) + rest) == match BodyOf(r, m.sysFlag, if r.body then m.body else [])
                                                    case None => Failed
                                                    case Some(body) => Decoded(Received(m, q, at, body), rest)
    {
      DecodeOfEncode(r, m, q, at, rest);
    }
  }

  // ---------------------------------------------------------------- a whole pull result

  function DecodeAll(r: Reading, s: seq<byte>): Option<seq<MessageExt>>
    decreases |s|
  {
    if s == [] then Some([])
    else
      match Decode(r, s)
      case Failed => None
      case Decoded(m, rest) =>
        match DecodeAll(r, rest) case None => None case Some(ms) => Some([m] + ms)
  }

  function Prepend(ms: seq<MessageExt>, tail: Option<seq<MessageExt>>): Option<seq<MessageExt>> {
    match tail case None => None case Some(t) => Some(ms + t)
  }

  // DecodesMessageExt: one record that cannot be decoded loses all of them.
  method DecodesMessageExt(r: Reading, buffer: seq<byte>) returns (msgExts: Option<seq<MessageExt>>)
    ensures msgExts == DecodeAll(r, buffer)
  {
    hide Decode;
    var buf, ms := buffer, [];
    PrependNone(DecodeAll(r, buffer));
    while buf != []
      invariant DecodeAll(r, buffer) == Prepend(ms, DecodeAll(r, buf))
      decreases |buf|
    {
      var d := Decode(r, buf);
      if d.Failed? {
        return None;
      }
      PrependOne(ms, d.message, DecodeAll(r, d.rest));
      buf, ms := d.rest, ms + [d.message];
    }
    assert ms + [] == ms;
    msgExts := Some(ms);
  }

  lemma {:induction false} PrependNone(tail: Option<seq<MessageExt>>)
    ensures Prepend([], tail) == tail
  {
    if tail.Some? { assert [] + tail.value == tail.value; }
  }

  lemma {:induction false} PrependOne(ms: seq<MessageExt>, m: MessageExt, tail: Option<seq<MessageExt>>)
    ensures Prepend(ms + [m], tail) == Prepend(ms, Prepend([m], tail))
  {
    if tail.Some? { assert ms + [m] + tail.value == ms + ([m] + tail.value); }
  }

  // A message as it was stored: its record stands at offset `at`.
  datatype Kept = Kept(m: Message, q: int64, at: int64)

  function Joined(ps: seq<Kept>): seq<byte> {
    if ps == [] then [] else Encode(ps[0].m, ps[0].q, ps[0].at) + Joined(ps[1..])
  }

  lemma {:induction false} JoinedSnoc(ps: seq<Kept>, p: Kept)
    ensures Joined(ps + [p]) == Joined(ps) + Encode(p.m, p.q, p.at)
  {
    hide Encode;
    if ps == [] {
      assert [] + [p] == [p] && Encode(p.m, p.q, p.at) + [] == [] + Encode(p.m, p.q, p.at);
    } else {
      assert (ps + [p])[1..] == ps[1..] + [p];
      JoinedSnoc(ps[1..], p);
    }
  }

  // The result holds exactly the messages ps, in order, each body as it is wanted; or nothing,
  // and one of the bodies cannot be inflated.
  ghost predicate Reads(r: Reading, ps: seq<Kept>, result: Option<seq<MessageExt>>) {
    match result
    case Some(ms) =>
      |ms| == |ps| && forall i :: 0 <= i < |ps| ==>
        var body := BodyOf(r, ps[i].m.sysFlag, ps[i].m.body);
        Storable(ps[i].m) && body.Some? && ms[i] == Received(ps[i].m, ps[i].q, ps[i].at, body.value)
    case None => exists i :: 0 <= i < |ps| && BodyOf(r, ps[i].m.sysFlag, ps[i].m.body) == None
  }

  // Any number of records decode into exactly their messages, in order, once every body that
  // is compressed can be inflated, and into nothing at all otherwise.
  lemma {:induction false} DecodeAllOfRecords(r: Reading, ps: seq<Kept>)
    requires r.body && forall i :: 0 <= i < |ps| ==> Storable(ps[i].m)
    ensures Reads(r, ps, DecodeAll(r, Joined(ps)))
  {
    hide Decode, Encode, Received, BodyOf, Storable;
    if ps != [] {
      DecodeAllOfRecords(r, ps[1..]);
      DecodeOfEncode(r, ps[0].m, ps[0].q, ps[0].at, Joined(ps[1..]));
    }
  }
}
