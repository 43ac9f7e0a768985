// HA frames on the wire: offset, size, body.  The slave cuts them out of whatever pieces the
// socket delivers.

module Framing {
  import opened Bytes

  const HEADER: int := 12

  // A frame with an empty body is a heartbeat.
  datatype Frame = Frame(offset: int64, body: seq<byte>)

  predicate Sendable(f: Frame) { |f.body| < 0x8000_0000 }

  function Header(f: Frame): (s: seq<byte>)
    requires Sendable(f)
    ensures |s| == HEADER
  {
    I64(f.offset) + I32(|f.body|)
  }

  ghost predicate AllSendable(fs: seq<Frame>) {
    forall i :: 0 <= i < |fs| ==> Sendable(fs[i])
  }

  // The bytes the master writes.
  ghost function Wire(fs: seq<Frame>): seq<byte>
    requires AllSendable(fs)
  {
    if fs == [] then [] else Header(fs[0]) + (fs[0].body + Wire(fs[1..]))
  }

  // The frames that carry data, in order.
  function Bodies(fs: seq<Frame>): seq<Frame> {
    if fs == [] then []
    else Bodies(fs[..|fs| - 1]) + (if fs[|fs| - 1].body == [] then [] else [fs[|fs| - 1]])
  }

  // The state of processRead between two socket reads: unparsed bytes, and the header read
  // last (size == 0 if its body has been handled).
  datatype Reader = Reader(buffer: seq<byte>, offset: int64, size: int32)

  const FRESH: Reader := Reader([], 0, 0)

  datatype Drained = Drained(reader: Reader, handled: seq<Frame>)

  // The inner loop: read a header if none is held, hand over the body if it is complete.
  function Drain(r: Reader): Drained
    decreases |r.buffer| + (if r.size == 0 then 0 else HEADER)
  {
    var h := if r.size == 0 && |r.buffer| >= HEADER
             then Reader(r.buffer[HEADER..], AsI64(r.buffer[..8]), AsI32(r.buffer[8..12])) else r;
    if h.size > 0 && |h.buffer| >= h.size then
      var d := Drain(Reader(h.buffer[h.size..], h.offset, 0));
      Drained(d.reader, [Frame(h.offset, h.buffer[..h.size])] + d.handled)
    else Drained(h, [])
  }

  // processRead on the pieces read so far.
  function Received(chunks: seq<seq<byte>>): Drained {
    if chunks == [] then Drained(FRESH, [])
    else
      var n := |chunks| - 1;
      var d := Received(chunks[..n]);
      var e := Drain(d.reader.(buffer := d.reader.buffer + chunks[n]));
      Drained(e.reader, d.handled + e.handled)
  }

  function Joined(chunks: seq<seq<byte>>): seq<byte> {
    if chunks == [] then [] else Joined(chunks[..|chunks| - 1]) + chunks[|chunks| - 1]
  }

  // The reader has taken k whole frames off the stream, perhaps also the header of the next,
  // and holds the rest of what has arrived.
  ghost predicate At(frames: seq<Frame>, k: nat, r: Reader, rest: seq<byte>)
    requires AllSendable(frames)
  {
    && k <= |frames| && r.size >= 0
    && if r.size == 0 then r.buffer + rest == Wire(frames[k..])
       else && k < |frames| && r.offset == frames[k].offset && r.size == |frames[k].body|
            && r.buffer + rest == frames[k].body + Wire(frames[k + 1..])
  }

  lemma {:induction false} WireHead(frames: seq<Frame>, k: nat)
    requires AllSendable(frames) && k < |frames|
    ensures Wire(frames[k..]) == Header(frames[k]) + (frames[k].body + Wire(frames[k + 1..]))
  {
    hide Header;
    assert frames[k..][0] == frames[k] && frames[k..][1..] == frames[k + 1..];
  }

  lemma {:induction false} WireEmpty(frames: seq<Frame>, k: nat)
    requires AllSendable(frames) && k <= |frames| && |Wire(frames[k..])| >= HEADER
    ensures k < |frames|
  {
  }

  lemma {:induction false} HeaderRead(f: Frame, s: seq<byte>)
    requires Sendable(f) && |s| >= HEADER && s[..HEADER] == Header(f)
    ensures AsI64(s[..8]) == f.offset && AsI32(s[8..12]) == |f.body|
  {
    hide I64, I32, AsI64, AsI32;
    assert s[..8] == Header(f)[..8] && s[8..12] == Header(f)[8..12];
    assert Header(f)[..8] == I64(f.offset) && Header(f)[8..12] == I32(|f.body|);
  }

  lemma {:induction false} BodiesSnoc(frames: seq<Frame>, k: nat)
    requires k < |frames|
    ensures Bodies(frames[..k + 1]) == Bodies(frames[..k]) + (if frames[k].body == [] then [] else [frames[k]])
  {
    assert frames[..k + 1][..k] == frames[..k];
  }

  // Reading a header off the stream.
  lemma {:induction false} TakeHeader(frames: seq<Frame>, k: nat, r: Reader, rest: seq<byte>)
    requires AllSendable(frames) && At(frames, k, r, rest) && r.size == 0 && |r.buffer| >= HEADER
    ensures k < |frames| && AsI64(r.buffer[..8]) == frames[k].offset && AsI32(r.buffer[8..12]) == |frames[k].body|
    ensures r.buffer[HEADER..] + rest == frames[k].body + Wire(frames[k + 1..])
  {
    hide Header, AsI64, AsI32, Wire;
    WireEmpty(frames, k);
    WireHead(frames, k);
    var w := r.buffer + rest;
    assert w[..HEADER] == r.buffer[..HEADER] && w[..HEADER] == Header(frames[k]);
    HeaderRead(frames[k], r.buffer);
    assert w[HEADER..] == r.buffer[HEADER..] + rest;
  }

  // Draining hands over exactly the data frames it passes, each with its own offset and body,
  // and keeps every byte it has not handed over.  Once everything has arrived it passes at
  // least one more frame, and all of them if there is no heartbeat to end it early.
  lemma {:induction false} DrainFollows(frames: seq<Frame>, k: nat, r: Reader, rest: seq<byte>) returns (j: nat)
    requires AllSendable(frames) && At(frames, k, r, rest)
    ensures var d := Drain(r);
            k <= j <= |frames| && At(frames, j, d.reader, rest) && Bodies(frames[..k]) + d.handled == Bodies(frames[..j])
    ensures rest == [] && k < |frames| ==> j > k
    ensures rest == [] && (forall i :: k <= i < |frames| ==> frames[i].body != []) ==> j == |frames|
    decreases |r.buffer| + (if r.size == 0 then 0 else HEADER)
  {
    hide Header, AsI64, AsI32, Wire, Bodies;
    var h := r;
    j := k;
    if r.size == 0 && |r.buffer| >= HEADER {
      TakeHeader(frames, k, r, rest);
      h := Reader(r.buffer[HEADER..], AsI64(r.buffer[..8]), AsI32(r.buffer[8..12]));
      BodiesSnoc(frames, k);
      if h.size == 0 { j := k + 1; }
    } else if rest == [] && r.size == 0 && k < |frames| {
      WireHead(frames, k);
    }
    if h.size > 0 && |h.buffer| >= h.size {
      BodiesSnoc(frames, k);
      TakeBody(frames, k, h, rest);
      var next := Reader(h.buffer[h.size..], h.offset, 0);
      j := DrainFollows(frames, k + 1, next, rest);
      var d := Drain(next);
      assert Bodies(frames[..k]) + ([frames[k]] + d.handled) == Bodies(frames[..k]) + [frames[k]] + d.handled;
    }
  }

  lemma {:induction false} TakeBody(frames: seq<Frame>, k: nat, h: Reader, rest: seq<byte>)
    requires AllSendable(frames) && k < |frames| && h.size == |frames[k].body| && h.offset == frames[k].offset
    requires 0 < h.size <= |h.buffer| && h.buffer + rest == frames[k].body + Wire(frames[k + 1..])
    ensures Frame(h.offset, h.buffer[..h.size]) == frames[k]
    ensures At(frames, k + 1, Reader(h.buffer[h.size..], h.offset, 0), rest)
  {
    hide Wire;
    var w := h.buffer + rest;
    assert w[..h.size] == h.buffer[..h.size] && w[..h.size] == frames[k].body;
    assert w[h.size..] == h.buffer[h.size..] + rest && w[h.size..] == Wire(frames[k + 1..]);
  }

  // However the stream is cut into reads, the bodies handled so far are a prefix of the data
  // frames sent, and no byte that arrived is lost: it belongs to a frame already passed, to
  // the header held, or to the buffer.
  lemma {:induction false} DeframingFollows(frames: seq<Frame>, chunks: seq<seq<byte>>, rest: seq<byte>) returns (j: nat)
    requires AllSendable(frames) && Joined(chunks) + rest == Wire(frames)
    ensures var d := Received(chunks); j <= |frames| && At(frames, j, d.reader, rest) && d.handled == Bodies(frames[..j])
    decreases |chunks|
  {
    hide Wire, Bodies, Drain;
    if chunks == [] {
      j := 0;
      assert frames[0..] == frames && [] + rest == rest;
      NoBodies(frames);
    } else {
      var n := |chunks| - 1;
      assert Joined(chunks[..n]) + (chunks[n] + rest) == Joined(chunks) + rest;
      var i := DeframingFollows(frames, chunks[..n], chunks[n] + rest);
      var d := Received(chunks[..n]);
      var r := d.reader.(buffer := d.reader.buffer + chunks[n]);
      assert r.buffer + rest == d.reader.buffer + (chunks[n] + rest);
      j := DrainFollows(frames, i, r, rest);
    }
  }

  lemma {:induction false} NoBodies(frames: seq<Frame>)
    ensures Bodies(frames[..0]) == []
  {
  }

  // The loops of processRead over the pieces the socket delivers.
  method ProcessRead(chunks: seq<seq<byte>>) returns (d: Drained)
    ensures d == Received(chunks)
  {
    hide Drain;
    var r, handled := FRESH, [];
    for i := 0 to |chunks|
      invariant Drained(r, handled) == Received(chunks[..i])
    {
      assert chunks[..i + 1][..i] == chunks[..i];
      var e := DrainBuffer(r.(buffer := r.buffer + chunks[i]));
      r, handled := e.reader, handled + e.handled;
    }
    assert chunks[..|chunks|] == chunks;
    d := Drained(r, handled);
  }

  method DrainBuffer(r: Reader) returns (d: Drained)
    ensures d == Drain(r)
  {
    hide AsI64, AsI32;
    var offset: int64, size: int32, msgbuf, handled := r.offset, r.size, r.buffer, [];
    while true
      invariant Drain(r) == Ahead(handled, Drain(Reader(msgbuf, offset, size)))
      decreases |msgbuf| + (if size == 0 then 0 else HEADER)
    {
      ghost var before := Drain(Reader(msgbuf, offset, size));
      if size == 0 && |msgbuf| >= HEADER {
        offset, size := AsI64(msgbuf[..8]), AsI32(msgbuf[8..12]);
        msgbuf := msgbuf[HEADER..];
      }
      if size > 0 && |msgbuf| >= size {
        var frame := Frame(offset, msgbuf[..size]);
        msgbuf := msgbuf[size..];
        size := 0;
        AheadTwice(handled, frame, Drain(Reader(msgbuf, offset, size)));
        assert before == Ahead([frame], Drain(Reader(msgbuf, offset, size)));
        handled := handled + [frame];
      } else {
        return Drained(Reader(msgbuf, offset, size), handled);
      }
    }
  }

  function Ahead(fs: seq<Frame>, d: Drained): Drained { Drained(d.reader, fs + d.handled) }

  lemma {:induction false} AheadTwice(fs: seq<Frame>, f: Frame, d: Drained)
    ensures Ahead(fs, Ahead([f], d)) == Ahead(fs + [f], d)
  {
  }
}
