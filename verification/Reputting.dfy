// ReputMessageService.doReput over the mapped files, proved equal to the scan.

module Reputting {
  import opened Arithmetic
  import opened Bytes
  import opened MapedFiles
  import opened Parsing
  import opened Records
  import opened Recovering
  import opened Reput
  import opened Segments

  method ReadData(c: Codec, b: MappedByteBuffer, total: int, start: int, size: int) returns (r: Progress)
    requires b.Valid() && b.readPos <= b.writePos == b.len && size > 0
    modifies b`readPos
    ensures r == ReadOn(c, old(b.Unread()), total, start, size)
  {
    hide Parse, RollNextFile;
    var readSize, from, doNext, requests := 0, start, true, [];
    ghost var whole := ReadOn(c, b.Unread(), total, start, size);
    while readSize < total && doNext
      invariant b.readPos <= b.writePos == b.len
      invariant if doNext then whole == Ahead(requests, ReadOn(c, b.Unread(), total - readSize, from, size))
                else whole == Progress(requests, from, false)
      decreases doNext, if readSize < total then 1 else 0, b.len - b.readPos
    {
      ghost var s := b.Unread();
      var p := CheckMessageAndReturnSize(c, b, false, false);
      if p.Panic? {
        return ReputPanic;
      }
      assert b.Unread() == s[p.consumed..];
      var n := p.request.msgSize;
      if n > 0 {
        AheadTwice(requests, [p.request], ReadOn(c, b.Unread(), total - readSize - n, from + n, size));
        requests := requests + [p.request];
        from := from + n;
        readSize := readSize + n;
      } else if n == -1 {
        doNext := false;
      } else if n == 0 {
        from := RollNextFile(from, size);
        readSize := total;
      }
    }
    r := Progress(requests, from, doNext);
  }

  lemma {:induction false} AheadTwice(rs: seq<DispatchRequest>, qs: seq<DispatchRequest>, p: Progress)
    ensures Ahead(rs, Ahead(qs, p)) == Ahead(rs + qs, p)
  {
    if p.Progress? { assert rs + (qs + p.requests) == (rs + qs) + p.requests; }
  }

  method SelectData(q: MapedFileQueue, offset: int) returns (start: int, b: MappedByteBuffer?)
    requires q.Valid() && forall i :: 0 <= i < |q.files| ==> q.files[i].writePos <= q.size
    ensures match GetData(q.View(), q.size, offset)
            case None => b == null
            case Some(d) => && b != null && fresh(b) && start == d.start && b.Valid() && b.readPos <= b.writePos == b.len
                            && b.Unread() == d.bytes
  {
    hide Rem;
    var i, f := q.FindMapedFileByOffset(offset, offset == 0);
    var pos := Rem(offset, q.size);
    if f == null || !(0 <= pos < f.wrote) || pos > f.writePos || !f.available {
      return 0, null;
    }
    b := BufferOf(f);
    b.readPos := pos;
    start := f.from + pos;
    assert b.Unread() == b.buf[..b.len][pos..];
  }

  method DoReputLoop(c: Codec, q: MapedFileQueue, from: int) returns (p: Progress)
    requires q.Valid() && Chain(q.View(), q.size) && from >= 0
    ensures p == DoReput(c, q.View(), q.size, from)
  {
    hide GetData, ReadOn, Chain;
    ghost var fs := q.View();
    WritePositions(fs, q.size);
    var at, requests := from, [];
    while true
      invariant at >= 0 && q.View() == fs
      invariant DoReput(c, fs, q.size, from) == Ahead(requests, DoReput(c, fs, q.size, at))
      decreases Max(0, MaxOffset(fs) - at)
    {
      DataForward(fs, q.size, at);
      var start, b := SelectData(q, at);
      if b == null {
        return Progress(requests, at, false);
      }
      ghost var s := b.Unread();
      ReadOnForward(c, s, |s|, start, q.size);
      var r := ReadData(c, b, b.len - b.readPos, start, q.size);
      if r.Progress? && r.doNext {
        AheadTwice(requests, r.requests, DoReput(c, fs, q.size, r.from));
        requests := requests + r.requests;
        at := r.from;
      } else {
        return Ahead(requests, r);
      }
    }
  }

  lemma {:induction false} WritePositions(fs: seq<File>, size: int)
    requires Chain(fs, size)
    ensures forall i :: 0 <= i < |fs| ==> fs[i].writePos <= size
  {
    forall i | 0 <= i < |fs| ensures fs[i].writePos <= size { assert Sound(fs[i], size); }
  }
}
