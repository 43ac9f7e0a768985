// The recovery loops of CommitLog over the mapped files, proved equal to the scan.

module Recovering {
  import opened Bytes
  import opened MapedFiles
  import opened Parsing
  import opened Records
  import opened Recovery
  import opened Segments

  // NewMappedByteBuffer over the written part of a file, ready to be read from its start.
  method BufferOf(f: MapedFile) returns (b: MappedByteBuffer)
    requires f.Valid() && f.writePos <= f.size
    ensures fresh(b) && b.Valid() && b.readPos == 0 && b.writePos == b.len && b.buf[..b.len] == Window(f.View())
  {
    var s := f.data[..f.writePos];
    var a := new byte[|s|](i requires 0 <= i < |s| => s[i]);
    b := new MappedByteBuffer(a, |s|);
    b.writePos := |s|;
  }

  // The same for file i of a queue.
  method BufferAt(q: MapedFileQueue, i: nat) returns (b: MappedByteBuffer)
    requires q.Valid() && Bounded(q) && i < |q.files|
    ensures fresh(b) && b.readPos == 0 && Reading(b, Window(q.View()[i]))
  {
    b := BufferOf(q.files[i]);
  }

  lemma {:induction false} ScanStep(c: Codec, fs: seq<File>, cur: nat, index: int, rp: nat, off: int, crc: bool, body: bool)
    requires cur < |fs| && -1 <= index < |fs| && rp <= |Window(fs[cur])|
    ensures ScanFiles(c, fs, cur, index, rp, off, crc, body) ==
      match Parse(c, Window(fs[cur])[rp..], crc, body)
      case Panic => ScanPanic
      case Parsed(request, consumed) =>
        if request.msgSize > 0 then
          Prepend([request], ScanFiles(c, fs, cur, index, rp + consumed, off + request.msgSize, crc, body))
        else if request.msgSize == -1 || (request.msgSize == 0 && index + 1 >= |fs|) then Scan([], fs[cur].from + off)
        else if request.msgSize == 0 then ScanFiles(c, fs, index + 1, index + 1, 0, 0, crc, body)
        else ScanFiles(c, fs, cur, index, rp + consumed, off, crc, body)
  {
    hide Window, Parse;
  }

  lemma {:induction false} PrependEnds(rs: seq<DispatchRequest>, offset: int)
    ensures Prepend(rs, Scan([], offset)) == Scan(rs, offset) && Prepend(rs, ScanPanic) == ScanPanic
  {
  }

  // The buffer shows s and has been read as far as its read position.
  ghost predicate Reading(b: MappedByteBuffer, s: seq<byte>)
    reads b, b.buf
  {
    b.Valid() && b.readPos <= b.writePos == b.len && b.buf[..b.len] == s
  }

  method ReadRecord(c: Codec, b: MappedByteBuffer, crc: bool, body: bool, ghost s: seq<byte>) returns (r: Parsed)
    requires Reading(b, s) && b.readPos <= |s|
    modifies b`readPos
    ensures r == Parse(c, s[old(b.readPos)..], crc, body)
    ensures r.Parsed? ==> Reading(b, s) && b.readPos == old(b.readPos) + r.consumed <= |s|
  {
    hide Parse;
    assert b.Unread() == s[b.readPos..];
    r := CheckMessageAndReturnSize(c, b, crc, body);
  }

  lemma {:induction false} FromOf(q: MapedFileQueue, i: nat)
    requires q.Valid() && i < |q.files|
    ensures |q.View()| == |q.files| && q.View()[i].from == q.files[i].from
  {
  }

  // What one record does to the scan as a whole.
  lemma {:induction false} ScanOn(c: Codec, fs: seq<File>, cur: nat, index: int, rp: nat, off: int, crc: bool, body: bool,
                                  requests: seq<DispatchRequest>, r: Parsed, scan: Scan)
    requires cur < |fs| && -1 <= index < |fs| && rp <= |Window(fs[cur])| && r == Parse(c, Window(fs[cur])[rp..], crc, body)
    requires scan == Prepend(requests, ScanFiles(c, fs, cur, index, rp, off, crc, body))
    ensures match r
            case Panic => scan == ScanPanic
            case Parsed(request, consumed) =>
              && rp + consumed <= |Window(fs[cur])|
              && var size := request.msgSize;
                 if size > 0 then
                   consumed > 0 && scan
                     == Prepend(requests + [request], ScanFiles(c, fs, cur, index, rp + consumed, off + size, crc, body))
                 else if size == -1 || (size == 0 && index + 1 >= |fs|) then scan == Scan(requests, fs[cur].from + off)
                 else if size == 0 then scan == Prepend(requests, ScanFiles(c, fs, index + 1, index + 1, 0, 0, crc, body))
                 else consumed > 0 && scan == Prepend(requests, ScanFiles(c, fs, cur, index, rp + consumed, off, crc, body))
  {
    hide Window, Parse, ScanFiles, Prepend;
    ScanStep(c, fs, cur, index, rp, off, crc, body);
    PrependEnds(requests, fs[cur].from + off);
    if r.Parsed? && r.request.msgSize > 0 {
      PrependTwice(requests, [r.request], ScanFiles(c, fs, cur, index, rp + r.consumed, off + r.request.msgSize, crc, body));
    }
  }

  // The loop of recoverNormally and recoverAbnormally from file `first` on.
  method Scanning(c: Codec, q: MapedFileQueue, first: nat, number: int, crc: bool, body: bool) returns (scan: Scan)
    requires q.Valid() && Bounded(q) && first < |q.files| && -1 <= number < |q.files|
    ensures scan == ScanFiles(c, q.View(), first, number, 0, 0, crc, body)
  {
    hide *;
    ghost var fs := q.View();
    ghost var whole := ScanFiles(c, fs, first, number, 0, 0, crc, body);
    var cur, index, off, requests := first, number, 0, [];
    var b := BufferAt(q, cur);
    PrependNothing(whole);
    while true
      invariant 0 <= cur < |fs| && -1 <= index < |fs| && fresh(b) && q.View() == fs
      invariant Reading(b, Window(fs[cur])) && b.readPos <= |Window(fs[cur])|
      invariant whole == Prepend(requests, ScanFiles(c, fs, cur, index, b.readPos, off, crc, body))
      decreases |fs| - index, |Window(fs[cur])| - b.readPos
    {
      ghost var rp := b.readPos;
      var r := ReadRecord(c, b, crc, body, Window(fs[cur]));
      ScanOn(c, fs, cur, index, rp, off, crc, body, requests, r, whole);
      if r.Panic? {
        return ScanPanic;
      }
      FromOf(q, cur);
      var size := r.request.msgSize;
      if size > 0 {
        off := off + size;
        requests := requests + [r.request];
      } else if size == -1 {
        return Scan(requests, q.files[cur].from + off);
      } else if size == 0 {
        index := index + 1;
        if index >= |q.files| {
          return Scan(requests, q.files[cur].from + off);
        }
        cur, off := index, 0;
        b := BufferAt(q, cur);
      }
    }
  }

  // CommitLog.recoverNormally; false stands for the panic on bytes that are no log.
  method RecoverNormally(c: Codec, q: MapedFileQueue, checkCRC: bool) returns (ok: bool)
    requires q.Valid() && (forall i :: 0 <= i < |q.files| ==> q.files[i].writePos <= q.size && q.files[i].from >= 0)
    modifies q, q.files
    ensures q.Valid()
    ensures old(q.files) == [] ==> ok && q.files == []
    ensures old(q.files) != [] ==>
      var fs := old(q.View());
      var scan := ScanFiles(c, fs, Max(0, |fs| - 3), Max(0, |fs| - 3), 0, 0, checkCRC, checkCRC);
      && ok == scan.Scan?
      && (ok ==> q.committedWhere == scan.offset && q.View() == Truncate(fs, q.size, scan.offset))
  {
    hide ScanFiles, Truncate;
    if q.files == [] {
      return true;
    }
    ghost var fs := q.View();
    var index := |q.files| - 3;
    if index < 0 {
      index := 0;
    }
    var scan := Scanning(c, q, index, index, checkCRC, checkCRC);
    if scan.ScanPanic? {
      return false;
    }
    ScanForward(c, q.View(), index, index, 0, 0, checkCRC, checkCRC);
    q.committedWhere := scan.offset;
    assert q.View() == fs;
    q.TruncateDirtyFiles(scan.offset);
    ok := true;
  }

  // CommitLog.isMapedFileMatchedRecover with the checkpoint's timestamp.
  predicate Matched(f: File, checkpoint: int64) {
    var s := Window(f);
    s != [] && R32(s, 4) == MESSAGE_MAGIC && R64(s, 56) != 0 && R64(s, 56) <= checkpoint
  }

  // The last file whose first record is not newer than the checkpoint, or the first file.
  function RecoverFrom(fs: seq<File>, checkpoint: int64): (p: nat)
    requires fs != []
    ensures p < |fs| && (p == 0 || Matched(fs[p], checkpoint))
    ensures forall i :: p < i < |fs| ==> !Matched(fs[i], checkpoint)
  {
    var n := |fs| - 1;
    if n == 0 || Matched(fs[n], checkpoint) then n else RecoverFrom(fs[..n], checkpoint)
  }

  lemma {:induction false} FromBack(fs: seq<File>, p: nat, checkpoint: int64)
    requires p < |fs|
    ensures RecoverFrom(fs[..p + 1], checkpoint)
         == if p == 0 || Matched(fs[p], checkpoint) then p else RecoverFrom(fs[..p], checkpoint)
  {
    hide Matched;
    assert fs[..p + 1][..p] == fs[..p];
  }

  // The search for the start file, from the back.  `index` runs one ahead of the file found.
  method FindStartFile(q: MapedFileQueue, checkpoint: int64) returns (p: nat, index: int)
    requires q.Valid() && q.files != [] && forall i :: 0 <= i < |q.files| ==> q.files[i].writePos <= q.size
    ensures p == RecoverFrom(q.View(), checkpoint) && index == p - 1
  {
    hide Matched, Window, RecoverFrom;
    ghost var fs := q.View();
    assert fs[..|fs|] == fs;
    p, index := |q.files|, |q.files| - 1;
    while true
      invariant 0 < p <= |fs| && index == p - 1
      invariant RecoverFrom(fs, checkpoint) == RecoverFrom(fs[..p], checkpoint)
      decreases p
    {
      p := p - 1;
      index := index - 1;
      FromBack(fs, p, checkpoint);
      var matched := IsMapedFileMatchedRecover(q.files[p], checkpoint);
      if matched || p == 0 {
        return;
      }
    }
  }

  // The rest of CommitLog.recoverAbnormally: every record found is dispatched and the files
  // are cut where the scan stopped.
  method RecoverAbnormally(c: Codec, q: MapedFileQueue, checkCRC: bool, p: nat, index: int)
    returns (ok: bool, requests: seq<DispatchRequest>)
    requires q.Valid() && p < |q.files| && -1 <= index < |q.files|
    requires forall i :: 0 <= i < |q.files| ==> q.files[i].writePos <= q.size && q.files[i].from >= 0
    modifies q, q.files
    ensures q.Valid()
    ensures var scan := ScanFiles(c, old(q.View()), p, index, 0, 0, checkCRC, true);
            && ok == scan.Scan?
            && (ok ==> && requests == scan.requests && q.committedWhere == scan.offset
                       && q.View() == Truncate(old(q.View()), q.size, scan.offset))
  {
    hide ScanFiles, Truncate;
    ghost var fs := q.View();
    var scan := Scanning(c, q, p, index, checkCRC, true);
    if scan.ScanPanic? {
      return false, [];
    }
    ScanForward(c, fs, p, index, 0, 0, checkCRC, true);
    q.committedWhere := scan.offset;
    assert q.View() == fs;
    q.TruncateDirtyFiles(scan.offset);
    return true, scan.requests;
  }

  method IsMapedFileMatchedRecover(f: MapedFile, checkpoint: int64) returns (matched: bool)
    requires f.Valid() && f.writePos <= f.size
    ensures matched == Matched(f.View(), checkpoint)
  {
    var s := f.data[..f.writePos];
    if s == [] {
      return false;
    }
    if R32(s, 4) != MESSAGE_MAGIC {
      return false;
    }
    var storeTimestamp := R64(s, 56);
    if storeTimestamp == 0 {
      return false;
    }
    return storeTimestamp <= checkpoint;
  }
}
