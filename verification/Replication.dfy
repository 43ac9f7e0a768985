// Master and slave: frames of log bytes one way, acknowledged offsets the other.

module SlaveLog {
  import opened Arithmetic
  import opened Bytes
  import opened MapedFiles
  import opened Segments

  datatype Appended = Appended(fs: seq<File>, ok: bool)

  // MapedFile.appendMessage on the last file.
  function PutBytes(fs: seq<File>, size: int, d: seq<byte>): Appended
    requires fs != []
  {
    var f := fs[|fs| - 1];
    if f.wrote + |d| <= size && 0 <= f.writePos && f.writePos + |d| <= |f.data| then Appended(WithLast(fs, AppendTo(f, d)), true)
    else Appended(fs, false)
  }

  // CommitLog.appendData: what does not fit the last file goes to the start of the next.
  function AppendData(fs: seq<File>, size: int, start: int, d: seq<byte>, c1: seq<byte>, c2: seq<byte>): Appended
    requires size > 0
  {
    var gs := EnsureLast(fs, size, start, c1);
    var room := size - gs[|gs| - 1].writePos;
    if 0 <= room < |d| then
      var hs := PutBytes(gs, size, d[..room]).fs;
      PutBytes(EnsureLast(hs, size, start + room, c2), size, d[room..])
    else PutBytes(gs, size, d)
  }

  lemma {:induction false} PutBytesAppends(fs: seq<File>, size: int, d: seq<byte>)
    requires Chain(fs, size) && fs != [] && fs[|fs| - 1].wrote + |d| <= size
    ensures var r := PutBytes(fs, size, d);
            && r.ok && Chain(r.fs, size) && r.fs != [] && Flat(r.fs) == Flat(fs) + d && r.fs[0].from == fs[0].from
            && r.fs[|r.fs| - 1].wrote == fs[|fs| - 1].wrote + |d|
  {
    hide Flat, Aligned, Overwrite;
    var f := fs[|fs| - 1];
    assert Sound(f, size);
    AppendLast(fs, size, d, f.storeTimestamp);
    hide Chain;
  }

  // The bytes are appended to the flat space, whole, wherever the file boundary falls.
  lemma {:induction false} AppendDataAppends(fs: seq<File>, size: int, start: int, d: seq<byte>, c1: seq<byte>, c2: seq<byte>)
    requires Chain(fs, size) && start >= 0 && |c1| == size && |c2| == size && |d| <= size
    requires fs == [] ==> Aligned(start, size)
    ensures var r := AppendData(fs, size, start, d, c1, c2);
            && r.ok && Chain(r.fs, size) && r.fs != [] && Flat(r.fs) == Flat(fs) + d
            && r.fs[0].from == if fs == [] then start else fs[0].from
  {
    hide Flat, Aligned, EnsureLast, PutBytes, Rem;
    var gs := EnsureLast(fs, size, start, c1);
    EnsureLastKeeps(fs, size, start, c1);
    var last := gs[|gs| - 1];
    assert Sound(last, size);
    if fs == [] { StartsThere(start, size, c1); }
    var room := size - last.writePos;
    if |d| > room {
      SplitAppend(gs, size, start + room, d, room, c2);
    } else {
      PutBytesAppends(gs, size, d);
    }
  }

  lemma {:induction false} StartsThere(start: int, size: int, c: seq<byte>)
    requires size > 0 && start >= 0 && Aligned(start, size)
    ensures EnsureLast([], size, start, c)[0].from == start
  {
    RemInFile(start, size, start);
  }

  lemma {:induction false} SplitAppend(gs: seq<File>, size: int, start: int, d: seq<byte>, room: nat, c2: seq<byte>)
    requires Chain(gs, size) && gs != [] && start >= 0 && |c2| == size && room == size - gs[|gs| - 1].wrote < |d| <= size
    ensures var hs := PutBytes(gs, size, d[..room]).fs;
            && hs != [] && var r := PutBytes(EnsureLast(hs, size, start, c2), size, d[room..]);
               && r.ok && Chain(r.fs, size) && r.fs != [] && Flat(r.fs) == Flat(gs) + d && r.fs[0].from == gs[0].from
  {
    hide Flat, Aligned, PutBytes, Rem;
    PutBytesAppends(gs, size, d[..room]);
    var hs := PutBytes(gs, size, d[..room]).fs;
    EnsureLastKeeps(hs, size, start, c2);
    var ks := EnsureLast(hs, size, start, c2);
    assert ks[|ks| - 1].wrote == 0;
    hide Chain, EnsureLast;
    PutBytesAppends(ks, size, d[room..]);
    assert Flat(gs) + d[..room] + d[room..] == Flat(gs) + d by { assert d[..room] + d[room..] == d; }
  }

  method AppendDataIn(q: MapedFileQueue, start: int, d: seq<byte>, c1: seq<byte>, c2: seq<byte>) returns (ok: bool)
    requires q.Valid() && Chain(q.View(), q.size) && start >= 0 && |c1| == q.size && |c2| == q.size && |d| <= q.size
    modifies q`files, q.files
    ensures q.Valid() && Appended(q.View(), ok) == AppendData(old(q.View()), q.size, start, d, c1, c2)
  {
    hide Flat, Rem, PutBytes, Chain, EnsureLast;
    var f := LastFile(q, start, c1);
    var size := q.size - f.writePos;
    if |d| > size {
      FillLast(q, f, d[..size]);
      ok := AppendNext(q, start + size, d[size..], c2);
    } else {
      ok := PutInLast(q, f, d);
    }
  }

  // The part that fits the last file.
  method FillLast(q: MapedFileQueue, f: MapedFile, d: seq<byte>)
    requires q.Valid() && Chain(q.View(), q.size) && q.files != [] && f == q.files[|q.files| - 1] && f.wrote + |d| <= q.size
    modifies f`wrote, f`data, f`writePos
    ensures q.Valid() && Chain(q.View(), q.size) && q.View() == PutBytes(old(q.View()), q.size, d).fs
  {
    hide Flat, PutBytes, Chain;
    PutBytesAppends(q.View(), q.size, d);
    var _ := PutInLast(q, f, d);
  }

  method AppendNext(q: MapedFileQueue, start: int, d: seq<byte>, contents: seq<byte>) returns (ok: bool)
    requires q.Valid() && Chain(q.View(), q.size) && start >= 0 && |contents| == q.size && q.files != []
    modifies q`files, q.files[|q.files| - 1]
    ensures q.Valid() && Appended(q.View(), ok) == PutBytes(EnsureLast(old(q.View()), q.size, start, contents), q.size, d)
  {
    hide Flat, PutBytes, Chain, EnsureLast;
    var f := LastFile(q, start, contents);
    ok := PutInLast(q, f, d);
  }

  method PutInLast(q: MapedFileQueue, f: MapedFile, d: seq<byte>) returns (ok: bool)
    requires q.Valid() && q.files != [] && f == q.files[|q.files| - 1]
    modifies f`wrote, f`data, f`writePos
    ensures q.Valid() && Appended(q.View(), ok) == PutBytes(old(q.View()), q.size, d)
  {
    hide Overwrite;
    ok := f.AppendMessage(d);
    q.OnlyLastChanged(f);
    assert ok || WithLast(old(q.View()), f.View()) == old(q.View());
  }

  method LastFile(q: MapedFileQueue, start: int, contents: seq<byte>) returns (f: MapedFile)
    requires q.Valid() && Chain(q.View(), q.size) && start >= 0 && |contents| == q.size
    modifies q`files
    ensures q.Valid() && Chain(q.View(), q.size) && q.files != [] && f == q.files[|q.files| - 1]
    ensures f.wrote == f.writePos < q.size
    ensures q.View() == EnsureLast(old(q.View()), q.size, start, contents)
    ensures q.files == old(q.files) || (q.files == old(q.files) + [f] && fresh(f))
  {
    hide Flat, Aligned, Rem;
    ghost var fs := q.View();
    assert fs != [] ==> Sound(fs[|fs| - 1], q.size);
    EnsureLastKeeps(fs, q.size, start, contents);
    f := q.GetLastMapedFile(start, true, contents);
    ghost var gs := q.View();
    assert Sound(gs[|gs| - 1], q.size);
  }
}

module Replication {
  import opened Arithmetic
  import opened Bytes
  import opened Framing
  import opened Reput
  import opened Segments
  import opened SlaveLog

  // One connection as both ends see it: the offset the slave asked for and the next one the
  // master will send (-1 while unknown), frames and acknowledgements under way.
  datatype Conn = Conn(request: int, next: int, frames: seq<Frame>, acks: seq<int>)

  // history is every byte the master ever logged; `seeded` is the slave's report buffer
  // before its first report, which carries eight zero bytes.
  datatype Pair = Pair(
    history: seq<byte>, master: seq<File>, slave: seq<File>, reported: int, seeded: bool, conn: Option<Conn>, pushed: int)

  datatype Step =
    | MasterAppends(files: seq<File>, d: seq<byte>) | MasterExpires(n: nat) | Connect | Beat | ReadAcks(k: nat)
    | Send(batch: nat) | Deliver(c1: seq<byte>, c2: seq<byte>) | Disconnect

  // The master's files hold the history from the first file on.
  ghost predicate LogOf(fs: seq<File>, size: int, history: seq<byte>) {
    && Chain(fs, size) && (forall i :: 0 <= i < |fs| ==> fs[i].available) && |history| < 0x8000_0000_0000_0000
    && (fs == [] ==> history == []) && 0 <= BaseOf(fs) <= |history| && Flat(fs) == history[BaseOf(fs)..]
  }

  // The slave has no file, or exactly the history's bytes between two offsets, of which the
  // second is not 0; its files may still be empty if they do not start at 0.
  ghost predicate CopyOf(fs: seq<File>, size: int, history: seq<byte>) {
    fs == [] ||
    (&& Chain(fs, size) && MaxOffset(fs) > 0 && 0 <= fs[0].from && fs[0].from + |Flat(fs)| <= |history|
     && Flat(fs) == history[fs[0].from..fs[0].from + |Flat(fs)|])
  }

  // Where a slave without data is served from.
  function Start(full: bool, fs: seq<File>, size: int): int
    requires size > 0
  {
    Max(0, if full then MinOffset(fs) else MaxOffset(fs) - Rem(MaxOffset(fs), size))
  }

  // updateNextTransferOffset
  function NextOffset(full: bool, fs: seq<File>, size: int, c: Conn): int
    requires size > 0
  {
    if c.next != -1 then c.next else if c.request == 0 then Start(full, fs, size) else c.request
  }

  // buildData
  function BuildData(full: bool, fs: seq<File>, size: int, c: Conn, batch: nat): Conn
    requires size > 0
  {
    var from := NextOffset(full, fs, size, c);
    match GetData(fs, size, from)
    case None => c.(next := from, frames := c.frames + [Frame(Wrap64(from), [])])
    case Some(d) =>
      var n := Min(|d.bytes|, batch);
      c.(next := from + n, frames := c.frames + [Frame(Wrap64(from), d.bytes[..n])])
  }

  // handleMessageBody: a frame that does not continue the slave's log ends the connection.
  function Handle(s: Pair, size: int, c: Conn, c1: seq<byte>, c2: seq<byte>): Pair
    requires size > 0 && c.frames != []
  {
    var f, rest := c.frames[0], c.(frames := c.frames[1..]);
    if f.body == [] then s.(conn := Some(rest))
    else if MaxOffset(s.slave) != 0 && MaxOffset(s.slave) != f.offset then s.(conn := None)
    else
      var fs := AppendData(s.slave, size, f.offset, f.body, c1, c2).fs;
      var end := MaxOffset(fs);
      if end > s.reported then s.(slave := fs, reported := end, conn := Some(rest.(acks := rest.acks + [end])))
      else s.(slave := fs, conn := Some(rest))
  }

  ghost function Next(size: int, full: bool, s: Pair, step: Step): Pair
    requires size > 0
  {
    match step
    case MasterAppends(files, d) =>
      if LogOf(files, size, s.history + d) && BaseOf(files) == BaseOf(s.master)
      then s.(master := files, history := s.history + d) else s
    case MasterExpires(n) =>
      if n < |s.master| && !(s.conn.Some? && s.conn.value.next == 0) then s.(master := s.master[n..]) else s
    case Connect =>
      if s.conn.Some? then s
      else
        var end := MaxOffset(s.slave);
        s.(conn := Some(Conn(-1, -1, [], (if s.seeded then [0] else []) + [end])), reported := end, seeded := false)
    case Beat => if s.conn.None? then s else s.(conn := Some(s.conn.value.(acks := s.conn.value.acks + [s.reported])))
    case ReadAcks(k) =>
      if s.conn.None? || !(0 < k <= |s.conn.value.acks|) then s
      else
        var c, ack := s.conn.value, s.conn.value.acks[k - 1];
        s.(conn := Some(c.(request := if c.request < 0 then ack else c.request, acks := c.acks[k..])), pushed := Max(s.pushed, ack))
    case Send(batch) =>
      if s.conn.None? then s else s.(conn := Some(BuildData(full, s.master, size, s.conn.value, batch)))
    case Deliver(c1, c2) =>
      if s.conn.None? || s.conn.value.frames == [] || |c1| != size || |c2| != size then s
      else Handle(s, size, s.conn.value, c1, c2)
    case Disconnect => s.(conn := None)
  }

  // Every frame under way carries history bytes at its own offset.
  ghost predicate TrueFrame(f: Frame, size: int, history: seq<byte>) {
    f.body == [] || (f.offset >= 0 && |f.body| <= size && f.offset + |f.body| <= |history|
                     && f.body == history[f.offset..f.offset + |f.body|])
  }

  // The first data frame, under way or still to come, starts at a file boundary.
  ghost predicate StartsFile(frames: seq<Frame>, next: int, size: int)
    requires size > 0
  {
    if frames == [] then next == -1 || (next >= 0 && Aligned(next, size))
    else if frames[0].body != [] then Aligned(frames[0].offset, size)
    else StartsFile(frames[1..], next, size)
  }

  ghost predicate SoundConn(c: Conn, size: int, s: Pair)
    requires size > 0
  {
    && (forall i :: 0 <= i < |c.frames| ==> TrueFrame(c.frames[i], size, s.history))
    && (forall i :: 0 <= i < |c.acks| ==> 0 <= c.acks[i] <= MaxOffset(s.slave))
    && -1 <= c.request <= MaxOffset(s.slave) && -1 <= c.next <= |s.history|
    && (c.next == 0 ==> BaseOf(s.master) == 0)
    && (s.slave == [] ==> StartsFile(c.frames, c.next, size))
  }

  ghost predicate Inv(size: int, s: Pair) {
    && size > 0 && LogOf(s.master, size, s.history) && CopyOf(s.slave, size, s.history)
    && 0 <= s.pushed <= MaxOffset(s.slave) && 0 <= s.reported <= MaxOffset(s.slave)
    && (s.conn.Some? ==> SoundConn(s.conn.value, size, s))
  }

  // ---------------------------------------------------------------- sending

  lemma {:induction false} EndOf(fs: seq<File>, size: int, history: seq<byte>)
    ensures LogOf(fs, size, history) ==> MaxOffset(fs) == |history|
    ensures CopyOf(fs, size, history) ==> 0 <= MaxOffset(fs) <= |history| && (fs == [] <==> MaxOffset(fs) == 0)
    ensures CopyOf(fs, size, history) && fs != [] ==> MaxOffset(fs) == fs[0].from + |Flat(fs)|
  {
    hide Flat;
    if fs != [] && Chain(fs, size) { FlatLength(fs, size); }
  }

  // What getData finds is the history at that offset; at offset 0 only while the first file
  // is still there.
  lemma {:induction false} DataIsHistory(fs: seq<File>, size: int, history: seq<byte>, offset: int)
    requires size > 0 && LogOf(fs, size, history) && offset >= -1 && (offset == 0 ==> BaseOf(fs) == 0)
    ensures var d := GetData(fs, size, offset);
            d.Some? ==> && offset >= 0 && d.value.bytes != [] && |d.value.bytes| <= size
                        && offset + |d.value.bytes| <= |history| && d.value.bytes == history[offset..offset + |d.value.bytes|]
  {
    hide LogOf, GetData;
    if fs == [] || offset < fs[0].from {
      NothingBelow(fs, size, history, offset);
    } else {
      DataInside(fs, size, history, offset);
    }
  }

  lemma {:induction false} DataInside(fs: seq<File>, size: int, history: seq<byte>, offset: int)
    requires size > 0 && LogOf(fs, size, history) && fs != [] && offset >= fs[0].from
    ensures var d := GetData(fs, size, offset);
            d.Some? ==> && offset >= 0 && d.value.bytes != [] && |d.value.bytes| <= size
                        && offset + |d.value.bytes| <= |history| && d.value.bytes == history[offset..offset + |d.value.bytes|]
  {
    hide Flat, InFile, GetData, Window;
    if offset >= MaxOffset(fs) {
      NoDataAt(fs, size, offset);
    } else {
      var i := DataAt(fs, size, offset);
      FileIsHistory(fs, size, history, i);
      hide LogOf, Chain;
      var f := fs[i];
      assert history[f.from..f.from + f.wrote][offset - f.from..] == history[offset..f.from + f.wrote];
    }
  }

  lemma {:induction false} NothingBelow(fs: seq<File>, size: int, history: seq<byte>, offset: int)
    requires size > 0 && LogOf(fs, size, history) && offset >= -1 && (offset == 0 ==> BaseOf(fs) == 0)
    requires fs == [] || offset < fs[0].from
    ensures GetData(fs, size, offset) == None
  {
    hide Flat, InFile;
    if fs != [] && offset < 0 { LookupNegative(fs, size, offset); }
    if fs != [] && offset >= 0 { LookupMisses(fs, size, offset); }
  }

  lemma {:induction false} FileIsHistory(fs: seq<File>, size: int, history: seq<byte>, i: nat)
    requires LogOf(fs, size, history) && i < |fs|
    ensures 0 <= fs[i].from && 0 <= fs[i].wrote <= size && fs[i].from + fs[i].wrote <= |history|
    ensures Window(fs[i]) == history[fs[i].from..fs[i].from + fs[i].wrote]
  {
    hide Flat, Window, Written;
    EndOf(fs, size, history);
    FileEnd(fs, size, i);
    FlatSlice(fs, size, i);
    WindowOf(fs[i], size);
    hide Chain;
    var p := fs[i].from - fs[0].from;
    assert history[fs[0].from..][p..p + fs[i].wrote] == history[fs[i].from..fs[i].from + fs[i].wrote];
  }

  // The bytes sent for offset 0 once the first file has expired: the first bytes that are
  // left, under the wrong offset.
  lemma {:induction false} LostZeroIsMislabelled(fs: seq<File>, size: int, history: seq<byte>)
    requires size > 0 && LogOf(fs, size, history) && fs != [] && fs[0].from > 0 && fs[0].wrote > 0
    ensures fs[0].from + fs[0].wrote <= |history|
    ensures GetData(fs, size, 0) == Some(Data(fs[0].from, history[fs[0].from..fs[0].from + fs[0].wrote]))
  {
    hide Flat, InFile, Window;
    assert Sound(fs[0], size);
    LookupMisses(fs, size, 0);
    FileIsHistory(fs, size, history, 0);
    hide Chain;
    assert Rem(0, size) == 0;
    assert Window(fs[0])[0..] == Window(fs[0]);
  }

  lemma {:induction false} StartAligned(full: bool, fs: seq<File>, size: int, history: seq<byte>)
    requires size > 0 && LogOf(fs, size, history)
    ensures var at := Start(full, fs, size); 0 <= at <= |history| && Aligned(at, size) && (at == 0 ==> BaseOf(fs) == 0)
  {
    hide Flat;
    EndOf(fs, size, history);
    DivBounds(MaxOffset(fs), size);
    if fs != [] {
      assert Sound(fs[0], size);
      DivBounds(fs[0].from, size);
      MulOrder(MaxOffset(fs) / size, 0, size);
      MulOrder(1, fs[0].from / size, size);
      MulOrder(MaxOffset(fs) / size + 1, fs[0].from / size, size);
    }
    AlignedFloor(MaxOffset(fs), size);
  }

  lemma {:induction false} AlignedFloor(n: nat, size: int)
    requires size > 0
    ensures 0 <= n - Rem(n, size) <= n && Aligned(n - Rem(n, size), size) && Aligned(0, size)
  {
    DivBounds(n, size);
    MulOrder(0, n / size, size);
    DivUnique(n - n % size, n / size, size);
    DivUnique(0, 0, size);
  }

  // ---------------------------------------------------------------- every step keeps it

  lemma {:induction false} AppendsKeeps(size: int, s: Pair, files: seq<File>, d: seq<byte>)
    requires Inv(size, s) && LogOf(files, size, s.history + d) && BaseOf(files) == BaseOf(s.master)
    ensures Inv(size, s.(master := files, history := s.history + d))
  {
    hide LogOf, StartsFile, Flat, Chain;
    var h := s.history + d;
    CopyStays(s.slave, size, s.history, d);
    if s.conn.Some? {
      var c := s.conn.value;
      forall i | 0 <= i < |c.frames| ensures TrueFrame(c.frames[i], size, h) {
        FrameStays(c.frames[i], size, s.history, d);
      }
    }
    hide CopyOf, TrueFrame;
  }

  lemma {:induction false} CopyStays(fs: seq<File>, size: int, history: seq<byte>, d: seq<byte>)
    requires CopyOf(fs, size, history)
    ensures CopyOf(fs, size, history + d)
  {
    hide Flat, Chain;
    if fs != [] {
      var a, b := fs[0].from, fs[0].from + |Flat(fs)|;
      assert (history + d)[a..b] == history[a..b];
    }
  }

  lemma {:induction false} FrameStays(f: Frame, size: int, history: seq<byte>, d: seq<byte>)
    requires TrueFrame(f, size, history)
    ensures TrueFrame(f, size, history + d)
  {
    if f.body != [] {
      assert (history + d)[f.offset..f.offset + |f.body|] == history[f.offset..f.offset + |f.body|];
    }
  }

  lemma {:induction false} ExpiresKeeps(size: int, s: Pair, n: nat)
    requires Inv(size, s) && n < |s.master| && !(s.conn.Some? && s.conn.value.next == 0)
    ensures Inv(size, s.(master := s.master[n..]))
  {
    hide CopyOf, StartsFile, TrueFrame;
    LogExpires(s.master, size, s.history, n);
    hide LogOf;
  }

  lemma {:induction false} LogExpires(fs: seq<File>, size: int, history: seq<byte>, n: nat)
    requires LogOf(fs, size, history) && n < |fs|
    ensures LogOf(fs[n..], size, history)
  {
    hide Flat;
    DropFiles(fs, size, n);
    hide Chain;
    TailOfTail(history, fs[0].from, fs[n].from - fs[0].from);
  }

  lemma {:induction false} SendKeeps(size: int, full: bool, s: Pair, batch: nat)
    requires Inv(size, s) && s.conn.Some?
    ensures Inv(size, s.(conn := Some(BuildData(full, s.master, size, s.conn.value, batch))))
  {
    hide CopyOf, StartsFile, Start, GetData, LogOf, Aligned, TrueFrame;
    var c := s.conn.value;
    var from := NextOffset(full, s.master, size, c);
    EndOf(s.slave, size, s.history);
    StartAligned(full, s.master, size, s.history);
    DataIsHistory(s.master, size, s.history, from);
    assert s.slave == [] ==> from == -1 || from == c.next || Aligned(from, size);
    var r := BuildData(full, s.master, size, c, batch);
    var f := r.frames[|c.frames|];
    assert |s.history| < 0x8000_0000_0000_0000 by { HistoryBound(s.master, size, s.history); }
    SentFrame(s.master, size, s.history, from, batch, f);
    if s.slave == [] { StartsSnoc(c.frames, c.next, f, r.next, size, from); }
  }

  lemma {:induction false} HistoryBound(fs: seq<File>, size: int, history: seq<byte>)
    requires LogOf(fs, size, history)
    ensures |history| < 0x8000_0000_0000_0000
  {
  }

  lemma {:induction false} SentFrame(fs: seq<File>, size: int, history: seq<byte>, from: int, batch: nat, f: Frame)
    requires size > 0 && -1 <= from < 0x8000_0000_0000_0000
    requires var d := GetData(fs, size, from);
             if d.None? then f == Frame(Wrap64(from), [])
             else && from >= 0 && |d.value.bytes| <= size && from + |d.value.bytes| <= |history|
                  && d.value.bytes == history[from..from + |d.value.bytes|]
                  && f == Frame(Wrap64(from), d.value.bytes[..Min(|d.value.bytes|, batch)])
    ensures TrueFrame(f, size, history) && f.offset == from
  {
    hide GetData;
    var d := GetData(fs, size, from);
    if d.Some? {
      var n := Min(|d.value.bytes|, batch);
      assert history[from..from + |d.value.bytes|][..n] == history[from..from + n];
    }
  }

  lemma {:induction false} StartsSnoc(frames: seq<Frame>, next: int, f: Frame, next': int, size: int, from: int)
    requires size > 0 && StartsFile(frames, next, size)
    requires f.offset == from && (f.body == [] ==> next' == from) && from >= -1
    requires if next == -1 then from == -1 || Aligned(from, size) else from == next
    requires f.body != [] ==> from >= 0
    ensures StartsFile(frames + [f], next', size)
  {
    hide Aligned;
    if frames == [] {
      assert ([] + [f])[1..] == [];
    } else {
      assert (frames + [f])[1..] == frames[1..] + [f];
      if frames[0].body == [] { StartsSnoc(frames[1..], next, f, next', size, from); }
    }
  }

  ghost predicate SameStart(before: seq<File>, after: seq<File>) {
    before != [] ==> after != [] && after[0].from == before[0].from
  }

  lemma {:induction false} AppendsCopy(size: int, s: Pair, f: Frame, c1: seq<byte>, c2: seq<byte>)
    requires size > 0 && CopyOf(s.slave, size, s.history) && f.body != [] && TrueFrame(f, size, s.history)
    requires if s.slave == [] then Aligned(f.offset, size) else MaxOffset(s.slave) == f.offset
    requires |c1| == size && |c2| == size
    ensures var fs := AppendData(s.slave, size, f.offset, f.body, c1, c2).fs;
            && CopyOf(fs, size, s.history) && fs != [] && MaxOffset(fs) == f.offset + |f.body|
            && SameStart(s.slave, fs)
  {
    EndOf(s.slave, size, s.history);
    if s.slave == [] { FlatOfNone(s.slave); }
    assert Chain(s.slave, size);
    var base := if s.slave == [] then f.offset else s.slave[0].from;
    assert Flat(s.slave) == s.history[base..f.offset];
    hide Flat, AppendData, Aligned, CopyOf;
    AppendDataAppends(s.slave, size, f.offset, f.body, c1, c2);
    hide Chain;
    GrownCopy(AppendData(s.slave, size, f.offset, f.body, c1, c2).fs, size, s.history, base, f);
  }

  lemma {:induction false} GrownCopy(fs: seq<File>, size: int, history: seq<byte>, base: nat, f: Frame)
    requires Chain(fs, size) && fs != [] && fs[0].from == base <= f.offset && f.body != [] && TrueFrame(f, size, history)
    requires Flat(fs) == history[base..f.offset] + f.body
    ensures CopyOf(fs, size, history) && MaxOffset(fs) == f.offset + |f.body|
  {
    hide Flat;
    FlatLength(fs, size);
    hide Chain;
    assert history[base..f.offset] + history[f.offset..f.offset + |f.body|] == history[base..f.offset + |f.body|];
  }

  lemma {:induction false} FlatOfNone(fs: seq<File>)
    requires fs == []
    ensures Flat(fs) == []
  {
  }

  lemma {:induction false} FirstFrameAligned(frames: seq<Frame>, next: int, size: int)
    requires size > 0 && StartsFile(frames, next, size) && frames != []
    ensures frames[0].body == [] ==> StartsFile(frames[1..], next, size)
    ensures frames[0].body != [] ==> Aligned(frames[0].offset, size)
  {
  }

  lemma {:induction false} DeliverKeeps(size: int, s: Pair, c1: seq<byte>, c2: seq<byte>)
    requires Inv(size, s) && s.conn.Some? && s.conn.value.frames != [] && |c1| == size && |c2| == size
    ensures var r := Handle(s, size, s.conn.value, c1, c2);
            Inv(size, r) && MaxOffset(r.slave) >= MaxOffset(s.slave) && SameStart(s.slave, r.slave)
  {
    hide CopyOf, StartsFile, LogOf, Aligned, TrueFrame, AppendData;
    var c := s.conn.value;
    var f := c.frames[0];
    EndOf(s.slave, size, s.history);
    assert TrueFrame(f, size, s.history);
    if s.slave == [] { FirstFrameAligned(c.frames, c.next, size); }
    if f.body != [] && (MaxOffset(s.slave) == 0 || MaxOffset(s.slave) == f.offset) {
      AppendsCopy(size, s, f, c1, c2);
      OffsetOf(f, size, s.history);
    }
  }

  lemma {:induction false} OffsetOf(f: Frame, size: int, history: seq<byte>)
    requires TrueFrame(f, size, history) && f.body != []
    ensures f.offset >= 0
  {
  }

  lemma {:induction false} OthersKeep(size: int, full: bool, s: Pair, step: Step)
    requires Inv(size, s) && (step.Connect? || step.Beat? || step.ReadAcks? || step.Disconnect?)
    ensures Inv(size, Next(size, full, s, step))
  {
    hide CopyOf, LogOf, Aligned, TrueFrame;
    EndOf(s.slave, size, s.history);
  }

  // Every step keeps the invariant, the slave's log only grows and the pushed offset too.
  lemma {:induction false} StepKeeps(size: int, full: bool, s: Pair, step: Step)
    requires Inv(size, s)
    ensures var r := Next(size, full, s, step);
            && Inv(size, r) && r.pushed >= s.pushed && MaxOffset(r.slave) >= MaxOffset(s.slave) && s.history <= r.history
            && SameStart(s.slave, r.slave)
  {
    assert size > 0;
    hide Inv, Handle, BuildData, LogOf, MaxOffset, Next;
    NextOf(size, full, s, step);
    match step
    case MasterAppends(files, d) =>
      if LogOf(files, size, s.history + d) && BaseOf(files) == BaseOf(s.master) { AppendsKeeps(size, s, files, d); }
    case MasterExpires(n) =>
      if n < |s.master| && !(s.conn.Some? && s.conn.value.next == 0) { ExpiresKeeps(size, s, n); }
    case Send(batch) => if s.conn.Some? { SendKeeps(size, full, s, batch); }
    case Deliver(c1, c2) =>
      if s.conn.Some? && s.conn.value.frames != [] && |c1| == size && |c2| == size {
        DeliverKeeps(size, s, c1, c2);
        HandleFrame(s, size, s.conn.value, c1, c2);
      }
    case Connect => OthersKeep(size, full, s, step);
    case Beat => OthersKeep(size, full, s, step);
    case ReadAcks(_) => OthersKeep(size, full, s, step);
    case Disconnect => OthersKeep(size, full, s, step);
  }

  // Only a delivery touches the slave's log, and only acknowledgements the pushed offset.
  lemma {:induction false} NextOf(size: int, full: bool, s: Pair, step: Step)
    requires size > 0
    ensures var r := Next(size, full, s, step);
            && (!step.Deliver? ==> r.slave == s.slave && r.pushed >= s.pushed && s.history <= r.history)
            && (match step
                case MasterAppends(files, d) =>
                  r == if LogOf(files, size, s.history + d) && BaseOf(files) == BaseOf(s.master)
                       then s.(master := files, history := s.history + d) else s
                case MasterExpires(n) =>
                  r == if n < |s.master| && !(s.conn.Some? && s.conn.value.next == 0) then s.(master := s.master[n..]) else s
                case Send(batch) =>
                  r == if s.conn.None? then s else s.(conn := Some(BuildData(full, s.master, size, s.conn.value, batch)))
                case Deliver(c1, c2) =>
                  r == if s.conn.None? || s.conn.value.frames == [] || |c1| != size || |c2| != size then s
                       else Handle(s, size, s.conn.value, c1, c2)
                case _ => true)
  {
    hide LogOf, BuildData, Handle, MaxOffset;
  }

  lemma {:induction false} HandleFrame(s: Pair, size: int, c: Conn, c1: seq<byte>, c2: seq<byte>)
    requires size > 0 && c.frames != []
    ensures var r := Handle(s, size, c, c1, c2); r.pushed == s.pushed && r.history == s.history
  {
    hide AppendData;
  }

  ghost function Run(size: int, full: bool, s: Pair, steps: seq<Step>): Pair
    requires size > 0
  {
    if steps == [] then s else Next(size, full, Run(size, full, s, steps[..|steps| - 1]), steps[|steps| - 1])
  }

  // Over every run the slave holds exactly the master's bytes on one range, growing at its
  // end, and the offset the master believes to be stored there never falls and never
  // exceeds it.
  lemma {:induction false} PrefixSafety(size: int, full: bool, s: Pair, steps: seq<Step>)
    requires Inv(size, s)
    ensures var r := Run(size, full, s, steps);
            && Inv(size, r) && CopyOf(r.slave, size, r.history)
            && s.pushed <= r.pushed <= MaxOffset(r.slave) <= |r.history|
            && MaxOffset(s.slave) <= MaxOffset(r.slave) && s.history <= r.history
            && SameStart(s.slave, r.slave) && (r.slave != [] ==> Aligned(r.slave[0].from, size))
  {
    hide LogOf, SoundConn, Next;
    if steps != [] {
      var front := steps[..|steps| - 1];
      PrefixSafety(size, full, s, front);
      StepKeeps(size, full, Run(size, full, s, front), steps[|steps| - 1]);
    }
    var r := Run(size, full, s, steps);
    EndOf(r.slave, size, r.history);
    if r.slave != [] { assert Sound(r.slave[0], size); }
    hide CopyOf;
  }

  // A master with any log and a slave with nothing or with a piece of it may start.
  lemma {:induction false} MayStart(size: int, history: seq<byte>, master: seq<File>, slave: seq<File>)
    requires size > 0 && LogOf(master, size, history) && CopyOf(slave, size, history)
    ensures Inv(size, Pair(history, master, slave, 0, true, None, 0))
  {
    hide LogOf;
    EndOf(slave, size, history);
  }

  // So a master with any log and a slave with nothing or with a piece of it, not connected yet,
  // are safe in every run: the slave's bytes are the master's.
  lemma {:induction false} SafeFromStart(size: int, full: bool, history: seq<byte>, master: seq<File>, slave: seq<File>, steps: seq<Step>)
    requires size > 0 && LogOf(master, size, history) && CopyOf(slave, size, history)
    ensures var r := Run(size, full, Pair(history, master, slave, 0, true, None, 0), steps);
            && CopyOf(r.slave, size, r.history) && history <= r.history
            && 0 <= r.pushed <= MaxOffset(r.slave) <= |r.history| && SameStart(slave, r.slave)
  {
    hide LogOf, CopyOf, Run, Inv;
    MayStart(size, history, master, slave);
    PrefixSafety(size, full, Pair(history, master, slave, 0, true, None, 0), steps);
  }

  // A slave with one empty file at b accepts the first data frame if b is 0 or the frame's own
  // offset, and stores it at b: it stands where it belongs exactly if b is its offset.  So the
  // one slave that stores bytes in the wrong place has an empty file at 0 and is served from
  // another offset.
  lemma {:induction false} EmptyFileExact(size: int, s: Pair, c: Conn, b: nat, contents: seq<byte>, c1: seq<byte>, c2: seq<byte>)
    requires size > 0 && |contents| == size && Aligned(b, size) && s.slave == [NewFile(b, contents, false)]
    requires c.frames != [] && 0 < |c.frames[0].body| <= size && c.frames[0].offset >= 0
    ensures var f, r := c.frames[0], Handle(s, size, c, c1, c2);
            && (r.conn.Some? <==> b == 0 || b == f.offset)
            && (r.conn.Some? ==> |r.slave| == 1 && r.slave[0].from == b && Flat(r.slave) == f.body && MaxOffset(r.slave) == b + |f.body|)
            && (r.conn.None? ==> r.slave == s.slave)
            && (r.conn.Some? && r.slave[0].from != f.offset <==> b == 0 && f.offset != 0)
  {
    hide Overwrite, Aligned;
    var f := c.frames[0];
    var file := s.slave[0];
    var r := AppendTo(file, f.body);
    assert r.data[..|f.body|] == f.body;
    assert EnsureLast(s.slave, size, f.offset, c1) == s.slave;
    assert WithLast(s.slave, r) == [r];
    FlatOfOne(r);
  }

  lemma {:induction false} FlatOfOne(r: File)
    ensures Flat([r]) == Written(r)
  {
    assert [r][..0] == [];
    assert Flat([r]) == Flat([]) + Written(r);
  }
}

module Acknowledging {
  import opened Bytes

  const ACK: int := 8

  // The slave's reports as they stand in the stream.
  function AckStream(acks: seq<int64>): (s: seq<byte>)
    ensures |s| == ACK * |acks|
  {
    if acks == [] then [] else AckStream(acks[..|acks| - 1]) + I64(acks[|acks| - 1])
  }

  // processReadEvent on one read: the last eight of the whole eights, if there are any; what
  // is left over is forgotten.
  function Decode(read: seq<byte>): int64
    requires |read| >= ACK
  {
    var p := |read| - |read| % ACK - ACK;
    AsI64(read[p..p + ACK])
  }

  lemma {:induction false} AckAt(acks: seq<int64>, k: nat)
    requires k < |acks|
    ensures AckStream(acks)[ACK * k..ACK * k + ACK] == I64(acks[k])
    decreases |acks|
  {
    hide I64;
    var n := |acks| - 1;
    if k < n {
      AckAt(acks[..n], k);
      assert AckStream(acks)[ACK * k..ACK * k + ACK] == AckStream(acks[..n])[ACK * k..ACK * k + ACK];
    }
  }

  // A read that begins where a report begins yields the last report it holds completely.
  lemma {:induction false} AlignedReadDecodes(acks: seq<int64>, k: nat, n: nat)
    requires n >= ACK && ACK * k + n <= ACK * |acks|
    ensures Decode(AckStream(acks)[ACK * k..ACK * k + n]) == acks[k + n / ACK - 1]
  {
    hide AsI64, I64;
    var s, j := AckStream(acks), k + n / ACK - 1;
    var p := n - n % ACK - ACK;
    assert ACK * k + p == ACK * j;
    AckAt(acks, j);
    SliceOfSlice(s, ACK * k, ACK * k + n, p, p + ACK);
    assert AsI64(I64(acks[j])) == acks[j] by { AckValue(acks[j]); }
  }

  lemma {:induction false} AckValue(a: int64)
    ensures AsI64(I64(a)) == a
  {
  }

  // A read that begins inside a report yields a number nobody sent: two reports of 1, of
  // which the first four bytes were read alone, acknowledge four gigabytes.
  lemma {:induction false} MisalignedReadInvents()
    ensures var s := AckStream([1, 1]); |s| == 16 && Decode(s[4..16]) == 0x1_0000_0000
  {
    hide AckStream, AsI64, Decode;
    MiddleOfOnes();
    DecodeTail(AckStream([1, 1]));
    Value(AckStream([1, 1])[4..12]);
  }

  lemma {:induction false} DecodeTail(s: seq<byte>)
    requires |s| == 16
    ensures Decode(s[4..16]) == AsI64(s[4..12])
  {
    hide AsI64;
    var read := s[4..16];
    assert |read| - |read| % ACK - ACK == 0;
    assert read[0..8] == s[4..12] by { SliceOfSlice(s, 4, 16, 0, 8); }
  }

  lemma {:induction false} MiddleOfOnes()
    ensures |AckStream([1, 1])| == 16 && AckStream([1, 1])[4..12] == [0, 0, 0, 1, 0, 0, 0, 0]
  {
    hide AckStream;
    TwoOnes();
    Middle(AckStream([1, 1]));
  }

  lemma {:induction false} Middle(s: seq<byte>)
    requires s == [0, 0, 0, 0, 0, 0, 0, 1, 0, 0, 0, 0, 0, 0, 0, 1]
    ensures s[4..12] == [0, 0, 0, 1, 0, 0, 0, 0]
  {
    var r := s[4..12];
    assert r[0] == s[4] && r[1] == s[5] && r[2] == s[6] && r[3] == s[7] && r[4] == s[8] && r[5] == s[9] && r[6] == s[10] && r[7] == s[11];
  }

  lemma {:induction false} TwoOnes()
    ensures AckStream([1, 1]) == [0, 0, 0, 0, 0, 0, 0, 1, 0, 0, 0, 0, 0, 0, 0, 1]
  {
    hide I64;
    One();
    var one: seq<int64> := [1];
    assert one[..0] == [] && AckStream(one[..0]) == [] && AckStream(one) == [] + I64(1);
    var two: seq<int64> := [1, 1];
    assert two[..1] == one;
    assert AckStream(two) == AckStream(one) + I64(1);
  }

  lemma {:induction false} One()
    ensures I64(1) == [0, 0, 0, 0, 0, 0, 0, 1]
  {
    Pow256Values();
    var s: seq<byte> := [0, 0, 0, 0, 0, 0, 0, 1];
    I64OfAsI64(s);
    ToNatOne();
  }

  lemma {:induction false} ToNatOne()
    ensures ToNat([0, 0, 0, 0, 0, 0, 0, 1]) == 1
  {
    var s: seq<byte> := [0, 0, 0, 0, 0, 0, 0, 1];
    assert ToNat([]) == 0;
    hide ToNat;
    Horner(s, 7); Horner(s, 6); Horner(s, 5); Horner(s, 4); Horner(s, 3); Horner(s, 2); Horner(s, 1); Horner(s, 0);
    assert s[..8] == s && s[..0] == [];
  }

  lemma {:induction false} Horner(s: seq<byte>, i: nat)
    requires i < |s|
    ensures ToNat(s[..i + 1]) == 256 * ToNat(s[..i]) + s[i]
  {
    assert s[..i + 1][..i] == s[..i];
  }

  lemma {:induction false} Value(r: seq<byte>)
    requires r == [0, 0, 0, 1, 0, 0, 0, 0]
    ensures AsI64(r) == 0x1_0000_0000
  {
    Pow256Values();
    Horner(r, 7); Horner(r, 6); Horner(r, 5); Horner(r, 4); Horner(r, 3); Horner(r, 2); Horner(r, 1); Horner(r, 0);
    assert r[..8] == r && r[..0] == [];
  }

  // What a read of n bytes from byte a of the stream yields is one of the reports.
  ghost predicate YieldsReport(acks: seq<int64>, a: nat, n: nat)
    requires n >= ACK
  {
    a + n <= |AckStream(acks)| ==> Decode(AckStream(acks)[a..a + n]) in acks
  }

  // A read is sure to yield a report, whatever the slave reports, exactly when it begins where
  // a report begins.
  lemma {:induction false} ReadExact(a: nat, n: nat)
    requires n >= ACK
    ensures (forall acks :: YieldsReport(acks, a, n)) <==> a % ACK == 0
  {
    hide AckStream, Decode;
    if a % ACK == 0 {
      forall acks ensures YieldsReport(acks, a, n) {
        if a + n <= |AckStream(acks)| { AlignedReadDecodes(acks, a / ACK, n); }
      }
    } else {
      var ones := seq(a + n, _ => 1);
      ShiftedOnes(ones, a, n);
      assert !YieldsReport(ones, a, n);
    }
  }

  lemma {:induction false} ShiftedOnes(ones: seq<int64>, a: nat, n: nat)
    requires n >= ACK && a + n <= |AckStream(ones)| && a % ACK != 0 && forall i :: 0 <= i < |ones| ==> ones[i] == 1
    ensures Decode(AckStream(ones)[a..a + n]) != 1
  {
    hide AckStream, I64, AsI64;
    var s, p := AckStream(ones), n - n % ACK - ACK;
    SliceOfSlice(s, a, a + n, p, p + ACK);
    var w := s[a + p..a + p + ACK];
    ShiftedByte(ones, a + p + ACK - 1);
    I64OfAsI64(w);
    One();
  }

  lemma {:induction false} ShiftedByte(ones: seq<int64>, k: nat)
    requires k < |AckStream(ones)| && k % ACK != ACK - 1 && forall i :: 0 <= i < |ones| ==> ones[i] == 1
    ensures AckStream(ones)[k] == 0
  {
    hide AckStream, I64;
    var j, i := k / ACK, k % ACK;
    AckAt(ones, j);
    One();
    assert AckStream(ones)[k] == AckStream(ones)[ACK * j..ACK * j + ACK][i];
  }

  class HAService {
    var push2SlaveMaxOffset: int

    // notifyTransferSome.  others[i] is what other connections wrote between the load and
    // the compare-and-swap of round i; they too only ever raise the offset.
    method NotifyTransferSome(offset: int, others: seq<int>) returns (rounds: nat)
      modifies this
      ensures rounds <= |others|
      ensures push2SlaveMaxOffset >= offset && push2SlaveMaxOffset >= old(push2SlaveMaxOffset)
      ensures forall i :: 0 <= i < rounds ==> push2SlaveMaxOffset >= others[i]
      ensures push2SlaveMaxOffset in {old(push2SlaveMaxOffset), offset} || push2SlaveMaxOffset in others[..rounds]
    {
      rounds := 0;
      var value := push2SlaveMaxOffset;
      while offset > value
        invariant rounds <= |others| && value == push2SlaveMaxOffset >= old(push2SlaveMaxOffset)
        invariant forall i :: 0 <= i < rounds ==> push2SlaveMaxOffset >= others[i]
        invariant push2SlaveMaxOffset in {old(push2SlaveMaxOffset), offset} || push2SlaveMaxOffset in others[..rounds]
        decreases |others| - rounds, if offset > value then 1 else 0
      {
        if rounds < |others| {
          push2SlaveMaxOffset := Max(push2SlaveMaxOffset, others[rounds]);
          rounds := rounds + 1;
          assert others[rounds - 1] in others[..rounds];
        }
        if push2SlaveMaxOffset == value {
          push2SlaveMaxOffset := offset;
          return;
        }
        value := push2SlaveMaxOffset;
      }
    }
  }
}

module Sockets {
  import opened Acknowledging
  import opened Arithmetic
  import opened Bytes
  import opened CatchUp
  import opened Framing
  import opened MapedFiles
  import opened Replication
  import opened Reput
  import opened Reputting
  import opened Segments

  // The master's end of one connection: ReadSocketService and WriteSocketService.
  class HAConnection {
    var slaveRequestOffset: int
    var slaveAckOffset: int
    var nextTransferFromWhere: int

    constructor ()
      ensures slaveRequestOffset == -1 && slaveAckOffset == -1 && nextTransferFromWhere == -1
    {
      slaveRequestOffset, slaveAckOffset, nextTransferFromWhere := -1, -1, -1;
    }

    // processReadEvent over the non-empty reads of a connection; short ones are dropped.
    method ProcessReadEvent(pieces: seq<seq<byte>>) returns (acks: seq<int64>)
      modifies this`slaveRequestOffset, this`slaveAckOffset
      ensures acks == Decoded(pieces)
      ensures slaveAckOffset == if acks == [] then old(slaveAckOffset) else acks[|acks| - 1]
      ensures slaveRequestOffset == RequestAfter(old(slaveRequestOffset), acks)
    {
      hide Decode;
      acks := [];
      for i := 0 to |pieces|
        invariant acks == Decoded(pieces[..i])
        invariant slaveAckOffset == if acks == [] then old(slaveAckOffset) else acks[|acks| - 1]
        invariant slaveRequestOffset == RequestAfter(old(slaveRequestOffset), acks)
      {
        assert pieces[..i + 1][..i] == pieces[..i];
        if |pieces[i]| >= ACK {
          var readOffset := Decode(pieces[i]);
          slaveAckOffset := readOffset;
          if slaveRequestOffset < 0 {
            slaveRequestOffset := readOffset;
          }
          assert (acks + [readOffset])[..|acks|] == acks;
          acks := acks + [readOffset];
        }
      }
      assert pieces[..|pieces|] == pieces;
    }

    method UpdateNextTransferOffset(full: bool, log: MapedFileQueue)
      requires log.Valid()
      modifies this`nextTransferFromWhere
      ensures nextTransferFromWhere
           == NextOffset(full, log.View(), log.size, Conn(slaveRequestOffset, old(nextTransferFromWhere), [], []))
    {
      hide Rem;
      if nextTransferFromWhere == -1 {
        if slaveRequestOffset == 0 {
          var masterOffset := 0;
          if full {
            masterOffset := if log.files == [] then -1 else log.files[0].from;
          } else {
            var max := if log.files == [] then 0 else log.files[|log.files| - 1].from + log.files[|log.files| - 1].wrote;
            masterOffset := max - Rem(max, log.size);
          }
          if masterOffset < 0 {
            masterOffset := 0;
          }
          nextTransferFromWhere := masterOffset;
        } else {
          nextTransferFromWhere := slaveRequestOffset;
        }
      }
    }

    method BuildFrame(full: bool, log: MapedFileQueue, batch: nat) returns (f: Frame)
      requires log.Valid() && Chain(log.View(), log.size)
      modifies this`nextTransferFromWhere
      ensures var c := BuildData(full, log.View(), log.size, Conn(slaveRequestOffset, old(nextTransferFromWhere), [], []), batch);
              c.frames == [f] && nextTransferFromWhere == c.next
      ensures SendsLog(full, log.View(), log.size, Conn(slaveRequestOffset, old(nextTransferFromWhere), [], []),
                       batch, f, nextTransferFromWhere)
    {
      hide GetData, NextOffset, Flat, Wrap64, SendsLog;
      BuiltFromLog(full, log.View(), log.size, Conn(slaveRequestOffset, nextTransferFromWhere, [], []), batch);
      WritePositions(log.View(), log.size);
      UpdateNextTransferOffset(full, log);
      var thisOffset := nextTransferFromWhere;
      var start, b := SelectData(log, thisOffset);
      if b == null {
        return Frame(Wrap64(thisOffset), []);
      }
      var size := b.len - b.readPos;
      if size > batch {
        size := batch;
      }
      nextTransferFromWhere := nextTransferFromWhere + size;
      PieceOf(b.buf[..], b.readPos, b.len, size);
      assert b.buf[..][b.readPos..b.len] == b.Unread() && b.buf[..][b.readPos..b.readPos + size] == b.buf[b.readPos..b.readPos + size];
      f := Frame(Wrap64(thisOffset), b.buf[b.readPos..b.readPos + size]);
    }
  }

  lemma {:induction false} PieceOf(s: seq<byte>, a: nat, b: nat, n: nat)
    requires a + n <= b <= |s|
    ensures s[a..b][..n] == s[a..a + n]
  {
  }

  function Decoded(pieces: seq<seq<byte>>): seq<int64> {
    if pieces == [] then []
    else
      var last := pieces[|pieces| - 1];
      Decoded(pieces[..|pieces| - 1]) + if |last| >= ACK then [Decode(last)] else []
  }

  // The first acknowledgement that is not negative becomes the request and stays it.
  function RequestAfter(request: int, acks: seq<int64>): int {
    if acks == [] then request
    else
      var r := RequestAfter(request, acks[..|acks| - 1]);
      if r < 0 then acks[|acks| - 1] else r
  }
}
