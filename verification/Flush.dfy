// Flushing: the committed frontier, and what a synchronous put may rely on.

module Flush {
  import opened Arithmetic
  import opened Bytes
  import opened MapedFiles
  import opened Segments

  const OS_PAGE_SIZE: int := 4096

  // MapedFile.isAbleToFlush
  function IsAbleToFlush(f: File, size: int, pages: int): bool {
    if f.wrote == size then true
    else if pages > 0 then Quo(f.wrote, OS_PAGE_SIZE) - Quo(f.committed, OS_PAGE_SIZE) >= pages
    else f.wrote > f.committed
  }

  // MapedFile.Commit.  Flushing writes the whole mapping out; a file that cannot be held is marked
  // committed without being flushed.
  function CommitFile(f: File, size: int, pages: int): File {
    if !IsAbleToFlush(f, size, pages) then f
    else if f.available then f.(committed := f.wrote, disk := f.data)
    else f.(committed := f.wrote)
  }

  datatype Committed = Committed(fs: seq<File>, where: int, stayed: bool)

  // MapedFileQueue.commit, which falls back to the first file.
  function Commit(fs: seq<File>, size: int, where: int, pages: int): Committed
    requires size > 0
  {
    match Lookup(fs, size, where, true)
    case None => Committed(fs, where, true)
    case Some(i) =>
      if i < |fs| then
        var f := CommitFile(fs[i], size, pages);
        Committed(fs[i := f], f.from + f.committed, f.from + f.committed == where)
      else Committed(fs, where, true)
  }

  // The first n bytes of the file are on the disk as they are in memory.
  ghost predicate Stored(f: File, n: int) {
    |f.disk| == |f.data| && forall p :: 0 <= p < n && p < |f.data| ==> f.disk[p] == f.data[p]
  }

  // What a file counts as committed is on the disk, a file that cannot be held is there to its
  // end, so is all below `where`, and `where` is not past what some file has committed.
  ghost predicate Flushed(fs: seq<File>, size: int, where: int) {
    && Chain(fs, size) && 0 <= where <= MaxOffset(fs) && Reached(fs, where)
    && (forall i :: 0 <= i < |fs| ==> Stored(fs[i], fs[i].committed) && Safe(fs[i], size))
    && (forall i :: 0 <= i < |fs| ==> FlushedBelow(fs[i], where))
  }

  ghost predicate Safe(f: File, size: int) { f.available || (f.wrote == size && Stored(f, size)) }

  ghost predicate Reached(fs: seq<File>, where: int) {
    fs != [] ==> exists i :: 0 <= i < |fs| && where <= fs[i].from + fs[i].committed
  }

  // Every byte of the file below `where` is on the disk.
  ghost predicate FlushedBelow(f: File, where: int) { Stored(f, Min(f.wrote, where - f.from)) }

  lemma {:induction false} CommitFileIs(f: File, size: int, pages: int)
    requires Sound(f, size) && Safe(f, size) && Stored(f, f.committed)
    ensures var g := CommitFile(f, size, pages);
            && Sound(g, size) && g.from == f.from && g.data == f.data && g.wrote == f.wrote && Safe(g, size)
            && f.committed <= g.committed && Stored(g, g.committed)
  {
    hide Aligned;
  }

  // A commit of a file leaves less than `pages` pages of 4096 bytes unflushed, nothing at all if
  // the file is full or no number of pages is asked for, and it does not write out a file that
  // has gathered too little.
  lemma {:induction false} CommitFlushesBacklog(f: File, size: int, pages: int)
    requires 0 <= f.committed <= f.wrote
    ensures var g := CommitFile(f, size, pages);
            && (g.committed == f.wrote || f.wrote - g.committed < 4096 * pages)
            && (f.wrote == size || pages <= 0 ==> g.committed == f.wrote)
            && (f.wrote - f.committed >= 4096 * pages ==> g.committed == f.wrote)
            && (f.wrote != size && 0 < pages && f.wrote - f.committed <= 4096 * (pages - 1) ==> g == f)
            && (g == f || (g.committed == f.wrote && (f.available ==> g.disk == f.data)))
  {
    PagesBetween(f.committed, f.wrote, pages);
  }

  lemma {:induction false} PagesBetween(a: nat, b: nat, pages: int)
    requires a <= b
    ensures Quo(b, OS_PAGE_SIZE) - Quo(a, OS_PAGE_SIZE) >= pages ==> b - a > 4096 * (pages - 1)
    ensures Quo(b, OS_PAGE_SIZE) - Quo(a, OS_PAGE_SIZE) < pages ==> b - a < 4096 * pages
  {
  }

  // So after a commit the file it names is flushed up to less than `pages` pages, and the frontier
  // is where that file has been committed.
  lemma {:induction false} CommitLeavesLittle(fs: seq<File>, size: int, where: int, pages: int, i: nat)
    requires Chain(fs, size) && i < |fs| && 0 <= where && fs[i].from <= where < fs[i].from + size && 0 <= fs[i].committed <= fs[i].wrote
    ensures var r := Commit(fs, size, where, pages);
            && |r.fs| == |fs| && r.where == r.fs[i].from + r.fs[i].committed && r.fs[i].wrote == fs[i].wrote
            && (r.fs[i].committed == fs[i].wrote || fs[i].wrote - r.fs[i].committed < 4096 * pages)
            && (forall j :: 0 <= j < |fs| && j != i ==> r.fs[j] == fs[j])
            && (r.fs[i].committed != fs[i].committed && fs[i].available ==> r.fs[i].disk == fs[i].data)
  {
    LookupCovers(fs, size, where, i);
    assert Sound(fs[i], size);
    CommitFlushesBacklog(fs[i], size, pages);
    hide Chain, CommitFile;
  }

  lemma {:induction false} ReplaceFile(fs: seq<File>, size: int, i: nat, g: File)
    requires Chain(fs, size) && i < |fs| && Sound(g, size) && g.from == fs[i].from && g.wrote == fs[i].wrote
    ensures Chain(fs[i := g], size) && MaxOffset(fs[i := g]) == MaxOffset(fs)
  {
    hide Sound;
    var r := fs[i := g];
    forall j | 0 < j < |r| ensures Link(r, j, size) { assert Link(fs, j, size); }
    forall j | 0 <= j < |r| ensures Sound(r[j], size) { }
  }

  // The frontier may step back, to the first file, but what lies below it is always flushed.
  lemma {:induction false} CommitKeepsFlushed(fs: seq<File>, size: int, where: int, pages: int)
    requires Flushed(fs, size, where)
    ensures var r := Commit(fs, size, where, pages); Flushed(r.fs, size, r.where)
  {
    hide Flat, CommitFile, FlushedBelow;
    if fs != [] {
      var i := Lookup(fs, size, where, true).value;
      var f := fs[i];
      assert Sound(f, size);
      CommitFileIs(f, size, pages);
      var g := CommitFile(f, size, pages);
      ReplaceFile(fs, size, i, g);
      Bound(fs, size, i);
      var r := fs[i := g];
      assert r[i].from + r[i].committed == g.from + g.committed;
      forall j | 0 <= j < |r| ensures FlushedBelow(r[j], g.from + g.committed) {
        if j == i {
          BelowSelf(g);
        } else if j < i {
          Older(fs, size, where, i, j);
          BelowFull(fs[j], size, g.from + g.committed);
        } else {
          ChainOrder(fs, size, i, j);
          assert Sound(fs[j], size);
          BelowNewer(fs[j], g.from + g.committed);
        }
      }
    }
  }

  lemma {:induction false} Bound(fs: seq<File>, size: int, i: nat)
    requires Chain(fs, size) && i < |fs|
    ensures fs[i].from >= 0 && fs[i].from + fs[i].wrote <= MaxOffset(fs)
  {
    assert Sound(fs[i], size) && Sound(fs[|fs| - 1], size);
    if i < |fs| - 1 { ChainOrder(fs, size, i, |fs| - 1); }
  }

  lemma {:induction false} BelowSelf(g: File)
    requires Stored(g, g.committed)
    ensures FlushedBelow(g, g.from + g.committed)
  {
  }

  lemma {:induction false} BelowFull(f: File, size: int, where: int)
    requires f.wrote == size && Stored(f, size)
    ensures FlushedBelow(f, where)
  {
  }

  lemma {:induction false} BelowNewer(f: File, where: int)
    requires where <= f.from && Stored(f, f.committed)
    ensures FlushedBelow(f, where)
  {
  }

  // Files before the one that covers the frontier are flushed to their ends.
  lemma {:induction false} Older(fs: seq<File>, size: int, where: int, i: nat, j: nat)
    requires Flushed(fs, size, where) && j < i < |fs| && Lookup(fs, size, where, true) == Some(i)
    ensures fs[j].wrote == size && Stored(fs[j], size)
  {
    hide Flat;
    LookupCovers(fs, size, where, i);
    ChainOrder(fs, size, j, i);
    assert Link(fs, j + 1, size);
    assert FlushedBelow(fs[j], where);
  }

  // A commit moves the frontier back exactly when it stands at the end of the last of several
  // files and that file is full: the lookup then falls back to the first file.
  lemma {:induction false} FrontierStepsBack(fs: seq<File>, size: int, where: int, pages: int)
    requires Flushed(fs, size, where)
    ensures Commit(fs, size, where, pages).where < where
       <==> |fs| > 1 && fs[|fs| - 1].wrote == size && where == MaxOffset(fs)
  {
    hide Flat, FlushedBelow;
    if fs != [] {
      var i, n := Lookup(fs, size, where, true).value, |fs| - 1;
      assert Sound(fs[0], size) && Sound(fs[n], size) && Sound(fs[i], size);
      LookupMisses(fs, size, where);
      if n > 0 {
        ChainOrder(fs, size, 0, n);
        assert Link(fs, 1, size);
      }
      if Lookup(fs, size, where, false) == Some(i) { CoveredAdvances(fs, size, where, i, pages); }
    }
  }

  lemma {:induction false} CoveredAdvances(fs: seq<File>, size: int, where: int, i: nat, pages: int)
    requires Flushed(fs, size, where) && i < |fs| && Lookup(fs, size, where, false) == Some(i)
    ensures where <= fs[i].from + CommitFile(fs[i], size, pages).committed
    ensures where < fs[i].from + size
  {
    hide Flat, FlushedBelow;
    LookupCovers(fs, size, where, i);
    assert Sound(fs[i], size);
    var j :| 0 <= j < |fs| && where <= fs[j].from + fs[j].committed;
    assert Sound(fs[j], size);
    if j < i { ChainOrder(fs, size, j, i); }
    if i < j { assert Link(fs, i + 1, size); }
  }

  // ---------------------------------------------------------------- other steps

  // Appending to the last file, or to a new one, leaves all below the frontier flushed.
  lemma {:induction false} AppendKeepsFlushed(fs: seq<File>, size: int, where: int, d: seq<byte>, stamp: int)
    requires Flushed(fs, size, where) && fs != [] && fs[|fs| - 1].wrote + |d| <= size
    ensures var f := AppendTo(fs[|fs| - 1], d).(storeTimestamp := stamp); Flushed(WithLast(fs, f), size, where)
  {
    hide Flat, AppendTo, FlushedBelow, Safe, Stored;
    var n := |fs| - 1;
    assert Sound(fs[n], size);
    var f := AppendTo(fs[n], d).(storeTimestamp := stamp);
    AppendLast(fs, size, d, stamp);
    AppendedFile(fs[n], size, where, d, stamp);
    BelowLast(fs, size, where);
    var r := WithLast(fs, f);
    forall i | 0 <= i <= n ensures r[i] == (if i < n then fs[i] else f) {}
    var j :| 0 <= j < |fs| && where <= fs[j].from + fs[j].committed;
    assert r[j].from == fs[j].from && r[j].committed == fs[j].committed;
    hide Chain;
  }

  lemma {:induction false} BelowLast(fs: seq<File>, size: int, where: int)
    requires Flushed(fs, size, where) && fs != []
    ensures where <= fs[|fs| - 1].from + fs[|fs| - 1].wrote
  {
  }

  lemma {:induction false} AppendedFile(f: File, size: int, where: int, d: seq<byte>, stamp: int)
    requires Sound(f, size) && f.wrote + |d| <= size && Safe(f, size) && Stored(f, f.committed) && FlushedBelow(f, where)
    ensures var g := AppendTo(f, d).(storeTimestamp := stamp);
            && g.from == f.from && g.committed == f.committed && g.wrote == f.wrote + |d| && Stored(g, g.committed)
            && (where <= f.from + f.wrote ==> FlushedBelow(g, where)) && Safe(g, size)
  {
    hide Aligned, Overwrite;
  }

  lemma {:induction false} CreateKeepsFlushed(fs: seq<File>, size: int, where: int, start: nat, contents: seq<byte>)
    requires Flushed(fs, size, where) && |contents| == size
    ensures Flushed(EnsureLast(fs, size, start, contents), size, where)
  {
    hide Flat, InFile, Rem;
    EnsureLastKeeps(fs, size, start, contents);
    var r := EnsureLast(fs, size, start, contents);
    assert Sound(r[|r| - 1], size);
    forall i | 0 <= i < |r| ensures FlushedBelow(r[i], where) {
      if i < |fs| { assert FlushedBelow(fs[i], where); }
    }
    if fs == [] {
      assert where <= r[0].from + r[0].committed;
    } else {
      var j :| 0 <= j < |fs| && where <= fs[j].from + fs[j].committed;
      assert r[j] == fs[j];
    }
  }

  lemma {:induction false} ExpireKeepsFlushed(fs: seq<File>, size: int, where: int, n: nat)
    requires Flushed(fs, size, where) && n < |fs|
    ensures Flushed(fs[n..], size, where)
  {
    hide Flat;
    ChainPrefix(fs, size, n);
    var j :| 0 <= j < |fs| && where <= fs[j].from + fs[j].committed;
    assert Sound(fs[j], size) && Sound(fs[n], size);
    if j < n { ChainOrder(fs, size, j, n); }
    var k := if j < n then 0 else j - n;
    assert where <= fs[n..][k].from + fs[n..][k].committed;
    hide Chain;
    forall i | 0 <= i < |fs| - n ensures FlushedBelow(fs[n..][i], where) { assert FlushedBelow(fs[n + i], where); }
  }

  // A file that expiry could not delete has been shut down.  If it is on the disk, all stays
  // well.
  lemma {:induction false} ShutKeepsFlushed(fs: seq<File>, size: int, where: int, i: nat)
    requires Flushed(fs, size, where) && i < |fs| && fs[i].wrote == size && Stored(fs[i], size)
    ensures Flushed(fs[i := Shut(fs[i])], size, where)
  {
    hide Flat, Aligned;
    var r := fs[i := Shut(fs[i])];
    assert Sound(fs[i], size);
    ReplaceFile(fs, size, i, Shut(fs[i]));
    forall k | 0 <= k < |r| ensures FlushedBelow(r[k], where) { assert FlushedBelow(fs[k], where); }
    var j :| 0 <= j < |fs| && where <= fs[j].from + fs[j].committed;
    assert where <= r[j].from + r[j].committed;
    hide Chain;
  }

  // A commit does not flush a file that has been shut down, but moves the frontier to its end:
  // what lies below is on the disk exactly if the file was.
  lemma {:induction false} ShutIsNotFlushed(fs: seq<File>, size: int, where: int, i: nat, pages: int)
    requires Flushed(fs, size, where) && i < |fs| && fs[i].wrote == size && Lookup(fs, size, where, true) == Some(i)
    ensures var r := Commit(fs[i := Shut(fs[i])], size, where, pages);
            && r.where == fs[i].from + size && |r.fs| == |fs|
            && (FlushedBelow(r.fs[i], r.where) <==> Stored(fs[i], size))
  {
    hide Flat, Quo;
  }

  // The kernel may write pages out by itself: each byte on the disk stays as it was or becomes
  // what it is in memory.
  ghost predicate WroteBack(f: File, disk: seq<byte>) {
    |disk| == |f.disk| == |f.data| && forall p :: 0 <= p < |disk| ==> disk[p] == f.disk[p] || disk[p] == f.data[p]
  }

  lemma {:induction false} WriteBackKeepsFlushed(fs: seq<File>, size: int, where: int, i: nat, disk: seq<byte>)
    requires Flushed(fs, size, where) && i < |fs| && WroteBack(fs[i], disk)
    ensures Flushed(fs[i := fs[i].(disk := disk)], size, where)
  {
    hide Flat, Aligned;
    var g := fs[i].(disk := disk);
    var r := fs[i := g];
    assert Sound(fs[i], size);
    ReplaceFile(fs, size, i, g);
    forall k | 0 <= k < |r| ensures FlushedBelow(r[k], where) { assert FlushedBelow(fs[k], where); }
    var j :| 0 <= j < |fs| && where <= fs[j].from + fs[j].committed;
    assert where <= r[j].from + r[j].committed;
    hide Chain;
  }

  // The file as a machine crash leaves it.
  function Lost(f: File): File { f.(data := f.disk) }

  ghost function AllLost(fs: seq<File>): (gs: seq<File>)
    ensures |gs| == |fs| && forall i :: 0 <= i < |gs| ==> gs[i] == Lost(fs[i])
  {
    seq(|fs|, i requires 0 <= i < |fs| => Lost(fs[i]))
  }

  predicate EndsIn(fs: seq<File>, size: int, end: int) { fs != [] && fs[0].from <= end <= fs[|fs| - 1].from + size }

  // The files are on the disk as far as recovery takes the log to go.
  ghost predicate StoredTo(fs: seq<File>, end: int) {
    forall i :: 0 <= i < |fs| && fs[i].from <= end ==> FlushedBelow(LoadFile(fs[i]), end)
  }

  // Files loaded as full and cut where recovery found the end of the log, which becomes the
  // frontier.  All is well exactly if the files were on the disk as far as that.
  lemma {:induction false} RestartFlushed(fs: seq<File>, size: int, end: int)
    requires Chain(fs, size) && EndsIn(fs, size, end)
    ensures Flushed(Truncate(Load(fs), size, end), size, end)
       <==> StoredTo(fs, end)
  {
    hide Flat, Aligned, Truncate;
    var gs, n := Load(fs), |fs| - 1;
    LoadChain(fs, size);
    assert Sound(gs[0], size) && Sound(gs[n], size);
    if end < gs[n].from + size {
      var k := Cover(gs, size, end);
      TruncateKeeps(gs, size, end, k);
      var g := CutAt(gs, size, end, k);
      CutFlushed(gs, size, end, k, g);
      forall i | 0 <= i < |fs| ensures fs[i].from <= end <==> i <= k {
        if i < k { ChainOrder(gs, size, i, k); }
        if i > k { ChainOrder(gs, size, k, i); }
      }
    } else {
      forall i | 0 <= i < |gs| ensures gs[i].from + size <= end { if i < n { ChainOrder(gs, size, i, n); } }
      TruncateUntouched(gs, size, end);
      assert end <= gs[n].from + gs[n].committed;
    }
  }

  lemma {:induction false} CutFlushed(gs: seq<File>, size: int, end: int, k: nat, g: File)
    requires k < |gs| && Chain(gs[..k] + [g], size) && MaxOffset(gs[..k] + [g]) == end >= 0 && Chain(gs, size)
    requires forall i :: 0 <= i < |gs| ==> gs[i].available && gs[i].committed == gs[i].wrote == size
    requires g == gs[k].(wrote := g.wrote, writePos := g.wrote, committed := g.wrote)
    ensures Flushed(gs[..k] + [g], size, end) <==> forall i :: 0 <= i <= k ==> FlushedBelow(gs[i], end)
  {
    hide Aligned, Flat;
    var r := gs[..k] + [g];
    assert Sound(r[k], size) && Sound(gs[k], size) && r[k] == g && g.from + g.wrote == end;
    assert end <= r[k].from + r[k].committed;
    forall i | 0 <= i < k ensures r[i] == gs[i] && (FlushedBelow(gs[i], end) <==> Stored(gs[i], size)) {
      ChainOrder(gs, size, i, k);
    }
    assert FlushedBelow(gs[k], end) <==> Stored(g, g.committed);
    hide Chain, Stored;
    if forall i :: 0 <= i <= k ==> FlushedBelow(gs[i], end) {
      forall i | 0 <= i < |r| ensures Stored(r[i], r[i].committed) && FlushedBelow(r[i], end) {
        assert FlushedBelow(gs[i], end);
      }
    }
    if Flushed(r, size, end) {
      forall i | 0 <= i <= k ensures FlushedBelow(gs[i], end) { assert Stored(r[i], r[i].committed); }
    }
  }

  // After a machine crash every file is what the disk holds, so the recovered log is there.
  lemma {:induction false} CrashFlushed(fs: seq<File>, size: int, where: int, end: int)
    requires Flushed(fs, size, where) && EndsIn(fs, size, end)
    ensures Flushed(Truncate(Load(AllLost(fs)), size, end), size, end)
  {
    hide Flat, Truncate;
    LostChain(fs, size, where);
    hide Chain;
    RestartFlushed(AllLost(fs), size, end);
  }

  lemma {:induction false} LostChain(fs: seq<File>, size: int, where: int)
    requires Flushed(fs, size, where)
    ensures Chain(AllLost(fs), size)
  {
    hide Flat, Aligned;
    var gs := AllLost(fs);
    forall i | 0 <= i < |gs| ensures Sound(gs[i], size) { assert Sound(fs[i], size); }
    forall i | 0 < i < |gs| ensures Link(gs, i, size) { assert Link(fs, i, size); }
  }

  // ---------------------------------------------------------------- synchronous flush

  // Every byte of the log between two offsets is on the disk.
  ghost predicate OnDisk(fs: seq<File>, from: int, to: int) {
    forall i, p :: 0 <= i < |fs| && 0 <= p < fs[i].wrote && from <= fs[i].from + p < to ==>
      p < |fs[i].disk| && p < |fs[i].data| && fs[i].disk[p] == fs[i].data[p]
  }

  datatype Sync = Sync(fs: seq<File>, where: int, flushOk: bool)

  // doCommit: the outcome of the second commit is not looked at.
  function DoCommit(fs: seq<File>, size: int, where: int, next: int): Sync
    requires size > 0
  {
    if where >= next then Sync(fs, where, true)
    else
      var r := Commit(fs, size, where, 0);
      if r.where >= next then Sync(r.fs, r.where, true)
      else
        var s := Commit(r.fs, size, r.where, 0);
        Sync(s.fs, s.where, false)
  }

  // A put whose group commit answers true has its whole record on the disk.
  lemma {:induction false} SyncPutIsOnDisk(fs: seq<File>, size: int, where: int, offset: int, length: nat)
    requires Flushed(fs, size, where)
    ensures var r := DoCommit(fs, size, where, offset + length);
            Flushed(r.fs, size, r.where) && (r.flushOk ==> OnDisk(r.fs, offset, offset + length))
  {
    hide Commit;
    CommitKeepsFlushed(fs, size, where, 0);
    var r := Commit(fs, size, where, 0);
    CommitKeepsFlushed(r.fs, size, r.where, 0);
    var s := DoCommit(fs, size, where, offset + length);
    if s.flushOk { BelowFrontier(s.fs, size, s.where, offset, offset + length); }
  }

  lemma {:induction false} BelowFrontier(fs: seq<File>, size: int, where: int, from: int, to: int)
    requires Flushed(fs, size, where) && to <= where
    ensures OnDisk(fs, from, to)
  {
    hide Flat, Aligned;
    forall i, p | 0 <= i < |fs| && 0 <= p < fs[i].wrote && from <= fs[i].from + p < to
      ensures p < |fs[i].disk| && p < |fs[i].data| && fs[i].disk[p] == fs[i].data[p]
    {
      assert Sound(fs[i], size) && FlushedBelow(fs[i], where);
    }
  }

  // It answers true exactly when the frontier is past the record, or the record ends in the
  // file the frontier stands in: one commit has to be enough.
  lemma {:induction false} SyncAnswers(fs: seq<File>, size: int, where: int, next: int)
    requires Flushed(fs, size, where) && fs != []
    ensures Lookup(fs, size, where, true).Some? && Lookup(fs, size, where, true).value < |fs|
    ensures var i := Lookup(fs, size, where, true).value;
            DoCommit(fs, size, where, next).flushOk <==> where >= next || fs[i].from + fs[i].wrote >= next
  {
    hide Flat, FlushedBelow, Quo;
    assert Sound(fs[Lookup(fs, size, where, true).value], size);
  }

  // A record in the file behind the one the frontier stands in: the two commits put it on the
  // disk, and the put is told that they did not.
  lemma {:induction false} SyncFailsOnDisk(fs: seq<File>, size: int, next: int)
    requires |fs| == 2 && Flushed(fs, size, fs[0].from) && fs[0].from + size < next <= MaxOffset(fs)
    ensures var r := DoCommit(fs, size, fs[0].from, next);
            !r.flushOk && r.where >= next && OnDisk(r.fs, fs[0].from, next)
  {
    hide Flat, FlushedBelow;
    var where := fs[0].from;
    assert Sound(fs[0], size) && Sound(fs[1], size) && Link(fs, 1, size);
    LookupCovers(fs, size, where, 0);
    CommitKeepsFlushed(fs, size, where, 0);
    var r := Commit(fs, size, where, 0);
    assert r.where == fs[1].from && r.fs[1] == fs[1];
    LookupCovers(r.fs, size, r.where, 1);
    CommitKeepsFlushed(r.fs, size, r.where, 0);
    var s := Commit(r.fs, size, r.where, 0);
    assert s.where == MaxOffset(fs);
    BelowFrontier(s.fs, size, s.where, where, next);
    hide Commit, Lookup, Chain;
  }

  // ---------------------------------------------------------------- runs

  datatype Step = Append(d: seq<byte>, stamp: int) | Create(start: nat, contents: seq<byte>) | CommitStep(pages: int) | Expire(n: nat)
    | ShutDown(i: nat) | WriteBack(i: nat, disk: seq<byte>) | Crash(end: int) | Restart(end: int)

  datatype State = State(fs: seq<File>, where: int)

  ghost function Next(size: int, s: State, step: Step): State
    requires size > 0
  {
    match step
    case Append(d, stamp) =>
      if Chain(s.fs, size) && s.fs != [] && s.fs[|s.fs| - 1].wrote + |d| <= size then
        assert Sound(s.fs[|s.fs| - 1], size);
        State(WithLast(s.fs, AppendTo(s.fs[|s.fs| - 1], d).(storeTimestamp := stamp)), s.where)
      else s
    case Create(start, contents) => if |contents| == size then State(EnsureLast(s.fs, size, start, contents), s.where) else s
    case CommitStep(pages) => var r := Commit(s.fs, size, s.where, pages); State(r.fs, r.where)
    case Expire(n) => if n < |s.fs| then State(s.fs[n..], s.where) else s
    case ShutDown(i) =>
      if i < |s.fs| && s.fs[i].wrote == size && Stored(s.fs[i], size) then State(s.fs[i := Shut(s.fs[i])], s.where) else s
    case WriteBack(i, disk) =>
      if i < |s.fs| && WroteBack(s.fs[i], disk) then State(s.fs[i := s.fs[i].(disk := disk)], s.where) else s
    case Crash(end) => if EndsIn(s.fs, size, end) then State(Truncate(Load(AllLost(s.fs)), size, end), end) else s
    case Restart(end) =>
      if EndsIn(s.fs, size, end) && StoredTo(s.fs, end) then State(Truncate(Load(s.fs), size, end), end) else s
  }

  ghost function Run(size: int, steps: seq<Step>): State
    requires size > 0
  {
    if steps == [] then State([], 0) else Next(size, Run(size, steps[..|steps| - 1]), steps[|steps| - 1])
  }

  // In every state a queue can reach, all bytes below committedWhere are on the disk.
  lemma {:induction false} AlwaysFlushed(size: int, steps: seq<Step>)
    requires size > 0
    ensures Flushed(Run(size, steps).fs, size, Run(size, steps).where)
  {
    hide Flushed, Commit, Chain;
    if steps == [] {
      NothingToFlush(size);
    } else {
      var n := |steps| - 1;
      AlwaysFlushed(size, steps[..n]);
      StepFlushed(size, Run(size, steps[..n]), steps[n]);
    }
  }

  lemma {:induction false} NothingToFlush(size: int)
    requires size > 0
    ensures Flushed([], size, 0)
  {
  }

  lemma {:induction false} StepFlushed(size: int, s: State, step: Step)
    requires size > 0 && Flushed(s.fs, size, s.where)
    ensures var r := Next(size, s, step); Flushed(r.fs, size, r.where)
  {
    hide FlushedBelow, Commit, EnsureLast;
    match step
    case Append(d, stamp) =>
      if s.fs != [] && s.fs[|s.fs| - 1].wrote + |d| <= size { AppendKeepsFlushed(s.fs, size, s.where, d, stamp); }
    case Create(start, contents) =>
      if |contents| == size { CreateKeepsFlushed(s.fs, size, s.where, start, contents); }
    case CommitStep(pages) => CommitKeepsFlushed(s.fs, size, s.where, pages);
    case Expire(n) => if n < |s.fs| { ExpireKeepsFlushed(s.fs, size, s.where, n); }
    case ShutDown(i) =>
      if i < |s.fs| && s.fs[i].wrote == size && Stored(s.fs[i], size) { ShutKeepsFlushed(s.fs, size, s.where, i); }
    case WriteBack(i, disk) =>
      if i < |s.fs| && WroteBack(s.fs[i], disk) { WriteBackKeepsFlushed(s.fs, size, s.where, i, disk); }
    case Crash(end) => if EndsIn(s.fs, size, end) { CrashFlushed(s.fs, size, s.where, end); }
    case Restart(end) => if EndsIn(s.fs, size, end) { RestartFlushed(s.fs, size, end); }
  }

  // ---------------------------------------------------------------- in place

  method CommitIn(q: MapedFileQueue, pages: int) returns (result: bool)
    requires q.Valid()
    modifies q`committedWhere, q.files
    ensures q.Valid() && q.files == old(q.files)
    ensures Committed(q.View(), q.committedWhere, result) == Commit(old(q.View()), q.size, old(q.committedWhere), pages)
  {
    hide Quo;
    result := true;
    ghost var fs := q.View();
    var i, f := q.FindMapedFileByOffset(q.committedWhere, true);
    if f != null {
      CommitFileIn(f, pages);
      var where := f.from + f.committed;
      result := where == q.committedWhere;
      q.committedWhere := where;
      assert q.View() == fs[i := f.View()];
    }
  }

  method CommitFileIn(f: MapedFile, pages: int)
    requires f.Valid()
    modifies f`committed, f`disk
    ensures f.Valid() && f.View() == CommitFile(old(f.View()), f.size, pages)
  {
    hide Quo;
    var able := f.wrote > f.committed;
    if f.wrote == f.size {
      able := true;
    } else if pages > 0 {
      able := Quo(f.wrote, OS_PAGE_SIZE) - Quo(f.committed, OS_PAGE_SIZE) >= pages;
    }
    if able {
      if f.available {
        f.disk := f.data;
      }
      f.committed := f.wrote;
    }
  }

  method DoCommitIn(q: MapedFileQueue, nextOffset: int) returns (flushOk: bool)
    requires q.Valid()
    modifies q`committedWhere, q.files
    ensures q.Valid() && Sync(q.View(), q.committedWhere, flushOk) == DoCommit(old(q.View()), q.size, old(q.committedWhere), nextOffset)
  {
    hide Commit;
    ghost var s, r := State(q.View(), q.committedWhere), Commit(q.View(), q.size, q.committedWhere, 0);
    flushOk := false;
    var i := 0;
    while i < 2 && !flushOk
      invariant q.Valid() && 0 <= i <= 2 && q.files == old(q.files)
      invariant i == 0 ==> !flushOk && State(q.View(), q.committedWhere) == s
      invariant i == 1 && !flushOk ==> s.where < nextOffset && State(q.View(), q.committedWhere) == State(r.fs, r.where)
      invariant i == 2 || flushOk ==> Sync(q.View(), q.committedWhere, flushOk) == DoCommit(s.fs, q.size, s.where, nextOffset)
    {
      flushOk := q.committedWhere >= nextOffset;
      if !flushOk {
        var _ := CommitIn(q, 0);
      }
      i := i + 1;
    }
  }
}
