// What a machine crash leaves of the log: everything below the flush frontier, so a message
// acknowledged by a synchronous put is found again by either recovery.

module Durability {
  import opened Arithmetic
  import opened Bytes
  import opened Flush
  import opened Log
  import opened LogFiles
  import opened Records
  import opened Recovery
  import opened Segments

  // ---------------------------------------------------------------- the files after the crash

  // The files loaded after a machine crash.
  ghost function AfterCrash(fs: seq<File>): (gs: seq<File>)
    ensures |gs| == |fs| && forall i :: 0 <= i < |fs| ==> gs[i] == LoadFile(Lost(fs[i]))
  {
    Load(AllLost(fs))
  }

  // Files with the same bytes below `where` have the same flat space below it.
  ghost predicate AgreeBelow(fs: seq<File>, gs: seq<File>, where: int) {
    |fs| == |gs| && forall i :: 0 <= i < |fs| ==> AgreesBelow(fs[i], gs[i], where)
  }

  ghost predicate AgreesBelow(f: File, g: File, where: int) {
    && f.from == g.from && |f.data| == |g.data|
    && forall p :: 0 <= p < |f.data| && p < f.wrote && f.from + p < where ==> f.data[p] == g.data[p]
  }

  lemma {:induction false} FlatAgrees(fs: seq<File>, gs: seq<File>, size: int, where: int)
    requires Chain(fs, size) && Chain(gs, size) && fs != [] && AgreeBelow(fs, gs, where)
    requires forall i :: 0 <= i < |gs| ==> gs[i].wrote == size
    requires fs[0].from <= where <= MaxOffset(fs)
    ensures Take(Flat(gs), where - fs[0].from) == Take(Flat(fs), where - fs[0].from)
    decreases |fs|
  {
    hide Aligned, Take, Written, Flat;
    var n, base := |fs| - 1, fs[0].from;
    var middle := Min(where, fs[n].from);
    assert Sound(fs[n], size) && Sound(gs[n], size) && Sound(fs[0], size);
    FlatBefore(fs, size, n);
    FlatBefore(gs, size, n);
    LastPart(fs[n], gs[n], size, where);
    if n > 0 {
      ChainPrefix(fs, size, n);
      ChainPrefix(gs, size, n);
      ChainOrder(fs, size, 0, n);
      assert Link(fs, n, size);
      forall i | 0 <= i < n ensures AgreesBelow(fs[..n][i], gs[..n][i], middle) { assert AgreesBelow(fs[i], gs[i], where); }
      FlatAgrees(fs[..n], gs[..n], size, middle);
    }
    hide Chain, AgreeBelow;
    SnocFlat(fs);
    SnocFlat(gs);
    TakeAll(Flat(fs[..n]), Flat(gs[..n]));
    TakeOfSum(Flat(fs[..n]), Written(fs[n]), where - base);
    TakeOfSum(Flat(gs[..n]), Written(gs[n]), where - base);
  }

  lemma {:induction false} SnocFlat(fs: seq<File>)
    requires fs != []
    ensures Flat(fs) == Flat(fs[..|fs| - 1]) + Written(fs[|fs| - 1]) && Flat([]) == []
  {
    hide Written;
  }

  lemma {:induction false} TakeAll(a: seq<byte>, b: seq<byte>)
    ensures Take(a, |a|) == a && Take(b, |b|) == b
  {
  }

  lemma {:induction false} LastPart(f: File, g: File, size: int, where: int)
    requires Sound(f, size) && g.wrote == size == |g.data| && AgreesBelow(f, g, where) && where <= f.from + f.wrote
    ensures Take(Written(g), where - f.from) == Take(Written(f), where - f.from)
  {
    hide Aligned;
  }

  // Below the frontier nothing is lost.
  lemma {:induction false} CrashKeepsFlat(fs: seq<File>, size: int, where: int)
    requires Flushed(fs, size, where) && fs != [] && fs[0].from <= where
    ensures var gs := AfterCrash(fs);
            && Chain(gs, size) && (forall i :: 0 <= i < |gs| ==> gs[i].wrote == size)
            && Take(Flat(gs), where - fs[0].from) == Take(Flat(fs), where - fs[0].from)
  {
    hide Flat, Aligned;
    var gs := AfterCrash(fs);
    LostChain(fs, size, where);
    LoadChain(AllLost(fs), size);
    forall i | 0 <= i < |fs| ensures AgreesBelow(fs[i], gs[i], where) { assert FlushedBelow(fs[i], where); }
    hide Chain;
    FlatAgrees(fs, gs, size, where);
  }

  // The files begin with the items that lie below the frontier.
  lemma {:induction false} CrashKeepsItems(fs: seq<File>, size: int, items: seq<Item>, where: int, k: nat)
    requires Flushed(fs, size, where) && fs != [] && HoldsItems(fs, size, items) && k <= |items|
    requires fs[0].from + Total(items[..k]) <= where
    ensures Loaded(AfterCrash(fs), size, items[..k])
  {
    hide Flat, Layout, LogBytes, Total, InFile, Take;
    var gs, base, n := AfterCrash(fs), fs[0].from, Total(items[..k]);
    CrashKeepsFlat(fs, size, where);
    LayoutSplit(items, base, size, k);
    LogSplit(items, base, k);
    TotalSplit(items, k);
    FlatLength(fs, size);
    hide Chain;
    TakeShorter(Flat(gs), Flat(fs), where - base, n);
  }

  lemma {:induction false} TakeShorter(a: seq<byte>, b: seq<byte>, w: nat, n: nat)
    requires Take(a, w) == Take(b, w) && n <= w && n <= |b|
    ensures n <= |a| && a[..n] == b[..n]
  {
    assert |Take(a, w)| == Min(w, |a|) && |Take(b, w)| == Min(w, |b|);
    assert Take(a, w)[..n] == a[..n] && Take(b, w)[..n] == b[..n];
  }

  // ---------------------------------------------------------------- what recovery finds

  // Whatever stands behind the log, the scan does not stop before the offset it has reached.
  lemma {:induction false} ScanNotBehind(c: Codec, fs: seq<File>, size: int, cur: nat, rp: nat, off: nat, from: nat, crc: bool,
                                         body: bool)
    requires Chain(fs, size) && cur < |fs| && rp <= |Window(fs[cur])| && from <= off && from <= size
    ensures var r := ScanFiles(c, fs, cur, cur, rp, off, crc, body); r.Scan? ==> r.offset >= fs[cur].from + from
    decreases |fs| - cur, |Window(fs[cur])| - rp
  {
    hide Parse, Window, Chain;
    var r := Parse(c, Window(fs[cur])[rp..], crc, body);
    if r.Parsed? {
      if r.request.msgSize > 0 {
        ScanNotBehind(c, fs, size, cur, rp + r.consumed, off + r.request.msgSize, from, crc, body);
      } else if r.request.msgSize == 0 && cur + 1 < |fs| {
        ChainOrder(fs, size, cur, cur + 1);
        ScanNotBehind(c, fs, size, cur + 1, 0, 0, 0, crc, body);
      } else if r.request.msgSize < -1 {
        ScanNotBehind(c, fs, size, cur, rp + r.consumed, off, from, crc, body);
      }
    }
  }

  // The same with the number that recoverAbnormally keeps, one too small: at a blank record it
  // starts again with the same file.
  lemma {:induction false} AbnormalNotBehind(c: Codec, fs: seq<File>, p: nat, rp: nat, off: nat, from: nat, crc: bool, body: bool)
    requires p < |fs| && rp <= |Window(fs[p])| && from <= off
    requires var again := ScanFiles(c, fs, p, p, 0, 0, crc, body); again.Scan? ==> again.offset >= fs[p].from + from
    ensures var r := ScanFiles(c, fs, p, p - 1, rp, off, crc, body); r.Scan? ==> r.offset >= fs[p].from + from
    decreases |Window(fs[p])| - rp
  {
    hide Parse, Window;
    var r := Parse(c, Window(fs[p])[rp..], crc, body);
    if r.Parsed? {
      if r.request.msgSize > 0 {
        AbnormalNotBehind(c, fs, p, rp + r.consumed, off + r.request.msgSize, from, crc, body);
      } else if r.request.msgSize < -1 {
        AbnormalNotBehind(c, fs, p, rp + r.consumed, off, from, crc, body);
      }
    }
  }

  // A scan that reads the bodies never makes the parser panic.
  lemma {:induction false} NoPanic(c: Codec, fs: seq<File>, cur: nat, index: int, rp: nat, off: int, crc: bool)
    requires cur < |fs| && -1 <= index < |fs| && rp <= |Window(fs[cur])|
    ensures ScanFiles(c, fs, cur, index, rp, off, crc, true).Scan?
    decreases |fs| - index, |Window(fs[cur])| - rp
  {
    hide Parse, Window;
    ParsesBody(c, Window(fs[cur])[rp..], crc);
    var r := Parse(c, Window(fs[cur])[rp..], crc, true);
    if r.request.msgSize > 0 {
      NoPanic(c, fs, cur, index, rp + r.consumed, off + r.request.msgSize, crc);
    } else if r.request.msgSize == 0 && index + 1 < |fs| {
      NoPanic(c, fs, index + 1, index + 1, 0, 0, crc);
    } else if r.request.msgSize < -1 {
      NoPanic(c, fs, cur, index, rp + r.consumed, off, crc);
    }
  }

  lemma {:induction false} ParsesBody(c: Codec, s: seq<byte>, crc: bool)
    ensures Parse(c, s, crc, true).Parsed?
  {
    hide R32, R64, Padded, From, ParseTail;
  }

  // The scan passes the end of the items and reports every one of their records from number j on.
  ghost predicate Finds(c: Codec, scan: Scan, items: seq<Item>, j: nat, at: int, end: int)
    requires j <= |items|
  {
    scan.Scan? ==> scan.offset >= end && forall r :: r in Replays(c, items[j..], at) ==> r in scan.requests
  }

  lemma {:induction false} FindsMore(c: Codec, rs: seq<DispatchRequest>, scan: Scan, items: seq<Item>, j: nat, at: int, end: int)
    requires j <= |items| && (scan.Scan? ==> scan.offset >= end)
    requires rs == Replays(c, items[j..], at) || Finds(c, scan, items, j, at, end)
    ensures Finds(c, Prepend(rs, scan), items, j, at, end)
  {
    hide Replays;
  }

  // Files that begin with some items, the last of them a record, whatever they go on with.
  ghost predicate BeginsWith(c: Codec, fs: seq<File>, size: int, items: seq<Item>) {
    Loaded(fs, size, items) && Checksummed(c, items) && items != [] && items[|items| - 1].Record?
  }

  lemma {:induction false} EndsInside(c: Codec, fs: seq<File>, size: int, items: seq<Item>)
    requires BeginsWith(c, fs, size, items)
    ensures var e, end := EndFile(fs, size, items), fs[0].from + Total(items);
            fs[e].from <= end < fs[e].from + size && items[..|items|] == items && AtItem(fs, size, items, |items|, e)
  {
    hide Layout, LogBytes, Flat, InFile, Total, EndFile, Chain, Checksummed;
    EndFileCovers(fs, size, items);
    if fs[0].from + Total(items) >= fs[|fs| - 1].from + size { LastIsFiller(fs, size, items); }
  }

  // recoverNormally's scan.
  lemma {:induction false} NormalFinds(c: Codec, fs: seq<File>, size: int, items: seq<Item>, p: nat, j: nat, crc: bool, body: bool)
    requires BeginsWith(c, fs, size, items) && p < |fs| && j <= |items| && AtItem(fs, size, items, j, p)
    requires fs[0].from + Total(items[..j]) == fs[p].from
    ensures Finds(c, ScanFiles(c, fs, p, p, 0, 0, crc, body), items, j, fs[p].from, fs[0].from + Total(items))
  {
    hide Layout, LogBytes, Flat, InFile, Total, EndFile, Checksummed, ScanFiles, Replays, Window, Prepend, Finds;
    var e, end := EndFile(fs, size, items), fs[0].from + Total(items);
    EndsInside(c, fs, size, items);
    ScanLog(c, fs, size, items, j, p, e, crc, body);
    var off := end - fs[e].from;
    ScanNotBehind(c, fs, size, e, off, off, off, crc, body);
    hide Chain, Loaded, AtItem;
    FindsMore(c, Replays(c, items[j..], fs[p].from), ScanFiles(c, fs, e, e, off, off, crc, body), items, j, fs[p].from, end);
  }

  // recoverAbnormally's scan.
  lemma {:induction false} AbnormalFinds(c: Codec, fs: seq<File>, size: int, items: seq<Item>, p: nat, j: nat, crc: bool, body: bool)
    requires BeginsWith(c, fs, size, items) && p < |fs| && j <= |items| && AtItem(fs, size, items, j, p)
    requires fs[0].from + Total(items[..j]) == fs[p].from
    ensures Finds(c, ScanFiles(c, fs, p, p - 1, 0, 0, crc, body), items, j, fs[p].from, fs[0].from + Total(items))
  {
    hide Layout, LogBytes, Flat, InFile, Total, EndFile, Checksummed, ScanFiles, Replays, Window, Prepend, Finds, Chain;
    var end := fs[0].from + Total(items);
    EndsInside(c, fs, size, items);
    NormalFinds(c, fs, size, items, p, j, crc, body);
    if fs[p].from + size <= end {
      var m := FillerOf(fs, size, items, p);
      assert j <= m by { if m < j { TotalMonotone(items, m + 1, j); TotalStep(items, m); } }
      OnlyRecords(fs, size, items, j, m, p);
      ScanRecords(c, fs, size, items, j, m, p, p - 1, crc, body);
      ScanItem(c, fs, size, items, m, p, p - 1, crc, body);
      hide Loaded, AtItem;
      FindsAgain(c, Replays(c, items[j..m], fs[p].from), ScanFiles(c, fs, p, p, 0, 0, crc, body), items, j, fs[p].from, end);
    } else {
      TotalMonotone(items, j, |items|);
      EndFileIs(fs, size, items, p);
      OnlyRecords(fs, size, items, j, |items|, p);
      ScanRecords(c, fs, size, items, j, |items|, p, p - 1, crc, body);
      assert items[j..|items|] == items[j..];
      hide Loaded, AtItem;
      var off := end - fs[p].from;
      FindsOffset(c, ScanFiles(c, fs, p, p, 0, 0, crc, body), items, j, fs[p].from, end);
      AbnormalNotBehind(c, fs, p, off, off, off, crc, body);
      FindsMore(c, Replays(c, items[j..], fs[p].from), ScanFiles(c, fs, p, p - 1, off, off, crc, body), items, j, fs[p].from, end);
    }
  }

  lemma {:induction false} FindsOffset(c: Codec, scan: Scan, items: seq<Item>, j: nat, at: int, end: int)
    requires j <= |items| && Finds(c, scan, items, j, at, end)
    ensures scan.Scan? ==> scan.offset >= end
  {
    hide Replays;
  }

  lemma {:induction false} FindsAgain(c: Codec, rs: seq<DispatchRequest>, scan: Scan, items: seq<Item>, j: nat, at: int, end: int)
    requires j <= |items| && Finds(c, scan, items, j, at, end)
    ensures Finds(c, Prepend(rs, scan), items, j, at, end)
  {
    FindsOffset(c, scan, items, j, at, end);
    hide Finds;
    FindsMore(c, rs, scan, items, j, at, end);
  }

  // The files cut where the scan stopped still begin with the items.
  lemma {:induction false} CutKeepsItems(fs: seq<File>, size: int, items: seq<Item>, offset: int)
    requires Loaded(fs, size, items) && offset >= fs[0].from + Total(items)
    ensures Take(Flat(Truncate(fs, size, offset)), Total(items)) == LogBytes(items, fs[0].from)
  {
    hide Layout, LogBytes, Flat, InFile, Total, Truncate, Aligned;
    var n, base := |fs| - 1, fs[0].from;
    TakeIs(Flat(fs), Total(items));
    assert Sound(fs[0], size);
    if offset < fs[n].from + size {
      var k := Cover(fs, size, offset);
      TruncateKeeps(fs, size, offset, k);
      TakeOfTake(Flat(fs), offset - base, Total(items));
    } else {
      forall i | 0 <= i < |fs| ensures fs[i].from + size <= offset { if i < n { ChainOrder(fs, size, i, n); } }
      TruncateUntouched(fs, size, offset);
    }
  }

  lemma {:induction false} TakeOfTake(a: seq<byte>, w: nat, n: nat)
    requires n <= w
    ensures Take(Take(a, w), n) == Take(a, n)
  {
  }

  // Either recovery that starts with file p, where item j starts, stops behind the items, reports
  // every record from number j on and keeps the items, unless the parser panics, which it does
  // not where bodies are read.
  ghost predicate Survive(c: Codec, gs: seq<File>, size: int, items: seq<Item>, p: nat, j: nat, crc: bool, body: bool)
    requires size > 0 && p < |gs|
  {
    && j <= |items| && gs[0].from + Total(items[..j]) == gs[p].from
    && forall index | index == p || index == p - 1 ::
         && var scan := ScanFiles(c, gs, p, index, 0, 0, crc, body);
         && Finds(c, scan, items, j, gs[p].from, gs[0].from + Total(items))
         && (scan.Scan? ==> Take(Flat(Truncate(gs, size, scan.offset)), Total(items)) == LogBytes(items, gs[0].from))
         && (body ==> scan.Scan?)
  }

  // A machine crash, with the frontier anywhere behind item k: whatever else the disk holds, the
  // items up to that one survive.
  lemma {:induction false} CrashKeepsRecords(c: Codec, fs: seq<File>, size: int, items: seq<Item>, where: int, k: nat, p: nat, crc: bool,
                                             body: bool) returns (j: nat)
    requires Flushed(fs, size, where) && p < |fs| && HoldsItems(fs, size, items) && Checksummed(c, items)
    requires 0 < k <= |items| && items[k - 1].Record? && fs[0].from + Total(items[..k]) <= where
    requires fs[p].from <= fs[0].from + Total(items[..k])
    ensures Survive(c, AfterCrash(fs), size, items[..k], p, j, crc, body)
  {
    hide Layout, LogBytes, Flat, InFile, Total, ScanFiles, Truncate, Finds, Chain, Flushed, HoldsItems, Take;
    var gs, front, base := AfterCrash(fs), items[..k], fs[0].from;
    var end := base + Total(front);
    CrashKeepsItems(fs, size, items, where, k);
    assert front[|front| - 1] == items[k - 1];
    assert BeginsWith(c, gs, size, front);
    j := StartsAtItem(gs, size, front, p);
    NormalFinds(c, gs, size, front, p, j, crc, body);
    AbnormalFinds(c, gs, size, front, p, j, crc, body);
    forall index | index == p || index == p - 1
      ensures var scan := ScanFiles(c, gs, p, index, 0, 0, crc, body);
              && Finds(c, scan, front, j, gs[p].from, end)
              && (scan.Scan? ==> Take(Flat(Truncate(gs, size, scan.offset)), Total(front)) == LogBytes(front, base))
              && (body ==> scan.Scan?)
    {
      if body { NoPanic(c, gs, p, index, 0, 0, crc); }
      var scan := ScanFiles(c, gs, p, index, 0, 0, crc, body);
      FindsOffset(c, scan, front, j, gs[p].from, end);
      if scan.Scan? { CutKeepsItems(gs, size, front, scan.offset); }
    }
  }

  // ---------------------------------------------------------------- synchronous puts

  lemma {:induction false} CommitKeepsLog(fs: seq<File>, size: int, where: int, pages: int)
    requires Flushed(fs, size, where)
    ensures var r := Commit(fs, size, where, pages);
            |r.fs| == |fs| && Flat(r.fs) == Flat(fs) && forall i :: 0 <= i < |fs| ==> r.fs[i].from == fs[i].from
  {
    hide CommitFile, FlushedBelow, Lookup;
    if Lookup(fs, size, where, true).Some? && Lookup(fs, size, where, true).value < |fs| {
      var i := Lookup(fs, size, where, true).value;
      assert Sound(fs[i], size);
      CommitFileIs(fs[i], size, pages);
      SameFlat(fs, fs[i := CommitFile(fs[i], size, pages)]);
    }
  }

  lemma {:induction false} SameFlat(fs: seq<File>, gs: seq<File>)
    requires |fs| == |gs| && forall i :: 0 <= i < |fs| ==> Written(fs[i]) == Written(gs[i])
    ensures Flat(fs) == Flat(gs)
  {
    hide Written;
    if fs != [] { SameFlat(fs[..|fs| - 1], gs[..|gs| - 1]); }
  }

  lemma {:induction false} FlushedSize(fs: seq<File>, size: int, where: int)
    requires Flushed(fs, size, where)
    ensures size > 0
  {
  }

  lemma {:induction false} DoCommitKeepsLog(fs: seq<File>, size: int, where: int, next: int, items: seq<Item>)
    requires Flushed(fs, size, where) && HoldsItems(fs, size, items)
    ensures var s := DoCommit(fs, size, where, next);
            && Flushed(s.fs, size, s.where) && HoldsItems(s.fs, size, items) && (s.flushOk ==> s.where >= next)
            && |s.fs| == |fs| && forall i :: 0 <= i < |fs| ==> s.fs[i].from == fs[i].from
  {
    hide *;
    FlushedSize(fs, size, where);
    var r := Commit(fs, size, where, 0);
    CommitKeepsFlushed(fs, size, where, 0);
    CommitKeepsLog(fs, size, where, 0);
    FlushedHolds(fs, r.fs, size, r.where, items);
    CommitKeepsFlushed(r.fs, size, r.where, 0);
    CommitKeepsLog(r.fs, size, r.where, 0);
    FlushedHolds(r.fs, Commit(r.fs, size, r.where, 0).fs, size, Commit(r.fs, size, r.where, 0).where, items);
    DoCommitIs(fs, size, where, next);
  }

  lemma {:induction false} FlushedHolds(fs: seq<File>, gs: seq<File>, size: int, where: int, items: seq<Item>)
    requires HoldsItems(fs, size, items) && Flushed(gs, size, where) && |gs| == |fs| && Flat(gs) == Flat(fs)
    requires forall i :: 0 <= i < |fs| ==> gs[i].from == fs[i].from
    ensures HoldsItems(gs, size, items)
  {
    hide Layout, LogBytes, Flat, InFile, Chain, FlushedBelow;
  }

  lemma {:induction false} DoCommitIs(fs: seq<File>, size: int, where: int, next: int)
    requires size > 0
    ensures var s, r := DoCommit(fs, size, where, next), Commit(fs, size, where, 0);
            && (s.flushOk ==> s.where >= next)
            && (State(s.fs, s.where) in {State(fs, where), State(r.fs, r.where),
                                         State(Commit(r.fs, size, r.where, 0).fs, Commit(r.fs, size, r.where, 0).where)})
  {
    hide Commit;
  }

  // A put of item k - 1 whose group commit has answered true survives a machine crash: it is
  // found and kept by whichever recovery follows.
  lemma {:induction false} SyncPutSurvives(c: Codec, fs: seq<File>, size: int, items: seq<Item>, where: int, k: nat, p: nat, crc: bool,
                                           body: bool) returns (j: nat)
    requires Flushed(fs, size, where) && p < |fs| && HoldsItems(fs, size, items) && Checksummed(c, items)
    requires 0 < k <= |items| && items[k - 1].Record? && fs[p].from <= fs[0].from + Total(items[..k])
    requires DoCommit(fs, size, where, fs[0].from + Total(items[..k])).flushOk
    ensures var gs := AfterCrash(DoCommit(fs, size, where, fs[0].from + Total(items[..k])).fs);
            |gs| == |fs| && Survive(c, gs, size, items[..k], p, j, crc, body)
  {
    hide *;
    FlushedSize(fs, size, where);
    var next := fs[0].from + Total(items[..k]);
    var s := DoCommit(fs, size, where, next);
    DoCommitKeepsLog(fs, size, where, next, items);
    j := CrashKeepsRecords(c, s.fs, size, items, s.where, k, p, crc, body);
  }
}
