// The whole store after a restart: log and index files are loaded as full and recovered, and
// the counters are rebuilt.

module Restart {
  import opened Arithmetic
  import opened Bytes
  import opened ConsumeQueues
  import opened IndexRecovery
  import opened Log
  import opened LogFiles
  import opened Records
  import opened Recovery
  import opened Replay
  import opened RoundTrip
  import opened Segments
  import opened Store

  // ---------------------------------------------------------------- index files

  // Loaded index files that begin with the units: there are none, or the units, if there are
  // any, reach into the first of the files that recovery reads, wherever behind that the index
  // is torn, and nothing that looks like a unit stands behind them.
  ghost predicate IndexOnDisk(fs: seq<File>, size: int, us: seq<Unit>) {
    if fs == [] then us == []
    else
      && LoadedIndex(fs, size, us)
      && var from := fs[Max(0, |fs| - 3)].from; from < UNIT_SIZE * |us| || (us == [] && from == 0)
  }

  function FilesAt(ds: map<Queue, seq<File>>, q: Queue): seq<File> { if q in ds then ds[q] else [] }

  // The files of every queue hold its first n(q) messages.
  ghost predicate IndexesOnDisk(ds: map<Queue, seq<File>>, size: int, rs: seq<DispatchRequest>, n: Queue -> nat) {
    && size > 0 && Whole(size)
    && forall q :: n(q) <= |Of(rs, q)| && IndexOnDisk(FilesAt(ds, q), size, Units(Of(rs, q)[..n(q)]))
  }

  // recoverConsumeQueue: every index is recovered from its files.
  function RecoverAll(ds: map<Queue, seq<File>>, size: int): (xs: Indexes)
    requires size > 0 && Whole(size)
    ensures xs.Keys == ds.Keys && forall q :: q in ds ==> xs[q] == Recover(Index(ds[q], -1, 0), size)
  {
    map q | q in ds :: Recover(Index(ds[q], -1, 0), size)
  }

  lemma {:induction false} RecoverAllAt(ds: map<Queue, seq<File>>, size: int, q: Queue)
    requires size > 0 && Whole(size)
    ensures IndexAt(RecoverAll(ds, size), q) == Recover(Index(FilesAt(ds, q), -1, 0), size)
  {
    hide RecoverScan, Truncate;
  }

  lemma {:induction false} RecoveredIndex(fs: seq<File>, size: int, us: seq<Unit>)
    requires size > 0 && Whole(size) && IndexOnDisk(fs, size, us) && forall j :: 0 <= j < |us| ==> IsUnit(us[j])
    ensures Represents(Recover(Index(fs, -1, 0), size), size, us)
    ensures fs != [] && fs[|fs| - 1].from < UNIT_SIZE * |us| ==> Tailed(Recover(Index(fs, -1, 0), size))
  {
    hide LoadedIndex, RecoverScan, Truncate;
    if fs == [] {
      EmptyRepresents(size);
    } else {
      hide Represents, Recover;
      RecoverExact(Index(fs, -1, 0), size, us);
      if fs[|fs| - 1].from < UNIT_SIZE * |us| { RecoveredTailed(fs, size, us); }
    }
  }

  // The recovered files end in the last file if a unit does.
  lemma {:induction false} RecoveredTailed(fs: seq<File>, size: int, us: seq<Unit>)
    requires LoadedIndex(fs, size, us) && size > 0 && fs[|fs| - 1].from < UNIT_SIZE * |us|
    requires forall j :: 0 <= j < |us| ==> IsUnit(us[j])
    ensures Tailed(Recover(Index(fs, -1, 0), size))
  {
    hide Flat, UnitsBytes, Seen, Window, ScanUnits, LastSeen, RecoverScan, Truncate, Aligned, IsUnit;
    var start, n, end := FirstScanned(|fs|), |fs| - 1, UNIT_SIZE * |us|;
    if start < n { ChainOrder(fs, size, start, n); }
    RecoverFinds(fs, size, us, start, -1);
    FileBounds(fs, size, us, start);
    assert FirstBad(us, fs[start].from / UNIT_SIZE) == |us|;
    FileBounds(fs, size, us, n);
    if end < fs[n].from + size {
      var g := CutAt(fs, size, end, n);
    } else {
      forall i | 0 <= i < |fs| ensures fs[i].from + size <= end { if i < n { ChainOrder(fs, size, i, n); } }
      TruncateUntouched(fs, size, end);
    }
  }

  lemma {:induction false} RequestUnits(items: seq<Item>, size: int, q: Queue, n: nat)
    requires Layout(items, 0, size) && n <= |Of(Issued(items), q)|
    ensures forall j :: 0 <= j < n ==> IsUnit(Units(Of(Issued(items), q)[..n])[j])
  {
    hide Layout, Issued, Of, Total, InOrder;
    var rs := Issued(items);
    IssuedInOrder(items, size);
    forall j | 0 <= j < n ensures IsUnit(Units(Of(rs, q)[..n])[j]) {
      var i := OfMember(rs, q, j);
      SizesFit(items, i);
      OrderSays(rs, Total(items), i);
    }
  }

  // Recovering the index files of a log gives indexes of their messages.
  lemma {:induction false} RecoveredHold(ds: map<Queue, seq<File>>, size: int, items: seq<Item>, logSize: int, n: Queue -> nat)
    requires Layout(items, 0, logSize) && IndexesOnDisk(ds, size, Issued(items), n)
    ensures Holds(RecoverAll(ds, size), size, Issued(items), n)
  {
    hide Layout, Issued, Of, Represents, IndexOnDisk, RecoverAll, Recover, Whole;
    var rs := Issued(items);
    forall q ensures Represents(IndexAt(RecoverAll(ds, size), q), size, Units(Of(rs, q)[..n(q)])) {
      RequestUnits(items, logSize, q, n(q));
      RecoverAllAt(ds, size, q);
      RecoveredIndex(FilesAt(ds, q), size, Units(Of(rs, q)[..n(q)]));
    }
  }

  // A crash that tore index files, too: each is recovered as far as it goes, and abnormal
  // recovery of the log from file p on then leads back to a running store exactly when every
  // recovered index settles.
  lemma {:induction false} CrashRestartFromFiles(c: Config, codec: Codec, s: State, fs: seq<File>, t: nat, h: nat, p: nat, crc: bool,
                                                 ds: map<Queue, seq<File>>, n: Queue -> nat, contents: nat -> seq<byte>,
                                                 table: map<seq<byte>, int64>)
    requires Crashed(c, codec, s, fs, t, h, crc) && p < |fs| && FileSized(contents, c.indexSize)
    requires IndexesOnDisk(ds, c.indexSize, Issued(s.books.items), n) && IndexedBefore(s.books.items[..t], fs[p].from, n)
    ensures Restarts(c, codec, s, fs, t, h, p, crc, RecoverAll(ds, c.indexSize), n, contents, table)
  {
    hide Restarts, Crashed, Holds, IndexesOnDisk, Issued, RecoverAll, FileSized, IndexedBefore, Layout, Sane;
    CrashedLayout(c, codec, s, fs, t, h, crc);
    RecoveredHold(ds, c.indexSize, s.books.items, c.logSize, n);
    CrashRestart(c, codec, s, fs, t, h, p, crc, RecoverAll(ds, c.indexSize), n, contents, table);
  }

  lemma {:induction false} CrashedLayout(c: Config, codec: Codec, s: State, fs: seq<File>, t: nat, h: nat, crc: bool)
    requires Crashed(c, codec, s, fs, t, h, crc)
    ensures Sane(c) && c.indexSize > UNIT_SIZE && Whole(c.indexSize) && h <= t <= |s.books.items| && Layout(s.books.items, 0, c.logSize)
  {
    hide HoldsItems, Checksummed, Dirty, Derived, Layout, Total, Issued, InOrder, Numbered, Counts, Holds;
  }

  // ---------------------------------------------------------------- clean restart

  // Everything the store has on disk after a clean shutdown: its log from item h on, with
  // anything but a record behind it, and its index files, with anything but a unit behind them.
  ghost predicate Shutdown(c: Config, codec: Codec, s: State, fs: seq<File>, h: nat, crc: bool) {
    && Sane(c) && Inv(c, s) && h <= |s.books.items| && fs != [] && HoldsItems(fs, c.logSize, s.books.items[h..])
    && fs[0].from == Total(s.books.items[..h]) && Checksummed(codec, s.books.items[h..])
    && (var last := fs[|fs| - 1]; 0 <= last.wrote < |last.data| ==> Dirty(codec, last.data[last.wrote..], crc, crc))
    && forall q :: CleanEnd(IndexAt(s.indexes, q))
  }

  ghost predicate CleanEnd(x: Index) {
    x.fs != [] ==>
      var last := x.fs[|x.fs| - 1]; 0 <= last.wrote < |last.data| ==> !IsUnit(Seen(last.data, last.wrote))
  }

  function IndexFilesOf(xs: Indexes): (ds: map<Queue, seq<File>>)
    ensures ds.Keys == xs.Keys && forall q :: q in xs ==> ds[q] == Load(xs[q].fs)
  {
    map q | q in xs :: Load(xs[q].fs)
  }

  // Every message issued has reached its index.
  ghost predicate AllDispatched(rs: seq<DispatchRequest>, done: nat)
    requires done <= |rs|
  {
    forall q :: |Of(rs[..done], q)| == |Of(rs, q)|
  }

  lemma {:induction false} StartBeforeLast(fs: seq<File>, size: int)
    requires Chain(fs, size) && fs != []
    ensures fs[FirstScanned(|fs|)].from <= fs[|fs| - 1].from
  {
    hide Sound;
    if FirstScanned(|fs|) < |fs| - 1 { ChainOrder(fs, size, FirstScanned(|fs|), |fs| - 1); }
  }

  // The files of a running index load as files that hold its units, up to their last one.
  lemma {:induction false} IndexLoads(x: Index, size: int, us: seq<Unit>)
    requires Represents(x, size, us) && Tailed(x) && CleanEnd(x)
    ensures IndexOnDisk(Load(x.fs), size, us)
    ensures x.fs != [] ==> Load(x.fs) != [] && Load(x.fs)[|x.fs| - 1].from < UNIT_SIZE * |us|
  {
    hide Flat, UnitsBytes, Seen, IsUnit, LoadedIndex, Aligned;
    if x.fs != [] {
      LoadedIndexOf(x, size, us);
      RepresentsExactly(x, size, us);
      ExactlySays(x.fs, size, us);
      StartBeforeLast(x.fs, size);
    }
  }

  // The indexes after a clean restart are the running ones.
  lemma {:induction false} CleanIndexes(c: Config, s: State)
    requires Sane(c) && Inv(c, s) && forall q :: CleanEnd(IndexAt(s.indexes, q))
    ensures var rs, ys := Issued(s.books.items), RecoverAll(IndexFilesOf(s.indexes), c.indexSize);
            s.done <= |rs| && Holds(ys, c.indexSize, rs, Upto(rs, s.done)) && AllTailed(ys)
  {
    hide Layout, Total, Issued, InOrder, Numbered, Counts, Represents, Of, CleanEnd, Tailed, RecoverAll, Recover, IndexOnDisk;
    var size, rs, ds := c.indexSize, Issued(s.books.items), IndexFilesOf(s.indexes);
    var ys := RecoverAll(ds, size);
    forall q
      ensures Upto(rs, s.done)(q) <= |Of(rs, q)|
      ensures Represents(IndexAt(ys, q), size, Units(Of(rs, q)[..Upto(rs, s.done)(q)])) && Tailed(IndexAt(ys, q))
    {
      var n := Upto(rs, s.done)(q);
      var us := Units(Of(rs, q)[..n]);
      RequestUnits(s.books.items, c.logSize, q, n);
      RecoverAllAt(ds, size, q);
      RunningIndex(s.indexes, size, us, q);
    }
  }

  lemma {:induction false} RunningIndex(xs: Indexes, size: int, us: seq<Unit>, q: Queue)
    requires size > 0 && Whole(size) && Represents(IndexAt(xs, q), size, us) && Tailed(IndexAt(xs, q)) && CleanEnd(IndexAt(xs, q))
    requires forall j :: 0 <= j < |us| ==> IsUnit(us[j])
    ensures var y := Recover(Index(FilesAt(IndexFilesOf(xs), q), -1, 0), size); Represents(y, size, us) && Tailed(y)
  {
    var x := IndexAt(xs, q);
    assert FilesAt(IndexFilesOf(xs), q) == Load(x.fs);
    IndexLoads(x, size, us);
    if x.fs == [] { assert Load(x.fs) == []; }
    hide Represents, CleanEnd, IsUnit, IndexOnDisk;
    RecoveredIndex(Load(x.fs), size, us);
  }

  // A clean restart of the whole store: the log and every index are restored, and with the
  // counters rebuilt it is a running store with every message indexed if and only if every
  // message had been dispatched before.  recoverNormally dispatches nothing.
  lemma {:induction false} CleanStoreRestart(c: Config, codec: Codec, s: State, fs: seq<File>, h: nat, crc: bool,
                                             table: map<seq<byte>, int64>)
    requires Shutdown(c, codec, s, fs, h, crc)
    ensures var gs, items, rs := Load(fs), s.books.items, Issued(s.books.items);
            var scan := ScanFiles(codec, gs, Max(0, |gs| - 3), Max(0, |gs| - 3), 0, 0, crc, crc);
            var ys := RecoverAll(IndexFilesOf(s.indexes), c.indexSize);
            && scan.Scan? && s.done <= |rs|
            && var left := Surviving(gs, c.logSize, items, h);
               && HoldsItems(Truncate(gs, c.logSize, scan.offset), c.logSize, left[h..]) && scan.offset == Total(left)
               && Issued(left) == rs && Holds(ys, c.indexSize, rs, Upto(rs, s.done))
               && (Rebuilt(table, ys) ==> (Inv(c, Running(table, left, ys)) <==> AllDispatched(rs, s.done)))
  {
    hide Layout, Total, Issued, Flat, LogBytes, InFile, Chain, ScanFiles, Truncate, HoldsItems, Checksummed, Dirty, Inv, Holds,
      RecoverAll, Rebuilt, AllDispatched, CleanEnd, AllTailed, Readable;
    var gs, items, rs := Load(fs), s.books.items, Issued(s.books.items);
    CleanRestart(codec, fs, c.logSize, items[h..], crc);
    CleanLog(c, codec, s, fs, h, crc);
    CleanIndexes(c, s);
    var ys, left := RecoverAll(IndexFilesOf(s.indexes), c.indexSize), Surviving(gs, c.logSize, items, h);
    if Rebuilt(table, ys) { CleanSettles(c, s, ys, left, table); }
  }

  lemma {:induction false} CleanLog(c: Config, codec: Codec, s: State, fs: seq<File>, h: nat, crc: bool)
    requires Shutdown(c, codec, s, fs, h, crc)
    ensures var gs, items := Load(fs), s.books.items;
            var left := Surviving(gs, c.logSize, items, h);
            && gs[0].from == fs[0].from && left[h..] == Kept(gs, c.logSize, items[h..])
            && Issued(left) == Issued(items) && Layout(left, 0, c.logSize)
            && Total(left) == fs[0].from + Total(Kept(gs, c.logSize, items[h..]))
  {
    hide Layout, Total, Issued, Flat, LogBytes, InFile, Chain, HoldsItems, Checksummed, Dirty, Holds, InOrder, Numbered, Counts,
      CleanEnd, Loaded, Behind, Kept;
    var gs, items := Load(fs), s.books.items;
    LoadedLog(fs, c.logSize, items[h..]);
    assert Readable(codec, gs, c.logSize, items[h..], crc, crc);
    SurvivingIssues(codec, gs, c.logSize, items, h, crc, crc);
    var kept := Kept(gs, c.logSize, items[h..]);
    assert (items[..h] + kept)[h..] == kept;
  }

  lemma {:induction false} CleanSettles(c: Config, s: State, ys: Indexes, left: seq<Item>, table: map<seq<byte>, int64>)
    requires Sane(c) && Inv(c, s) && Issued(left) == Issued(s.books.items) && Layout(left, 0, c.logSize) && s.done <= |Issued(left)|
    requires Holds(ys, c.indexSize, Issued(left), Upto(Issued(left), s.done)) && AllTailed(ys) && Rebuilt(table, ys)
    ensures Inv(c, Running(table, left, ys)) <==> AllDispatched(Issued(left), s.done)
  {
    hide Layout, Total, Issued, InOrder, Numbered, Of, Represents, Tailed, Rebuilt, Counts;
    var size, rs := c.indexSize, Issued(left);
    IssuedInOrder(left, c.logSize);
    assert rs[|rs|..] == [];
    HoldsWhole(ys, size, rs);
    forall q
      ensures Represents(IndexAt(ys, q), size, Units(Of(rs, q))) <==> |Of(rs[..s.done], q)| == |Of(rs, q)|
    {
      var n := |Of(rs[..s.done], q)|;
      assert Represents(IndexAt(ys, q), size, Units(Of(rs, q)[..Upto(rs, s.done)(q)]));
      UnitCount(IndexAt(ys, q), size, Units(Of(rs, q)[..n]));
      if Represents(IndexAt(ys, q), size, Units(Of(rs, q))) { UnitCount(IndexAt(ys, q), size, Units(Of(rs, q))); }
      if n == |Of(rs, q)| { assert Of(rs, q)[..n] == Of(rs, q); }
    }
    if Holds(ys, size, rs, Upto(rs, |rs|)) { WholeCounts(table, ys, size, rs); }
    hide Holds, AllTailed;
  }
}
