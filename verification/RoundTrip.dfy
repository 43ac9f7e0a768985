// Restart: files written by a running store, loaded as full and recovered.

module RoundTrip {
  import opened Arithmetic
  import opened Bytes
  import opened ConsumeQueues
  import opened IndexRecovery
  import opened Log
  import opened LogFiles
  import opened Recovery
  import opened Records
  import opened Replay
  import opened Segments
  import opened Store

  // Full files load as they are.
  lemma {:induction false} LoadFull(fs: seq<File>, size: int)
    requires Chain(fs, size) && forall i :: 0 <= i < |fs| ==> fs[i].wrote == size
    ensures Flat(Load(fs)) == Flat(fs)
  {
    hide Aligned;
    if fs != [] {
      var n := |fs| - 1;
      ChainPrefix(fs, size, n);
      LoadFull(fs[..n], size);
      assert Load(fs)[..n] == Load(fs[..n]);
      assert Sound(fs[n], size);
      assert Written(LoadFile(fs[n])) == Written(fs[n]);
    }
  }

  // The loaded files begin with what was written, and go on with what else the last file holds.
  lemma {:induction false} LoadFlat(fs: seq<File>, size: int)
    requires Chain(fs, size) && fs != []
    ensures var last := fs[|fs| - 1];
            0 <= last.wrote <= |last.data| && Flat(Load(fs)) == Flat(fs) + last.data[last.wrote..]
  {
    hide Aligned;
    var n := |fs| - 1;
    var last := fs[n];
    assert Sound(last, size);
    ChainPrefix(fs, size, n);
    forall i | 0 <= i < n ensures fs[..n][i].wrote == size { assert Link(fs, i + 1, size); }
    LoadFull(fs[..n], size);
    assert Load(fs)[..n] == Load(fs[..n]);
    hide Chain;
    assert Written(LoadFile(last)) == last.data;
    assert Flat(fs[..n]) + (Written(last) + last.data[last.wrote..]) == Flat(fs[..n]) + Written(last) + last.data[last.wrote..];
    assert Written(last) + last.data[last.wrote..] == last.data;
  }

  // ---------------------------------------------------------------- the commit log

  lemma {:induction false} LoadedLog(fs: seq<File>, size: int, items: seq<Item>)
    requires HoldsItems(fs, size, items) && fs != []
    ensures var gs, last := Load(fs), fs[|fs| - 1];
            && Loaded(gs, size, items) && gs[0].from == fs[0].from
            && last.from + last.wrote == fs[0].from + Total(items) && 0 <= last.wrote <= |last.data| == size
            && (last.wrote < size ==> Behind(gs, size, items) == last.data[last.wrote..])
  {
    hide Layout, Total, Flat, LogBytes, InFile, Aligned, EndFile;
    LoadChain(fs, size);
    LoadFlat(fs, size);
    FlatLength(fs, size);
    assert Sound(fs[|fs| - 1], size);
    assert (LogBytes(items, fs[0].from) + fs[|fs| - 1].data[fs[|fs| - 1].wrote..])[..Total(items)] == LogBytes(items, fs[0].from);
    if fs[|fs| - 1].wrote < size { EndFileIs(Load(fs), size, items, |fs| - 1); }
  }

  // For every log that puts have written, with anything but a record behind it: loading all
  // files as full and recovering restores the log and its end, except that a blank record
  // that closes the last file is cut off.
  lemma {:induction false} CleanRestart(c: Codec, fs: seq<File>, size: int, items: seq<Item>, crc: bool)
    requires HoldsItems(fs, size, items) && fs != [] && Checksummed(c, items)
    requires var last := fs[|fs| - 1];
             0 <= last.wrote < |last.data| ==> Dirty(c, last.data[last.wrote..], crc, crc)
    ensures var gs, kept, start := Load(fs), Kept(Load(fs), size, items), Max(0, |fs| - 3);
            var scan := ScanFiles(c, gs, start, start, 0, 0, crc, crc);
            && scan.Scan? && HoldsItems(Truncate(gs, size, scan.offset), size, kept)
            && MaxOffset(Truncate(gs, size, scan.offset)) == scan.offset == fs[0].from + Total(kept)
            && (fs[|fs| - 1].wrote < size ==> kept == items)
            && (forall i :: |kept| <= i < |items| ==> items[i].Filler?) && kept <= items
  {
    hide Layout, Total, Flat, LogBytes, InFile, Chain, Dirty, ScanFiles, Truncate, Loaded, Behind;
    LoadedLog(fs, size, items);
    var gs := Load(fs);
    assert Readable(c, gs, size, items, crc, crc);
    FilesBelow(fs, size, items, StartFile(|fs|));
    NormalRecovery(c, gs, size, items, crc);
    KeptInEndFile(c, gs, size, items, crc, crc);
  }

  // The log reaches every file.
  lemma {:induction false} FilesBelow(fs: seq<File>, size: int, items: seq<Item>, p: nat)
    requires HoldsItems(fs, size, items) && p < |fs|
    ensures fs[p].from <= fs[0].from + Total(items)
  {
    hide Layout, Total, Flat, LogBytes, InFile, Aligned;
    FlatLength(fs, size);
    assert Sound(fs[|fs| - 1], size);
    if p < |fs| - 1 { ChainOrder(fs, size, p, |fs| - 1); }
  }

  lemma {:induction false} LoadedOnDisk(codec: Codec, fs: seq<File>, size: int, items: seq<Item>, h: nat, crc: bool)
    requires h <= |items| && fs != [] && HoldsItems(fs, size, items[h..]) && fs[0].from == Total(items[..h])
    requires Checksummed(codec, items[h..])
    requires var last := fs[|fs| - 1];
             0 <= last.wrote < |last.data| ==> Dirty(codec, last.data[last.wrote..], crc, true)
    ensures OnDisk(codec, Load(fs), size, items, h, crc)
  {
    hide Layout, Total, Flat, LogBytes, InFile, Chain, Dirty, Loaded, Behind;
    LoadedLog(fs, size, items[h..]);
  }

  // A running store has crashed: its files hold the log from item h on, older ones having
  // expired, up to item t, the rest being lost, and behind it anything but a record.
  ghost predicate Crashed(c: Config, codec: Codec, s: State, fs: seq<File>, t: nat, h: nat, crc: bool) {
    && Sane(c) && c.indexSize > UNIT_SIZE && Inv(c, s) && h <= t <= |s.books.items| && fs != []
    && var items := s.books.items[..t];
       && Derived(codec, items) && HoldsItems(fs, c.logSize, items[h..])
       && fs[0].from == Total(items[..h]) && Checksummed(codec, items[h..])
       && var last := fs[|fs| - 1];
          0 <= last.wrote < |last.data| ==> Dirty(codec, last.data[last.wrote..], crc, true)
  }

  // Loading the files as full and recovering abnormally from file p on, over indexes xs with
  // n(q) messages each, leads back to a running store that has issued and indexed the messages
  // left in the log, if and only if every queue settles.
  ghost predicate Restarts(c: Config, codec: Codec, s: State, fs: seq<File>, t: nat, h: nat, p: nat, crc: bool,
                           xs: Indexes, n: Queue -> nat, contents: nat -> seq<byte>, table: map<seq<byte>, int64>)
    requires Sane(c) && c.indexSize > UNIT_SIZE && h <= t <= |s.books.items| && p < |fs|
  {
    hide ScanFiles, Kept, Issued, Redispatch, Window, Total, CutLogic, Rebuilt, Inv, AllSettle;
    var gs, items := Load(fs), s.books.items[..t];
    var scan := ScanFiles(codec, gs, p, p - 1, 0, 0, crc, true);
    && scan.Scan?
    && var left := Surviving(gs, c.logSize, items, h);
       var d := Redispatch(xs, c.indexSize, scan.requests, contents);
       var ys := CutAll(d.indexes, c.indexSize, scan.offset);
       && scan.offset == Total(left) && Issued(left) == Issued(items) && !d.warned
       && (Rebuilt(table, ys) ==>
             (Inv(c, Running(table, left, ys)) <==> AllSettle(xs, c.indexSize, Issued(items), n, scan.offset)))
  }

  // If each index still holds some of its messages, at least those stored before file p,
  // abnormal recovery from file p on leads back to a running store in which every message of
  // the log is indexed, exactly when every queue settles.
  lemma {:induction false} CrashRestart(c: Config, codec: Codec, s: State, fs: seq<File>, t: nat, h: nat, p: nat, crc: bool,
                                        xs: Indexes, n: Queue -> nat, contents: nat -> seq<byte>, table: map<seq<byte>, int64>)
    requires Crashed(c, codec, s, fs, t, h, crc) && p < |fs| && FileSized(contents, c.indexSize)
    requires Holds(xs, c.indexSize, Issued(s.books.items), n) && IndexedBefore(s.books.items[..t], fs[p].from, n)
    ensures Restarts(c, codec, s, fs, t, h, p, crc, xs, n, contents, table)
  {
    hide Layout, Total, Flat, LogBytes, InFile, Chain, Dirty, ScanFiles, HoldsItems, Checksummed, Derived, Holds, IndexedBefore,
      OnDisk, Surviving, Redispatch, CutAll, Rebuilt, Issued, Recorded, Inv, AllSettle;
    var history, items, gs := s.books.items, s.books.items[..t], Load(fs);
    LoadedOnDisk(codec, fs, c.logSize, items, h, crc);
    FilesBelow(fs, c.logSize, items[h..], p);
    assert history[..|history|] == history;
    CrashLeavesRecorded(c, s, |history|);
    AbnormalRecovery(c, codec, gs, history, t, h, p, crc, xs, n, contents, table);
  }

  // ---------------------------------------------------------------- the index

  // The same for every index that puts have written, with anything but a unit behind it:
  // loading and recovering restores it exactly when no unit from the first scanned file on
  // is a zero unit and its files still hold a unit.
  lemma {:induction false} CleanIndexRestart(x: Index, size: int, us: seq<Unit>)
    requires Represents(x, size, us) && x.fs != []
    requires var last := x.fs[|x.fs| - 1]; 0 <= last.wrote < |last.data| ==> !IsUnit(Seen(last.data, last.wrote))
    ensures Represents(Recover(Index(Load(x.fs), -1, 0), size), size, us)
       <==> var from := x.fs[Max(0, |x.fs| - 3)].from;
            && (forall j :: 0 <= j < |us| && from <= UNIT_SIZE * j ==> us[j].offset >= 0 && us[j].size > 0)
            && (from < UNIT_SIZE * |us| || (from == UNIT_SIZE * |us| && LastOffset(us) == -1))
  {
    hide UnitsBytes, Flat, Chain, Seen, Recover;
    LoadedIndexOf(x, size, us);
    RecoverExact(Index(Load(x.fs), -1, 0), size, us);
  }

  lemma {:induction false} LoadedIndexOf(x: Index, size: int, us: seq<Unit>)
    requires Represents(x, size, us) && x.fs != []
    requires var last := x.fs[|x.fs| - 1]; 0 <= last.wrote < |last.data| ==> !IsUnit(Seen(last.data, last.wrote))
    ensures LoadedIndex(Load(x.fs), size, us)
  {
    hide UnitsBytes, Flat, Seen, Aligned, IsUnit;
    var fs, gs, last := x.fs, Load(x.fs), x.fs[|x.fs| - 1];
    BeginsOf(x, size, us);
    LoadChain(fs, size);
    LoadFlat(fs, size);
    FlatLength(fs, size);
    FlatLength(gs, size);
    assert Sound(last, size);
    TakeFirst(Flat(fs), last.data[last.wrote..]);
    assert Window(gs[|gs| - 1]) == last.data;
    hide Window;
    forall i | 0 <= i < |gs| ensures NoUnitAt(gs[i], size, UNIT_SIZE * |us|) {
      if i < |gs| - 1 { ChainOrder(gs, size, i, |gs| - 1); }
    }
  }

  // An index that starts with blank units, as a slave's does when it is served from the last
  // file, loses everything at the next restart: the scan takes the first zero unit for the end.
  lemma {:induction false} PaddedIndexIsLost(size: int, u: Unit, cqOffset: nat, contents: seq<byte>)
    requires size > 0 && Whole(size) && |contents| == size && u.offset >= 0 && Rem(UNIT_SIZE * cqOffset, size) > 0
    ensures var x := PutUnit(EMPTY_INDEX, size, u, cqOffset, contents).index;
            var r := Recover(Index(Load(x.fs), -1, 0), size);
            |r.fs| == 1 && r.fs[0].from == x.fs[0].from && r.fs[0].wrote == 0 && r.maxPhysic == -1
  {
    hide PutUnit, Represents, Truncate, Rem;
    SomeBlank(size, cqOffset);
    PutFirstUnit(size, u, cqOffset, contents);
    var x := PutUnit(EMPTY_INDEX, size, u, cqOffset, contents).index;
    var gs := Load(x.fs);
    PaddedStart(x, size, cqOffset, u);
    assert ScanUnits(Window(gs[0]), size, NO_BOUND, 0) == 0;
    hide ScanUnits, Seen, Window;
    var g := CutAt(gs, size, gs[0].from, 0);
  }

  lemma {:induction false} SomeBlank(size: int, cqOffset: nat)
    requires size > 0 && Rem(UNIT_SIZE * cqOffset, size) > 0
    ensures cqOffset > 0
  {
  }

  lemma {:induction false} PaddedStart(x: Index, size: int, n: nat, u: Unit)
    requires Represents(x, size, Padding(n) + [u]) && |x.fs| == 1 && x.fs[0].from < UNIT_SIZE * n
    ensures Chain(Load(x.fs), size) && size > 0 && !IsUnit(Seen(Window(Load(x.fs)[0]), 0))
  {
    hide UnitsBytes, Flat, Seen, Aligned;
    var us, f := Padding(n) + [u], x.fs[0];
    BeginsOf(x, size, us);
    assert Sound(f, size);
    FileAligned(f.from, size);
    LoadChain(x.fs, size);
    var k := f.from / UNIT_SIZE;
    UnitInFile(x.fs, size, us, 0, k);
    assert us[k] == ZERO_UNIT;
    SeenMore(f, size);
  }

  lemma {:induction false} SeenMore(f: File, size: int)
    requires Sound(f, size) && f.wrote >= UNIT_SIZE
    ensures Seen(Window(LoadFile(f)), 0) == Seen(Window(f), 0)
  {
    hide ReadUnit, Aligned;
    assert f.data[..f.wrote][0..UNIT_SIZE] == f.data[0..UNIT_SIZE];
    assert Window(LoadFile(f)) == f.data;
  }

  // What is left of a unit of which the first k bytes reached a file of zeros.
  function Torn(u: Unit, k: nat): Unit
    requires k <= UNIT_SIZE
  {
    ReadUnit(UnitBytes(u)[..k] + Zeros(UNIT_SIZE - k))
  }

  // The leading bytes of a number that is not negative, with zeros behind them.
  lemma {:induction false} TornNumber(s: seq<byte>, k: nat)
    requires k <= |s|
    ensures var t := s[..k] + Zeros(|s| - k);
            ToNat(t) <= ToNat(s) && (ToNat(t) > 0 <==> exists b :: 0 <= b < k && s[b] != 0)
  {
    hide ToNat;
    ToNatStep(s);
    if s != [] {
      var n := |s| - 1;
      var j := Min(k, n);
      var t := s[..k] + Zeros(|s| - k);
      ToNatStep(t);
      TornNumber(s[..n], j);
      assert t[..n] == s[..n][..j] + Zeros(n - j);
      forall b | 0 <= b < j ensures s[..n][b] == s[b] { }
      if k > n { assert t == s; }
    } else {
      assert s[..k] + Zeros(|s| - k) == s;
    }
  }

  lemma {:induction false} ToNatStep(s: seq<byte>)
    ensures ToNat(s) == if s == [] then 0 else 256 * ToNat(s[..|s| - 1]) + s[|s| - 1]
  {
  }

  lemma {:induction false} TornInteger(s: seq<byte>, k: nat)
    requires |s| > 0 && k <= |s| && Signed(s) >= 0
    ensures var t := s[..k] + Zeros(|s| - k); Signed(t) >= 0 && (Signed(t) > 0 <==> exists b :: 0 <= b < k && s[b] != 0)
  {
    TornNumber(s, k);
  }

  // Recovery takes a torn unit for a whole one exactly if a byte of its size that is not zero
  // reached the disk.  Its offset is then the right one.
  lemma {:induction false} TornUnitExact(u: Unit, k: nat)
    requires IsUnit(u) && k <= UNIT_SIZE
    ensures IsUnit(Torn(u, k)) <==> exists b :: 8 <= b < Min(k, 12) && UnitBytes(u)[b] != 0
    ensures k >= 8 ==> Torn(u, k).offset == u.offset
  {
    hide I64, I32, Signed;
    var s := UnitBytes(u);
    var i, j := Min(k, 8), Max(0, Min(k - 8, 4));
    CutPiece(s, k, 0, 8);
    CutPiece(s, k, 8, 12);
    assert s[0..8] == I64(u.offset) && s[8..12] == I32(u.size);
    TornInteger(s[0..8], i);
    TornInteger(s[8..12], j);
    MovedBytes(s, k);
    if k >= 8 { assert s[0..8][..i] + Zeros(8 - i) == s[0..8]; }
  }

  lemma {:induction false} MovedBytes(s: seq<byte>, k: nat)
    requires |s| == UNIT_SIZE
    ensures var j := Max(0, Min(k - 8, 4));
            (exists b :: 0 <= b < j && s[8..12][b] != 0) <==> exists b :: 8 <= b < Min(k, 12) && s[b] != 0
  {
    var j := Max(0, Min(k - 8, 4));
    if b :| 0 <= b < j && s[8..12][b] != 0 { assert s[8 + b] != 0; }
    if b :| 8 <= b < Min(k, 12) && s[b] != 0 { assert s[8..12][b - 8] != 0; }
  }

  // Bytes a to b of a sequence of which all from byte k on have become zeros.
  lemma {:induction false} CutPiece(s: seq<byte>, k: nat, a: nat, b: nat)
    requires k <= |s| && a <= b <= |s|
    ensures var j := Max(0, Min(k - a, b - a)); (s[..k] + Zeros(|s| - k))[a..b] == s[a..b][..j] + Zeros(b - a - j)
  {
    var j, t := Max(0, Min(k - a, b - a)), s[..k] + Zeros(|s| - k);
    var u, v := t[a..b], s[a..b][..j] + Zeros(b - a - j);
    forall p | 0 <= p < b - a ensures u[p] == v[p] {
      assert u[p] == t[a + p] && s[a..b][p] == s[a + p];
      if p < j { assert a + p < k && v[p] == s[a..b][p]; } else { assert a + p >= k && v[p] == 0; }
    }
  }

  // It stays: recovery restores the index with the torn unit in it, and when abnormal recovery
  // dispatches the message again, the put finds its offset indexed already.
  lemma {:induction false} TornUnitStays(fs: seq<File>, size: int, us: seq<Unit>, u: Unit, k: nat, cqOffset: int, contents: seq<byte>)
    requires 8 <= k <= UNIT_SIZE && IsUnit(u) && IsUnit(Torn(u, k)) && (forall j :: 0 <= j < |us| ==> IsUnit(us[j]))
    requires LoadedIndex(fs, size, us + [Torn(u, k)]) && fs[Max(0, |fs| - 3)].from <= UNIT_SIZE * |us|
    ensures var r := Recover(Index(fs, -1, 0), size);
            Represents(r, size, us + [Torn(u, k)]) && PutUnit(r, size, u, cqOffset, contents) == PutUnitResult(r, true, false)
  {
    hide LoadedIndex, Recover, Torn;
    TornUnitExact(u, k);
    RecoverExact(Index(fs, -1, 0), size, us + [Torn(u, k)]);
    PutOldUnit(Recover(Index(fs, -1, 0), size), size, u, cqOffset, contents);
  }

  // An index whose only file holds no unit forgets at a restart what it has indexed before.
  lemma {:induction false} EmptyIndexForgets(x: Index, size: int, us: seq<Unit>)
    requires Represents(x, size, us) && x.fs != [] && x.fs[0].from == UNIT_SIZE * |us| && us != []
    requires !IsUnit(Seen(x.fs[0].data, 0))
    ensures |x.fs| == 1 && x.maxPhysic == LastOffset(us)
    ensures Recover(Index(Load(x.fs), -1, 0), size).maxPhysic == -1
  {
    hide UnitsBytes, Flat, Seen, Truncate, Aligned, IsUnit;
    BeginsOf(x, size, us);
    var n := |x.fs| - 1;
    assert Sound(x.fs[n], size) && Sound(x.fs[0], size);
    if n > 0 { ChainOrder(x.fs, size, 0, n); }
    assert Window(Load(x.fs)[0]) == x.fs[0].data;
  }

  lemma {:induction false} TakeFirst(a: seq<byte>, b: seq<byte>)
    ensures Take(a + b, |a|) == a
  {
  }
}
