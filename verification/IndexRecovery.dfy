// ConsumeQueue.recover and truncateDirtyLogicFiles: reading units back from the files.

module IndexRecovery {
  import opened Arithmetic
  import opened Bytes
  import opened ConsumeQueues
  import opened Segments

  // The unit at byte i as the readers see it: zeros where the window has ended.
  function Seen(s: seq<byte>, i: nat): Unit {
    if i + UNIT_SIZE <= |s| then ReadUnit(s[i..i + UNIT_SIZE]) else Unit(0, 0, 0)
  }

  predicate IsUnit(u: Unit) { u.offset >= 0 && u.size > 0 }

  // How far a file holds units with offsets below the bound.
  function ScanUnits(s: seq<byte>, size: int, bound: int, i: nat): (w: nat)
    requires Whole(size) && Whole(i)
    ensures Whole(w) && i <= w && (i <= size ==> w <= size)
    decreases size - i
  {
    if i < size && IsUnit(Seen(s, i)) && Seen(s, i).offset < bound then ScanUnits(s, size, bound, i + UNIT_SIZE) else i
  }

  lemma {:induction false} ScanUnitsStep(s: seq<byte>, size: int, bound: int, i: nat)
    requires Whole(size) && Whole(i)
    ensures Whole(i + UNIT_SIZE)
    ensures ScanUnits(s, size, bound, i)
         == if i < size && IsUnit(Seen(s, i)) && Seen(s, i).offset < bound then ScanUnits(s, size, bound, i + UNIT_SIZE) else i
  {
    hide Seen;
  }

  // The units us[a..] stand at the start of the window, as far as they go.
  ghost predicate Shows(s: seq<byte>, us: seq<Unit>, a: nat, b: nat) {
    a <= b <= |us| && |s| >= UNIT_SIZE * (b - a) && forall k :: a <= k < b ==> Seen(s, UNIT_SIZE * (k - a)) == us[k]
  }

  // The scan passes exactly the units below the bound.
  lemma {:induction false} ScanStopsAt(s: seq<byte>, size: int, bound: int, us: seq<Unit>, a: nat, b: nat, k: nat)
    requires Whole(size) && Shows(s, us, a, b) && a <= k <= b && UNIT_SIZE * (b - a) <= size
    requires forall j :: k <= j < b ==> IsUnit(us[j]) && us[j].offset < bound
    requires UNIT_SIZE * (b - a) == size || !IsUnit(Seen(s, UNIT_SIZE * (b - a))) || Seen(s, UNIT_SIZE * (b - a)).offset >= bound
    ensures ScanUnits(s, size, bound, UNIT_SIZE * (k - a)) == UNIT_SIZE * (b - a)
    decreases b - k
  {
    hide Seen, ScanUnits, IsUnit;
    ScanUnitsStep(s, size, bound, UNIT_SIZE * (k - a));
    if k < b {
      ScanStopsAt(s, size, bound, us, a, b, k + 1);
      assert Seen(s, UNIT_SIZE * (k - a)) == us[k];
    }
  }

  // The files begin with the units from the first file's offset on.
  ghost predicate Begins(fs: seq<File>, size: int, us: seq<Unit>) {
    && Chain(fs, size) && Whole(size) && fs != []
    && 0 <= fs[0].from <= UNIT_SIZE * |us| <= MaxOffset(fs)
    && Take(Flat(fs), UNIT_SIZE * |us| - fs[0].from) == UnitsBytes(us)[fs[0].from..]
  }

  lemma {:induction false} UnitInFile(fs: seq<File>, size: int, us: seq<Unit>, cur: nat, k: nat)
    requires Begins(fs, size, us) && cur < |fs| && k < |us|
    requires fs[cur].from <= UNIT_SIZE * k && UNIT_SIZE * (k + 1) <= fs[cur].from + fs[cur].wrote
    ensures Seen(Window(fs[cur]), UNIT_SIZE * k - fs[cur].from) == us[k]
  {
    hide UnitsBytes, UnitBytes, ReadUnit;
    var flat, base, f := Flat(fs), fs[0].from, fs[cur];
    assert Sound(f, size);
    FlatSlice(fs, size, cur);
    FlatLength(fs, size);
    if cur > 0 { ChainOrder(fs, size, 0, cur); }
    UnitAt(us, k);
    ReadOfUnit(us[k]);
    hide Flat, Chain, Sound, Take, Written;
    var all, p := UnitsBytes(us), UNIT_SIZE * k;
    assert all[base..][p - base..p - base + UNIT_SIZE] == all[p..p + UNIT_SIZE];
    TakeIs(flat, UNIT_SIZE * |us| - base);
    AtPrefix(flat, all[base..], p - base, UnitBytes(us[k]));
    AtInner(flat, f.from - base, Written(f), p - f.from, UnitBytes(us[k]));
    assert Window(f) == Written(f) by { SameWindow(f); }
  }

  lemma {:induction false} SameWindow(f: File)
    requires f.wrote == f.writePos
    ensures Window(f) == Written(f)
  {
  }

  lemma {:induction false} FileShows(fs: seq<File>, size: int, us: seq<Unit>, cur: nat, b: nat)
    requires Begins(fs, size, us) && cur < |fs| && b <= |us|
    requires fs[cur].from <= UNIT_SIZE * b <= fs[cur].from + fs[cur].wrote
    ensures var a := fs[cur].from / UNIT_SIZE; fs[cur].from == UNIT_SIZE * a && Shows(Window(fs[cur]), us, a, b)
  {
    hide Flat, UnitsBytes, Seen;
    assert Sound(fs[cur], size);
    FileAligned(fs[cur].from, size);
    var a := fs[cur].from / UNIT_SIZE;
    forall k | a <= k < b
      ensures Seen(Window(fs[cur]), UNIT_SIZE * (k - a)) == us[k]
    {
      UnitInFile(fs, size, us, cur, k);
    }
  }

  // ---------------------------------------------------------------- recover

  const NO_BOUND: int := 0x8000_0000_0000_0000

  datatype Recovered = Recovered(offset: int, maxPhysic: int)

  function LastSeen(s: seq<byte>, w: nat, maxPhysic: int): int {
    if w >= UNIT_SIZE then Seen(s, w - UNIT_SIZE).offset else maxPhysic
  }

  // The loop of recover from file cur on.
  function RecoverScan(fs: seq<File>, size: int, cur: nat, maxPhysic: int): Recovered
    requires cur < |fs| && Whole(size)
    decreases |fs| - cur
  {
    var s := Window(fs[cur]);
    var w := ScanUnits(s, size, NO_BOUND, 0);
    if w == size && cur + 1 < |fs| then RecoverScan(fs, size, cur + 1, LastSeen(s, w, maxPhysic))
    else Recovered(fs[cur].from + w, LastSeen(s, w, maxPhysic))
  }

  function FirstScanned(n: nat): nat { if n < 3 then 0 else n - 3 }

  function Recover(x: Index, size: int): Index
    requires size > 0 && Whole(size)
  {
    if x.fs == [] then x
    else
      var r := RecoverScan(x.fs, size, FirstScanned(|x.fs|), x.maxPhysic);
      Index(Truncate(x.fs, size, r.offset), r.maxPhysic, x.minLogic)
  }

  // Files as load leaves them, each counted as full: they begin with the units, and in the file
  // in which these end, whichever it is, no unit-like bytes follow.
  ghost predicate LoadedIndex(fs: seq<File>, size: int, us: seq<Unit>) {
    && Begins(fs, size, us) && (forall i :: 0 <= i < |fs| ==> fs[i].wrote == size && !fs[i].firstCreate)
    && forall i :: 0 <= i < |fs| ==> NoUnitAt(fs[i], size, UNIT_SIZE * |us|)
  }

  ghost predicate NoUnitAt(f: File, size: int, end: int) {
    f.from <= end < f.from + size ==> !IsUnit(Seen(Window(f), end - f.from))
  }

  // The first unit from number a on that the scan takes for the end.
  function FirstBad(us: seq<Unit>, a: nat): (b: nat)
    requires a <= |us|
    ensures a <= b <= |us| && (forall j :: a <= j < b ==> IsUnit(us[j])) && (b < |us| ==> !IsUnit(us[b]))
    decreases |us| - a
  {
    if a == |us| || !IsUnit(us[a]) then a else FirstBad(us, a + 1)
  }

  lemma {:induction false} FirstBadLater(us: seq<Unit>, a: nat, c: nat)
    requires a <= |us| && a <= c <= FirstBad(us, a)
    ensures FirstBad(us, c) == FirstBad(us, a)
    decreases c - a
  {
    hide IsUnit;
    if a < c { FirstBadLater(us, a + 1, c); }
  }

  // The offset in unit b - 1, if it is one of those scanned.
  function OffsetBefore(us: seq<Unit>, from: int, b: nat, otherwise: int): int {
    if from < UNIT_SIZE * b && 0 < b <= |us| then us[b - 1].offset else otherwise
  }

  // One file is scanned to its end or to the first unit that looks like none.
  lemma {:induction false} ScanFile(fs: seq<File>, size: int, us: seq<Unit>, cur: nat, maxPhysic: int)
    requires LoadedIndex(fs, size, us) && cur < |fs| && fs[cur].from <= UNIT_SIZE * |us|
    ensures var f := fs[cur];
            var w := ScanUnits(Window(f), size, NO_BOUND, 0);
            && Whole(f.from) && 0 <= f.from / UNIT_SIZE <= |us|
            && var b := Min(FirstBad(us, f.from / UNIT_SIZE), (f.from + size) / UNIT_SIZE);
               && w == UNIT_SIZE * b - f.from >= 0
               && LastSeen(Window(f), w, maxPhysic) == OffsetBefore(us, f.from, b, maxPhysic)
  {
    hide Flat, UnitsBytes, Seen, Chain, Sound, Window;
    var f := fs[cur];
    FileBounds(fs, size, us, cur);
    var a, c := f.from / UNIT_SIZE, (f.from + size) / UNIT_SIZE;
    var b := Min(FirstBad(us, a), c);
    FileShows(fs, size, us, cur, b);
    StopsInFile(fs, size, us, cur, b);
    ScanStopsAt(Window(f), size, NO_BOUND, us, a, b, a);
    if b > a { assert Seen(Window(f), UNIT_SIZE * (b - 1 - a)) == us[b - 1]; }
  }

  lemma {:induction false} StopsInFile(fs: seq<File>, size: int, us: seq<Unit>, cur: nat, b: nat)
    requires LoadedIndex(fs, size, us) && cur < |fs| && fs[cur].from <= UNIT_SIZE * b <= fs[cur].from + size && b <= |us|
    requires b < |us| && UNIT_SIZE * b < fs[cur].from + size ==> !IsUnit(us[b])
    ensures UNIT_SIZE * b == fs[cur].from + size || !IsUnit(Seen(Window(fs[cur]), UNIT_SIZE * b - fs[cur].from))
  {
    hide Flat, UnitsBytes, Seen, Chain, Sound, Window, IsUnit;
    FileBounds(fs, size, us, cur);
    assert NoUnitAt(fs[cur], size, UNIT_SIZE * |us|);
    if UNIT_SIZE * b < fs[cur].from + size && b < |us| {
      WholeGap(UNIT_SIZE * b, fs[cur].from, size);
      UnitInFile(fs, size, us, cur, b);
    }
  }

  lemma {:induction false} FileBounds(fs: seq<File>, size: int, us: seq<Unit>, cur: nat)
    requires LoadedIndex(fs, size, us) && cur < |fs|
    ensures Whole(size) && Whole(fs[cur].from) && 0 <= fs[cur].from && fs[cur].wrote == size > 0
  {
    hide Flat, UnitsBytes, Seen;
    assert Sound(fs[cur], size);
    FileAligned(fs[cur].from, size);
  }

  // From a start file the units reach, the scan ends at the first unit that looks like none, or
  // behind the last unit, and has the offset of the unit before.
  lemma {:induction false} RecoverFinds(fs: seq<File>, size: int, us: seq<Unit>, cur: nat, maxPhysic: int)
    requires LoadedIndex(fs, size, us) && cur < |fs| && fs[cur].from <= UNIT_SIZE * |us|
    ensures 0 <= fs[cur].from / UNIT_SIZE <= |us|
    ensures var b := FirstBad(us, fs[cur].from / UNIT_SIZE);
            RecoverScan(fs, size, cur, maxPhysic) == Recovered(UNIT_SIZE * b, OffsetBefore(us, fs[cur].from, b, maxPhysic))
    decreases |fs| - cur
  {
    hide Flat, UnitsBytes, Seen, Sound, Window, ScanUnits, LastSeen, LoadedIndex, IsUnit, FirstBad, RecoverScan;
    ScanFile(fs, size, us, cur, maxPhysic);
    FileBounds(fs, size, us, cur);
    var f, s := fs[cur], Window(fs[cur]);
    var a, c := f.from / UNIT_SIZE, (f.from + size) / UNIT_SIZE;
    WholeSum(f.from, size);
    RecoverStep(fs, size, cur, maxPhysic);
    if c <= FirstBad(us, a) && cur + 1 < |fs| {
      NextFrom(fs, size, us, cur);
      FirstBadLater(us, a, c);
      RecoverFinds(fs, size, us, cur + 1, LastSeen(s, size, maxPhysic));
    } else {
      FirstBadInFile(fs, size, us, cur);
    }
  }

  lemma {:induction false} RecoverStep(fs: seq<File>, size: int, cur: nat, maxPhysic: int)
    requires cur < |fs| && Whole(size)
    ensures var s := Window(fs[cur]);
            var w := ScanUnits(s, size, NO_BOUND, 0);
            RecoverScan(fs, size, cur, maxPhysic)
              == if w == size && cur + 1 < |fs| then RecoverScan(fs, size, cur + 1, LastSeen(s, w, maxPhysic))
                 else Recovered(fs[cur].from + w, LastSeen(s, w, maxPhysic))
  {
    hide Window, ScanUnits, LastSeen;
  }

  lemma {:induction false} WholeSum(a: int, b: int)
    requires Whole(a) && Whole(b) && 0 <= a && b > 0
    ensures a == UNIT_SIZE * (a / UNIT_SIZE) && a + b == UNIT_SIZE * ((a + b) / UNIT_SIZE) && a / UNIT_SIZE < (a + b) / UNIT_SIZE
  {
  }

  lemma {:induction false} NextFrom(fs: seq<File>, size: int, us: seq<Unit>, cur: nat)
    requires LoadedIndex(fs, size, us) && cur + 1 < |fs|
    ensures fs[cur + 1].from == fs[cur].from + size
  {
    assert Link(fs, cur + 1, size);
    hide Begins, IsUnit, Seen;
  }

  lemma {:induction false} FirstBadInFile(fs: seq<File>, size: int, us: seq<Unit>, cur: nat)
    requires LoadedIndex(fs, size, us) && cur < |fs| && 0 <= fs[cur].from / UNIT_SIZE <= |us|
    requires cur + 1 < |fs| ==> FirstBad(us, fs[cur].from / UNIT_SIZE) < (fs[cur].from + size) / UNIT_SIZE
    ensures FirstBad(us, fs[cur].from / UNIT_SIZE) <= (fs[cur].from + size) / UNIT_SIZE
  {
    hide Flat, UnitsBytes, Seen, Window;
    if cur + 1 == |fs| { assert MaxOffset(fs) == fs[cur].from + size; }
  }

  // Wherever the scan ends, it is not before the file it starts with.
  lemma {:induction false} ScanWithin(fs: seq<File>, size: int, cur: nat, maxPhysic: int)
    requires Chain(fs, size) && Whole(size) && cur < |fs| && forall i :: 0 <= i < |fs| ==> fs[i].wrote == size
    ensures fs[cur].from <= RecoverScan(fs, size, cur, maxPhysic).offset <= MaxOffset(fs)
    decreases |fs| - cur
  {
    hide Sound, Window, LastSeen, Seen;
    var s, n := Window(fs[cur]), |fs| - 1;
    var w := ScanUnits(s, size, NO_BOUND, 0);
    if cur < n {
      ChainOrder(fs, size, cur, cur + 1);
      ChainOrder(fs, size, cur, n);
      if w == size { ScanWithin(fs, size, cur + 1, LastSeen(s, w, maxPhysic)); }
    }
  }

  // Recovery restores the index of the units exactly when they reach the first scanned file,
  // every unit from there on is one (no zero unit among them), and one is there to be seen.
  lemma {:induction false} RecoverExact(x: Index, size: int, us: seq<Unit>)
    requires LoadedIndex(x.fs, size, us) && x.maxPhysic == -1
    ensures Represents(Recover(x, size), size, us)
       <==> var from := x.fs[Max(0, |x.fs| - 3)].from;
            && (forall j :: 0 <= j < |us| && from <= UNIT_SIZE * j ==> us[j].offset >= 0 && us[j].size > 0)
            && (from < UNIT_SIZE * |us| || (from == UNIT_SIZE * |us| && LastOffset(us) == -1))
  {
    hide Flat, UnitsBytes, Seen, Window, ScanUnits, LastSeen, RecoverScan, Truncate, Aligned;
    var fs, start := x.fs, FirstScanned(|x.fs|);
    if fs[start].from <= UNIT_SIZE * |us| {
      RecoverFinds(fs, size, us, start, x.maxPhysic);
      FileBounds(fs, size, us, start);
      var b := FirstBad(us, fs[start].from / UNIT_SIZE);
      assert b < |us| ==> fs[start].from <= UNIT_SIZE * b;
      CutAtUnit(fs, size, us, b, start);
      if b == |us| {
        TruncateIndex(fs, size, us);
      } else if Represents(Recover(x, size), size, us) {
        BeginsOf(Recover(x, size), size, us);
      }
    } else {
      TooLate(x, size, us);
    }
  }

  // If the units end before the first scanned file, the recovered index is too long.
  lemma {:induction false} TooLate(x: Index, size: int, us: seq<Unit>)
    requires LoadedIndex(x.fs, size, us) && x.fs[FirstScanned(|x.fs|)].from > UNIT_SIZE * |us|
    ensures !Represents(Recover(x, size), size, us)
  {
    hide Flat, UnitsBytes, Seen, Window, ScanUnits, LastSeen, RecoverScan, Truncate, Aligned, IsUnit;
    var fs, start := x.fs, FirstScanned(|x.fs|);
    ScanWithin(fs, size, start, x.maxPhysic);
    FileBounds(fs, size, us, start);
    if start > 0 { ChainOrder(fs, size, 0, start); }
    CutThere(fs, size, RecoverScan(fs, size, start, x.maxPhysic).offset);
    if Represents(Recover(x, size), size, us) { UnitCount(Recover(x, size), size, us); }
  }

  // The cut falls where the scan ended.
  lemma {:induction false} CutAtUnit(fs: seq<File>, size: int, us: seq<Unit>, b: nat, start: nat)
    requires LoadedIndex(fs, size, us) && b <= |us| && start < |fs| && fs[start].from <= UNIT_SIZE * b
    ensures var r := Truncate(fs, size, UNIT_SIZE * b); r != [] && MaxOffset(r) == UNIT_SIZE * b
  {
    hide Flat, UnitsBytes, Seen, Window, Truncate, Aligned;
    if 0 < start { ChainOrder(fs, size, 0, start); }
    CutThere(fs, size, UNIT_SIZE * b);
  }

  lemma {:induction false} CutThere(fs: seq<File>, size: int, offset: int)
    requires Chain(fs, size) && fs != [] && fs[0].from <= offset <= MaxOffset(fs)
    requires forall i :: 0 <= i < |fs| ==> fs[i].wrote == size
    ensures var r := Truncate(fs, size, offset); r != [] && MaxOffset(r) == offset && Chain(r, size)
  {
    hide Flat, Truncate, Aligned;
    var n := |fs| - 1;
    if offset < fs[n].from + size {
      var k := Cover(fs, size, offset);
      TruncateKeeps(fs, size, offset, k);
    } else {
      forall i | 0 <= i < |fs| ensures fs[i].from + size <= offset { if i < n { ChainOrder(fs, size, i, n); } }
      TruncateUntouched(fs, size, offset);
    }
  }

  lemma {:induction false} TruncateIndex(fs: seq<File>, size: int, us: seq<Unit>)
    requires LoadedIndex(fs, size, us)
    ensures var r := Truncate(fs, size, UNIT_SIZE * |us|);
            && Chain(r, size) && r != [] && r[0].from == fs[0].from && FirstOnly(r)
            && Flat(r) == UnitsBytes(us)[fs[0].from..]
  {
    hide Flat, UnitsBytes, Seen, Window, Truncate, Aligned, IsUnit;
    var n, end := |fs| - 1, UNIT_SIZE * |us|;
    FlatLength(fs, size);
    assert Sound(fs[n], size);
    if end < fs[n].from + size {
      var k := Cover(fs, size, end);
      TruncateKeeps(fs, size, end, k);
      var g := CutAt(fs, size, end, k);
    } else {
      forall i | 0 <= i < |fs| ensures fs[i].from + size <= end { if i < n { ChainOrder(fs, size, i, n); } }
      TruncateUntouched(fs, size, end);
      TakeIs(Flat(fs), |Flat(fs)|);
    }
  }

  // ---------------------------------------------------------------- truncateDirtyLogicFiles

  // One round of the loop: drop the last file, or cut it and (usually) return.
  datatype Round = Round(index: Index, returned: bool)

  function CutRound(x: Index, size: int, phy: int): Round
    requires size > 0 && Whole(size) && x.fs != []
  {
    var n := |x.fs| - 1;
    var last, s := x.fs[n], Window(x.fs[n]);
    if Seen(s, 0).offset >= phy then Round(x.(fs := x.fs[..n]), false)
    else
      var w := ScanUnits(s, size, phy, UNIT_SIZE);
      Round(Index(WithLast(x.fs, last.(wrote := w, committed := w)), Seen(s, w - UNIT_SIZE).offset, x.minLogic),
            size > UNIT_SIZE)
  }

  function CutLogic(x: Index, size: int, phy: int): Index
    requires size > UNIT_SIZE && Whole(size)
    decreases |x.fs|
  {
    if x.fs == [] then x
    else
      var r := CutRound(x, size, phy);
      if r.returned then r.index else CutLogic(r.index, size, phy)
  }

  lemma {:induction false} CutOnce(x: Index, size: int, phy: int)
    requires size > UNIT_SIZE && Whole(size) && x.fs != []
    ensures CutLogic(x, size, phy) ==
      if Seen(Window(x.fs[|x.fs| - 1]), 0).offset >= phy then CutLogic(x.(fs := x.fs[..|x.fs| - 1]), size, phy)
      else CutRound(x, size, phy).index
  {
    hide Seen, ScanUnits, Window;
  }

  lemma {:induction false} CutRoundIs(x: Index, size: int, phy: int)
    requires size > 0 && Whole(size) && x.fs != [] && Seen(Window(x.fs[|x.fs| - 1]), 0).offset < phy
    ensures var last := x.fs[|x.fs| - 1];
            var w := ScanUnits(Window(last), size, phy, UNIT_SIZE);
            CutRound(x, size, phy).index
              == Index(WithLast(x.fs, last.(wrote := w, committed := w)),
                       if w > UNIT_SIZE then Seen(Window(last), w - UNIT_SIZE).offset else Seen(Window(last), 0).offset,
                       x.minLogic)
  {
    hide Seen, Window;
  }

  lemma {:induction false} CutNothing(x: Index, size: int, phy: int)
    requires size > UNIT_SIZE && Whole(size) && x.fs == []
    ensures CutLogic(x, size, phy) == x
  {
  }

  // n rounds of the loop with one unit per file, where no round returns.
  function CutRounds(x: Index, phy: int, n: nat): Index
    decreases n
  {
    if n == 0 || x.fs == [] then x else CutRounds(CutRound(x, UNIT_SIZE, phy).index, phy, n - 1)
  }

  // The unit in file f lies below phy: a file worth keeping.
  predicate Worth(f: File, phy: int) { Seen(Window(f), 0).offset < phy }

  // With one unit per file the loop ends if and only if no file is worth keeping; it then
  // drops them all.  Once it meets one that is, it repeats the same round for ever.
  lemma {:induction false} OneUnitFilesHang(x: Index, phy: int)
    ensures (exists n: nat :: CutRounds(x, phy, n).fs == []) <==> forall i :: 0 <= i < |x.fs| ==> !Worth(x.fs[i], phy)
    ensures x.fs != [] && Worth(x.fs[|x.fs| - 1], phy) ==>
              var r := CutRound(x, UNIT_SIZE, phy); !r.returned && r.index.fs != [] && CutRound(r.index, UNIT_SIZE, phy) == r
  {
    hide CutRounds, Worth;
    if i :| 0 <= i < |x.fs| && Worth(x.fs[i], phy) {
      forall n: nat ensures CutRounds(x, phy, n).fs != [] { KeepsOn(x, phy, i, n); }
    } else {
      DropsAll(x, phy);
    }
    if x.fs != [] && Worth(x.fs[|x.fs| - 1], phy) { SameRound(x, phy); }
  }

  lemma {:induction false} SameRound(x: Index, phy: int)
    requires x.fs != [] && Worth(x.fs[|x.fs| - 1], phy)
    ensures var r := CutRound(x, UNIT_SIZE, phy); !r.returned && r.index.fs != [] && CutRound(r.index, UNIT_SIZE, phy) == r
  {
    hide Seen;
  }

  lemma {:induction false} KeepsOn(x: Index, phy: int, i: nat, n: nat)
    requires i < |x.fs| && Worth(x.fs[i], phy)
    ensures CutRounds(x, phy, n).fs != []
    decreases n
  {
    hide Seen, ScanUnits;
    if n > 0 { KeepsOn(CutRound(x, UNIT_SIZE, phy).index, phy, i, n - 1); }
  }

  lemma {:induction false} DropsAll(x: Index, phy: int)
    requires forall i :: 0 <= i < |x.fs| ==> !Worth(x.fs[i], phy)
    ensures CutRounds(x, phy, |x.fs|).fs == []
    decreases |x.fs|
  {
    hide Seen, ScanUnits;
    if x.fs != [] {
      assert !Worth(x.fs[|x.fs| - 1], phy);
      DropsAll(x.(fs := x.fs[..|x.fs| - 1]), phy);
    }
  }

  // The first unit is accepted unread: an empty last file gains a unit of zeros.
  lemma {:induction false} EmptyFileGainsUnit(x: Index, size: int, us: seq<Unit>, phy: int)
    requires size > UNIT_SIZE && Represents(x, size, us) && x.fs != [] && x.fs[|x.fs| - 1].wrote == 0 && phy > 0
    ensures var r := CutLogic(x, size, phy);
            && r.fs != [] && r.fs[|r.fs| - 1].wrote == UNIT_SIZE && r.maxPhysic == 0
            && MaxOffset(r.fs) == MaxOffset(x.fs) + UNIT_SIZE
  {
    hide Flat;
    var n := |x.fs| - 1;
    assert Sound(x.fs[n], size);
    assert Window(x.fs[n]) == [];
    hide Chain, Represents;
  }

  // us[..k] are the units below phy.
  ghost predicate Below(us: seq<Unit>, phy: int, k: nat) {
    && k <= |us|
    && (forall j :: 0 <= j < k ==> us[j].offset < phy) && (forall j :: k <= j < |us| ==> us[j].offset >= phy)
  }

  // The files hold exactly the units, and the last file at least one.
  ghost predicate Exactly(fs: seq<File>, size: int, us: seq<Unit>) {
    Begins(fs, size, us) && MaxOffset(fs) == UNIT_SIZE * |us| && fs[|fs| - 1].from < UNIT_SIZE * |us|
  }

  // How many of the units below phy the scan of the file at `from` keeps: the first of the
  // file unread, the others up to a zero unit.
  function Cutoff(us: seq<Unit>, from: int, k: nat): (n: nat)
    ensures 0 <= from < UNIT_SIZE * k && k <= |us| ==> from < UNIT_SIZE * n && n <= k
  {
    if 0 <= from < UNIT_SIZE * k && k <= |us| then FirstBad(us[..k], from / UNIT_SIZE + 1) else k
  }

  lemma {:induction false} LastFileScan(fs: seq<File>, size: int, us: seq<Unit>, phy: int, k: nat)
    requires Exactly(fs, size, us) && size > UNIT_SIZE && Below(us, phy, k)
    ensures var last := fs[|fs| - 1];
            && (Seen(Window(last), 0).offset >= phy <==> UNIT_SIZE * k <= last.from)
            && (UNIT_SIZE * k > last.from ==>
                  var n := Cutoff(us, last.from, k);
                  && last.from + UNIT_SIZE <= UNIT_SIZE * n && n <= k
                  && ScanUnits(Window(last), size, phy, UNIT_SIZE) == UNIT_SIZE * n - last.from
                  && Seen(Window(last), UNIT_SIZE * n - last.from - UNIT_SIZE) == us[n - 1])
  {
    hide Flat, UnitsBytes, Seen, IsUnit;
    var last := fs[|fs| - 1];
    assert Sound(last, size);
    FileShows(fs, size, us, |fs| - 1, |us|);
    var a, s := last.from / UNIT_SIZE, Window(last);
    assert Seen(s, UNIT_SIZE * (a - a)) == us[a];
    EndOfWindow(last, size);
    hide Chain, Sound, Window;
    if k > a {
      var n := Cutoff(us, last.from, k);
      assert forall j :: a + 1 <= j < n ==> IsUnit(us[..k][j]);
      assert n < k ==> !IsUnit(us[..k][n]);
      hide Cutoff;
      assert Shows(s, us, a, n);
      if n < |us| { assert Seen(s, UNIT_SIZE * (n - a)) == us[n]; }
      ScanStopsAt(s, size, phy, us, a, n, a + 1);
    }
  }

  lemma {:induction false} EndOfWindow(f: File, size: int)
    requires Sound(f, size)
    ensures !IsUnit(Seen(Window(f), f.wrote))
  {
  }

  lemma {:induction false} DropLastFile(fs: seq<File>, size: int, us: seq<Unit>)
    requires Exactly(fs, size, us) && |fs| > 1
    ensures var n := |fs| - 1;
            var a := fs[n].from / UNIT_SIZE;
            a <= |us| && fs[n].from == UNIT_SIZE * a && Exactly(fs[..n], size, us[..a])
  {
    hide UnitsBytes, Take, Written;
    var n := |fs| - 1;
    assert Sound(fs[n], size);
    FileAligned(fs[n].from, size);
    ChainPrefix(fs, size, n);
    assert Link(fs, n, size);
    FlatLength(fs[..n], size);
    FlatLength(fs, size);
    assert Sound(fs[n - 1], size) && Flat(fs) == Flat(fs[..n]) + Written(fs[n]);
    hide Chain, Sound, Flat, Link, Aligned;
    var a := fs[n].from / UNIT_SIZE;
    UnitsPrefix(us, a);
    DropSlice(Flat(fs[..n]), Written(fs[n]), UnitsBytes(us), fs[0].from, UNIT_SIZE * a);
  }

  lemma {:induction false} DropSlice(flat: seq<byte>, rest: seq<byte>, all: seq<byte>, base: nat, cut: nat)
    requires base <= cut <= |all| && |flat| == cut - base && |flat + rest| == |all| - base
    requires Take(flat + rest, |all| - base) == all[base..]
    ensures Take(flat, cut - base) == all[..cut][base..]
  {
    assert (flat + rest)[..|flat|] == flat;
    assert all[base..][..|flat|] == all[..cut][base..];
  }

  lemma {:induction false} UnitsPrefix(us: seq<Unit>, a: nat)
    requires a <= |us|
    ensures UnitsBytes(us[..a]) == UnitsBytes(us)[..UNIT_SIZE * a]
    decreases |us|
  {
    hide UnitBytes;
    if a < |us| {
      UnitsPrefix(us[..|us| - 1], a);
      assert us[..|us| - 1][..a] == us[..a];
    } else {
      assert us[..a] == us;
    }
  }

  // Where the cut falls: everything is dropped, or file c is the last one kept, with the
  // units below phy (up to a zero unit) counted as written and the write position of its
  // buffer left alone.
  ghost predicate CutTo(x: Index, r: Index, us: seq<Unit>, k: nat, c: nat)
    requires x.fs != [] && k <= |us|
  {
    if UNIT_SIZE * k <= x.fs[0].from then r == x.(fs := [])
    else
      && k > 0 && c < |x.fs| && x.fs[c].from < UNIT_SIZE * k <= x.fs[c].from + x.fs[c].wrote
      && var n := Cutoff(us, x.fs[c].from, k);
         var w := UNIT_SIZE * n - x.fs[c].from;
         && 0 < n <= k && w > 0
         && r == Index(x.fs[..c] + [x.fs[c].(wrote := w, committed := w)], us[n - 1].offset, x.minLogic)
  }

  lemma {:induction false} CutFalls(x: Index, size: int, us: seq<Unit>, phy: int, k: nat) returns (c: nat)
    requires Exactly(x.fs, size, us) && size > UNIT_SIZE && Below(us, phy, k)
    ensures CutTo(x, CutLogic(x, size, phy), us, k, c)
    decreases |x.fs|
  {
    hide CutLogic, Chain, Take, Flat, CutTo, Below;
    c := |x.fs| - 1;
    if UNIT_SIZE * k <= x.fs[c].from && c > 0 {
      var a := CutDeeper(x, size, us, phy, k);
      var y := x.(fs := x.fs[..c]);
      c := CutFalls(y, size, us[..a], phy, k);
      CutToMore(x, y, CutLogic(y, size, phy), us, a, k, c);
    } else {
      CutHere(x, size, us, phy, k);
    }
  }

  lemma {:induction false} CutDeeper(x: Index, size: int, us: seq<Unit>, phy: int, k: nat) returns (a: nat)
    requires Exactly(x.fs, size, us) && size > UNIT_SIZE && Below(us, phy, k)
    requires |x.fs| > 1 && UNIT_SIZE * k <= x.fs[|x.fs| - 1].from
    ensures var y := x.(fs := x.fs[..|x.fs| - 1]);
            && k <= a <= |us| && Exactly(y.fs, size, us[..a]) && Below(us[..a], phy, k)
            && CutLogic(x, size, phy) == CutLogic(y, size, phy)
  {
    a := x.fs[|x.fs| - 1].from / UNIT_SIZE;
    CutDrops(x, size, us, phy, k);
    DropLastFile(x.fs, size, us);
    hide CutLogic, Exactly;
  }

  lemma {:induction false} CutToMore(x: Index, y: Index, r: Index, us: seq<Unit>, a: nat, k: nat, c: nat)
    requires |x.fs| > 1 && y == x.(fs := x.fs[..|x.fs| - 1]) && k <= a <= |us| && CutTo(y, r, us[..a], k, c)
    ensures CutTo(x, r, us, k, c)
  {
    hide FirstBad;
    assert us[..a][..k] == us[..k];
    if UNIT_SIZE * k > x.fs[0].from { assert y.fs[..c] == x.fs[..c]; }
  }

  lemma {:induction false} CutHere(x: Index, size: int, us: seq<Unit>, phy: int, k: nat)
    requires Exactly(x.fs, size, us) && size > UNIT_SIZE && Below(us, phy, k)
    requires |x.fs| == 1 || UNIT_SIZE * k > x.fs[|x.fs| - 1].from
    ensures CutTo(x, CutLogic(x, size, phy), us, k, |x.fs| - 1)
  {
    hide CutLogic, Exactly, Below, Whole, Cutoff;
    ExactlySays(x.fs, size, us);
    BelowSays(us, phy, k);
    if UNIT_SIZE * k > x.fs[|x.fs| - 1].from {
      CutStays(x, size, us, phy, k);
    } else {
      CutDrops(x, size, us, phy, k);
      CutNothing(x.(fs := x.fs[..0]), size, phy);
    }
  }

  lemma {:induction false} BelowSays(us: seq<Unit>, phy: int, k: nat)
    requires Below(us, phy, k)
    ensures k <= |us|
  {
  }

  lemma {:induction false} FirstIsLower(fs: seq<File>, size: int, us: seq<Unit>)
    requires Exactly(fs, size, us)
    ensures fs[0].from <= fs[|fs| - 1].from
  {
    hide Flat, UnitsBytes, Take;
    if |fs| > 1 { ChainOrder(fs, size, 0, |fs| - 1); }
  }

  lemma {:induction false} CutDrops(x: Index, size: int, us: seq<Unit>, phy: int, k: nat)
    requires Exactly(x.fs, size, us) && size > UNIT_SIZE && Below(us, phy, k)
    requires UNIT_SIZE * k <= x.fs[|x.fs| - 1].from
    ensures CutLogic(x, size, phy) == CutLogic(x.(fs := x.fs[..|x.fs| - 1]), size, phy)
  {
    LastFileScan(x.fs, size, us, phy, k);
    CutOnce(x, size, phy);
  }

  lemma {:induction false} CutStays(x: Index, size: int, us: seq<Unit>, phy: int, k: nat)
    requires Exactly(x.fs, size, us) && size > UNIT_SIZE && Below(us, phy, k)
    requires UNIT_SIZE * k > x.fs[|x.fs| - 1].from
    ensures var i := |x.fs| - 1;
            var n := Cutoff(us, x.fs[i].from, k);
            var w := UNIT_SIZE * n - x.fs[i].from;
            && 0 < n <= k <= |us| && w > 0
            && CutLogic(x, size, phy) == Index(x.fs[..i] + [x.fs[i].(wrote := w, committed := w)], us[n - 1].offset, x.minLogic)
  {
    hide Seen, Window, ScanUnits, Exactly, Below, CutLogic, CutRound, Whole, Cutoff;
    ExactlySays(x.fs, size, us);
    BelowSays(us, phy, k);
    LastFileScan(x.fs, size, us, phy, k);
    StaysWith(x, size, phy, UNIT_SIZE * Cutoff(us, x.fs[|x.fs| - 1].from, k) - x.fs[|x.fs| - 1].from);
  }

  lemma {:induction false} ExactlySays(fs: seq<File>, size: int, us: seq<Unit>)
    requires Exactly(fs, size, us)
    ensures size > 0 && Whole(size) && fs != [] && 0 <= fs[|fs| - 1].from && MaxOffset(fs) == UNIT_SIZE * |us|
    ensures fs[0].from <= fs[|fs| - 1].from < UNIT_SIZE * |us|
  {
    FirstIsLower(fs, size, us);
    assert Sound(fs[|fs| - 1], size);
  }

  lemma {:induction false} StaysWith(x: Index, size: int, phy: int, w: int)
    requires x.fs != [] && size > UNIT_SIZE && Whole(size) && Seen(Window(x.fs[|x.fs| - 1]), 0).offset < phy
    requires ScanUnits(Window(x.fs[|x.fs| - 1]), size, phy, UNIT_SIZE) == w
    ensures var n := |x.fs| - 1;
            w >= UNIT_SIZE && CutLogic(x, size, phy) == Index(x.fs[..n] + [x.fs[n].(wrote := w, committed := w)],
                                                              Seen(Window(x.fs[n]), w - UNIT_SIZE).offset, x.minLogic)
  {
    hide Seen, Window;
  }

  lemma {:induction false} RepresentsExactly(x: Index, size: int, us: seq<Unit>)
    requires Represents(x, size, us) && x.fs != [] && x.fs[|x.fs| - 1].wrote > 0
    ensures Exactly(x.fs, size, us)
  {
    hide UnitsBytes;
    FlatLength(x.fs, size);
    assert Sound(x.fs[0], size);
    hide Flat, Chain;
  }

  // Files up to and including c, the last of them full as far as the kept units go.
  lemma {:induction false} KeptFiles(x: Index, size: int, us: seq<Unit>, k: nat, c: nat, r: Index)
    requires Represents(x, size, us) && c < |x.fs| && 0 < k <= |us| && x.fs[c].from + x.fs[c].wrote == UNIT_SIZE * k
    requires r.fs == x.fs[..c] + [x.fs[c].(committed := x.fs[c].wrote)] && r.maxPhysic == us[k - 1].offset
    ensures Represents(r, size, us[..k])
  {
    hide UnitsBytes, Flat, Whole;
    KeptChain(x.fs, size, c);
    KeptFlat(x.fs, size, c);
    UnitsPrefix(us, k);
    hide Chain;
    var all, base := UnitsBytes(us), x.fs[0].from;
    assert all[base..][..UNIT_SIZE * k - base] == all[..UNIT_SIZE * k][base..];
  }

  lemma {:induction false} KeptChain(fs: seq<File>, size: int, c: nat)
    requires Chain(fs, size) && c < |fs|
    ensures Chain(fs[..c] + [fs[c].(committed := fs[c].wrote)], size) && fs[0].from <= fs[c].from && fs[c].wrote >= 0
  {
    hide Aligned;
    assert Sound(fs[c], size);
    ChainPrefix(fs, size, c);
    if c > 0 {
      assert Link(fs, c, size);
      ChainOrder(fs, size, 0, c);
    }
    ChainSnoc(fs[..c], size, fs[c].(committed := fs[c].wrote));
  }

  lemma {:induction false} KeptFlat(fs: seq<File>, size: int, c: nat)
    requires Chain(fs, size) && c < |fs|
    ensures var n := fs[c].from + fs[c].wrote - fs[0].from;
            && 0 <= n <= |Flat(fs)|
            && Flat(fs[..c] + [fs[c].(committed := fs[c].wrote)]) == Flat(fs)[..n]
  {
    hide Take, Aligned;
    assert Sound(fs[c], size);
    FlatBefore(fs, size, c);
    FlatSplit(fs, c);
    hide Chain, Sound;
    var f := fs[c].(committed := fs[c].wrote);
    assert (fs[..c] + [f])[..c] == fs[..c] && Written(f) == Written(fs[c]);
  }

  function FileStart(offset: int, size: int): int
    requires size > 0
  {
    offset - InFile(offset, size)
  }

  // After truncation the index is the index of the units below phy exactly when nothing had
  // to be dropped, or only whole files and not all of them, and the last file kept has no
  // zero unit but perhaps its first.  Otherwise the kept file's buffer still writes behind
  // the dropped units, or maxPhysicOffset still names one.
  lemma {:induction false} CutKeepsIndex(x: Index, size: int, us: seq<Unit>, phy: int, k: nat)
    requires Represents(x, size, us) && x.fs != [] && x.fs[|x.fs| - 1].wrote > 0 && size > UNIT_SIZE && Below(us, phy, k)
    requires phy >= 0
    ensures Represents(CutLogic(x, size, phy), size, us[..k])
       <==> && (k == |us| || (UNIT_SIZE * k > x.fs[0].from && Aligned(UNIT_SIZE * k, size)))
            && (forall j :: 0 <= j < k && FileStart(UNIT_SIZE * (k - 1), size) < UNIT_SIZE * j ==> IsUnit(us[j]))
  {
    hide UnitsBytes, Take, Aligned, CutLogic, Flat, Cutoff, FileStart, IsUnit;
    RepresentsExactly(x, size, us);
    var c := CutFalls(x, size, us, phy, k);
    var r := CutLogic(x, size, phy);
    if UNIT_SIZE * k <= x.fs[0].from {
      assert Sound(x.fs[|x.fs| - 1], size);
      FirstIsLower(x.fs, size, us);
    } else {
      LastKeptFile(x, size, us, k, c);
      CutoffAll(us, x.fs[c].from, k);
      if x.fs[c].from + x.fs[c].wrote == UNIT_SIZE * Cutoff(us, x.fs[c].from, k) { KeptFiles(x, size, us, k, c, r); }
      else { assert !Sound(r.fs[c], size); }
    }
  }

  lemma {:induction false} CutoffAll(us: seq<Unit>, from: int, k: nat)
    requires 0 <= from < UNIT_SIZE * k && k <= |us| && Whole(from)
    ensures Cutoff(us, from, k) == k <==> forall j :: 0 <= j < k && from < UNIT_SIZE * j ==> IsUnit(us[j])
  {
    hide IsUnit;
    var a := from / UNIT_SIZE;
    var n := FirstBad(us[..k], a + 1);
    assert forall j :: a + 1 <= j < n ==> IsUnit(us[..k][j]);
    assert n < k ==> !IsUnit(us[..k][n]) && us[..k][n] == us[n];
    hide FirstBad;
    if n == k { forall j | 0 <= j < k && from < UNIT_SIZE * j ensures IsUnit(us[j]) { assert IsUnit(us[..k][j]); } }
  }

  // File c holds unit k - 1; it ends with that unit exactly in the two good cases.
  lemma {:induction false} LastKeptFile(x: Index, size: int, us: seq<Unit>, k: nat, c: nat)
    requires Exactly(x.fs, size, us) && 0 < k <= |us| && c < |x.fs|
    requires x.fs[c].from < UNIT_SIZE * k <= x.fs[c].from + x.fs[c].wrote
    ensures x.fs[c].from + x.fs[c].wrote == UNIT_SIZE * k <==> k == |us| || Aligned(UNIT_SIZE * k, size)
    ensures x.fs[c].wrote == x.fs[c].writePos && Whole(x.fs[c].from) && 0 <= x.fs[c].from
    ensures size > 0 && x.fs[c].from == FileStart(UNIT_SIZE * (k - 1), size)
  {
    hide UnitsBytes, Take, Flat;
    var n := |x.fs| - 1;
    assert Sound(x.fs[c], size) && Sound(x.fs[n], size);
    if c < n {
      assert Link(x.fs, c + 1, size);
      ChainOrder(x.fs, size, c, n);
    }
    FileAligned(x.fs[c].from, size);
    hide Chain;
    AlignedInFile(x.fs[c].from, size, UNIT_SIZE * k);
    StartOfUnit(x.fs[c].from, size, k);
  }

  lemma {:induction false} StartOfUnit(from: int, size: int, k: int)
    requires size > 0 && Aligned(from, size) && Whole(from) && from < UNIT_SIZE * k <= from + size
    ensures from == FileStart(UNIT_SIZE * (k - 1), size)
  {
    assert from <= UNIT_SIZE * (k - 1);
    InFileAdd(from, UNIT_SIZE * (k - 1) - from, size);
  }

  lemma {:induction false} AlignedInFile(from: int, size: int, at: int)
    requires size > 0 && Aligned(from, size) && from < at <= from + size
    ensures Aligned(at, size) <==> at == from + size
  {
    if at < from + size { InFileAdd(from, at - from, size); } else { InFileRoll(from, size); }
  }

  // ---------------------------------------------------------------- correctMinOffset

  // The first unit at or past byte i whose offset is not below phyMin.
  function FirstKept(s: seq<byte>, phyMin: int, i: nat): (r: Option<nat>)
    decreases |s| - i
  {
    if i >= |s| then None
    else if Seen(s, i).offset >= phyMin then Some(i)
    else FirstKept(s, phyMin, i + UNIT_SIZE)
  }

  function CorrectMin(x: Index, phyMin: int): Index {
    if x.fs == [] || x.fs[0].wrote <= 0 || !x.fs[0].available then x
    else
      match FirstKept(Window(x.fs[0]), phyMin, 0)
      case None => x
      case Some(i) => x.(minLogic := x.fs[0].from + i)
  }

  ghost predicate Rising(us: seq<Unit>) {
    forall i, j :: 0 <= i < j < |us| ==> us[i].offset < us[j].offset
  }

  lemma {:induction false} FirstKeptIs(s: seq<byte>, us: seq<Unit>, a: nat, b: nat, phyMin: int, k: nat, i: nat)
    requires Shows(s, us, a, b) && |s| == UNIT_SIZE * (b - a) && a <= i <= k <= b
    requires (forall j :: a <= j < k ==> us[j].offset < phyMin) && (k < b ==> us[k].offset >= phyMin)
    ensures FirstKept(s, phyMin, UNIT_SIZE * (i - a)) == if k < b then Some(UNIT_SIZE * (k - a)) else None
    decreases k - i
  {
    hide Seen;
    if i < b { assert Seen(s, UNIT_SIZE * (i - a)) == us[i]; }
    if i < k { FirstKeptIs(s, us, a, b, phyMin, k, i + 1); }
  }

  // correctMinOffset puts the minimum at the first unit whose message is still stored, if
  // the first file has one: every unit from there on is stored and no earlier one is.
  lemma {:induction false} MinIsFirstStored(x: Index, size: int, us: seq<Unit>, phyMin: int, k: nat)
    requires Represents(x, size, us) && Rising(us) && x.fs != [] && x.fs[0].available && x.fs[0].wrote > 0
    requires k <= |us| && (forall j :: 0 <= j < |us| ==> (us[j].offset < phyMin <==> j < k))
    requires x.fs[0].from <= UNIT_SIZE * k
    ensures CorrectMin(x, phyMin).minLogic
         == if UNIT_SIZE * k < x.fs[0].from + x.fs[0].wrote then UNIT_SIZE * k else x.minLogic
  {
    hide UnitsBytes, Flat, Aligned;
    BeginsOf(x, size, us);
    var f := x.fs[0];
    assert Sound(f, size);
    FirstFileEnd(x, size, us);
    var b := (f.from + f.wrote) / UNIT_SIZE;
    FileShows(x.fs, size, us, 0, b);
    var a, s := f.from / UNIT_SIZE, Window(f);
    hide Chain, Seen, Represents, Begins;
    FirstKeptIs(s, us, a, b, phyMin, Min(k, b), a);
  }

  lemma {:induction false} BeginsOf(x: Index, size: int, us: seq<Unit>)
    requires Represents(x, size, us) && x.fs != []
    ensures Begins(x.fs, size, us) && MaxOffset(x.fs) == UNIT_SIZE * |us|
  {
    hide UnitsBytes;
    FlatLength(x.fs, size);
    assert Sound(x.fs[0], size);
    hide Flat, Chain;
  }

  lemma {:induction false} FirstFileEnd(x: Index, size: int, us: seq<Unit>)
    requires Represents(x, size, us) && x.fs != []
    ensures Whole(x.fs[0].from + x.fs[0].wrote) && x.fs[0].from + x.fs[0].wrote <= UNIT_SIZE * |us|
  {
    BeginsOf(x, size, us);
    var f, last := x.fs[0], x.fs[|x.fs| - 1];
    assert Sound(f, size) && Sound(last, size);
    if |x.fs| > 1 {
      assert Link(x.fs, 1, size);
      ChainOrder(x.fs, size, 0, |x.fs| - 1);
    }
    FileAligned(f.from, size);
    hide Represents, Chain, Begins, Aligned, Whole;
    SumWhole(f.from, size, |us|);
  }

  lemma {:induction false} SumWhole(a: int, b: int, n: int)
    requires Whole(a) && Whole(b)
    ensures Whole(a + b) && Whole(UNIT_SIZE * n)
  {
  }

  // ---------------------------------------------------------------- the exact result of a cut

  lemma {:induction false} UnitCount(x: Index, size: int, us: seq<Unit>)
    requires Represents(x, size, us)
    ensures MaxOffset(x.fs) == UNIT_SIZE * |us|
  {
    hide UnitsBytes, Flat, Chain;
    if x.fs != [] { BeginsOf(x, size, us); }
  }

  // The index whose last file is empty, without that file.
  lemma {:induction false} WithoutEmptyLast(x: Index, size: int, us: seq<Unit>)
    requires Represents(x, size, us) && |x.fs| > 1 && x.fs[|x.fs| - 1].wrote == 0
    ensures var y := x.(fs := x.fs[..|x.fs| - 1]); Represents(y, size, us) && Tailed(y)
  {
    hide UnitsBytes, Aligned;
    var n := |x.fs| - 1;
    ChainPrefix(x.fs, size, n);
    assert Link(x.fs, n, size) && Sound(x.fs[n - 1], size);
    assert Flat(x.fs) == Flat(x.fs[..n]) + Written(x.fs[n]);
    assert Written(x.fs[n]) == [];
    hide Flat, Chain;
  }

  // Cutting at 0 drops every file and leaves maxPhysicOffset alone.
  lemma {:induction false} CutAtZero(x: Index, size: int, us: seq<Unit>)
    requires Represents(x, size, us) && size > UNIT_SIZE && forall j :: 0 <= j < |us| ==> IsUnit(us[j])
    ensures CutLogic(x, size, 0) == x.(fs := [])
  {
    hide CutLogic, UnitsBytes, Flat, Chain, Cutoff;
    if x.fs == [] {
      CutNothing(x, size, 0);
    } else if x.fs[|x.fs| - 1].wrote > 0 {
      TailedAtZero(x, size, us);
    } else {
      var y := x.(fs := x.fs[..|x.fs| - 1]);
      NotWritten(x, size);
      EmptyLastDrops(x, size, us);
      if y.fs == [] {
        CutNothing(y, size, 0);
      } else {
        WithoutEmptyLast(x, size, us);
        TailedAtZero(y, size, us);
      }
    }
  }

  lemma {:induction false} TailedAtZero(x: Index, size: int, us: seq<Unit>)
    requires Represents(x, size, us) && x.fs != [] && x.fs[|x.fs| - 1].wrote > 0 && size > UNIT_SIZE
    requires forall j :: 0 <= j < |us| ==> IsUnit(us[j])
    ensures CutLogic(x, size, 0) == x.(fs := [])
  {
    hide CutLogic, Cutoff;
    RepresentsExactly(x, size, us);
    assert Sound(x.fs[0], size);
    var c := CutFalls(x, size, us, 0, 0);
  }

  lemma {:induction false} EmptyLastDrops(x: Index, size: int, us: seq<Unit>)
    requires Represents(x, size, us) && x.fs != [] && x.fs[|x.fs| - 1].wrote == 0 && size > UNIT_SIZE
    ensures CutLogic(x, size, 0) == CutLogic(x.(fs := x.fs[..|x.fs| - 1]), size, 0)
  {
    hide CutLogic, UnitsBytes, Flat;
    assert Sound(x.fs[|x.fs| - 1], size);
    CutOnce(x, size, 0);
  }

  // Truncation leaves the index of the units below phy: nothing has to be dropped, or only
  // whole files and not all of them, and no file is empty; at 0 there must be no unit at all.
  ghost predicate CutsRight(x: Index, size: int, us: seq<Unit>, phy: int, k: nat)
    requires size > 0
  {
    if phy == 0 then us == []
    else Tailed(x) && (k == |us| || (x.fs != [] && UNIT_SIZE * k > x.fs[0].from && Aligned(UNIT_SIZE * k, size)))
  }

  lemma {:induction false} CutExact(x: Index, size: int, us: seq<Unit>, phy: int, k: nat)
    requires Represents(x, size, us) && size > UNIT_SIZE && phy >= 0 && Below(us, phy, k)
    requires forall j :: 0 <= j < |us| ==> IsUnit(us[j])
    ensures Represents(CutLogic(x, size, phy), size, us[..k]) <==> CutsRight(x, size, us, phy, k)
    ensures Represents(CutLogic(x, size, phy), size, us[..k]) ==> Tailed(CutLogic(x, size, phy))
  {
    hide CutLogic, FileStart, Aligned, UnitsBytes, Flat;
    if phy == 0 {
      CutAtZero(x, size, us);
      EmptyOf(x, size, us);
    } else if x.fs == [] {
      CutNothing(x, size, phy);
    } else if x.fs[|x.fs| - 1].wrote > 0 {
      CutKeepsIndex(x, size, us, phy, k);
      CutTailed(x, size, us, phy, k);
    } else {
      NotWritten(x, size);
      CutGains(x, size, us, phy, k);
    }
  }

  lemma {:induction false} NotWritten(x: Index, size: int)
    requires Chain(x.fs, size) && x.fs != [] && x.fs[|x.fs| - 1].wrote <= 0
    ensures x.fs[|x.fs| - 1].wrote == 0
  {
    assert Sound(x.fs[|x.fs| - 1], size);
  }

  // Without files an index is that of no units exactly if it has indexed none.
  lemma {:induction false} EmptyOf(x: Index, size: int, us: seq<Unit>)
    requires Represents(x, size, us) && forall j :: 0 <= j < |us| ==> IsUnit(us[j])
    ensures Represents(x.(fs := []), size, []) <==> us == []
  {
    hide UnitBytes, Aligned;
    assert size > 0 && Whole(size) && x.maxPhysic == LastOffset(us);
    assert UnitsBytes([]) == [] && Flat([]) == [];
    if us != [] { assert IsUnit(us[|us| - 1]); }
  }

  lemma {:induction false} CutGains(x: Index, size: int, us: seq<Unit>, phy: int, k: nat)
    requires Represents(x, size, us) && size > UNIT_SIZE && phy > 0 && x.fs != [] && x.fs[|x.fs| - 1].wrote == 0 && k <= |us|
    ensures !Represents(CutLogic(x, size, phy), size, us[..k])
  {
    UnitCount(x, size, us);
    EmptyFileGainsUnit(x, size, us, phy);
    hide CutLogic, Represents, MaxOffset;
    if Represents(CutLogic(x, size, phy), size, us[..k]) { UnitCount(CutLogic(x, size, phy), size, us[..k]); }
  }

  lemma {:induction false} CutTailed(x: Index, size: int, us: seq<Unit>, phy: int, k: nat)
    requires Represents(x, size, us) && x.fs != [] && x.fs[|x.fs| - 1].wrote > 0 && size > UNIT_SIZE && Below(us, phy, k)
    ensures Tailed(CutLogic(x, size, phy))
  {
    RepresentsExactly(x, size, us);
    hide CutLogic, Represents, Cutoff;
    var c := CutFalls(x, size, us, phy, k);
  }
}
