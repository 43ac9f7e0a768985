// The consume queue: a chain of files holding 20-byte units that point into the commit log.

module ConsumeQueues {
  import opened Arithmetic
  import opened Bytes
  import opened Segments

  const UNIT_SIZE: int := 20

  // A whole number of units.
  predicate Whole(n: int) { n % UNIT_SIZE == 0 }

  datatype Unit = Unit(offset: int64, size: int32, tags: int64)

  function UnitBytes(u: Unit): (s: seq<byte>)
    ensures |s| == UNIT_SIZE
  {
    I64(u.offset) + (I32(u.size) + I64(u.tags))
  }

  function ReadUnit(s: seq<byte>): Unit
    requires |s| == UNIT_SIZE
  {
    Unit(AsI64(s[..8]), AsI32(s[8..12]), AsI64(s[12..]))
  }

  lemma {:induction false} ReadOfUnit(u: Unit)
    ensures ReadUnit(UnitBytes(u)) == u
  {
    hide I64, I32, AsI64, AsI32;
    var s := UnitBytes(u);
    assert s[..8] == I64(u.offset) && s[8..12] == I32(u.size) && s[12..] == I64(u.tags);
  }

  function UnitsBytes(us: seq<Unit>): (s: seq<byte>)
    ensures |s| == UNIT_SIZE * |us|
  {
    if us == [] then [] else UnitsBytes(us[..|us| - 1]) + UnitBytes(us[|us| - 1])
  }

  // Unit k stands at byte 20 * k.
  lemma {:induction false} UnitAt(us: seq<Unit>, k: nat)
    requires k < |us|
    ensures At(UnitsBytes(us), UNIT_SIZE * k, UnitBytes(us[k]))
    decreases |us|
  {
    hide UnitBytes;
    var n := |us| - 1;
    if k < n {
      UnitAt(us[..n], k);
      AtExtend(UnitsBytes(us[..n]), UNIT_SIZE * k, UnitBytes(us[k]), UnitBytes(us[n]));
    }
  }

  lemma {:induction false} UnitsSnoc(us: seq<Unit>, u: Unit)
    ensures UnitsBytes(us + [u]) == UnitsBytes(us) + UnitBytes(u)
  {
    assert (us + [u])[..|us|] == us;
  }

  datatype Index = Index(fs: seq<File>, maxPhysic: int, minLogic: int)

  const EMPTY_INDEX: Index := Index([], -1, 0)

  // What putMessagePostionInfo answers, and whether it logged "logic queue order maybe wrong".
  datatype PutUnitResult = PutUnitResult(index: Index, ok: bool, warned: bool)

  // putMessagePostionInfo for a unit that should become unit number cqOffset.
  function PutUnit(x: Index, size: int, u: Unit, cqOffset: int, contents: seq<byte>): PutUnitResult
    requires size > 0
  {
    if u.offset <= x.maxPhysic then PutUnitResult(x, true, false)
    else
      var fs := EnsureLast(x.fs, size, cqOffset * UNIT_SIZE, contents);
      var p := PlaceUnit(fs[|fs| - 1], size, u, cqOffset);
      PutUnitResult(
        Index(WithLast(fs, p.f), u.offset, if p.blank then cqOffset * UNIT_SIZE else x.minLogic), p.ok, p.warned)
  }

  datatype Placed = Placed(f: File, ok: bool, warned: bool, blank: bool)

  // The part that works on the last file.
  function PlaceUnit(last: File, size: int, u: Unit, cqOffset: int): Placed
    requires size > 0
  {
    var target := cqOffset * UNIT_SIZE;
    var blank := last.firstCreate && cqOffset != 0 && last.wrote == 0;
    var f := if blank then Blanks(last, size, Rounds(Rem(target, size))) else last;
    var ok := UnitFits(f, size);
    Placed(if ok then AppendTo(f, UnitBytes(u)) else f, ok, cqOffset != 0 && target != f.wrote + f.from, blank)
  }

  // fillPreBlank: its seeded buffer yields units of twenty zero bytes, here k of them.
  function Blanks(f: File, size: int, k: nat): File {
    if k == 0 then f
    else
      var g := Blanks(f, size, k - 1);
      if UnitFits(g, size) then AppendTo(g, Zeros(UNIT_SIZE)) else g
  }

  // Rounds of `for i := 0; i < n; i += 20`.
  function Rounds(n: int): nat { if n <= 0 then 0 else (n + UNIT_SIZE - 1) / UNIT_SIZE }

  predicate UnitFits(f: File, size: int) {
    f.wrote + UNIT_SIZE <= size && 0 <= f.writePos && f.writePos + UNIT_SIZE <= |f.data|
  }

  // The files hold exactly the units from the first file's offset on (older files may have
  // expired), and the index remembers the last unit.
  ghost predicate Represents(x: Index, size: int, us: seq<Unit>) {
    && Chain(x.fs, size) && Whole(size) && (x.fs == [] ==> us == [])
    && 0 <= BaseOf(x.fs) <= |UnitsBytes(us)| && Flat(x.fs) == UnitsBytes(us)[BaseOf(x.fs)..]
    && FirstOnly(x.fs)
    && x.maxPhysic == LastOffset(us)
  }

  // No empty file at the end.
  predicate Tailed(x: Index) { x.fs != [] ==> x.fs[|x.fs| - 1].wrote > 0 }

  // A file created first in its queue, away from offset 0, has been written to: blank units
  // are never written twice.
  ghost predicate FirstOnly(fs: seq<File>) {
    forall i :: 0 <= i < |fs| && fs[i].firstCreate && fs[i].wrote == 0 ==> fs[i].from == 0
  }

  function LastOffset(us: seq<Unit>): int { if us == [] then -1 else us[|us| - 1].offset }

  lemma {:induction false} EmptyRepresents(size: int)
    requires size > 0 && Whole(size)
    ensures Represents(EMPTY_INDEX, size, [])
  {
    hide UnitBytes, Sound, Written, Whole, Aligned;
    assert UnitsBytes([]) == [];
    assert EMPTY_INDEX.fs == [] && Flat([]) == [];
  }

  // The file that takes the next unit ends exactly where that unit belongs, and has room.
  lemma {:induction false} NextSlot(x: Index, size: int, us: seq<Unit>, contents: seq<byte>)
    requires Represents(x, size, us) && |contents| == size
    ensures var fs := EnsureLast(x.fs, size, |us| * UNIT_SIZE, contents);
            var last := fs[|fs| - 1];
            && Chain(fs, size) && BaseOf(fs) == BaseOf(x.fs) && Flat(fs) == Flat(x.fs)
            && FirstOnly(fs) && Sound(last, size)
            && last.from + last.wrote == |us| * UNIT_SIZE && last.wrote + UNIT_SIZE <= size
  {
    hide Flat, UnitsBytes, InFile, Rem;
    var target := |us| * UNIT_SIZE;
    EnsureLastKeeps(x.fs, size, target, contents);
    var fs := EnsureLast(x.fs, size, target, contents);
    var last := fs[|fs| - 1];
    FlatLength(fs, size);
    assert Sound(last, size) && Sound(fs[0], size);
    FirstStart(target, size);
    hide Chain;
    UnitRoom(last, size, target);
  }

  lemma {:induction false} FirstStart(target: int, size: int)
    requires size > 0
    ensures target == 0 ==> target - Rem(target, size) == 0
  {
  }

  // The next unit in line is appended where the code expects it, in whatever file that is;
  // there is always room, no blank units are written and no warning is logged.
  lemma {:induction false} PutNextUnit(x: Index, size: int, us: seq<Unit>, u: Unit, contents: seq<byte>)
    requires Represents(x, size, us) && |contents| == size && u.offset > x.maxPhysic
    ensures var r := PutUnit(x, size, u, |us|, contents);
            && r.ok && !r.warned && Represents(r.index, size, us + [u]) && r.index.minLogic == x.minLogic
            && Tailed(r.index)
  {
    hide Flat, UnitsBytes, UnitBytes, InFile, Rem, Chain, EnsureLast;
    NextSlot(x, size, us, contents);
    var fs := EnsureLast(x.fs, size, |us| * UNIT_SIZE, contents);
    var last := fs[|fs| - 1];
    AppendLast(fs, size, UnitBytes(u), last.storeTimestamp);
    UnitsSnoc(us, u);
    hide Sound;
    assert UnitsBytes(us)[BaseOf(fs)..] + UnitBytes(u) == (UnitsBytes(us) + UnitBytes(u))[BaseOf(fs)..];
  }

  lemma {:induction false} UnitRoom(last: File, size: int, target: int)
    requires Sound(last, size) && last.wrote < size && Whole(size) && Whole(target)
    requires last.from + last.wrote == target
    ensures last.wrote + UNIT_SIZE <= size
  {
    FileAligned(last.from, size);
    hide Whole, Aligned;
    WholeGap(target, last.from, size);
  }

  lemma {:induction false} WholeGap(a: int, b: int, c: int)
    requires Whole(a) && Whole(b) && Whole(c) && a < b + c
    ensures a + UNIT_SIZE <= b + c
  {
    var x, y, z := a / UNIT_SIZE, b / UNIT_SIZE, c / UNIT_SIZE;
    assert a == UNIT_SIZE * x && b == UNIT_SIZE * y && c == UNIT_SIZE * z;
  }

  lemma {:induction false} FileAligned(from: int, size: int)
    requires size > 0 && Whole(size) && Aligned(from, size)
    ensures Whole(from)
  {
    DivBounds(from, size);
    var k, n := from / size, size / UNIT_SIZE;
    assert size == n * UNIT_SIZE;
    assert from == k * size;
    hide Whole, Aligned;
    WholeProduct(k, n);
    assert k * (n * UNIT_SIZE) == (k * n) * UNIT_SIZE;
  }

  lemma {:induction false} WholeProduct(k: int, n: int)
    ensures Whole((k * n) * UNIT_SIZE)
  {
  }

  // A unit at or below the last indexed offset is ignored.
  lemma {:induction false} PutOldUnit(x: Index, size: int, u: Unit, cqOffset: int, contents: seq<byte>)
    requires size > 0 && u.offset <= x.maxPhysic
    ensures PutUnit(x, size, u, cqOffset, contents) == PutUnitResult(x, true, false)
  {
  }

  // Expiry of the first n files, never all of them, leaves an index of the same units.
  lemma {:induction false} ExpireFiles(x: Index, size: int, us: seq<Unit>, n: nat)
    requires Represents(x, size, us) && n < |x.fs|
    ensures Represents(x.(fs := x.fs[n..]), size, us)
  {
    hide UnitsBytes, Flat, Chain, FirstOnly, Whole;
    DropUnits(x.fs, size, UnitsBytes(us), n);
    FirstOnlyDrop(x.fs, n);
    FirstOf(x.fs, n);
  }

  lemma {:induction false} FirstOf(fs: seq<File>, n: nat)
    requires n < |fs|
    ensures fs[n..] != [] && BaseOf(fs[n..]) == fs[n].from
  {
  }

  lemma {:induction false} DropUnits(fs: seq<File>, size: int, s: seq<byte>, n: nat)
    requires Chain(fs, size) && n < |fs| && 0 <= fs[0].from <= |s| && Flat(fs) == s[fs[0].from..]
    ensures Chain(fs[n..], size) && 0 <= fs[n].from <= |s| && Flat(fs[n..]) == s[fs[n].from..]
  {
    hide Flat, Chain;
    DropFiles(fs, size, n);
    TailOfTail(s, fs[0].from, fs[n].from - fs[0].from);
  }

  lemma {:induction false} FirstOnlyDrop(fs: seq<File>, n: nat)
    requires FirstOnly(fs) && n <= |fs|
    ensures FirstOnly(fs[n..])
  {
  }

  // Unit k can be read at byte 20 * k as long as its file has not expired.
  lemma {:induction false} SlotOf(x: Index, size: int, us: seq<Unit>, k: nat)
    requires Represents(x, size, us) && k < |us| && BaseOf(x.fs) <= UNIT_SIZE * k
    ensures At(Flat(x.fs), UNIT_SIZE * k - BaseOf(x.fs), UnitBytes(us[k]))
  {
    hide Flat, UnitBytes, Chain, UnitsBytes;
    UnitAt(us, k);
    var s, b := UnitsBytes(us), BaseOf(x.fs);
    assert s[b..][UNIT_SIZE * k - b..UNIT_SIZE * k - b + UNIT_SIZE] == s[UNIT_SIZE * k..UNIT_SIZE * k + UNIT_SIZE];
  }

  lemma {:induction false} BlanksFit(f: File, size: int, k: nat)
    requires |f.data| == size && f.wrote == f.writePos == 0 && UNIT_SIZE * k <= size
    ensures var g := Blanks(f, size, k);
            && g.from == f.from && |g.data| == size && g.wrote == g.writePos == UNIT_SIZE * k
            && g.data[..UNIT_SIZE * k] == Zeros(UNIT_SIZE * k)
            && g.firstCreate == f.firstCreate && g.committed == f.committed
  {
    hide AppendTo;
    if k > 0 {
      BlanksFit(f, size, k - 1);
      AppendZeros(Blanks(f, size, k - 1), UNIT_SIZE * (k - 1));
    }
  }

  lemma {:induction false} AppendZeros(g: File, n: nat)
    requires g.wrote == g.writePos == n && n + UNIT_SIZE <= |g.data| && g.data[..n] == Zeros(n)
    ensures var h := AppendTo(g, Zeros(UNIT_SIZE));
            && h.from == g.from && |h.data| == |g.data| && h.wrote == h.writePos == n + UNIT_SIZE
            && h.data[..n + UNIT_SIZE] == Zeros(n + UNIT_SIZE) && h.firstCreate == g.firstCreate
            && h.committed == g.committed
  {
    var h := AppendTo(g, Zeros(UNIT_SIZE));
    assert h.data[..n + UNIT_SIZE] == h.data[..n] + h.data[n..n + UNIT_SIZE];
  }

  const ZERO_UNIT: Unit := Unit(0, 0, 0)

  function Padding(n: nat): (us: seq<Unit>)
    ensures |us| == n && forall i :: 0 <= i < n ==> us[i] == ZERO_UNIT
  {
    seq(n, _ => ZERO_UNIT)
  }

  lemma {:induction false} ZeroUnitBytes()
    ensures UnitBytes(ZERO_UNIT) == Zeros(UNIT_SIZE)
  {
    Pow256Values();
    ZeroInts();
    hide I64, I32;
  }

  lemma {:induction false} ZeroInts()
    ensures I64(0) == Zeros(8) && I32(0) == Zeros(4)
  {
    Pow256Values();
    UnsignedZero(8);
    UnsignedZero(4);
  }

  lemma {:induction false} UnsignedZero(n: nat)
    ensures Unsigned(0, n) == Zeros(n)
  {
    if n > 0 { UnsignedZero(n - 1); }
  }

  lemma {:induction false} PaddingBytes(n: nat)
    ensures UnitsBytes(Padding(n)) == Zeros(UNIT_SIZE * n)
  {
    hide UnitBytes;
    if n > 0 {
      PaddingBytes(n - 1);
      ZeroUnitBytes();
      assert Padding(n)[..n - 1] == Padding(n - 1);
    }
  }

  // A queue whose first unit here is not its number 0 is padded with zero units up to that
  // number: the unit lands in its own slot, which becomes the queue's lowest, unwarned, and
  // the index goes on from there like any other.
  lemma {:induction false} PutFirstUnit(size: int, u: Unit, cqOffset: nat, contents: seq<byte>)
    requires size > 0 && Whole(size) && |contents| == size && cqOffset > 0 && u.offset >= 0
    ensures var r := PutUnit(EMPTY_INDEX, size, u, cqOffset, contents);
            && r.ok && !r.warned && |r.index.fs| == 1 && Tailed(r.index)
            && r.index.minLogic == UNIT_SIZE * cqOffset
            && r.index.fs[0].from == UNIT_SIZE * cqOffset - Rem(UNIT_SIZE * cqOffset, size)
            && Represents(r.index, size, Padding(cqOffset) + [u])
  {
    hide UnitBytes, Aligned, AppendTo, Rem, Blanks, Rounds, UnitsBytes, Sound, Written, Padding, Chain, Flat;
    var target := cqOffset * UNIT_SIZE;
    var f := NewFile(target - Rem(target, size), contents, true);
    PadFirst(size, target, contents);
    var g := Blanks(f, size, Rounds(Rem(target, size)));
    FirstUnitFile(g, size, u, cqOffset);
    assert EnsureLast([], size, target, contents) == [f];
    assert PlaceUnit(f, size, u, cqOffset) == Placed(AppendTo(g, UnitBytes(u)), true, false, true);
    assert WithLast([f], AppendTo(g, UnitBytes(u))) == [AppendTo(g, UnitBytes(u))];
  }

  // A file of zero units up to slot n, and a unit behind them.
  lemma {:induction false} FirstUnitFile(g: File, size: int, u: Unit, n: nat)
    requires Whole(size) && Sound(g, size) && g.from >= 0 && g.from + g.wrote == n * UNIT_SIZE && g.wrote + UNIT_SIZE <= size
    requires Written(g) == Zeros(g.wrote)
    ensures UnitFits(g, size)
    ensures var h := AppendTo(g, UnitBytes(u));
            h.wrote > 0 && h.from == g.from && Chain([h], size) && 0 <= BaseOf([h]) <= |UnitsBytes(Padding(n) + [u])|
            && Flat([h]) == UnitsBytes(Padding(n) + [u])[BaseOf([h])..]
  {
    hide UnitBytes, Aligned, Overwrite, UnitsBytes, Padding;
    AppendToWritten(g, size, UnitBytes(u));
    PaddingBytes(n);
    UnitsSnoc(Padding(n), u);
    OneFile(AppendTo(g, UnitBytes(u)), size);
    hide Sound, Written, Chain, Flat;
    var z := UNIT_SIZE * n;
    assert Zeros(z)[g.from..] == Zeros(g.wrote);
    assert (Zeros(z) + UnitBytes(u))[g.from..] == Zeros(z)[g.from..] + UnitBytes(u);
  }

  // A unit whose k predecessors were given up, because their file could not be created, lands
  // in its own slot only in a queue without files; behind other units it lands k slots too
  // low, with the order warning.
  lemma {:induction false} UnitAfterGap(x: Index, size: int, us: seq<Unit>, u: Unit, k: nat, contents: seq<byte>)
    requires Represents(x, size, us) && Tailed(x) && |contents| == size && k > 0 && u.offset > x.maxPhysic && u.offset >= 0
    requires x.fs == [] ==> x == EMPTY_INDEX
    ensures var r := PutUnit(x, size, u, |us| + k, contents);
            && r.ok && (r.warned <==> x.fs != [])
            && Represents(r.index, size, if x.fs == [] then Padding(k) + [u] else us + [u])
  {
    assert size > 0 && Whole(size) && (x.fs == [] ==> us == []);
    hide Represents, PutUnit, Tailed, Whole, Padding, EnsureLast;
    if x.fs == [] {
      PutFirstUnit(size, u, k, contents);
    } else {
      PutNextUnit(x, size, us, u, contents);
      NextStart(x, size, us, contents);
      LateUnit(x, size, u, |us|, k, contents);
    }
  }

  lemma {:induction false} NextStart(x: Index, size: int, us: seq<Unit>, contents: seq<byte>)
    requires Represents(x, size, us) && |contents| == size
    ensures size > 0
    ensures var fs := EnsureLast(x.fs, size, |us| * UNIT_SIZE, contents);
            fs[|fs| - 1].from + fs[|fs| - 1].wrote == |us| * UNIT_SIZE
  {
    NextSlot(x, size, us, contents);
  }

  lemma {:induction false} LateUnit(x: Index, size: int, u: Unit, n: nat, k: nat, contents: seq<byte>)
    requires size > 0 && x.fs != [] && Tailed(x) && k > 0 && u.offset > x.maxPhysic
    requires var fs := EnsureLast(x.fs, size, n * UNIT_SIZE, contents);
             fs[|fs| - 1].from + fs[|fs| - 1].wrote == n * UNIT_SIZE
    ensures PutUnit(x, size, u, n + k, contents) == PutUnit(x, size, u, n, contents).(warned := true)
  {
    hide UnitBytes, Blanks, Rounds, Rem, AppendTo, UnitFits;
  }

  lemma {:induction false} OneFile(h: File, size: int)
    requires Sound(h, size)
    ensures Chain([h], size) && Flat([h]) == Written(h)
  {
    assert [h][..0] == [];
    assert Flat([h]) == Flat([]) + Written(h);
  }

  lemma {:induction false} WholeRounds(a: int, b: int)
    requires Whole(a) && Whole(b) && b <= a
    ensures UNIT_SIZE * Rounds(a - b) == a - b
  {
  }

  lemma {:induction false} PadFirst(size: int, target: int, contents: seq<byte>)
    requires size > 0 && Whole(size) && Whole(target) && |contents| == size && target >= 0
    ensures var n := Rem(target, size);
            var f := NewFile(target - n, contents, true);
            var g := Blanks(f, size, Rounds(n));
            && Sound(g, size) && g.from == f.from && g.from >= 0 && g.from + g.wrote == target && g.wrote + UNIT_SIZE <= size
            && Written(g) == Zeros(g.wrote) && g.firstCreate
  {
    hide Aligned, Blanks;
    FirstFile(target, size, contents);
    var n := Rem(target, size);
    var f := NewFile(target - n, contents, true);
    FileAligned(f.from, size);
    hide Rem, Whole, Rounds;
    WholeRounds(target, f.from);
    UnitRoom(f.(wrote := n, writePos := n), size, target);
    BlanksFit(f, size, Rounds(n));
  }
}
