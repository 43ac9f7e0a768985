// DefaultMessageStore.GetMessage: which messages a pull returns and where the next begins.

module Pull {
  import opened Arithmetic
  import opened Bytes
  import opened ConsumeQueues
  import opened IndexRecovery
  import opened Log
  import opened LogFiles
  import opened Reput
  import opened Segments

  const MAX_FILTER_BYTES: int := 16000

  datatype Status =
    | Found | NoMatchedMessage | MessageWasRemoving | OffsetFoundNull | OffsetOverflowBadly
    | OffsetOverflowOne | OffsetTooSmall | NoMessageInQueue

  // A piece of the commit log handed out, and the offset it was taken from.
  datatype Selected = Selected(start: int, bytes: seq<byte>)

  // The limits of isTheBatchFull; `memory` is how far behind the end of the log an offset may
  // be to count as cached.
  datatype Limits = Limits(maxMsgNums: int, memory: int, diskBytes: int, diskCount: int, memoryBytes: int, memoryCount: int)

  function IsTheBatchFull(l: Limits, size: int, bufferTotal: int, messageTotal: int, inDisk: bool): bool {
    bufferTotal != 0 && messageTotal != 0 &&
    (|| messageTotal + 1 >= l.maxMsgNums
     || (inDisk && (bufferTotal + size > l.diskBytes || messageTotal + 1 > l.diskCount))
     || (!inDisk && (bufferTotal + size > l.memoryBytes || messageTotal + 1 > l.memoryCount)))
  }

  // CommitLog.getMessage.  Offset 0 falls back to the first file.
  function GetLogMessage(fs: seq<File>, size: int, offset: int, length: int): Option<Selected>
    requires size > 0
  {
    match Lookup(fs, size, offset, offset == 0)
    case None => None
    case Some(i) =>
      var pos := Rem(offset, size);
      if i < |fs| && 0 <= pos <= pos + length <= fs[i].wrote && pos + length <= |fs[i].data| && fs[i].available then
        Some(Selected(fs[i].from + pos, fs[i].data[pos..pos + length]))
      else None
  }

  // ---------------------------------------------------------------- the scan

  // What the loop keeps: the messages so far, their total size, the status, and the start of
  // the physical file up to which entries are skipped.
  datatype Scanned = Scanned(found: seq<Selected>, total: int, status: Status, skip: Option<int>)

  // The pull's view of the world: the log files, the tag filter and the limits.
  datatype View = View(fs: seq<File>, size: int, tags: int64 -> bool, limits: Limits)

  function SkipsUnit(a: Scanned, u: Unit): bool { a.skip.Some? && u.offset < a.skip.value }

  function FullFor(v: View, a: Scanned, u: Unit): bool {
    IsTheBatchFull(v.limits, u.size, a.total, |a.found|, MaxOffset(v.fs) - u.offset > v.limits.memory)
  }

  // One entry that is neither skipped nor stops the scan.
  function TakeUnit(v: View, a: Scanned, u: Unit): Scanned
    requires v.size > 0
  {
    if v.tags(u.tags) then
      match GetLogMessage(v.fs, v.size, u.offset, u.size)
      case Some(m) => Scanned(a.found + [m], a.total + |m.bytes|, Found, None)
      case None =>
        a.(status := if a.total == 0 then MessageWasRemoving else a.status, skip := Some(RollNextFile(u.offset, v.size)))
    else a.(status := if a.total == 0 then NoMatchedMessage else a.status)
  }

  datatype Stopped = Stopped(a: Scanned, i: nat)

  // The loop over the index bytes s, standing at byte i.
  function ScanIndex(v: View, s: seq<byte>, i: nat, a: Scanned): (r: Stopped)
    requires v.size > 0
    decreases |s| - i
  {
    if i >= |s| || i >= MAX_FILTER_BYTES then Stopped(a, i)
    else
      var u := Seen(s, i);
      if SkipsUnit(a, u) then ScanIndex(v, s, i + UNIT_SIZE, a)
      else if FullFor(v, a, u) then Stopped(a, i)
      else ScanIndex(v, s, i + UNIT_SIZE, TakeUnit(v, a, u))
  }

  // ---------------------------------------------------------------- the log behind the index

  // The unit's file is still there and readable.
  predicate Stored(v: View, u: Unit)
    requires v.size > 0
  {
    match Lookup(v.fs, v.size, u.offset, false) case None => false case Some(i) => i < |v.fs| && v.fs[i].available
  }

  // A unit points at bytes of one file, all of them written.
  ghost predicate Points(v: View, u: Unit) {
    && Chain(v.fs, v.size) && v.fs != [] && u.offset >= 0 && u.size > 0
    && u.offset + u.size <= MaxOffset(v.fs) && InFile(u.offset, v.size) + u.size <= v.size
  }

  // The bytes of the log the unit points at.
  ghost function Slice(v: View, u: Unit): Selected
    requires v.fs != []
  {
    var p := u.offset - v.fs[0].from;
    Selected(u.offset, if 0 <= p <= p + u.size <= |Flat(v.fs)| then Flat(v.fs)[p..p + u.size] else [])
  }

  // The first file has expired, and the unit points at its beginning.
  ghost predicate LostZero(v: View, u: Unit)
    requires v.fs != []
  {
    u.offset == 0 && v.fs[0].from > 0
  }

  // getMessage returns the unit's own bytes if its file is stored and nothing otherwise,
  // except for a unit at offset 0 of an expired first file.
  lemma {:induction false} GetsOwnBytes(v: View, u: Unit)
    requires Points(v, u) && !LostZero(v, u)
    ensures GetLogMessage(v.fs, v.size, u.offset, u.size) == if Stored(v, u) then Some(Slice(v, u)) else None
  {
    hide Flat, Rem, InFile;
    var n := |v.fs| - 1;
    assert Sound(v.fs[0], v.size) && Sound(v.fs[n], v.size);
    if u.offset >= v.fs[0].from {
      var i := Cover(v.fs, v.size, u.offset);
      Inside(v, u, i);
    } else {
      LookupMisses(v.fs, v.size, u.offset);
    }
  }

  lemma {:induction false} Inside(v: View, u: Unit, i: nat)
    requires Points(v, u) && i < |v.fs| && v.fs[i].from <= u.offset < v.fs[i].from + v.size
    ensures var pos := u.offset - v.fs[i].from;
            && pos + u.size <= v.fs[i].wrote && |v.fs[i].data| == v.size
            && Slice(v, u) == Selected(u.offset, v.fs[i].data[pos..pos + u.size])
  {
    hide Flat, Written;
    InsideFile(v, u, i);
    FlatSlice(v.fs, v.size, i);
    hide Chain, Points;
    var f := v.fs[i];
    var flat, p, q := Flat(v.fs), f.from - v.fs[0].from, u.offset - f.from;
    SliceOfSlice(flat, p, p + f.wrote, q, q + u.size);
    SliceOfSlice(f.data, 0, f.wrote, q, q + u.size);
    assert f.data[0..f.wrote] == f.data[..f.wrote];
  }

  lemma {:induction false} InsideFile(v: View, u: Unit, i: nat)
    requires Points(v, u) && i < |v.fs| && v.fs[i].from <= u.offset < v.fs[i].from + v.size
    ensures u.offset - v.fs[i].from + u.size <= v.fs[i].wrote <= |v.fs[i].data| == v.size
    ensures Written(v.fs[i]) == v.fs[i].data[..v.fs[i].wrote]
  {
    hide Flat, InFile;
    var f := v.fs[i];
    FileEnd(v.fs, v.size, i);
    InFileAdd(f.from, u.offset - f.from, v.size);
    if i < |v.fs| - 1 { assert Link(v.fs, i + 1, v.size); }
  }

  // In the excluded case the pull hands out the first file's first bytes as if they were the
  // message, exactly when that file is readable and long enough.
  lemma {:induction false} LostZeroGetsOther(v: View, u: Unit)
    requires Points(v, u) && LostZero(v, u)
    ensures !Stored(v, u)
    ensures GetLogMessage(v.fs, v.size, 0, u.size)
         == if u.size <= v.fs[0].wrote && v.fs[0].available then Some(Selected(v.fs[0].from, v.fs[0].data[..u.size])) else None
  {
    hide Flat;
    assert Sound(v.fs[0], v.size);
    LookupMisses(v.fs, v.size, 0);
    assert Rem(0, v.size) == 0;
  }

  // ---------------------------------------------------------------- what the scan returns

  // The messages of units a to b that match the filter and are still stored, in order.
  ghost function Got(v: View, us: seq<Unit>, a: nat, b: nat): seq<Selected>
    requires v.size > 0 && v.fs != [] && b <= |us|
    decreases b
  {
    if b <= a then []
    else
      Got(v, us, a, b - 1) + (if v.tags(us[b - 1].tags) && Stored(v, us[b - 1]) then [Slice(v, us[b - 1])] else [])
  }

  // The pull looks the unit up and takes the first file's bytes for it.
  ghost predicate Misled(v: View, u: Unit)
    requires v.fs != []
  {
    v.tags(u.tags) && LostZero(v, u) && 0 <= u.size <= v.fs[0].wrote && u.size <= |v.fs[0].data| && v.fs[0].available
  }

  // What the pull makes of one unit.
  ghost function Given(v: View, u: Unit): seq<Selected>
    requires v.size > 0 && v.fs != []
  {
    if Misled(v, u) then [Selected(v.fs[0].from, v.fs[0].data[..u.size])]
    else if v.tags(u.tags) && Stored(v, u) then [Slice(v, u)]
    else []
  }

  ghost function AllGiven(v: View, us: seq<Unit>, a: nat, b: nat): seq<Selected>
    requires v.size > 0 && v.fs != [] && b <= |us|
    decreases b
  {
    if b <= a then [] else AllGiven(v, us, a, b - 1) + Given(v, us[b - 1])
  }

  lemma {:induction false} GetsGiven(v: View, u: Unit)
    requires Points(v, u) && v.tags(u.tags)
    ensures match GetLogMessage(v.fs, v.size, u.offset, u.size)
            case Some(m) => Given(v, u) == [m]
            case None => Given(v, u) == [] && !Stored(v, u)
  {
    hide Stored, GetLogMessage, Slice;
    if LostZero(v, u) {
      assert Sound(v.fs[0], v.size);
      LostZeroGetsOther(v, u);
    } else {
      GetsOwnBytes(v, u);
    }
  }

  // The units from a on point into the log in rising order.
  ghost predicate Pulls(v: View, us: seq<Unit>, a: nat) {
    && Chain(v.fs, v.size) && v.fs != [] && a <= |us| && Rising(us)
    && forall k :: a <= k < |us| ==> Points(v, us[k])
  }

  // Only the first unit can be misled, and then there is one message too many.
  lemma {:induction false} GivenExact(v: View, us: seq<Unit>, a: nat, b: nat)
    requires Pulls(v, us, a) && a <= b <= |us|
    ensures if a < b && Misled(v, us[a]) then
              AllGiven(v, us, a, b) == Given(v, us[a]) + Got(v, us, a, b) && |Given(v, us[a])| == 1
            else AllGiven(v, us, a, b) == Got(v, us, a, b)
    decreases b
  {
    hide Stored, Slice, Chain, Misled, Given, Pulls;
    if a < b {
      GivenExact(v, us, a, b - 1);
      GivenOne(v, us, a, b - 1);
    }
  }

  lemma {:induction false} GivenOne(v: View, us: seq<Unit>, a: nat, k: nat)
    requires Pulls(v, us, a) && a <= k < |us|
    ensures if k == a && Misled(v, us[k]) then |Given(v, us[k])| == 1 && !Stored(v, us[k])
            else Given(v, us[k]) == if v.tags(us[k].tags) && Stored(v, us[k]) then [Slice(v, us[k])] else []
  {
    hide Stored, Slice, Chain;
    assert Points(v, us[a]) && Points(v, us[k]);
    hide Points;
    if a < k {
      assert us[a].offset < us[k].offset;
      assert !LostZero(v, us[k]);
    } else if Misled(v, us[k]) {
      LostIsNotStored(v, us[k]);
    }
  }

  lemma {:induction false} LostIsNotStored(v: View, u: Unit)
    requires Points(v, u) && LostZero(v, u)
    ensures !Stored(v, u)
  {
    hide Stored, GetLogMessage;
    LostZeroGetsOther(v, u);
  }

  // After the units a to k: the messages given, bookkeeping that agrees with them, and a skip
  // mark only if unit j, already passed, has lost its file.
  ghost predicate Scanning(v: View, us: seq<Unit>, a: nat, k: nat, r: Scanned, j: nat)
    requires Pulls(v, us, a)
  {
    && a <= k <= |us| && r.found == AllGiven(v, us, a, k) && r.total >= 0
    && (r.total == 0 <==> r.found == []) && (r.status == Found <==> r.found != [])
    && (r.skip.Some? ==> a <= j < k && !Stored(v, us[j]) && r.skip.value == RollNextFile(us[j].offset, v.size))
  }

  // Entries between a lost message and the end of its file are lost with it.
  lemma {:induction false} SameFileLost(v: View, x: Unit, y: Unit)
    requires v.size > 0 && 0 <= x.offset < y.offset < RollNextFile(x.offset, v.size)
    ensures Stored(v, x) == Stored(v, y)
  {
    DivBounds(x.offset, v.size);
    DivUnique(y.offset, x.offset / v.size, v.size);
  }

  lemma {:induction false} SkipStep(v: View, us: seq<Unit>, a: nat, k: nat, r: Scanned, j: nat)
    requires Pulls(v, us, a) && Scanning(v, us, a, k, r, j) && k < |us| && SkipsUnit(r, us[k])
    ensures Scanning(v, us, a, k + 1, r, j)
  {
    hide RollNextFile, Stored, Slice;
    assert Points(v, us[j]) && us[j].offset < us[k].offset;
    SameFileLost(v, us[j], us[k]);
    assert Given(v, us[k]) == [];
  }

  lemma {:induction false} TakeStep(v: View, us: seq<Unit>, a: nat, k: nat, r: Scanned, j: nat)
    requires Pulls(v, us, a) && Scanning(v, us, a, k, r, j) && k < |us|
    ensures Scanning(v, us, a, k + 1, TakeUnit(v, r, us[k]), k) || Scanning(v, us, a, k + 1, TakeUnit(v, r, us[k]), j)
  {
    hide RollNextFile, Stored, GetLogMessage, Chain, Given;
    assert Points(v, us[k]);
    BytesGot(v, us[k]);
    if v.tags(us[k].tags) { GetsGiven(v, us[k]); } else { NoneGiven(v, us[k]); }
    hide Slice, Points;
  }

  lemma {:induction false} NoneGiven(v: View, u: Unit)
    requires v.size > 0 && v.fs != [] && !v.tags(u.tags)
    ensures Given(v, u) == []
  {
  }

  lemma {:induction false} BytesGot(v: View, u: Unit)
    requires v.size > 0
    ensures var r := GetLogMessage(v.fs, v.size, u.offset, u.size); r.Some? ==> |r.value.bytes| == u.size
  {
    hide Lookup, Rem;
  }

  // The scan from unit k on returns exactly what the units it passes give, and passes at
  // least one unit if it has found nothing yet.
  lemma {:induction false} ScanExact(v: View, us: seq<Unit>, a: nat, b: nat, k: nat, s: seq<byte>, r: Scanned, j: nat) returns (m: nat)
    requires Pulls(v, us, a) && Scanning(v, us, a, k, r, j)
    requires Shows(s, us, a, b) && |s| == UNIT_SIZE * (b - a) && a <= k <= b
    ensures var t := ScanIndex(v, s, UNIT_SIZE * (k - a), r);
            && k <= m <= b && t.i == UNIT_SIZE * (m - a) && t.a.found == AllGiven(v, us, a, m)
            && (t.a.status == Found <==> t.a.found != [])
            && (k < b && UNIT_SIZE * (k - a) < MAX_FILTER_BYTES && r.found == [] ==> m > k)
    decreases b - k
  {
    hide Pulls, Scanning, Seen, AllGiven, TakeUnit, FullFor;
    m := k;
    var i := UNIT_SIZE * (k - a);
    ScanningSays(v, us, a, k, r, j);
    if k < b && i < MAX_FILTER_BYTES {
      var u := us[k];
      assert Seen(s, i) == u;
      if SkipsUnit(r, u) {
        SkipStep(v, us, a, k, r, j);
        m := ScanExact(v, us, a, b, k + 1, s, r, j);
      } else if !FullFor(v, r, u) {
        TakeStep(v, us, a, k, r, j);
        var j' := if Scanning(v, us, a, k + 1, TakeUnit(v, r, u), k) then k else j;
        m := ScanExact(v, us, a, b, k + 1, s, TakeUnit(v, r, u), j');
      } else {
        NeverFullFirst(v, r, u);
      }
    }
  }

  lemma {:induction false} NeverFullFirst(v: View, r: Scanned, u: Unit)
    requires FullFor(v, r, u)
    ensures r.found != []
  {
  }

  lemma {:induction false} ScanningSays(v: View, us: seq<Unit>, a: nat, k: nat, r: Scanned, j: nat)
    requires Pulls(v, us, a) && Scanning(v, us, a, k, r, j)
    ensures v.size > 0 && v.fs != [] && k <= |us| && r.found == AllGiven(v, us, a, k) && (r.status == Found <==> r.found != [])
  {
  }

  // ---------------------------------------------------------------- GetMessage

  // ConsumeQueue.getIndexBuffer
  function GetIndexBuffer(x: Index, size: int, start: int): Option<seq<byte>>
    requires size > 0
  {
    var offset := start * UNIT_SIZE;
    if offset < x.minLogic then None
    else
      match Lookup(x.fs, size, offset, false)
      case None => None
      case Some(i) =>
        var pos := Rem(offset, size);
        if i < |x.fs| && 0 <= pos < x.fs[i].wrote && pos <= |Window(x.fs[i])| && x.fs[i].available then
          Some(Window(x.fs[i])[pos..])
        else None
  }

  // ConsumeQueue.rollNextFile
  function RollIndex(index: int, size: int): int
    requires size >= UNIT_SIZE
  {
    var units := size / UNIT_SIZE;
    index + units - Rem(index, units)
  }

  datatype Pulled = Pulled(status: Status, found: seq<Selected>, next: int)

  function GetMessage(v: View, x: Index, size: int, offset: int): Pulled
    requires v.size > 0 && size >= UNIT_SIZE
  {
    var minOffset, maxOffset := Quo(x.minLogic, UNIT_SIZE), Quo(MaxOffset(x.fs), UNIT_SIZE);
    if maxOffset == 0 then Pulled(NoMessageInQueue, [], 0)
    else if offset < minOffset then Pulled(OffsetTooSmall, [], minOffset)
    else if offset == maxOffset then Pulled(OffsetOverflowOne, [], offset)
    else if offset > maxOffset then Pulled(OffsetOverflowBadly, [], if minOffset == 0 then minOffset else maxOffset)
    else
      match GetIndexBuffer(x, size, offset)
      case None => Pulled(OffsetFoundNull, [], RollIndex(offset, size))
      case Some(s) =>
        var t := ScanIndex(v, s, 0, Scanned([], 0, NoMatchedMessage, None));
        Pulled(t.a.status, t.a.found, offset + t.i / UNIT_SIZE)
  }

  lemma {:induction false} ShowsTail(s: seq<byte>, us: seq<Unit>, a: nat, k: nat, b: nat)
    requires Shows(s, us, a, b) && a <= k <= b && |s| == UNIT_SIZE * (b - a)
    ensures Shows(s[UNIT_SIZE * (k - a)..], us, k, b)
  {
    hide ReadUnit;
    var p := UNIT_SIZE * (k - a);
    forall i | k <= i < b ensures Seen(s[p..], UNIT_SIZE * (i - k)) == us[i] {
      assert s[p..][UNIT_SIZE * (i - k)..UNIT_SIZE * (i - k) + UNIT_SIZE] == s[UNIT_SIZE * (i - a)..UNIT_SIZE * (i - a) + UNIT_SIZE];
      assert Seen(s, UNIT_SIZE * (i - a)) == us[i];
    }
  }

  // An index whose minimum is a unit of it.  Its oldest files may have been shut down, when
  // their deletion failed, but not the last.
  ghost predicate Serves(x: Index, size: int, us: seq<Unit>) {
    Represents(x, size, us) && x.fs != [] && 0 <= x.minLogic && Whole(x.minLogic) && Opens(x.fs)
  }

  // No file behind a readable one is shut, and the last one is readable.
  ghost predicate Opens(fs: seq<File>) {
    && (forall i, j :: 0 <= i < j < |fs| && fs[i].available ==> fs[j].available)
    && (fs != [] ==> fs[|fs| - 1].available)
  }

  // How many of the oldest files are shut.
  function Shuts(fs: seq<File>): (o: nat)
    ensures o <= |fs| && (forall i :: 0 <= i < o ==> !fs[i].available) && (o < |fs| ==> fs[o].available)
  {
    if fs == [] || fs[0].available then 0 else 1 + Shuts(fs[1..])
  }

  // The offset from which on the index can be read.
  function OpenFrom(x: Index): int {
    var o := Shuts(x.fs); if o < |x.fs| then x.fs[o].from else 0
  }

  lemma {:induction false} OpenFile(x: Index, size: int, us: seq<Unit>) returns (o: nat)
    requires Serves(x, size, us)
    ensures o < |x.fs| && OpenFrom(x) == x.fs[o].from && size > 0 && Whole(size)
    ensures forall i :: 0 <= i < |x.fs| ==> (x.fs[i].available <==> o <= i)
    ensures Whole(OpenFrom(x)) && Aligned(OpenFrom(x), size)
    ensures 0 <= x.fs[0].from <= OpenFrom(x) <= MaxOffset(x.fs) == UNIT_SIZE * |us|
  {
    hide Flat, UnitsBytes;
    o := Shuts(x.fs);
    UnitCountOf(x, size, us);
    assert Sound(x.fs[0], size) && Sound(x.fs[o], size) && Sound(x.fs[|x.fs| - 1], size);
    FileAligned(x.fs[o].from, size);
    if 0 < o { ChainOrder(x.fs, size, 0, o); }
    if o < |x.fs| - 1 { ChainOrder(x.fs, size, o, |x.fs| - 1); }
  }

  // An offset lies in a readable file exactly if it is not below that point.
  lemma {:induction false} OpenAt(x: Index, size: int, us: seq<Unit>, offset: int, i: nat)
    requires Serves(x, size, us) && i < |x.fs| && x.fs[i].from <= offset < x.fs[i].from + size
    ensures x.fs[i].available <==> OpenFrom(x) <= offset
  {
    hide Flat, UnitsBytes;
    var o := OpenFile(x, size, us);
    if i < o { ChainOrder(x.fs, size, i, o); }
    if o < i { ChainOrder(x.fs, size, o, i); }
  }

  // The index buffer of a unit whose file is there shows the units from it to the file's end.
  lemma {:induction false} BufferShows(x: Index, size: int, us: seq<Unit>, k: nat) returns (b: nat)
    requires Serves(x, size, us) && OpenFrom(x) <= UNIT_SIZE * k < MaxOffset(x.fs) && x.minLogic <= UNIT_SIZE * k
    ensures k < b <= |us| && size > 0 && (b == |us| || UNIT_SIZE * b % size == 0)
    ensures var r := GetIndexBuffer(x, size, k); r.Some? && Shows(r.value, us, k, b) && |r.value| == UNIT_SIZE * (b - k)
  {
    hide Flat, UnitsBytes, Rem, Seen, Aligned, OpenFrom, Opens;
    BeginsOf(x, size, us);
    assert Sound(x.fs[|x.fs| - 1], size);
    var o := OpenFile(x, size, us);
    var i := Cover(x.fs, size, UNIT_SIZE * k);
    OpenAt(x, size, us, UNIT_SIZE * k, i);
    b := UnitsInFile(x.fs, size, us, i);
    EndOfUnits(x.fs, size, us, i, b);
    var f := x.fs[i];
    WindowOf(f, size);
    FileShows(x.fs, size, us, i, b);
    hide Chain, Begins, Represents;
    var a := f.from / UNIT_SIZE;
    ShowsTail(Window(f), us, a, k, b);
  }

  lemma {:induction false} EndOfUnits(fs: seq<File>, size: int, us: seq<Unit>, i: nat, b: nat)
    requires Chain(fs, size) && i < |fs| && MaxOffset(fs) == UNIT_SIZE * |us| && fs[i].from + fs[i].wrote == UNIT_SIZE * b
    requires i < |fs| - 1 ==> fs[i].wrote == size
    ensures size > 0 && (b == |us| || UNIT_SIZE * b % size == 0)
  {
    assert Sound(fs[i], size);
    DivBounds(fs[i].from, size);
    if i < |fs| - 1 { DivUnique(fs[i].from + size, fs[i].from / size + 1, size); }
  }

  lemma {:induction false} UnitsInFile(fs: seq<File>, size: int, us: seq<Unit>, i: nat) returns (b: nat)
    requires Begins(fs, size, us) && MaxOffset(fs) == UNIT_SIZE * |us| && i < |fs|
    ensures b <= |us| && fs[i].from + fs[i].wrote == UNIT_SIZE * b && Sound(fs[i], size)
    ensures i < |fs| - 1 ==> fs[i].wrote == size
  {
    hide Flat, UnitsBytes;
    FileEnd(fs, size, i);
    FileAligned(fs[i].from, size);
    if i < |fs| - 1 { assert Link(fs, i + 1, size); }
    SumWhole(fs[i].from, size, |us|);
    b := (fs[i].from + fs[i].wrote) / UNIT_SIZE;
  }

  // A pull between minimum and maximum offset whose index file is there returns what the
  // units between the offset and the next begin give, and the next begin is further on.
  lemma {:induction false} PullGives(v: View, x: Index, size: int, us: seq<Unit>, k: nat)
    requires Serves(x, size, us) && size >= UNIT_SIZE && k < |us| && Pulls(v, us, k)
    requires x.minLogic <= UNIT_SIZE * k && OpenFrom(x) <= UNIT_SIZE * k
    ensures var r := GetMessage(v, x, size, k);
            && k < r.next <= |us| && r.found == AllGiven(v, us, k, r.next) && (r.status == Found <==> r.found != [])
            && r.status in {Found, NoMatchedMessage, MessageWasRemoving}
  {
    hide Flat, UnitsBytes, Rem, Seen, Aligned, GetIndexBuffer, ScanIndex, AllGiven;
    UnitCountOf(x, size, us);
    var b := BufferShows(x, size, us, k);
    var s := GetIndexBuffer(x, size, k).value;
    var start := Scanned([], 0, NoMatchedMessage, None);
    StartScanning(v, us, k, start);
    var m := ScanExact(v, us, k, b, k, s, start, k);
    ScanStatus(v, s, 0, start);
    hide Chain, Serves, Pulls;
  }

  // It returns, in order, exactly the matching messages still stored between the offset and
  // the next begin, unless its first unit points at offset 0, matches, has lost its file, and
  // the first file left is readable and long enough.
  lemma {:induction false} PullExact(v: View, x: Index, size: int, us: seq<Unit>, k: nat)
    requires Serves(x, size, us) && size >= UNIT_SIZE && k < |us| && Pulls(v, us, k)
    requires x.minLogic <= UNIT_SIZE * k && OpenFrom(x) <= UNIT_SIZE * k
    ensures var r := GetMessage(v, x, size, k);
            && k < r.next <= |us| && (r.found == Got(v, us, k, r.next) <==> !Misled(v, us[k]))
            && (r.status == Found <==> r.found != []) && r.status in {Found, NoMatchedMessage, MessageWasRemoving}
  {
    hide GetMessage, Got, AllGiven, Serves, Misled, Given;
    PullGives(v, x, size, us, k);
    GivenExact(v, us, k, GetMessage(v, x, size, k).next);
  }

  lemma {:induction false} StartScanning(v: View, us: seq<Unit>, k: nat, start: Scanned)
    requires Pulls(v, us, k) && start == Scanned([], 0, NoMatchedMessage, None)
    ensures Scanning(v, us, k, k, start, k)
  {
  }

  lemma {:induction false} UnitCountOf(x: Index, size: int, us: seq<Unit>)
    requires Represents(x, size, us) && x.fs != []
    ensures MaxOffset(x.fs) == UNIT_SIZE * |us|
  {
    BeginsOf(x, size, us);
  }

  lemma {:induction false} ScanStatus(v: View, s: seq<byte>, i: nat, a: Scanned)
    requires v.size > 0 && a.status in {Found, NoMatchedMessage, MessageWasRemoving}
    ensures ScanIndex(v, s, i, a).a.status in {Found, NoMatchedMessage, MessageWasRemoving}
    decreases |s| - i
  {
    hide Seen, GetLogMessage, RollNextFile, FullFor;
    if i < |s| && i < MAX_FILTER_BYTES {
      var u := Seen(s, i);
      if SkipsUnit(a, u) { ScanStatus(v, s, i + UNIT_SIZE, a); }
      else if !FullFor(v, a, u) { ScanStatus(v, s, i + UNIT_SIZE, TakeUnit(v, a, u)); }
    }
  }

  // A pull whose index file has expired or has been shut moves to the next index file: it never
  // jumps past an index entry that can be read.
  lemma {:induction false} PullExpiredIndex(v: View, x: Index, size: int, us: seq<Unit>, k: nat)
    requires Serves(x, size, us) && v.size > 0 && UNIT_SIZE * k < OpenFrom(x) && x.minLogic <= UNIT_SIZE * k && k < |us|
    ensures var r := GetMessage(v, x, size, k);
            r.status == OffsetFoundNull && r.found == [] && k < r.next && UNIT_SIZE * r.next <= OpenFrom(x)
  {
    hide RollIndex, Serves, Aligned;
    var o := OpenFile(x, size, us);
    NoBuffer(x, size, us, k);
    hide OpenFrom, GetIndexBuffer;
    RollBelow(k, size, OpenFrom(x));
  }

  lemma {:induction false} NoBuffer(x: Index, size: int, us: seq<Unit>, k: nat)
    requires Serves(x, size, us) && UNIT_SIZE * k < OpenFrom(x) && x.minLogic <= UNIT_SIZE * k
    ensures size > 0 && GetIndexBuffer(x, size, k) == None && Quo(x.minLogic, UNIT_SIZE) <= k
  {
    hide Flat, UnitsBytes, OpenFrom, Rem, Aligned;
    var o := OpenFile(x, size, us);
    assert Sound(x.fs[|x.fs| - 1], size);
    if UNIT_SIZE * k < x.fs[0].from {
      LookupMisses(x.fs, size, UNIT_SIZE * k);
    } else {
      ChainEnd(x.fs, size);
      var i := Cover(x.fs, size, UNIT_SIZE * k);
      OpenAt(x, size, us, UNIT_SIZE * k, i);
    }
  }

  lemma {:induction false} ChainEnd(fs: seq<File>, size: int)
    requires Chain(fs, size) && fs != []
    ensures MaxOffset(fs) <= fs[|fs| - 1].from + size
  {
    assert Sound(fs[|fs| - 1], size);
  }

  lemma {:induction false} RollBelow(k: nat, size: int, from: int)
    requires size > 0 && Whole(size) && from >= 0 && Aligned(from, size) && UNIT_SIZE * k < from
    ensures size >= UNIT_SIZE && k < RollIndex(k, size) && UNIT_SIZE * RollIndex(k, size) <= from
  {
    var u, c := size / UNIT_SIZE, from / size;
    DivBounds(from, size);
    DivBounds(k, u);
    assert from == c * (UNIT_SIZE * u) == UNIT_SIZE * (c * u);
    var q := k / u;
    assert RollIndex(k, size) == q * u + u;
    MulOrder(c, q, u);
    MulOrder(q + 1, c, u);
    assert (q + 1) * u == q * u + u;
  }

  // The first unit from number k on that can be read in the index.
  function FirstThere(x: Index, k: nat): nat { Max(k, OpenFrom(x) / UNIT_SIZE) }

  // A pull that finds its index file gone, or not, moves on and never past a unit still there.
  lemma {:induction false} PullMoves(v: View, x: Index, size: int, us: seq<Unit>, k: nat)
    requires Serves(x, size, us) && size >= UNIT_SIZE && k < |us| && Pulls(v, us, k) && x.minLogic <= UNIT_SIZE * k
    ensures Whole(OpenFrom(x)) && 0 <= OpenFrom(x) <= UNIT_SIZE * |us|
    ensures var r := GetMessage(v, x, size, k);
            && k < r.next <= |us|
            && (UNIT_SIZE * k < OpenFrom(x) ==> r.found == [] && UNIT_SIZE * r.next <= OpenFrom(x))
  {
    hide GetMessage, Serves, OpenFrom;
    var o := OpenFile(x, size, us);
    assert v.size > 0 by { PullsSize(v, us, k); }
    hide Pulls;
    if UNIT_SIZE * k < OpenFrom(x) { PullExpiredIndex(v, x, size, us, k); } else { PullGives(v, x, size, us, k); }
  }

  lemma {:induction false} PullsSize(v: View, us: seq<Unit>, k: nat)
    requires Pulls(v, us, k)
    ensures v.size > 0
  {
  }

  // Pulling on from every next begin, one call after the other.
  ghost function PullAll(v: View, x: Index, size: int, us: seq<Unit>, k: nat): seq<Selected>
    requires Serves(x, size, us) && size >= UNIT_SIZE && k <= |us| && Pulls(v, us, k) && x.minLogic <= UNIT_SIZE * k
    decreases |us| - k
  {
    if k == |us| then []
    else
      PullMoves(v, x, size, us, k);
      PullsLater(v, us, k, GetMessage(v, x, size, k).next);
      GetMessage(v, x, size, k).found + PullAll(v, x, size, us, GetMessage(v, x, size, k).next)
  }

  // Calls into index files that have expired or been shut give nothing: together they are the
  // calls from the first unit that can be read on.
  lemma {:induction false} PullAllSkips(v: View, x: Index, size: int, us: seq<Unit>, k: nat)
    requires Serves(x, size, us) && size >= UNIT_SIZE && k <= |us| && Pulls(v, us, k) && x.minLogic <= UNIT_SIZE * k
    ensures var m := FirstThere(x, k);
            && k <= m <= |us| && OpenFrom(x) <= UNIT_SIZE * m && Pulls(v, us, m)
            && PullAll(v, x, size, us, k) == PullAll(v, x, size, us, m)
    decreases |us| - k
  {
    hide GetMessage;
    FirstBound(x, size, us);
    hide Serves, Pulls, OpenFrom;
    if UNIT_SIZE * k < OpenFrom(x) {
      PullMoves(v, x, size, us, k);
      var next := GetMessage(v, x, size, k).next;
      PullsLater(v, us, k, next);
      PullAllSkips(v, x, size, us, next);
    }
  }

  lemma {:induction false} FirstBound(x: Index, size: int, us: seq<Unit>)
    requires Serves(x, size, us)
    ensures x.fs != [] && Whole(OpenFrom(x)) && 0 <= OpenFrom(x) <= UNIT_SIZE * |us|
  {
    var o := OpenFile(x, size, us);
    hide Represents, OpenFrom, Opens;
  }

  lemma {:induction false} PullsLater(v: View, us: seq<Unit>, k: nat, m: nat)
    requires Pulls(v, us, k) && k <= m <= |us|
    ensures Pulls(v, us, m)
  {
  }

  lemma {:induction false} GivenJoin(v: View, us: seq<Unit>, a: nat, b: nat, c: nat)
    requires v.size > 0 && v.fs != [] && a <= b <= c <= |us|
    ensures AllGiven(v, us, a, b) + AllGiven(v, us, b, c) == AllGiven(v, us, a, c)
    decreases c
  {
    hide Given;
    if b < c {
      GivenJoin(v, us, a, b, c - 1);
      var last := Given(v, us[c - 1]);
      assert AllGiven(v, us, a, b) + (AllGiven(v, us, b, c - 1) + last) == AllGiven(v, us, a, b) + AllGiven(v, us, b, c - 1) + last;
    }
  }

  lemma {:induction false} PullAllGives(v: View, x: Index, size: int, us: seq<Unit>, k: nat)
    requires Serves(x, size, us) && size >= UNIT_SIZE && k <= |us| && Pulls(v, us, k)
    requires x.minLogic <= UNIT_SIZE * k && OpenFrom(x) <= UNIT_SIZE * k
    ensures v.size > 0 && v.fs != [] && PullAll(v, x, size, us, k) == AllGiven(v, us, k, |us|)
    decreases |us| - k
  {
    hide GetMessage, AllGiven, Serves;
    if k == |us| {
      NothingGiven(v, us, k);
    } else {
      PullGives(v, x, size, us, k);
      PullMoves(v, x, size, us, k);
      var m := GetMessage(v, x, size, k).next;
      PullsLater(v, us, k, m);
      PullAllGives(v, x, size, us, m);
      GivenJoin(v, us, k, m, |us|);
    }
  }

  lemma {:induction false} NothingGiven(v: View, us: seq<Unit>, k: nat)
    requires v.size > 0 && v.fs != [] && k <= |us|
    ensures AllGiven(v, us, k, k) == []
  {
  }

  // Together the calls deliver every matching stored message from the first offset, or from the
  // first unit that can be read, to the end of the queue exactly once and in order, with the one
  // exception above; then they deliver one message more, which is none of the queue's.
  lemma {:induction false} PullAllExact(v: View, x: Index, size: int, us: seq<Unit>, k: nat)
    requires Serves(x, size, us) && size >= UNIT_SIZE && k <= |us| && Pulls(v, us, k) && x.minLogic <= UNIT_SIZE * k
    ensures v.size > 0 && v.fs != [] && k <= FirstThere(x, k) <= |us|
    ensures var m := FirstThere(x, k);
            && PullAll(v, x, size, us, k) == (if m < |us| && Misled(v, us[m]) then Given(v, us[m]) else []) + Got(v, us, m, |us|)
            && (PullAll(v, x, size, us, k) == Got(v, us, m, |us|) <==> !(m < |us| && Misled(v, us[m])))
  {
    hide Got, AllGiven, Serves, Misled, Given, PullAll, FirstThere, OpenFrom;
    FirstBound(x, size, us);
    PullAllSkips(v, x, size, us, k);
    var m := FirstThere(x, k);
    PullAllGives(v, x, size, us, m);
    GivenExact(v, us, m, |us|);
    assert [] + Got(v, us, m, |us|) == Got(v, us, m, |us|);
  }

  // The last unit of every file that has been shut points below the log: the file was dead.
  ghost predicate ShutsAreDead(x: Index, size: int, us: seq<Unit>, phyMin: int)
    requires Serves(x, size, us)
  {
    forall j :: 0 <= j < |us| && x.fs[0].from <= UNIT_SIZE * j < OpenFrom(x) ==> us[j].offset < phyMin
  }

  // So nothing that is stored is missed: the first unit that can be read is as good as the first
  // one that is left.
  lemma {:induction false} ShutHidesNothing(v: View, x: Index, size: int, us: seq<Unit>, k: nat)
    requires Serves(x, size, us) && k <= |us| && Pulls(v, us, k) && ShutsAreDead(x, size, us, BaseOf(v.fs))
    ensures var left, m := Max(k, x.fs[0].from / UNIT_SIZE), FirstThere(x, k);
            v.size > 0 && v.fs != [] && left <= m <= |us| && Got(v, us, left, |us|) == Got(v, us, m, |us|)
  {
    hide Got, Serves, OpenFrom, Pulls;
    var o := OpenFile(x, size, us);
    PullsSize(v, us, k);
    assert v.fs != [] by { PullsFiles(v, us, k); }
    var left, m := Max(k, x.fs[0].from / UNIT_SIZE), FirstThere(x, k);
    assert Whole(x.fs[0].from) by { FirstWhole(x, size, us); }
    forall j | left <= j < m ensures !Stored(v, us[j]) {
      assert us[j].offset < BaseOf(v.fs);
      NotStoredBelow(v, us, k, j);
    }
    NoneGot(v, us, left, m, |us|);
  }

  lemma {:induction false} PullsFiles(v: View, us: seq<Unit>, k: nat)
    requires Pulls(v, us, k)
    ensures v.fs != []
  {
  }

  lemma {:induction false} FirstWhole(x: Index, size: int, us: seq<Unit>)
    requires Serves(x, size, us)
    ensures Whole(x.fs[0].from) && x.fs[0].from >= 0
  {
    hide Flat, UnitsBytes;
    assert Sound(x.fs[0], size);
    FileAligned(x.fs[0].from, size);
  }

  lemma {:induction false} NotStoredBelow(v: View, us: seq<Unit>, k: nat, j: nat)
    requires Pulls(v, us, k) && k <= j < |us| && us[j].offset < BaseOf(v.fs)
    ensures v.size > 0 && !Stored(v, us[j])
  {
    hide Quo;
    assert Points(v, us[j]);
    LookupMisses(v.fs, v.size, us[j].offset);
  }

  lemma {:induction false} NoneGot(v: View, us: seq<Unit>, a: nat, m: nat, b: nat)
    requires v.size > 0 && v.fs != [] && a <= m <= b <= |us| && forall j :: a <= j < m ==> !Stored(v, us[j])
    ensures Got(v, us, a, b) == Got(v, us, m, b)
    decreases b
  {
    hide Stored, Slice;
    if m < b {
      NoneGot(v, us, a, m, b - 1);
    } else if a < b {
      NoneGot(v, us, a, m - 1, b - 1);
      assert Got(v, us, a, b) == Got(v, us, a, b - 1) + [];
    }
  }

  // The slice of a unit that points at item j of the log is that item's bytes.
  lemma {:induction false} SliceIsItem(v: View, items: seq<Item>, j: nat, u: Unit)
    requires HoldsItems(v.fs, v.size, items) && v.fs != [] && j < |items|
    requires u.offset == v.fs[0].from + Total(items[..j]) && u.size == Length(items[j])
    ensures Slice(v, u) == Selected(u.offset, ItemBytes(items[j], u.offset))
  {
    hide Flat, Layout, LogBytes, Total, ItemBytes, Chain, Fits;
    ItemAt(items, v.fs[0].from, v.size, j);
  }
}

module Pulling {
  import opened Arithmetic
  import opened Bytes
  import opened ConsumeQueues
  import opened IndexFiles
  import opened IndexRecovery
  import opened MapedFiles
  import opened Pull
  import opened Reput
  import opened Segments

  method GetLogMessageIn(log: MapedFileQueue, offset: int, length: int) returns (r: Option<Selected>)
    requires log.Valid()
    ensures r == GetLogMessage(log.View(), log.size, offset, length)
  {
    hide Rem;
    var i, f := log.FindMapedFileByOffset(offset, offset == 0);
    if f == null {
      return None;
    }
    var pos := Rem(offset, log.size);
    if 0 <= pos <= pos + length <= f.wrote && pos + length <= |f.data| && f.available {
      return Some(Selected(f.from + pos, f.data[pos..pos + length]));
    }
    return None;
  }

  // The loop of GetMessage over the index bytes.
  method ScanIndexIn(log: MapedFileQueue, tags: int64 -> bool, limits: Limits, s: seq<byte>) returns (r: Stopped)
    requires log.Valid()
    ensures r == ScanIndex(View(log.View(), log.size, tags, limits), s, 0, Scanned([], 0, NoMatchedMessage, None))
  {
    hide Seen, GetLogMessage, RollNextFile, IsTheBatchFull;
    ghost var v, fs := View(log.View(), log.size, tags, limits), log.View();
    var maxOffset := 0;
    if log.files != [] {
      maxOffset := log.files[|log.files| - 1].from + log.files[|log.files| - 1].wrote;
    }
    assert maxOffset == MaxOffset(v.fs);
    var found: seq<Selected>, total, status, skip: Option<int> := [], 0, NoMatchedMessage, None;
    var i := 0;
    while i < |s| && i < MAX_FILTER_BYTES
      invariant i >= 0 && log.View() == fs
      invariant ScanIndex(v, s, 0, Scanned([], 0, NoMatchedMessage, None)) == ScanIndex(v, s, i, Scanned(found, total, status, skip))
      decreases |s| - i
    {
      var u := Seen(s, i);
      if !(skip.Some? && u.offset < skip.value) {
        if IsTheBatchFull(limits, u.size, total, |found|, maxOffset - u.offset > limits.memory) {
          break;
        }
        if tags(u.tags) {
          var m := GetLogMessageIn(log, u.offset, u.size);
          if m.Some? {
            found, total, status, skip := found + [m.value], total + |m.value.bytes|, Found, None;
          } else {
            if total == 0 {
              status := MessageWasRemoving;
            }
            skip := Some(RollNextFile(u.offset, log.size));
          }
        } else if total == 0 {
          status := NoMatchedMessage;
        }
      }
      i := i + UNIT_SIZE;
    }
    r := Stopped(Scanned(found, total, status, skip), i);
  }

  method GetIndexBufferIn(x: ConsumeQueue, start: int) returns (r: Option<seq<byte>>)
    requires x.Valid()
    ensures r == GetIndexBuffer(x.View(), x.queue.size, start)
  {
    hide Rem;
    var offset := start * UNIT_SIZE;
    if offset < x.minLogicOffset {
      return None;
    }
    var i, f := x.queue.FindMapedFileByOffset(offset, false);
    if f == null {
      return None;
    }
    var pos := Rem(offset, x.queue.size);
    WindowIs(f);
    if 0 <= pos < f.wrote && pos <= f.writePos && f.available {
      return Some(f.data[..f.writePos][pos..]);
    }
    return None;
  }

  method GetMessageIn(log: MapedFileQueue, x: ConsumeQueue, tags: int64 -> bool, limits: Limits, offset: int) returns (r: Pulled)
    requires log.Valid() && x.Valid() && x.queue.size >= UNIT_SIZE
    ensures r == GetMessage(View(log.View(), log.size, tags, limits), x.View(), x.queue.size, offset)
  {
    hide Rem, Quo, GetIndexBuffer, ScanIndex;
    var max := 0;
    if x.queue.files != [] {
      max := x.queue.files[|x.queue.files| - 1].from + x.queue.files[|x.queue.files| - 1].wrote;
    }
    var minOffset, maxOffset := Quo(x.minLogicOffset, UNIT_SIZE), Quo(max, UNIT_SIZE);
    if maxOffset == 0 {
      return Pulled(NoMessageInQueue, [], 0);
    } else if offset < minOffset {
      return Pulled(OffsetTooSmall, [], minOffset);
    } else if offset == maxOffset {
      return Pulled(OffsetOverflowOne, [], offset);
    } else if offset > maxOffset {
      return Pulled(OffsetOverflowBadly, [], if minOffset == 0 then minOffset else maxOffset);
    }
    var s := GetIndexBufferIn(x, offset);
    if s.None? {
      return Pulled(OffsetFoundNull, [], RollIndex(offset, x.queue.size));
    }
    var t := ScanIndexIn(log, tags, limits, s.value);
    r := Pulled(t.a.status, t.a.found, offset + t.i / UNIT_SIZE);
  }
}
