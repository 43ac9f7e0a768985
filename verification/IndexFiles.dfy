// The consume queue over mapped files, updated in place.

module IndexFiles {
  import opened Arithmetic
  import opened Bytes
  import opened ConsumeQueues
  import opened IndexRecovery
  import opened MapedFiles
  import opened Segments

  class ConsumeQueue {
    const queue: MapedFileQueue
    var maxPhysicOffset: int
    var minLogicOffset: int

    ghost predicate Valid()
      reads this, queue, queue.files
    {
      && queue.Valid() && Whole(queue.size)
      && forall i :: 0 <= i < |queue.files| ==> queue.files[i].from >= 0 && queue.files[i].writePos <= queue.size
    }

    ghost function View(): Index
      reads this, queue, queue.files
    {
      Index(queue.View(), maxPhysicOffset, minLogicOffset)
    }

    constructor (size: int)
      requires size > 0 && Whole(size)
      ensures Valid() && View() == EMPTY_INDEX && queue.size == size
    {
      queue := new MapedFileQueue(size);
      maxPhysicOffset, minLogicOffset := -1, 0;
      new;
      assert queue.View() == [];
    }

    method FillPreBlank(f: MapedFile, untilWhere: int)
      requires f.Valid() && f.writePos <= f.size
      modifies f`wrote, f`data, f`writePos
      ensures f.Valid() && f.writePos <= f.size
      ensures f.View() == Blanks(old(f.View()), f.size, Rounds(Rem(untilWhere, f.size)))
    {
      hide Rem, Overwrite;
      var until, i := Rem(untilWhere, f.size), 0;
      ghost var k := 0;
      while i < until
        invariant i == UNIT_SIZE * k && k <= Rounds(until) && (k < Rounds(until) <==> i < until)
        invariant f.Valid() && f.writePos <= f.size && f.View() == Blanks(old(f.View()), f.size, k)
      {
        var _ := f.AppendMessage(Zeros(UNIT_SIZE));
        i := i + UNIT_SIZE;
        k := k + 1;
      }
    }

    // putMessagePostionInfo from the file on.
    method PlaceInFile(f: MapedFile, u: Unit, cqOffset: int64) returns (ok: bool)
      requires f.Valid() && f.writePos <= f.size
      modifies this, f`wrote, f`data, f`writePos
      ensures f.Valid() && f.writePos <= f.size && maxPhysicOffset == u.offset
      ensures var p := PlaceUnit(old(f.View()), f.size, u, cqOffset);
              && ok == p.ok && f.View() == p.f
              && minLogicOffset == (if p.blank then cqOffset * UNIT_SIZE else old(minLogicOffset))
    {
      hide Rem, Overwrite, UnitBytes, Blanks, Rounds;
      var target := cqOffset * UNIT_SIZE;
      if f.firstCreate && cqOffset != 0 && f.wrote == 0 {
        minLogicOffset := target;
        FillPreBlank(f, target);
      }
      maxPhysicOffset := u.offset;
      ok := f.AppendMessage(UnitBytes(u));
    }

    method FileFor(target: int, createOk: bool, contents: seq<byte>) returns (f: MapedFile?)
      requires Valid() && target >= 0 && |contents| == queue.size
      modifies queue`files
      ensures Valid()
      ensures f == null ==> !createOk && queue.files == old(queue.files)
      ensures f != null ==>
        && queue.files != [] && f == queue.files[|queue.files| - 1]
        && queue.View() == EnsureLast(old(queue.View()), queue.size, target, contents)
        && (f in old(queue.files) || fresh(f))
    {
      hide Rem;
      ghost var fs := queue.View();
      StartOfFile(target, queue.size);
      NewFrom(fs, queue.size, target, contents);
      f := queue.GetLastMapedFile(target, createOk, contents);
    }

    // putMessagePostionInfo; a created file maps `contents`, and creating it may fail.
    method PutMessagePostionInfo(u: Unit, cqOffset: int64, createOk: bool, contents: seq<byte>) returns (ok: bool)
      requires Valid() && cqOffset >= 0 && |contents| == queue.size
      modifies this, queue`files, queue.files
      ensures Valid()
      ensures var r := PutUnit(old(View()), queue.size, u, cqOffset, contents);
              (View() == r.index && ok == r.ok) || (!createOk && !ok && View() == old(View()))
    {
      hide PlaceUnit, Rem, EnsureLast;
      if u.offset <= maxPhysicOffset {
        return true;
      }
      var f := FileFor(cqOffset * UNIT_SIZE, createOk, contents);
      if f == null {
        return false;
      }
      label created:
      ok := PlaceInFile(f, u, cqOffset);
      queue.OnlyLastChanged@created(f);
    }

    // The inner loop of recover and truncateDirtyLogicFiles, from byte `first` of the file on.
    static method ReadUnits(f: MapedFile, bound: int, first: nat, maxPhysic: int) returns (w: nat, last: int)
      requires f.Valid() && f.writePos <= f.size && Whole(f.size) && Whole(first)
      ensures var s := Window(f.View());
              w == ScanUnits(s, f.size, bound, first) && last == if w > first then Seen(s, w - UNIT_SIZE).offset else maxPhysic
    {
      hide Seen, Window, ScanUnits;
      var s := f.data[..f.writePos];
      WindowIs(f);
      w, last := first, maxPhysic;
      while w < f.size
        invariant first <= w && Whole(w)
        invariant ScanUnits(s, f.size, bound, first) == ScanUnits(s, f.size, bound, w)
        invariant last == if w > first then Seen(s, w - UNIT_SIZE).offset else maxPhysic
      {
        ScanUnitsStep(s, f.size, bound, w);
        var u := Seen(s, w);
        if u.offset >= 0 && u.size > 0 {
          if u.offset >= bound {
            return;
          }
          w, last := w + UNIT_SIZE, u.offset;
        } else {
          return;
        }
      }
      ScanUnitsStep(s, f.size, bound, w);
    }

    // The file loop of recover.
    method FindEnd(start: nat) returns (r: Recovered)
      requires Valid() && start < |queue.files|
      ensures r == RecoverScan(queue.View(), queue.size, start, maxPhysicOffset)
    {
      hide Seen, ScanUnits, Window, RecoverScan;
      ghost var fs := queue.View();
      var cur, max, w := start, maxPhysicOffset, 0;
      while true
        invariant cur < |fs|
        invariant RecoverScan(fs, queue.size, start, maxPhysicOffset) == RecoverScan(fs, queue.size, cur, max)
        decreases |fs| - cur
      {
        RecoverStep(fs, queue.size, cur, max);
        w, max := ReadUnits(queue.files[cur], NO_BOUND, 0, max);
        if w == queue.size && cur + 1 < |queue.files| {
          cur := cur + 1;
        } else {
          return Recovered(queue.files[cur].from + w, max);
        }
      }
    }

    method Recover()
      requires Valid()
      modifies this`maxPhysicOffset, queue`files, queue.files
      ensures queue.Valid() && View() == IndexRecovery.Recover(old(View()), queue.size)
    {
      hide RecoverScan, Truncate;
      if queue.files == [] {
        return;
      }
      var index := |queue.files| - 3;
      if index < 0 {
        index := 0;
      }
      var r := FindEnd(index);
      EndIsForward(queue.View(), queue.size, index, maxPhysicOffset);
      maxPhysicOffset := r.maxPhysic;
      ghost var fs := queue.View();
      queue.TruncateDirtyFiles(r.offset);
    }

    // The file at which truncateDirtyLogicFiles returns: its first unit is accepted as it is.
    method CutLastFile(f: MapedFile, phyOffset: int)
      requires Valid() && queue.files != [] && f == queue.files[|queue.files| - 1]
      requires Seen(Window(f.View()), 0).offset < phyOffset
      modifies this`maxPhysicOffset, f`wrote, f`committed
      ensures Valid() && View() == CutRound(old(View()), queue.size, phyOffset).index
    {
      hide Seen, ScanUnits, Window, CutRound, Whole;
      CutRoundIs(View(), queue.size, phyOffset);
      maxPhysicOffset := CutUnits(f, phyOffset);
      queue.OnlyLastChanged(f);
    }

    static method CutUnits(f: MapedFile, phyOffset: int) returns (last: int)
      requires f.Valid() && f.writePos <= f.size && Whole(f.size)
      modifies f`wrote, f`committed
      ensures f.Valid()
      ensures var s := Window(old(f.View()));
              var w := ScanUnits(s, f.size, phyOffset, UNIT_SIZE);
              && f.View() == old(f.View()).(wrote := w, committed := w)
              && last == if w > UNIT_SIZE then Seen(s, w - UNIT_SIZE).offset else Seen(s, 0).offset
    {
      hide Seen, ScanUnits, Window;
      WindowIs(f);
      var w;
      w, last := ReadUnits(f, phyOffset, UNIT_SIZE, Seen(f.data[..f.writePos], 0).offset);
      f.wrote, f.committed := w, w;
    }

    // truncateDirtyLogicFiles
    method TruncateDirtyLogicFiles(phyOffset: int)
      requires Valid() && queue.size > UNIT_SIZE
      modifies this`maxPhysicOffset, queue`files, queue.files
      ensures Valid() && View() == CutLogic(old(View()), queue.size, phyOffset)
    {
      hide Seen, ScanUnits, Window, CutRound, CutLogic;
      while queue.files != []
        invariant Valid() && |queue.files| <= |old(queue.files)| && queue.files == old(queue.files)[..|queue.files|]
        invariant CutLogic(old(View()), queue.size, phyOffset) == CutLogic(View(), queue.size, phyOffset)
        decreases |queue.files|
      {
        CutOnce(View(), queue.size, phyOffset);
        var f := queue.files[|queue.files| - 1];
        var u := Seen(f.data[..f.writePos], 0);
        WindowIs(f);
        if u.offset >= phyOffset {
          DeleteLastMapedFile();
        } else {
          CutLastFile(f, phyOffset);
          return;
        }
      }
      assert queue.View() == [];
      CutNothing(View(), queue.size, phyOffset);
    }

    method CorrectMinOffset(phyMinOffset: int)
      requires Valid()
      modifies this`minLogicOffset
      ensures View() == CorrectMin(old(View()), phyMinOffset)
    {
      hide Seen;
      ghost var x := View();
      if queue.files == [] {
        return;
      }
      var f := queue.files[0];
      if !(f.wrote > 0 && f.available) {
        return;
      }
      WindowIs(f);
      var s, i := f.data[..f.writePos], 0;
      while i < |s|
        invariant View() == x && FirstKept(s, phyMinOffset, 0) == FirstKept(s, phyMinOffset, i)
        decreases |s| - i
      {
        if Seen(s, i).offset >= phyMinOffset {
          minLogicOffset := f.from + i;
          return;
        }
        i := i + UNIT_SIZE;
      }
    }

    method DeleteLastMapedFile()
      requires Valid() && queue.files != []
      modifies queue`files
      ensures Valid() && queue.files == old(queue.files)[..|old(queue.files)| - 1]
      ensures View() == old(View()).(fs := old(View()).fs[..|old(queue.files)| - 1])
    {
      queue.files := queue.files[..|queue.files| - 1];
    }
  }

  lemma {:induction false} NewFrom(fs: seq<File>, size: int, start: int, contents: seq<byte>)
    requires size > 0 && (forall i :: 0 <= i < |fs| ==> fs[i].from >= 0 && fs[i].writePos <= size)
    requires start - Rem(start, size) >= 0
    ensures var r := EnsureLast(fs, size, start, contents);
            forall i :: 0 <= i < |r| ==> r[i].from >= 0 && r[i].writePos <= size
  {
    hide Rem;
  }

  lemma {:induction false} EndIsForward(fs: seq<File>, size: int, cur: nat, maxPhysic: int)
    requires cur < |fs| && Whole(size) && forall i :: 0 <= i < |fs| ==> fs[i].from >= 0
    ensures RecoverScan(fs, size, cur, maxPhysic).offset >= 0
    decreases |fs| - cur
  {
    hide Window, ScanUnits, LastSeen;
    var s := Window(fs[cur]);
    var w := ScanUnits(s, size, NO_BOUND, 0);
    if w == size && cur + 1 < |fs| { EndIsForward(fs, size, cur + 1, LastSeen(s, w, maxPhysic)); }
  }
}
