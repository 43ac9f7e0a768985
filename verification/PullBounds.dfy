// The edges of a pull: offsets outside the queue, and how much one call may return.

module PullBounds {
  import opened Arithmetic
  import opened Bytes
  import opened ConsumeQueues
  import opened IndexRecovery
  import opened Pull
  import opened Reput
  import opened Segments

  // ---------------------------------------------------------------- offsets outside the queue

  // What a pull answers at an offset the index has no unit for.  Below the minimum it names the
  // minimum, and no entry it passes over could have been read; at the end it stays there; past
  // the end it goes to the end, or back to 0 where the minimum is 0.
  lemma {:induction false} OutsideQueue(v: View, x: Index, size: int, us: seq<Unit>, offset: int)
    requires Represents(x, size, us) && size >= UNIT_SIZE && v.size > 0 && 0 <= x.minLogic && Whole(x.minLogic)
    ensures var r := GetMessage(v, x, size, offset);
            && (us == [] ==> r == Pulled(NoMessageInQueue, [], 0))
            && (us != [] && UNIT_SIZE * offset < x.minLogic ==>
                  && r.status == OffsetTooSmall && r.found == [] && UNIT_SIZE * r.next == x.minLogic && offset < r.next
                  && forall j :: offset <= j < r.next ==> GetIndexBuffer(x, size, j) == None)
            && (us != [] && offset == |us| && x.minLogic <= UNIT_SIZE * |us| ==> r == Pulled(OffsetOverflowOne, [], |us|))
            && (us != [] && offset > |us| && x.minLogic <= UNIT_SIZE * offset ==>
                  r == Pulled(OffsetOverflowBadly, [], if x.minLogic == 0 then 0 else |us|))
  {
    hide Represents, ScanIndex, GetIndexBuffer;
    UnitCount(x, size, us);
    var least := x.minLogic / UNIT_SIZE;
    assert x.minLogic == UNIT_SIZE * least by { assert Rem(x.minLogic, UNIT_SIZE) == 0; }
    forall j | offset <= j < least ensures GetIndexBuffer(x, size, j) == None { NotBelowMinimum(x, size, j); }
  }

  lemma {:induction false} NotBelowMinimum(x: Index, size: int, j: int)
    requires size > 0 && UNIT_SIZE * j < x.minLogic
    ensures GetIndexBuffer(x, size, j) == None
  {
    hide Lookup;
  }

  // ---------------------------------------------------------------- a consumer that has caught up

  // The index after the units `more` have been put behind the |us| there are; cs[i] is what a
  // file created for more[i] maps.
  function PutMore(x: Index, size: int, n: nat, more: seq<Unit>, cs: seq<seq<byte>>): Index
    requires size > 0 && |cs| == |more|
  {
    if more == [] then x
    else
      var m := |more| - 1;
      PutUnit(PutMore(x, size, n, more[..m], cs[..m]), size, more[m], n + m, cs[m]).index
  }

  lemma {:induction false} ShutsAre(fs: seq<File>, o: nat)
    requires o < |fs| && fs[o].available && forall i :: 0 <= i < o ==> !fs[i].available
    ensures Shuts(fs) == o
  {
    hide Shuts;
  }

  // The next unit keeps every old file's place and state; only a readable file may be added.
  lemma {:induction false} PutKeepsFiles(x: Index, size: int, us: seq<Unit>, u: Unit, contents: seq<byte>)
    requires Serves(x, size, us) && |contents| == size && u.offset > x.maxPhysic
    ensures size > 0
    ensures var fs := PutUnit(x, size, u, |us|, contents).index.fs;
            && |fs| >= |x.fs| && (forall i :: 0 <= i < |x.fs| ==> fs[i].from == x.fs[i].from && fs[i].available == x.fs[i].available)
            && forall i :: |x.fs| <= i < |fs| ==> fs[i].available
  {
    hide Flat, UnitsBytes, UnitBytes, InFile, Rem, Overwrite, Opens;
    NextSlot(x, size, us, contents);
    assert x.fs[|x.fs| - 1].available by { LastOpen(x.fs); }
  }

  lemma {:induction false} LastOpen(fs: seq<File>)
    requires Opens(fs) && fs != []
    ensures fs[|fs| - 1].available
  {
  }

  lemma {:induction false} PutServes(x: Index, size: int, us: seq<Unit>, u: Unit, contents: seq<byte>)
    requires Serves(x, size, us) && |contents| == size && u.offset > x.maxPhysic
    ensures size > 0
    ensures var y := PutUnit(x, size, u, |us|, contents).index;
            Serves(y, size, us + [u]) && OpenFrom(y) == OpenFrom(x) && y.minLogic == x.minLogic && y.maxPhysic == u.offset
  {
    hide Represents, PutUnit;
    PutNextUnit(x, size, us, u, contents);
    PutKeepsFiles(x, size, us, u, contents);
    var y := PutUnit(x, size, u, |us|, contents).index;
    RepresentsEnd(y, size, us + [u]);
    var o := OpenFile(x, size, us);
    ShutsAre(x.fs, o);
    ShutsAre(y.fs, o);
  }

  lemma {:induction false} RepresentsEnd(x: Index, size: int, us: seq<Unit>)
    requires Represents(x, size, us)
    ensures x.maxPhysic == LastOffset(us)
  {
  }

  lemma {:induction false} MoreServes(x: Index, size: int, us: seq<Unit>, more: seq<Unit>, cs: seq<seq<byte>>)
    requires Serves(x, size, us) && size > 0 && |cs| == |more| && (forall i :: 0 <= i < |cs| ==> |cs[i]| == size)
    requires Rising(us + more) && forall i :: 0 <= i < |more| ==> more[i].offset >= 0
    ensures var y := PutMore(x, size, |us|, more, cs);
            Serves(y, size, us + more) && OpenFrom(y) == OpenFrom(x) && y.minLogic == x.minLogic
  {
    hide Serves, PutUnit, OpenFrom;
    if more == [] {
      assert us + more == us;
    } else {
      var m := |more| - 1;
      var all := us + more;
      assert us + more[..m] == all[..|us| + m] && all[..|us| + m] + [more[m]] == all;
      MoreServes(x, size, us, more[..m], cs[..m]);
      var y := PutMore(x, size, |us|, more[..m], cs[..m]);
      assert y.maxPhysic == LastOffset(us + more[..m]) by { ServesEnd(y, size, us + more[..m]); }
      assert all[|us| + m] == more[m];
      PutServes(y, size, us + more[..m], more[m], cs[m]);
    }
  }

  lemma {:induction false} ServesEnd(x: Index, size: int, us: seq<Unit>)
    requires Serves(x, size, us)
    ensures x.maxPhysic == LastOffset(us)
  {
  }

  // A consumer at the end of the queue is told to stay there, and once more units have been put,
  // pulling on from there delivers exactly the new messages that match and are stored, with the
  // one exception of a queue whose very first message is the log's first and has expired.
  lemma {:induction false} CaughtUpGetsNew(v: View, x: Index, size: int, us: seq<Unit>, more: seq<Unit>, cs: seq<seq<byte>>)
    requires Serves(x, size, us) && size >= UNIT_SIZE && x.minLogic <= UNIT_SIZE * |us|
    requires |cs| == |more| && (forall i :: 0 <= i < |cs| ==> |cs[i]| == size)
    requires Pulls(v, us + more, |us|) && (us != [] ==> us[0].offset >= 0)
    ensures v.size > 0 && v.fs != []
    ensures var r := GetMessage(v, x, size, |us|);
            var y, all := PutMore(x, size, |us|, more, cs), us + more;
            && r.found == [] && r.next == |us| && r.status == (if us == [] then NoMessageInQueue else OffsetOverflowOne)
            && Serves(y, size, all) && y.minLogic <= UNIT_SIZE * |us|
            && (PullAll(v, y, size, all, r.next) == Got(v, all, |us|, |all|)
                <==> !(us == [] && more != [] && Misled(v, more[0])))
  {
    hide GetMessage, Represents, OpenFrom, Opens, PullAll, Got, Points, Misled;
    var all := us + more;
    PullsSize(v, all, |us|);
    Above(v, us, more);
    OutsideQueue(v, x, size, us, |us|);
    MoreServes(x, size, us, more, cs);
    var o := OpenFile(x, size, us);
    var y := PutMore(x, size, |us|, more, cs);
    hide Serves, Pulls;
    PullAllExact(v, y, size, all, |us|);
    assert FirstThere(y, |us|) == |us|;
  }

  // No unit behind the first one of a queue can be misled.
  lemma {:induction false} Above(v: View, us: seq<Unit>, more: seq<Unit>)
    requires Pulls(v, us + more, |us|) && (us != [] ==> us[0].offset >= 0)
    ensures forall i :: 0 <= i < |more| ==> more[i].offset >= 0
    ensures v.fs != [] && (more != [] ==> more[0] == (us + more)[|us|] && (us != [] ==> !Misled(v, more[0])))
  {
    var all := us + more;
    forall i | 0 <= i < |more| ensures more[i].offset >= 0 {
      assert all[|us| + i] == more[i];
      PointsAbove(v, all[|us| + i]);
    }
    hide Points;
    if us != [] && more != [] { assert all[0].offset < all[|us|].offset; }
  }

  lemma {:induction false} PointsAbove(v: View, u: Unit)
    requires Points(v, u)
    ensures u.offset >= 0
  {
  }

  // ---------------------------------------------------------------- how much one pull returns

  function TotalBytes(gs: seq<Selected>): nat {
    if gs == [] then 0 else TotalBytes(gs[..|gs| - 1]) + |gs[|gs| - 1].bytes|
  }

  // The first message always goes out; a later one only while the number of messages stays below
  // the number asked for and count and bytes stay within one of the two pairs of limits.
  ghost predicate WithinLimits(l: Limits, gs: seq<Selected>) {
    |gs| >= 2 ==>
      && |gs| < l.maxMsgNums
      && (|| (|gs| <= l.diskCount && TotalBytes(gs) <= l.diskBytes)
          || (|gs| <= l.memoryCount && TotalBytes(gs) <= l.memoryBytes))
  }

  // One more message, of u's size, would break a limit: the one for messages on disk if u lies
  // further than `memory` behind the end of the log, else the one for messages in memory.
  ghost predicate NoRoomFor(v: View, gs: seq<Selected>, u: Unit) {
    && gs != []
    && (|| |gs| + 1 >= v.limits.maxMsgNums
        || (MaxOffset(v.fs) - u.offset > v.limits.memory
            && (TotalBytes(gs) + u.size > v.limits.diskBytes || |gs| + 1 > v.limits.diskCount))
        || (MaxOffset(v.fs) - u.offset <= v.limits.memory
            && (TotalBytes(gs) + u.size > v.limits.memoryBytes || |gs| + 1 > v.limits.memoryCount)))
  }

  lemma {:induction false} TotalSnoc(gs: seq<Selected>, g: Selected)
    ensures TotalBytes(gs + [g]) == TotalBytes(gs) + |g.bytes|
  {
    assert (gs + [g])[..|gs|] == gs;
  }

  // The bookkeeping of the scan: its total is that of its messages, none of which is empty.
  ghost predicate Books(v: View, a: Scanned) {
    a.total == TotalBytes(a.found) && (a.found != [] ==> a.total > 0) && WithinLimits(v.limits, a.found)
  }

  lemma {:induction false} FullExactly(v: View, a: Scanned, u: Unit)
    requires Books(v, a)
    ensures FullFor(v, a, u) <==> NoRoomFor(v, a.found, u)
  {
    hide TotalBytes;
  }

  lemma {:induction false} TakeKeepsBooks(v: View, a: Scanned, u: Unit)
    requires v.size > 0 && Books(v, a) && u.size > 0 && !NoRoomFor(v, a.found, u)
    ensures Books(v, TakeUnit(v, a, u))
  {
    hide GetLogMessage, RollNextFile, TotalBytes;
    BytesGot(v, u);
    var m := GetLogMessage(v.fs, v.size, u.offset, u.size);
    if v.tags(u.tags) && m.Some? { TotalSnoc(a.found, m.value); }
  }

  // The scan keeps within the limits, and it stops at byte i only at the end of the bytes, at the
  // bound on them, or where the next message would break a limit.
  lemma {:induction false} ScanBounded(v: View, s: seq<byte>, us: seq<Unit>, a: nat, b: nat, k: nat, r: Scanned) returns (m: nat)
    requires v.size > 0 && Books(v, r) && Shows(s, us, a, b) && |s| == UNIT_SIZE * (b - a) && a <= k <= b
    requires forall j :: a <= j < b ==> us[j].size > 0
    ensures var t := ScanIndex(v, s, UNIT_SIZE * (k - a), r);
            && k <= m <= b && t.i == UNIT_SIZE * (m - a) && WithinLimits(v.limits, t.a.found)
            && (m == b || UNIT_SIZE * (m - a) >= MAX_FILTER_BYTES || NoRoomFor(v, t.a.found, us[m]))
    decreases b - k
  {
    hide WithinLimits, NoRoomFor, Seen, FullFor, TakeUnit, Books;
    BooksWithin(v, r);
    m := k;
    if k < b && UNIT_SIZE * (k - a) < MAX_FILTER_BYTES {
      var u := us[k];
      assert Seen(s, UNIT_SIZE * (k - a)) == u;
      FullExactly(v, r, u);
      if SkipsUnit(r, u) {
        m := ScanBounded(v, s, us, a, b, k + 1, r);
      } else if !FullFor(v, r, u) {
        TakeKeepsBooks(v, r, u);
        m := ScanBounded(v, s, us, a, b, k + 1, TakeUnit(v, r, u));
      }
    }
  }

  lemma {:induction false} BooksWithin(v: View, r: Scanned)
    requires Books(v, r)
    ensures WithinLimits(v.limits, r.found)
  {
  }

  // One pull returns at most what its limits allow, and it does not stop early: either it has
  // read to the end of the index file or 800 entries, or the next message would be too much.
  lemma {:induction false} PullBounded(v: View, x: Index, size: int, us: seq<Unit>, k: nat)
    requires Serves(x, size, us) && size >= UNIT_SIZE && k < |us| && Pulls(v, us, k)
    requires x.minLogic <= UNIT_SIZE * k && OpenFrom(x) <= UNIT_SIZE * k
    ensures var r := GetMessage(v, x, size, k);
            && k < r.next <= |us| && WithinLimits(v.limits, r.found)
            && (|| r.next == |us| || UNIT_SIZE * r.next % size == 0 || r.next - k >= 800
                || NoRoomFor(v, r.found, us[r.next]))
  {
    hide GetMessage, GetIndexBuffer, ScanIndex, NoRoomFor, WithinLimits, Books, Shows, Represents, OpenFrom;
    PullGives(v, x, size, us, k);
    PositiveSizes(v, us, k);
    var b, s := PullScans(v, x, size, us, k);
    var start := Scanned([], 0, NoMatchedMessage, None);
    NoBooks(v, start);
    hide Serves, Pulls;
    var m := ScanBounded(v, s, us, k, b, k, start);
  }

  // Inside the queue a pull is the scan of the units from k to the end of the buffer.
  lemma {:induction false} PullScans(v: View, x: Index, size: int, us: seq<Unit>, k: nat) returns (b: nat, s: seq<byte>)
    requires Serves(x, size, us) && size >= UNIT_SIZE && k < |us| && v.size > 0
    requires x.minLogic <= UNIT_SIZE * k && OpenFrom(x) <= UNIT_SIZE * k
    ensures k < b <= |us| && (b == |us| || UNIT_SIZE * b % size == 0) && Shows(s, us, k, b) && |s| == UNIT_SIZE * (b - k)
    ensures var t := ScanIndex(v, s, 0, Scanned([], 0, NoMatchedMessage, None));
            GetMessage(v, x, size, k) == Pulled(t.a.status, t.a.found, k + t.i / UNIT_SIZE)
  {
    hide Flat, UnitsBytes, Rem, Seen, Aligned, GetIndexBuffer, ScanIndex, Chain;
    UnitCountOf(x, size, us);
    b := BufferShows(x, size, us, k);
    s := GetIndexBuffer(x, size, k).value;
  }

  lemma {:induction false} NoBooks(v: View, r: Scanned)
    requires r.found == [] && r.total == 0
    ensures Books(v, r)
  {
  }

  lemma {:induction false} PositiveSizes(v: View, us: seq<Unit>, k: nat)
    requires Pulls(v, us, k)
    ensures v.size > 0 && forall j :: k <= j < |us| ==> us[j].size > 0
  {
    PullsSize(v, us, k);
    hide Chain;
    forall j | k <= j < |us| ensures us[j].size > 0 { assert Points(v, us[j]); }
  }

  // ---------------------------------------------------------------- why nothing was found

  ghost predicate Matches(v: View, us: seq<Unit>, a: nat, k: nat)
    requires k <= |us|
  {
    exists j :: a <= j < k && v.tags(us[j].tags)
  }

  ghost predicate AllMatch(v: View, us: seq<Unit>, a: nat, k: nat)
    requires k <= |us|
  {
    forall j :: a <= j < k ==> v.tags(us[j].tags)
  }

  // The status that goes with nothing found among the units a to k.
  ghost predicate Explains(v: View, us: seq<Unit>, a: nat, k: nat, status: Status)
    requires k <= |us|
  {
    && status in {NoMatchedMessage, MessageWasRemoving}
    && (!Matches(v, us, a, k) ==> status == NoMatchedMessage)
    && (a < k && AllMatch(v, us, a, k) ==> status == MessageWasRemoving)
  }

  ghost predicate Explained(v: View, us: seq<Unit>, a: nat, k: nat, r: Scanned)
    requires k <= |us|
  {
    && (r.found == [] <==> r.total == 0)
    && (r.found == [] ==> Explains(v, us, a, k, r.status) && (r.skip.Some? ==> a < k && Matches(v, us, a, k)))
  }

  lemma {:induction false} ExplainedStep(v: View, us: seq<Unit>, a: nat, k: nat, r: Scanned)
    requires v.size > 0 && a <= k < |us| && us[k].size > 0 && Explained(v, us, a, k, r) && r.total >= 0
    ensures SkipsUnit(r, us[k]) ==> Explained(v, us, a, k + 1, r)
    ensures !SkipsUnit(r, us[k]) ==> Explained(v, us, a, k + 1, TakeUnit(v, r, us[k])) && TakeUnit(v, r, us[k]).total >= 0
  {
    hide GetLogMessage, RollNextFile;
    BytesGot(v, us[k]);
    if v.tags(us[k].tags) { assert Matches(v, us, a, k + 1); }
    assert AllMatch(v, us, a, k + 1) ==> AllMatch(v, us, a, k) && v.tags(us[k].tags);
    assert Matches(v, us, a, k) ==> Matches(v, us, a, k + 1);
  }

  lemma {:induction false} ScanExplained(v: View, s: seq<byte>, us: seq<Unit>, a: nat, b: nat, k: nat, r: Scanned) returns (m: nat)
    requires v.size > 0 && Shows(s, us, a, b) && |s| == UNIT_SIZE * (b - a) && a <= k <= b && r.total >= 0
    requires Explained(v, us, a, k, r) && forall j :: a <= j < b ==> us[j].size > 0
    ensures var t := ScanIndex(v, s, UNIT_SIZE * (k - a), r);
            k <= m <= b && t.i == UNIT_SIZE * (m - a) && Explained(v, us, a, m, t.a)
    decreases b - k
  {
    hide Explained, Seen, FullFor, TakeUnit, SkipsUnit;
    m := k;
    if k < b && UNIT_SIZE * (k - a) < MAX_FILTER_BYTES {
      var u := us[k];
      assert Seen(s, UNIT_SIZE * (k - a)) == u;
      ExplainedStep(v, us, a, k, r);
      if SkipsUnit(r, u) {
        m := ScanExplained(v, s, us, a, b, k + 1, r);
      } else if !FullFor(v, r, u) {
        m := ScanExplained(v, s, us, a, b, k + 1, TakeUnit(v, r, u));
      }
    }
  }

  // A pull that finds nothing says why: none of the entries it passed matched the filter, or
  // some did and their messages are gone.
  lemma {:induction false} PullExplains(v: View, x: Index, size: int, us: seq<Unit>, k: nat)
    requires Serves(x, size, us) && size >= UNIT_SIZE && k < |us| && Pulls(v, us, k)
    requires x.minLogic <= UNIT_SIZE * k && OpenFrom(x) <= UNIT_SIZE * k
    ensures var r := GetMessage(v, x, size, k);
            k < r.next <= |us| && if r.found == [] then Explains(v, us, k, r.next, r.status) else r.status == Found
  {
    hide GetMessage, GetIndexBuffer, ScanIndex, Explains, Shows, Represents, OpenFrom;
    PullGives(v, x, size, us, k);
    PositiveSizes(v, us, k);
    var b, s := PullScans(v, x, size, us, k);
    var start := Scanned([], 0, NoMatchedMessage, None);
    NothingYet(v, us, k, start);
    hide Serves, Pulls;
    var m := ScanExplained(v, s, us, k, b, k, start);
  }

  lemma {:induction false} NothingYet(v: View, us: seq<Unit>, k: nat, r: Scanned)
    requires k <= |us| && r == Scanned([], 0, NoMatchedMessage, None)
    ensures Explained(v, us, k, k, r)
  {
  }
}
