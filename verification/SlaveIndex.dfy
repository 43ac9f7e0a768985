// The slave as a whole: bytes replicated in any pieces, parsed again after each, and indexed.

module SlaveIndex {
  import opened Appending
  import opened Arithmetic
  import opened Bytes
  import opened ConsumeQueues
  import opened Framing
  import opened Log
  import opened Records
  import opened Recovery
  import opened Replay
  import opened Reput
  import opened Segments
  import opened SlaveLog
  import opened Store

  // ---------------------------------------------------------------- the bytes

  // The slave's files after appendData of each piece in turn, the first at offset base.  A
  // newly created file maps whatever contents the file system provides.
  function Files(size: int, base: int, ds: seq<seq<byte>>, contents: nat -> seq<byte>): seq<File>
    requires size > 0
  {
    if ds == [] then []
    else
      var n := |ds| - 1;
      AppendData(Files(size, base, ds[..n], contents), size, base + |Joined(ds[..n])|, ds[n], contents(2 * n), contents(2 * n + 1)).fs
  }

  ghost predicate Available(fs: seq<File>) { forall i :: 0 <= i < |fs| ==> fs[i].available }

  lemma {:induction false} AppendStaysAvailable(fs: seq<File>, size: int, start: int, d: seq<byte>, c1: seq<byte>, c2: seq<byte>)
    requires size > 0 && Available(fs)
    ensures Available(AppendData(fs, size, start, d, c1, c2).fs)
  {
    hide EnsureLast, PutBytes;
    var gs := EnsureLast(fs, size, start, c1);
    var room := size - gs[|gs| - 1].writePos;
    EnsureAvailable(fs, size, start, c1);
    PutAvailable(gs, size, d);
    if 0 <= room < |d| {
      PutAvailable(gs, size, d[..room]);
      var hs := PutBytes(gs, size, d[..room]).fs;
      EnsureAvailable(hs, size, start + room, c2);
      PutAvailable(EnsureLast(hs, size, start + room, c2), size, d[room..]);
    }
  }

  lemma {:induction false} EnsureAvailable(fs: seq<File>, size: int, start: int, contents: seq<byte>)
    requires size > 0 && Available(fs)
    ensures Available(EnsureLast(fs, size, start, contents))
  {
    hide Rem;
  }

  lemma {:induction false} PutAvailable(fs: seq<File>, size: int, d: seq<byte>)
    requires fs != [] && Available(fs)
    ensures Available(PutBytes(fs, size, d).fs)
  {
    hide Overwrite;
  }

  // Pieces of at most a file each.
  ghost predicate Pieces(ds: seq<seq<byte>>, size: int) { forall i :: 0 <= i < |ds| ==> 0 < |ds[i]| <= size }

  lemma {:induction false} FilesHold(size: int, base: int, ds: seq<seq<byte>>, contents: nat -> seq<byte>)
    requires size > 0 && base >= 0 && Aligned(base, size) && Pieces(ds, size) && FileSized(contents, size)
    ensures var fs := Files(size, base, ds, contents);
            && Chain(fs, size) && Flat(fs) == Joined(ds) && Available(fs)
            && (ds == [] <==> fs == []) && (fs != [] ==> fs[0].from == base)
  {
    hide AppendData, Aligned, Flat;
    if ds == [] {
      NoFiles(size);
    } else {
      var n := |ds| - 1;
      FilesHold(size, base, ds[..n], contents);
      var fs := Files(size, base, ds[..n], contents);
      FileSizedAt(contents, size, 2 * n);
      FileSizedAt(contents, size, 2 * n + 1);
      var at := base + |Joined(ds[..n])|;
      if fs == [] { NothingJoined(ds[..n]); }
      AppendDataAppends(fs, size, at, ds[n], contents(2 * n), contents(2 * n + 1));
      AppendStaysAvailable(fs, size, at, ds[n], contents(2 * n), contents(2 * n + 1));
    }
  }

  lemma {:induction false} NoFiles(size: int)
    requires size > 0
    ensures Chain([], size) && Flat([]) == [] && Available([])
  {
  }

  lemma {:induction false} NothingJoined(ds: seq<seq<byte>>)
    requires ds == []
    ensures Joined(ds) == []
  {
  }

  lemma {:induction false} JoinedGrows(ds: seq<seq<byte>>, i: nat)
    requires i <= |ds|
    ensures Joined(ds[..i]) <= Joined(ds)
    decreases |ds|
  {
    if i < |ds| {
      JoinedGrows(ds[..|ds| - 1], i);
      assert ds[..|ds| - 1][..i] == ds[..i];
    } else {
      assert ds[..i] == ds;
    }
  }

  // What the slave's files hold after each piece.
  ghost function ArrivalsOf(size: int, base: int, ds: seq<seq<byte>>, contents: nat -> seq<byte>): (xs: seq<Arrival>)
    requires size > 0
    ensures |xs| == |ds|
    ensures forall i :: 0 <= i < |xs| ==> xs[i] == Arrival(Files(size, base, ds[..i + 1], contents), |Joined(ds[..i + 1])|)
  {
    seq(|ds|, i requires 0 <= i < |ds| => Arrival(Files(size, base, ds[..i + 1], contents), |Joined(ds[..i + 1])|))
  }

  // However the log is cut into pieces, the slave's files hold a growing prefix of it.
  lemma {:induction false} StreamArrives(size: int, base: int, items: seq<Item>, ds: seq<seq<byte>>, contents: nat -> seq<byte>)
    requires size > 0 && base >= 0 && Aligned(base, size) && Pieces(ds, size) && FileSized(contents, size)
    requires Layout(items, base, size) && Joined(ds) <= LogBytes(items, base)
    ensures Arrivals(size, items, base, ArrivalsOf(size, base, ds, contents))
  {
    hide Files, Aligned, Flat, Joined, LogBytes, Layout, Chain;
    var xs := ArrivalsOf(size, base, ds, contents);
    forall i | 0 <= i < |xs| ensures Arrived(xs[i].fs, size, items, xs[i].n) && xs[i].fs[0].from == base {
      assert Pieces(ds[..i + 1], size);
      FilesHold(size, base, ds[..i + 1], contents);
      JoinedGrows(ds, i + 1);
    }
    forall i, j | 0 <= i < j < |xs| ensures xs[i].n <= xs[j].n {
      assert ds[..j + 1][..i + 1] == ds[..i + 1];
      JoinedGrows(ds[..j + 1], i + 1);
    }
  }

  // ---------------------------------------------------------------- the index

  // Requests a to b of the history are indexed: a queue without any of them has no index yet,
  // the index of another one holds exactly its requests among them, each in its own slot,
  // behind as many zero units as the queue had requests before.
  ghost predicate Range(xs: Indexes, size: int, rs: seq<DispatchRequest>, a: nat, b: nat)
    requires a <= b <= |rs|
  {
    forall q :: RangeOf(IndexAt(xs, q), size, rs, a, b, q)
  }

  ghost predicate RangeOf(x: Index, size: int, rs: seq<DispatchRequest>, a: nat, b: nat, q: Queue)
    requires a <= b <= |rs|
  {
    var c, d := |Of(rs[..a], q)|, |Of(rs[..b], q)|;
    && c <= d <= |Of(rs, q)|
    && if c == d then x == EMPTY_INDEX else Represents(x, size, SlaveUnits(Of(rs, q), c, d))
  }

  function SlaveUnits(os: seq<DispatchRequest>, c: nat, d: nat): seq<Unit>
    requires c <= d <= |os|
  {
    Padding(c) + Units(os[c..d])
  }

  // Slots from number c on hold the same units as the master's.
  lemma {:induction false} SameSlots(os: seq<DispatchRequest>, c: nat, d: nat, k: nat)
    requires c <= k < d <= |os|
    ensures |SlaveUnits(os, c, d)| == d && SlaveUnits(os, c, d)[k] == Units(os)[k]
  {
  }

  lemma {:induction false} NextSlaveUnit(x: Index, size: int, os: seq<DispatchRequest>, c: nat, d: nat, end: int, contents: seq<byte>)
    requires size > 0 && Whole(size) && |contents| == size && InOrder(os, end) && c <= d < |os|
    requires if c == d then x == EMPTY_INDEX else Represents(x, size, SlaveUnits(os, c, d))
    ensures var r := PutUnit(x, size, UnitOf(os[d]), d, contents);
            !r.warned && Represents(r.index, size, SlaveUnits(os, c, d + 1))
  {
    hide PutUnit, Represents, Whole, Padding, SlaveUnits, UnitOf, Tailed;
    var u := UnitOf(os[d]);
    SlaveSnoc(os, c, d, end);
    if c < d {
      RepresentsLast(x, size, SlaveUnits(os, c, d));
      PutNextUnit(x, size, SlaveUnits(os, c, d), u, contents);
    } else if c > 0 {
      PutFirstUnit(size, u, d, contents);
    } else {
      EmptyRepresents(size);
      PutNextUnit(EMPTY_INDEX, size, [], u, contents);
    }
  }

  // One more unit, whose offset is higher than the last one's.
  lemma {:induction false} SlaveSnoc(os: seq<DispatchRequest>, c: nat, d: nat, end: int)
    requires c <= d < |os| && InOrder(os, end)
    ensures SlaveUnits(os, c, d + 1) == SlaveUnits(os, c, d) + [UnitOf(os[d])] && |SlaveUnits(os, c, d)| == d
    ensures c == d ==> SlaveUnits(os, c, d) == Padding(c) && (c == 0 ==> Padding(c) == [])
    ensures UnitOf(os[d]).offset >= 0 && (c < d ==> LastOffset(SlaveUnits(os, c, d)) < UnitOf(os[d]).offset)
  {
    if c < d { assert SlaveUnits(os, c, d)[d - 1] == UnitOf(os[d - 1]); }
  }

  lemma {:induction false} RangeStep(xs: Indexes, size: int, rs: seq<DispatchRequest>, a: nat, p: nat, end: int, contents: seq<byte>)
    requires size > 0 && Whole(size) && |contents| == size && InOrder(rs, end) && Numbered(rs)
    requires a <= p < |rs| && Range(xs, size, rs, a, p)
    ensures var d := DoDispatch(xs, size, rs[p], contents); !d.warned && Range(d.indexes, size, rs, a, p + 1)
  {
    hide PutUnit, Represents, Of, Indexed, InOrder, SlaveUnits;
    var r := rs[p];
    var q := QueueOf(r);
    var d := DoDispatch(xs, size, r, contents);
    assert r.consumeQueueOffset == |Of(rs[..p], q)|;
    if Indexed(r.sysFlag) {
      PlaceOf(rs, p, |Of(rs[..p], q)|, end) by { OfPrefix(rs, p, q); }
      OfInOrder(rs, q, end);
      assert RangeOf(IndexAt(xs, q), size, rs, a, p, q);
      NextSlaveUnit(IndexAt(xs, q), size, Of(rs, q), |Of(rs[..a], q)|, |Of(rs[..p], q)|, end, contents);
    }
    forall o ensures RangeOf(IndexAt(d.indexes, o), size, rs, a, p + 1, o) {
      OfStep(rs, p, o);
      OfPrefix(rs, p + 1, o);
      assert RangeOf(IndexAt(xs, o), size, rs, a, p, o);
    }
  }

  // Dispatching requests a to b in order on a slave without any index.
  lemma {:induction false} RangeDispatched(size: int, rs: seq<DispatchRequest>, a: nat, b: nat, end: int, contents: nat -> seq<byte>)
    requires size > 0 && Whole(size) && FileSized(contents, size) && InOrder(rs, end) && Numbered(rs) && a <= b <= |rs|
    ensures var d := Redispatch(map[], size, rs[a..b], contents); !d.warned && Range(d.indexes, size, rs, a, b)
    decreases b
  {
    hide InOrder, Numbered, Of, DoDispatch, Redispatch, Range, Whole;
    if a == b {
      assert rs[a..b] == [];
      NoneDispatched(size, rs, a, contents);
    } else {
      RangeDispatched(size, rs, a, b - 1, end, contents);
      assert rs[a..b] == rs[a..b - 1] + [rs[b - 1]];
      RedispatchSnoc(map[], size, rs[a..b - 1], rs[b - 1], contents);
      FileSizedAt(contents, size, b - 1 - a);
      RangeStep(Redispatch(map[], size, rs[a..b - 1], contents).indexes, size, rs, a, b - 1, end, contents(b - 1 - a));
    }
  }

  lemma {:induction false} NoneDispatched(size: int, rs: seq<DispatchRequest>, a: nat, contents: nat -> seq<byte>)
    requires size > 0 && a <= |rs|
    ensures Redispatch(map[], size, [], contents) == Dispatched(map[], false) && Range(map[], size, rs, a, a)
  {
    hide Of, Represents;
    forall q ensures RangeOf(IndexAt(map[], q), size, rs, a, a, q) { OfPrefix(rs, a, q); }
  }

  // ---------------------------------------------------------------- together

  // A slave that is sent the master's log from item h on, in whatever pieces, appends each,
  // runs doReput after each and dispatches what it finds: its indexes are then, for every
  // queue, the master's on the messages that have arrived completely, without a warning.
  lemma {:induction false} SlaveIndexesMaster(c: Config, codec: Codec, items: seq<Item>, h: nat, ds: seq<seq<byte>>,
                                              logContents: nat -> seq<byte>, indexContents: nat -> seq<byte>) returns (j: nat)
    requires Sane(c) && Recorded(c, items) && Derived(codec, items) && h <= |items| && Aligned(Total(items[..h]), c.logSize)
    requires ds != [] && Pieces(ds, c.logSize) && Joined(ds) <= LogBytes(items[h..], Total(items[..h]))
    requires FileSized(logContents, c.logSize) && FileSized(indexContents, c.indexSize)
    ensures h <= j <= |items| && Before(items, h) <= Before(items, j) <= |Issued(items)|
    ensures AllVisible(items[h..], 0, j - h, |Joined(ds)|) && (j < |items| ==> !Visible(items[h..], j - h, |Joined(ds)|))
    ensures var base := Total(items[..h]);
            var xs := ArrivalsOf(c.logSize, base, ds, logContents);
            && Arrivals(c.logSize, items[h..], base, xs)
            && var p := Runs(codec, c.logSize, items[h..], base, xs, base);
               && p.Progress? && p.requests == Issued(items)[Before(items, h)..Before(items, j)]
               && var d := Redispatch(map[], c.indexSize, p.requests, indexContents);
                  !d.warned && Range(d.indexes, c.indexSize, Issued(items), Before(items, h), Before(items, j))
  {
    hide Layout, LogBytes, Total, Issued, Files, Joined, Runs, Arrivals, Redispatch, Range, Numbered, InOrder, Replays, Visible,
      Derived, Aligned;
    var base, tail, size := Total(items[..h]), items[h..], c.logSize;
    LayoutSplit(items, 0, size, h);
    StreamArrives(size, base, tail, ds, logContents);
    var xs := ArrivalsOf(size, base, ds, logContents);
    assert ds[..|ds|] == ds && tail[..0] == [];
    EmptyLog(base, size);
    var i := ChunkingIndependent(codec, size, tail, base, xs, 0);
    j := h + i;
    assert tail[0..i] == items[h..j];
    ReplaysIssued(codec, items, h, j);
    IssuedInOrder(items, size);
    RangeDispatched(c.indexSize, Issued(items), Before(items, h), Before(items, j), Total(items), indexContents);
  }

  // Every indexed message of the range stands in the slave's index where it stands in the
  // master's: in the slot its request names.
  lemma {:induction false} SlaveSlot(xs: Indexes, size: int, rs: seq<DispatchRequest>, a: nat, b: nat, p: nat)
    requires a <= p < b <= |rs| && Range(xs, size, rs, a, b) && Numbered(rs) && Indexed(rs[p].sysFlag)
    ensures var r := rs[p];
            var x := IndexAt(xs, QueueOf(r));
            BaseOf(x.fs) <= UNIT_SIZE * r.consumeQueueOffset ==>
              Bytes.At(Flat(x.fs), UNIT_SIZE * r.consumeQueueOffset - BaseOf(x.fs), UnitBytes(UnitOf(r)))
  {
    hide Of, Indexed, UnitBytes, Flat, Represents, SlaveUnits, UnitOf;
    var r := rs[p];
    var q, k := QueueOf(r), r.consumeQueueOffset;
    var x, os, c, d := IndexAt(xs, q), Of(rs, q), |Of(rs[..a], q)|, |Of(rs[..b], q)|;
    assert k == |Of(rs[..p], q)| && RangeOf(x, size, rs, a, b, q);
    OfStep(rs, p, q);
    OfPrefix(rs[..p], a, q);
    OfPrefix(rs[..b], p + 1, q);
    OfPrefix(rs, p + 1, q);
    assert rs[..p][..a] == rs[..a] && rs[..b][..p + 1] == rs[..p + 1];
    SameSlots(os, c, d, k);
    if BaseOf(x.fs) <= UNIT_SIZE * k { SlotOf(x, size, SlaveUnits(os, c, d), k); }
  }
}
