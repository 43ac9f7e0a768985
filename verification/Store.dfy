// Whole runs of the store: puts fill the commit log and queue dispatch requests, the
// dispatch service turns them into consume-queue units.

module Store {
  import opened Appending
  import opened Arithmetic
  import opened Bytes
  import opened ConsumeQueues
  import opened Log
  import opened QueueKeys
  import opened Records
  import opened Segments

  datatype Queue = Queue(topic: seq<byte>, id: int32)

  function QueueOf(r: DispatchRequest): Queue { Queue(r.topic, r.queueId) }

  function UnitOf(r: DispatchRequest): Unit { Unit(r.commitLogOffset, Wrap32(r.msgSize), r.tagsCode) }

  // ---------------------------------------------------------------- requests of a log

  // What putMessage dispatched for the items of a log that starts at offset 0.
  function Issued(items: seq<Item>): seq<DispatchRequest> {
    if items == [] then []
    else
      var n := |items| - 1;
      Issued(items[..n]) + IssuedFor(items[n], Total(items[..n]))
  }

  function IssuedFor(i: Item, at: int): seq<DispatchRequest> {
    if i.Record? && Storable(i.m) then [Live(i.m, i.queueOffset, Wrap64(at))] else []
  }

  // The requests of one queue that reach its index.
  function Of(rs: seq<DispatchRequest>, q: Queue): (os: seq<DispatchRequest>)
    ensures |os| <= |rs|
  {
    if rs == [] then []
    else
      var r := rs[|rs| - 1];
      Of(rs[..|rs| - 1], q) + (if QueueOf(r) == q && Indexed(r.sysFlag) then [r] else [])
  }

  function Units(rs: seq<DispatchRequest>): (us: seq<Unit>)
    ensures |us| == |rs| && forall i :: 0 <= i < |us| ==> us[i] == UnitOf(rs[i])
  {
    seq(|rs|, i requires 0 <= i < |rs| => UnitOf(rs[i]))
  }

  lemma {:induction false} OfSnoc(rs: seq<DispatchRequest>, r: DispatchRequest, q: Queue)
    ensures Of(rs + [r], q) == Of(rs, q) + (if QueueOf(r) == q && Indexed(r.sysFlag) then [r] else [])
  {
    assert (rs + [r])[..|rs|] == rs;
  }

  lemma {:induction false} OfPrefix(rs: seq<DispatchRequest>, k: nat, q: Queue)
    requires k <= |rs|
    ensures Of(rs[..k], q) <= Of(rs, q)
    decreases |rs|
  {
    if k < |rs| {
      OfPrefix(rs[..|rs| - 1], k, q);
      assert rs[..|rs| - 1][..k] == rs[..k];
    } else {
      assert rs[..k] == rs;
    }
  }

  lemma {:induction false} OfStep(rs: seq<DispatchRequest>, k: nat, q: Queue)
    requires k < |rs|
    ensures Of(rs[..k + 1], q) == Of(rs[..k], q) + (if QueueOf(rs[k]) == q && Indexed(rs[k].sysFlag) then [rs[k]] else [])
  {
    assert rs[..k + 1] == rs[..k] + [rs[k]];
    OfSnoc(rs[..k], rs[k], q);
  }

  // Requests carry rising offsets and are numbered within their queue.
  ghost predicate InOrder(rs: seq<DispatchRequest>, end: int) {
    && (forall i :: 0 <= i < |rs| ==> 0 <= rs[i].commitLogOffset < rs[i].commitLogOffset + rs[i].msgSize <= end)
    && (forall i, j :: 0 <= i < j < |rs| ==> rs[i].commitLogOffset + rs[i].msgSize <= rs[j].commitLogOffset)
  }

  ghost predicate Numbered(rs: seq<DispatchRequest>) {
    forall i :: 0 <= i < |rs| ==> rs[i].consumeQueueOffset == |Of(rs[..i], QueueOf(rs[i]))|
  }

  lemma {:induction false} OfMember(rs: seq<DispatchRequest>, q: Queue, i: nat) returns (j: nat)
    requires i < |Of(rs, q)|
    ensures j < |rs| && Of(rs, q)[i] == rs[j] && QueueOf(rs[j]) == q && Indexed(rs[j].sysFlag)
  {
    hide Indexed;
    j := |rs| - 1;
    if i < |Of(rs[..j], q)| { j := OfMember(rs[..j], q, i); }
  }

  // In order as a list, hence in order within each queue.
  lemma {:induction false} OfInOrder(rs: seq<DispatchRequest>, q: Queue, end: int)
    requires InOrder(rs, end)
    ensures InOrder(Of(rs, q), end)
  {
    hide Indexed;
    if rs != [] {
      var n := |rs| - 1;
      OfInOrder(rs[..n], q, end);
      var os := Of(rs[..n], q);
      forall i | 0 <= i < |os|
        ensures os[i].commitLogOffset + os[i].msgSize <= rs[n].commitLogOffset
      {
        var j := OfMember(rs[..n], q, i);
      }
    }
  }

  // ---------------------------------------------------------------- dispatch

  type Indexes = map<Queue, Index>

  function IndexAt(xs: Indexes, q: Queue): Index { if q in xs then xs[q] else EMPTY_INDEX }

  datatype Dispatched = Dispatched(indexes: Indexes, warned: bool)

  // doDispatch: prepared and rolled-back messages never reach an index.
  function DoDispatch(xs: Indexes, size: int, r: DispatchRequest, contents: seq<byte>): Dispatched
    requires size > 0
  {
    if Indexed(r.sysFlag) then
      var p := PutUnit(IndexAt(xs, QueueOf(r)), size, UnitOf(r), r.consumeQueueOffset, contents);
      Dispatched(xs[QueueOf(r) := p.index], p.warned)
    else Dispatched(xs, false)
  }

  ghost function Upto(rs: seq<DispatchRequest>, done: nat): Queue -> nat
    requires done <= |rs|
  {
    q => |Of(rs[..done], q)|
  }

  // At least n, and everything up to request r.
  ghost function Grown(rs: seq<DispatchRequest>, n: Queue -> nat, r: nat): Queue -> nat
    requires r <= |rs|
  {
    q => Max(n(q), |Of(rs[..r], q)|)
  }

  // Each queue's index holds the first n(q) requests of that queue.
  ghost predicate Holds(xs: Indexes, size: int, rs: seq<DispatchRequest>, n: Queue -> nat) {
    && size > 0
    && (forall q :: n(q) <= |Of(rs, q)| && Represents(IndexAt(xs, q), size, Units(Of(rs, q)[..n(q)])))
  }

  // No index ends with an empty file.
  ghost predicate AllTailed(xs: Indexes) { forall q :: Tailed(IndexAt(xs, q)) }

  // From xs, with n(q) requests each, to ys, with m(q): an index that grew ends with a unit,
  // any other is as it was.
  ghost predicate Moved(xs: Indexes, ys: Indexes, n: Queue -> nat, m: Queue -> nat) {
    forall q :: if n(q) < m(q) then Tailed(IndexAt(ys, q)) else IndexAt(ys, q) == IndexAt(xs, q)
  }

  // Request p is number c of its queue, behind the earlier and before the later ones.
  lemma {:induction false} PlaceOf(rs: seq<DispatchRequest>, p: nat, n: nat, end: int)
    requires InOrder(rs, end) && p < |rs| && Indexed(rs[p].sysFlag)
    requires |Of(rs[..p], QueueOf(rs[p]))| <= n <= |Of(rs, QueueOf(rs[p]))|
    ensures var os, c := Of(rs, QueueOf(rs[p])), |Of(rs[..p], QueueOf(rs[p]))|;
            && c < |os| && os[c] == rs[p]
            && (c < n ==> rs[p].commitLogOffset <= LastOffset(Units(os[..n])))
            && (c == n ==> LastOffset(Units(os[..n])) < rs[p].commitLogOffset)
  {
    hide Indexed, Of;
    var q := QueueOf(rs[p]);
    OfStep(rs, p, q);
    OfPrefix(rs, p + 1, q);
    OfInOrder(rs, q, end);
    var os, c := Of(rs, q), |Of(rs[..p], q)|;
    assert os[c] == rs[p];
  }

  // The index of the first n requests, n >= c, grows by request number c exactly when
  // n == c and ignores it otherwise, without a warning.
  lemma {:induction false} OneUnit(x: Index, size: int, rs: seq<DispatchRequest>, p: nat, n: nat, end: int, contents: seq<byte>)
    requires InOrder(rs, end) && Numbered(rs) && p < |rs| && Indexed(rs[p].sysFlag) && |contents| == size
    requires |Of(rs[..p], QueueOf(rs[p]))| <= n <= |Of(rs, QueueOf(rs[p]))|
    requires Represents(x, size, Units(Of(rs, QueueOf(rs[p]))[..n]))
    ensures var os, c := Of(rs, QueueOf(rs[p])), |Of(rs[..p], QueueOf(rs[p]))|;
            var r := PutUnit(x, size, UnitOf(rs[p]), rs[p].consumeQueueOffset, contents);
            && !r.warned && c < |os| && Represents(r.index, size, Units(os[..Max(n, c + 1)]))
            && if c < n then r.index == x else Tailed(r.index)
  {
    PlaceOf(rs, p, n, end);
    assert rs[p].consumeQueueOffset == |Of(rs[..p], QueueOf(rs[p]))|;
    hide PutUnit, Represents, Indexed, Of, InOrder, LastOffset, Numbered, UnitOf, Units, Tailed;
    GrowOrIgnore(x, size, Of(rs, QueueOf(rs[p])), |Of(rs[..p], QueueOf(rs[p]))|, n, contents);
  }

  lemma {:induction false} GrowOrIgnore(x: Index, size: int, os: seq<DispatchRequest>, c: nat, n: nat, contents: seq<byte>)
    requires c < |os| && c <= n <= |os| && Represents(x, size, Units(os[..n])) && |contents| == size
    requires c < n ==> os[c].commitLogOffset <= LastOffset(Units(os[..n]))
    requires c == n ==> LastOffset(Units(os[..n])) < os[c].commitLogOffset
    ensures var r := PutUnit(x, size, UnitOf(os[c]), c, contents);
            && !r.warned && Represents(r.index, size, Units(os[..Max(n, c + 1)]))
            && if c < n then r.index == x else Tailed(r.index)
  {
    var us := Units(os[..n]);
    RepresentsLast(x, size, us);
    hide PutUnit, Represents, LastOffset, UnitOf;
    if c < n {
      PutOldUnit(x, size, UnitOf(os[c]), c, contents);
    } else {
      PutNextUnit(x, size, us, UnitOf(os[c]), contents);
      UnitsUpTo(os, n);
    }
  }

  lemma {:induction false} UnitsUpTo(os: seq<DispatchRequest>, n: nat)
    requires n < |os|
    ensures Units(os[..n + 1]) == Units(os[..n]) + [UnitOf(os[n])]
  {
    hide UnitOf;
  }

  lemma {:induction false} RepresentsLast(x: Index, size: int, us: seq<Unit>)
    requires Represents(x, size, us)
    ensures x.maxPhysic == LastOffset(us)
  {
  }

  // Dispatching request p when every earlier request of its queue is indexed: it is
  // appended if it is the next one and ignored if it is already there.  No warning either way.
  lemma {:induction false} DispatchOne(xs: Indexes, size: int, rs: seq<DispatchRequest>,
                                       n: Queue -> nat, p: nat, end: int, contents: seq<byte>)
    requires Holds(xs, size, rs, n) && InOrder(rs, end) && Numbered(rs) && p < |rs| && |contents| == size
    requires forall q :: n(q) >= |Of(rs[..p], q)|
    ensures var d := DoDispatch(xs, size, rs[p], contents);
            && !d.warned && Holds(d.indexes, size, rs, Grown(rs, n, p + 1))
            && Moved(xs, d.indexes, n, Grown(rs, n, p + 1))
  {
    hide PutUnit, Represents, Indexed, Of, InOrder, Numbered, Tailed;
    var r := rs[p];
    var d := DoDispatch(xs, size, r, contents);
    if Indexed(r.sysFlag) {
      OneUnit(IndexAt(xs, QueueOf(r)), size, rs, p, n(QueueOf(r)), end, contents);
    }
    forall q
      ensures var n' := Max(n(q), |Of(rs[..p + 1], q)|);
              && n' <= |Of(rs, q)| && Represents(IndexAt(d.indexes, q), size, Units(Of(rs, q)[..n']))
              && if n(q) < n' then Tailed(IndexAt(d.indexes, q)) else IndexAt(d.indexes, q) == IndexAt(xs, q)
    {
      OfStep(rs, p, q);
      OfPrefix(rs, p + 1, q);
    }
  }

  // ---------------------------------------------------------------- runs

  datatype Config = Config(logSize: int, maxMessageSize: int32, indexSize: int)

  // A file holds the longest message with a blank record behind it, and whole units.
  predicate Sane(c: Config) {
    && END_FILE_MIN_BLANK <= c.logSize < 0x8000_0000 && c.maxMessageSize + END_FILE_MIN_BLANK <= c.logSize
    && c.indexSize > 0 && Whole(c.indexSize)
  }

  // pending is the dispatch channel, done the number of requests taken from it so far.
  datatype State = State(books: Books, pending: seq<DispatchRequest>, indexes: Indexes, warned: bool, done: nat)

  const START: State := State(Books(map[], []), [], map[], false, 0)

  // A put can fail because a file cannot be created, at once or after it closed the old file.
  // Dispatch takes one request; `contents` is whatever a newly created index file maps.
  // Expiry drops the oldest n files of one index, never its last.
  datatype Step =
    | PutStep(m: Message)
    | FailedPutStep(m: Message, closed: bool)
    | DispatchStep(contents: seq<byte>)
    | ExpireStep(q: Queue, n: nat)

  predicate Allowed(c: Config, step: Step) {
    match step
    case PutStep(m) => Storable(m) && m.queueId >= 0
    case FailedPutStep(m, _) => Storable(m) && m.queueId >= 0
    case DispatchStep(contents) => |contents| == c.indexSize
    case ExpireStep(_, _) => true
  }

  function Next(c: Config, s: State, step: Step): State
    requires Sane(c)
  {
    match step
    case PutStep(m) =>
      var t := Put(s.books, 0, c.logSize, c.maxMessageSize, m);
      s.(books := t.books,
         pending := s.pending + if t.result.status == SizeExceeded then [] else [RequestOf(m, t.result)])
    case FailedPutStep(m, closed) =>
      if closed then s.(books := GivenUp(s.books, 0, c.logSize, c.maxMessageSize, m)) else s
    case DispatchStep(contents) =>
      if s.pending == [] then s
      else
        var d := DoDispatch(s.indexes, c.indexSize, s.pending[0], contents);
        s.(pending := s.pending[1..], indexes := d.indexes, warned := s.warned || d.warned, done := s.done + 1)
    case ExpireStep(q, n) =>
      var x := IndexAt(s.indexes, q);
      if n < |x.fs| then s.(indexes := s.indexes[q := x.(fs := x.fs[n..])]) else s
  }

  function Run(c: Config, steps: seq<Step>): State
    requires Sane(c)
  {
    if steps == [] then START else Next(c, Run(c, steps[..|steps| - 1]), steps[|steps| - 1])
  }

  function CounterOf(table: map<seq<byte>, int64>, q: Queue): int64 {
    var key := Key(q.topic, q.id); if key in table then table[key] else 0
  }

  // The counter of every queue is the number of its indexed messages.
  ghost predicate Counts(table: map<seq<byte>, int64>, rs: seq<DispatchRequest>) {
    forall q: Queue :: q.id >= 0 ==> CounterOf(table, q) == |Of(rs, q)|
  }

  ghost predicate Inv(c: Config, s: State)
    requires Sane(c)
  {
    var rs := Issued(s.books.items);
    && Layout(s.books.items, 0, c.logSize)
    && InOrder(rs, Total(s.books.items)) && Numbered(rs) && Counts(s.books.table, rs)
    && s.done <= |rs| && s.pending == rs[s.done..]
    && Holds(s.indexes, c.indexSize, rs, Upto(rs, s.done)) && AllTailed(s.indexes)
    && !s.warned
  }

  lemma {:induction false} IssuedSnoc(items: seq<Item>, i: Item)
    ensures Issued(items + [i]) == Issued(items) + IssuedFor(i, Total(items))
  {
    assert (items + [i])[..|items|] == items;
  }

  // A stored message is dispatched once, as the last request.
  lemma {:induction false} IssuedPut(items: seq<Item>, size: int, m: Message, q: int64)
    requires 8 <= size < 0x8000_0000 && Storable(m) && RecordLength(m) + END_FILE_MIN_BLANK <= size
    ensures var items' := items + PutItems(Total(items), size, m, q);
            Issued(items') == Issued(items) + [Live(m, q, Wrap64(Total(items') - RecordLength(m)))]
            && Total(items') - RecordLength(m) >= Total(items)
  {
    hide RecordLength, Issued, Total, LogBytes, Layout, Room, ItemBytes, Fits, Storable;
    var record := Record(m, q);
    var filler := Rest(Room(Total(items), size));
    IssuedSnoc(items, record);
    IssuedSnoc(items, filler);
    IssuedSnoc(items + [filler], record);
    LayoutSnoc(items, record, 0, size);
    LayoutSnoc(items, filler, 0, size);
    LayoutSnoc(items + [filler], record, 0, size);
    assert items + [filler, record] == items + [filler] + [record];
    assert IssuedFor(filler, Total(items)) == [];
    assert Issued(items + [filler]) == Issued(items);
    var items' := items + PutItems(Total(items), size, m, q);
    var at := if items' == items + [record] then Total(items) else Total(items + [filler]);
    assert IssuedFor(record, at) == [Live(m, q, Wrap64(at))];
    assert at == Total(items') - RecordLength(m);
  }

  lemma {:induction false} InOrderSnoc(rs: seq<DispatchRequest>, end: int, r: DispatchRequest, end': int)
    requires InOrder(rs, end) && 0 <= end <= r.commitLogOffset < r.commitLogOffset + r.msgSize <= end'
    ensures InOrder(rs + [r], end')
  {
  }

  lemma {:induction false} NumberedSnoc(rs: seq<DispatchRequest>, r: DispatchRequest)
    requires Numbered(rs) && r.consumeQueueOffset == |Of(rs, QueueOf(r))|
    ensures Numbered(rs + [r])
  {
    hide Of;
    var rs' := rs + [r];
    forall i | 0 <= i < |rs'|
      ensures rs'[i].consumeQueueOffset == |Of(rs'[..i], QueueOf(rs'[i]))|
    {
      assert rs'[..i] == if i < |rs| then rs[..i] else rs;
    }
  }

  // Every request takes at least a byte of log, so the counters cannot overflow first.
  lemma {:induction false} CountBound(rs: seq<DispatchRequest>, end: int)
    requires InOrder(rs, end) && end >= 0
    ensures |rs| <= end
  {
    if rs != [] {
      var n := |rs| - 1;
      CountBound(rs[..n], rs[n].commitLogOffset);
    }
  }

  lemma {:induction false} CountsSnoc(table: map<seq<byte>, int64>, rs: seq<DispatchRequest>, m: Message, r: DispatchRequest)
    requires Counts(table, rs) && m.queueId >= 0 && |rs| < 0x7FFF_FFFF_FFFF_FFFF
    requires QueueOf(r) == Queue(m.topic, m.queueId) && r.sysFlag == m.sysFlag
    ensures Counts(Counted(table, m), rs + [r])
  {
    hide Key, Indexed, Of;
    assert Counter(table, m) == CounterOf(table, QueueOf(r));
    forall q: Queue | q.id >= 0
      ensures CounterOf(Counted(table, m), q) == |Of(rs + [r], q)|
    {
      OfSnoc(rs, r, q);
      if Key(q.topic, q.id) == Key(m.topic, m.queueId) {
        KeyInjective(q.topic, q.id, m.topic, m.queueId);
      }
    }
  }

  // Requests still to come do not change what the indexes hold.
  lemma {:induction false} HoldsSnoc(xs: Indexes, size: int, rs: seq<DispatchRequest>, r: DispatchRequest, done: nat)
    requires done <= |rs| && Holds(xs, size, rs, Upto(rs, done))
    ensures Holds(xs, size, rs + [r], Upto(rs + [r], done))
  {
    hide Of, Represents, Indexed;
    assert (rs + [r])[..done] == rs[..done];
    forall q
      ensures |Of(rs[..done], q)| <= |Of(rs, q)| <= |Of(rs + [r], q)|
      ensures Of(rs + [r], q)[..|Of(rs[..done], q)|] == Of(rs, q)[..|Of(rs[..done], q)|]
    {
      OfSnoc(rs, r, q);
      OfPrefix(rs, done, q);
    }
  }

  lemma {:induction false} CounterKept(table: map<seq<byte>, int64>, m: Message, rs: seq<DispatchRequest>)
    requires Counts(table, rs)
    ensures Counts(table[Key(m.topic, m.queueId) := Counter(table, m)], rs)
  {
    hide Key, Of;
    forall q: Queue | q.id >= 0
      ensures CounterOf(table[Key(m.topic, m.queueId) := Counter(table, m)], q) == CounterOf(table, q)
    {
    }
  }

  lemma {:induction false} PutKeeps(c: Config, s: State, m: Message)
    requires Sane(c) && Inv(c, s) && Storable(m) && m.queueId >= 0
    requires Total(s.books.items) + 2 * c.logSize < 0x8000_0000_0000_0000
    ensures Inv(c, Next(c, s, PutStep(m)))
  {
    hide Layout, Total, Issued, InOrder, Numbered, Counts, Holds, Put, Storable, RecordLength, Counter, Counted, PutItems;
    if RecordLength(m) > c.maxMessageSize {
      TooLong(s.books, c.logSize, c.maxMessageSize, m);
      CounterKept(s.books.table, m, Issued(s.books.items));
    } else {
      StoredPut(c, s, m);
    }
  }

  // A put given up leaves the log, the counters and the indexes of a running store: at most
  // the old file has been closed, and no request has been queued.
  lemma {:induction false} FailedPutKeeps(c: Config, s: State, m: Message, closed: bool)
    requires Sane(c) && Inv(c, s) && Storable(m) && m.queueId >= 0
    requires Total(s.books.items) + 2 * c.logSize < 0x8000_0000_0000_0000
    ensures Inv(c, Next(c, s, FailedPutStep(m, closed)))
    ensures Issued(Next(c, s, FailedPutStep(m, closed)).books.items) == Issued(s.books.items)
  {
    hide Layout, Total, Issued, InOrder, Numbered, Counts, Holds, Storable, GivenUp, Upto;
    var rs, items := Issued(s.books.items), s.books.items;
    var b := GivenUp(s.books, 0, c.logSize, c.maxMessageSize, m);
    GivenUpBooks(s.books, c.logSize, c.maxMessageSize, m);
    CounterKept(s.books.table, m, rs);
    InOrderWider(rs, Total(items), Total(b.items));
  }

  lemma {:induction false} GivenUpBooks(b: Books, size: int, maxMessageSize: int32, m: Message)
    requires END_FILE_MIN_BLANK <= size < 0x8000_0000 && Layout(b.items, 0, size)
    requires Total(b.items) + 2 * size < 0x8000_0000_0000_0000
    ensures var g := GivenUp(b, 0, size, maxMessageSize, m);
            && Layout(g.items, 0, size) && Total(b.items) <= Total(g.items) && Issued(g.items) == Issued(b.items)
            && (g.table == b.table || g.table == b.table[Key(m.topic, m.queueId) := Counter(b.table, m)])
  {
    hide Layout, Total, Issued, Room, LogBytes, ItemBytes, RecordLength, Key, Counter, InFile, Storable;
    RoomForBlank(b.items, 0, size) by { ZeroInFile(size); }
    var filler := Rest(Room(Total(b.items), size));
    LayoutSnoc(b.items, filler, 0, size);
    IssuedSnoc(b.items, filler);
    FillerFits(Total(b.items), size);
  }

  lemma {:induction false} ZeroInFile(size: int)
    requires size > 0
    ensures InFile(0, size) == 0
  {
  }

  lemma {:induction false} FillerFits(end: int, size: int)
    requires END_FILE_MIN_BLANK <= size < 0x8000_0000 && Room(end, size) >= END_FILE_MIN_BLANK
    requires 0 <= end < end + size < 0x8000_0000_0000_0000
    ensures Fits(Rest(Room(end, size)), end, size)
  {
  }

  lemma {:induction false} InOrderWider(rs: seq<DispatchRequest>, end: int, end': int)
    requires InOrder(rs, end) && end <= end'
    ensures InOrder(rs, end')
  {
  }

  lemma {:induction false} TooLong(b: Books, size: int, maxMessageSize: int32, m: Message)
    requires size > 0 && RecordLength(m) > maxMessageSize
    ensures var t := Put(b, 0, size, maxMessageSize, m);
            && t.result.status == SizeExceeded && t.books.items == b.items
            && t.books.table == b.table[Key(m.topic, m.queueId) := Counter(b.table, m)]
  {
    hide Key, RecordLength, Room, Total, ItemBytes;
    assert b.items + [] == b.items;
  }

  // What a put that is not too long answers, and the request it queues.
  lemma {:induction false} PutIssues(c: Config, s: State, m: Message)
    requires Sane(c) && Inv(c, s) && Storable(m) && m.queueId >= 0 && RecordLength(m) <= c.maxMessageSize
    requires Total(s.books.items) + 2 * c.logSize < 0x8000_0000_0000_0000
    ensures var t := Put(s.books, 0, c.logSize, c.maxMessageSize, m);
            var rs, end := Issued(s.books.items), Total(s.books.items);
            && t.result.status == AppendOk && Layout(t.books.items, 0, c.logSize)
            && t.books.table == Counted(s.books.table, m)
            && Issued(t.books.items) == rs + [RequestOf(m, t.result)]
            && t.result.logicsOffset == |Of(rs, Queue(m.topic, m.queueId))|
            && end <= t.result.wroteOffset == Total(t.books.items) - RecordLength(m) < 0x8000_0000_0000_0000
            && 0 < t.result.wroteBytes == RecordLength(m) < 0x8000_0000
            && UnitOf(RequestOf(m, t.result)) == Unit(t.result.wroteOffset, t.result.wroteBytes, m.tagsCode)
  {
    PositiveLength(m);
    hide Layout, Total, Issued, InOrder, Numbered, Counts, Holds, Put, Storable, RecordLength, Counter, Counted, PutItems;
    var items, q := s.books.items, Counter(s.books.table, m);
    PutStores(s.books, 0, c.logSize, c.maxMessageSize, m);
    PutItemsFit(items, 0, c.logSize, m, q);
    IssuedPut(items, c.logSize, m, q);
    PutTotal(items, c.logSize, m, q);
    CounterIs(s.books.table, m, Issued(items));
  }

  lemma {:induction false} StoredPut(c: Config, s: State, m: Message)
    requires Sane(c) && Inv(c, s) && Storable(m) && m.queueId >= 0 && RecordLength(m) <= c.maxMessageSize
    requires Total(s.books.items) + 2 * c.logSize < 0x8000_0000_0000_0000
    ensures Inv(c, Next(c, s, PutStep(m)))
  {
    hide Wrap64, Wrap32, Layout, Total, Issued, InOrder, Numbered, Counts, Holds, Put, Storable, RecordLength, Counter, Counted, Of;
    PutIssues(c, s, m);
    var rs, t := Issued(s.books.items), Put(s.books, 0, c.logSize, c.maxMessageSize, m);
    var r := RequestOf(m, t.result);
    InOrderSnoc(rs, Total(s.books.items), r, Total(t.books.items));
    CountBound(rs, Total(s.books.items));
    NumberedSnoc(rs, r);
    CountsSnoc(s.books.table, rs, m, r);
    HoldsSnoc(s.indexes, c.indexSize, rs, r, s.done);
  }

  lemma {:induction false} PositiveLength(m: Message)
    ensures RecordLength(m) >= FIXED_PART
  {
  }

  lemma {:induction false} CounterIs(table: map<seq<byte>, int64>, m: Message, rs: seq<DispatchRequest>)
    requires Counts(table, rs) && m.queueId >= 0
    ensures Counter(table, m) == |Of(rs, Queue(m.topic, m.queueId))|
  {
    assert Counter(table, m) == CounterOf(table, Queue(m.topic, m.queueId));
  }

  // A put adds less than two files of log.
  lemma {:induction false} PutTotal(items: seq<Item>, size: int, m: Message, q: int64)
    requires 8 <= size < 0x8000_0000 && RecordLength(m) + END_FILE_MIN_BLANK <= size
    ensures Total(items) <= Total(items + PutItems(Total(items), size, m, q)) < Total(items) + 2 * size
  {
    hide RecordLength, Total, LogBytes, Layout, Room, ItemBytes, Fits;
    var record := Record(m, q);
    var filler := Rest(Room(Total(items), size));
    LayoutSnoc(items, record, 0, size);
    LayoutSnoc(items, filler, 0, size);
    LayoutSnoc(items + [filler], record, 0, size);
    assert items + [filler, record] == items + [filler] + [record];
  }

  lemma {:induction false} DispatchKeeps(c: Config, s: State, contents: seq<byte>)
    requires Sane(c) && Inv(c, s) && |contents| == c.indexSize
    ensures Inv(c, Next(c, s, DispatchStep(contents)))
  {
    hide Layout, Total, Issued, InOrder, Numbered, Counts, Represents, DoDispatch, Of;
    if s.pending != [] {
      var rs := Issued(s.books.items);
      var n := Upto(rs, s.done);
      DispatchOne(s.indexes, c.indexSize, rs, n, s.done, Total(s.books.items), contents);
      forall q ensures |Of(rs[..s.done], q)| <= |Of(rs[..s.done + 1], q)| {
        OfStep(rs, s.done, q);
      }
    }
  }

  lemma {:induction false} ExpireKeeps(c: Config, s: State, q: Queue, n: nat)
    requires Sane(c) && Inv(c, s)
    ensures Inv(c, Next(c, s, ExpireStep(q, n)))
  {
    hide Layout, Total, Issued, InOrder, Numbered, Counts, Represents, Of;
    var x, rs := IndexAt(s.indexes, q), Issued(s.books.items);
    if n < |x.fs| {
      ExpireFiles(x, c.indexSize, Units(Of(rs, q)[..|Of(rs[..s.done], q)|]), n);
    }
  }

  lemma {:induction false} PutGrows(c: Config, s: State, step: Step)
    requires Sane(c)
    ensures s.books.items <= Next(c, s, step).books.items
  {
    hide Total, Room, Layout, ItemBytes, AppendEffect, DoDispatch;
  }

  lemma {:induction false} TotalOfPrefix(items: seq<Item>, items': seq<Item>)
    requires items <= items'
    ensures Total(items) <= Total(items')
  {
    TotalMonotone(items', |items|, |items'|);
    assert items'[..|items|] == items && items'[..|items'|] == items';
  }

  lemma {:induction false} StartInv(c: Config)
    requires Sane(c)
    ensures Inv(c, START)
  {
    assert UnitsBytes([]) == [];
    assert EMPTY_INDEX.fs == [] && Flat([]) == [];
  }

  // After any run of puts, failed puts, dispatches and expiries in which the log stays within 63-bit offsets, every
  // queue's index holds exactly its messages dispatched so far, the counters count its
  // messages, and no dispatch ever found the queue out of order.
  lemma {:induction false} RunInv(c: Config, steps: seq<Step>)
    requires Sane(c) && (forall i :: 0 <= i < |steps| ==> Allowed(c, steps[i]))
    requires Total(Run(c, steps).books.items) + 2 * c.logSize < 0x8000_0000_0000_0000
    ensures Inv(c, Run(c, steps))
  {
    hide Total, Inv, Next;
    if steps == [] {
      StartInv(c);
    } else {
      var n := |steps| - 1;
      var s := Run(c, steps[..n]);
      PutGrows(c, s, steps[n]);
      TotalOfPrefix(s.books.items, Run(c, steps).books.items);
      RunInv(c, steps[..n]);
      assert Allowed(c, steps[n]);
      match steps[n]
      case PutStep(m) => PutKeeps(c, s, m);
      case FailedPutStep(m, closed) => FailedPutKeeps(c, s, m, closed);
      case DispatchStep(contents) => DispatchKeeps(c, s, contents);
      case ExpireStep(q, k) => ExpireKeeps(c, s, q, k);
    }
  }

  lemma {:induction false} IssuedPrefix(items: seq<Item>, items': seq<Item>)
    requires items <= items'
    ensures Issued(items) <= Issued(items')
    decreases |items'|
  {
    if items != items' { IssuedPrefix(items, items'[..|items'| - 1]); }
  }

  lemma {:induction false} RunPrefix(c: Config, steps: seq<Step>, i: nat)
    requires Sane(c) && i <= |steps|
    ensures Run(c, steps[..i]).books.items <= Run(c, steps).books.items
    decreases |steps|
  {
    hide Next;
    if i == |steps| {
      assert steps[..i] == steps;
    } else {
      var n := |steps| - 1;
      RunPrefix(c, steps[..n], i);
      assert steps[..n][..i] == steps[..i];
      PutGrows(c, Run(c, steps[..n]), steps[n]);
    }
  }

  // Every dispatched message of every queue stands in the slot its request names.
  lemma {:induction false} SlotInState(c: Config, s: State, p: nat)
    requires Sane(c) && Inv(c, s) && p < s.done && (Issued(s.books.items)[p].sysFlag / 4) % 4 in {0, 2}
    ensures var r := Issued(s.books.items)[p];
            var x := IndexAt(s.indexes, QueueOf(r));
            BaseOf(x.fs) <= UNIT_SIZE * r.consumeQueueOffset ==>
              At(Flat(x.fs), UNIT_SIZE * r.consumeQueueOffset - BaseOf(x.fs), UnitBytes(UnitOf(r)))
  {
    hide Layout, Total, Issued, InOrder, Counts, Represents, Of, Indexed, UnitBytes, Flat;
    var rs := Issued(s.books.items);
    var r := rs[p];
    IndexedBits(r.sysFlag);
    var q, k, n := QueueOf(r), r.consumeQueueOffset, |Of(rs[..s.done], QueueOf(r))|;
    assert k == |Of(rs[..p], q)|;
    var x := IndexAt(s.indexes, q);
    OfStep(rs, p, q);
    assert rs[..s.done][..p + 1] == rs[..p + 1];
    OfPrefix(rs[..s.done], p + 1, q);
    OfPrefix(rs, s.done, q);
    var us := Units(Of(rs, q)[..n]);
    assert Represents(x, c.indexSize, us) && us[k] == UnitOf(r);
    hide Inv, Holds;
    if BaseOf(x.fs) <= UNIT_SIZE * k { SlotOf(x, c.indexSize, us, k); }
  }

  // The producer is told where its message will be found: if step i of a run stored m and
  // answered with the log offset and queue offset in `r`, then from the moment its request
  // has been dispatched, slot r.logicsOffset of m's queue holds that offset, the record's
  // length and its tags, for the rest of the run (while the slot's file has not expired).
  lemma {:induction false} ProducerFindsSlot(c: Config, steps: seq<Step>, i: nat, m: Message)
    requires Sane(c) && (forall k :: 0 <= k < |steps| ==> Allowed(c, steps[k]))
    requires Total(Run(c, steps).books.items) + 2 * c.logSize < 0x8000_0000_0000_0000
    requires i < |steps| && steps[i] == PutStep(m) && RecordLength(m) <= c.maxMessageSize && (m.sysFlag / 4) % 4 in {0, 2}
    ensures var before, after := Run(c, steps[..i]), Run(c, steps);
            var r := Put(before.books, 0, c.logSize, c.maxMessageSize, m).result;
            var x := IndexAt(after.indexes, Queue(m.topic, m.queueId));
            && r.status == AppendOk && r.logicsOffset >= 0 && 0 <= r.wroteOffset < 0x8000_0000_0000_0000
            && r.wroteBytes == RecordLength(m) < 0x8000_0000
            && (after.done > |Issued(before.books.items)| && BaseOf(x.fs) <= UNIT_SIZE * r.logicsOffset ==>
                  At(Flat(x.fs), UNIT_SIZE * r.logicsOffset - BaseOf(x.fs),
                     UnitBytes(Unit(r.wroteOffset, r.wroteBytes, m.tagsCode))))
  {
    hide Wrap64, Wrap32, Layout, Total, Issued, Inv, Put, RecordLength, Run, Storable, Indexed, UnitBytes, Flat, Next;
    var before, after := Run(c, steps[..i]), Run(c, steps);
    RunStep(c, steps, i);
    RunPrefix(c, steps, i);
    TotalOfPrefix(before.books.items, after.books.items);
    RunInv(c, steps[..i]);
    RunInv(c, steps);
    assert Allowed(c, steps[i]);
    PutIssues(c, before, m);
    RunPrefix(c, steps, i + 1);
    IssuedPrefix(Run(c, steps[..i + 1]).books.items, after.books.items);
    var p := |Issued(before.books.items)|;
    NextPut(c, before, m);
    if after.done > p {
      DoneBound(c, after);
      SlotInState(c, after, p);
    }
  }

  lemma {:induction false} RunStep(c: Config, steps: seq<Step>, i: nat)
    requires Sane(c) && i < |steps|
    ensures Run(c, steps[..i + 1]) == Next(c, Run(c, steps[..i]), steps[i])
  {
    hide Next;
    assert steps[..i + 1][..i] == steps[..i];
  }

  lemma {:induction false} NextPut(c: Config, s: State, m: Message)
    requires Sane(c)
    ensures Next(c, s, PutStep(m)).books == Put(s.books, 0, c.logSize, c.maxMessageSize, m).books
  {
    hide Put;
  }

  lemma {:induction false} DoneBound(c: Config, s: State)
    requires Sane(c) && Inv(c, s)
    ensures s.done <= |Issued(s.books.items)|
  {
  }
}
