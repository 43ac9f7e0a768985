// Which messages a consumer gets to see, read off the two transaction bits of the system
// flag, bits 2 and 3: 0 plain, 1 prepared, 2 committed, 3 rolled back.

module Visibility {
  import opened Appending
  import opened Arithmetic
  import opened Bytes
  import opened ConsumeQueues
  import IndexRecovery
  import opened Log
  import opened QueueKeys
  import opened Records
  import opened Segments
  import opened Store

  // The units of the plain and committed messages of one queue that a log starting at
  // offset 0 holds, each with its record's offset, its length and its tags.
  function VisibleUnits(items: seq<Item>, q: Queue): (us: seq<Unit>)
    ensures |us| <= |items|
  {
    if items == [] then []
    else
      var n := |items| - 1;
      VisibleUnits(items[..n], q) + VisibleUnit(items[n], Total(items[..n]), q)
  }

  // An item's unit, if the item is a record of the queue with transaction bits 0 or 2.
  function VisibleUnit(i: Item, at: int, q: Queue): (us: seq<Unit>)
    ensures |us| <= 1
  {
    match i
    case Filler(_) => []
    case Record(m, _) =>
      if m.topic == q.topic && m.queueId == q.id && (m.sysFlag / 4) % 4 in {0, 2}
      then [Unit(Wrap64(at), Wrap32(RecordLength(m)), m.tagsCode)] else []
  }

  lemma {:induction false} UnitsSnoc(os: seq<DispatchRequest>, r: DispatchRequest)
    ensures Units(os + [r]) == Units(os) + [UnitOf(r)]
  {
    hide UnitOf;
  }

  // The units of the requests of a well-formed log are those of its visible messages.
  lemma {:induction false} UnitsOfLog(items: seq<Item>, size: int, q: Queue)
    requires Layout(items, 0, size)
    ensures Units(Of(Issued(items), q)) == VisibleUnits(items, q)
  {
    hide RecordLength, Total, Wrap32, Wrap64, Indexed, Of, Units, Storable;
    if items == [] {
      NoUnits(q);
    } else {
      var n := |items| - 1;
      UnitsOfLog(items[..n], size, q);
      if items[n].Record? {
        var r := Live(items[n].m, items[n].queueOffset, Wrap64(Total(items[..n])));
        OfSnoc(Issued(items[..n]), r, q);
        IndexedBits(r.sysFlag);
        UnitsSnoc(Of(Issued(items[..n]), q), r);
        assert Issued(items) == Issued(items[..n]) + [r];
      } else {
        assert Issued(items) == Issued(items[..n]);
      }
    }
  }

  lemma {:induction false} NoUnits(q: Queue)
    ensures Units(Of([], q)) == []
  {
  }

  // Dispatching a request that is next in line: a plain or committed message adds its unit to
  // the index of its own queue and to no other; a prepared or rolled-back one changes nothing.
  lemma {:induction false} DispatchAppends(xs: Indexes, size: int, us: seq<Unit>, r: DispatchRequest, contents: seq<byte>)
    requires Represents(IndexAt(xs, QueueOf(r)), size, us) && |contents| == size
    requires r.consumeQueueOffset == |us| && LastOffset(us) < r.commitLogOffset
    ensures size > 0
    ensures var d := DoDispatch(xs, size, r, contents);
            && !d.warned
            && (forall q :: q != QueueOf(r) ==> IndexAt(d.indexes, q) == IndexAt(xs, q))
            && ((r.sysFlag / 4) % 4 in {0, 2} ==>
                  Represents(IndexAt(d.indexes, QueueOf(r)), size,
                             us + [Unit(r.commitLogOffset, Wrap32(r.msgSize), r.tagsCode)]))
            && ((r.sysFlag / 4) % 4 in {1, 3} ==> d.indexes == xs)
  {
    hide PutUnit, Represents;
    RepresentsLast(IndexAt(xs, QueueOf(r)), size, us);
    PositiveSize(IndexAt(xs, QueueOf(r)), size, us);
    PutNextUnit(IndexAt(xs, QueueOf(r)), size, us, UnitOf(r), contents);
  }

  lemma {:induction false} PositiveSize(x: Index, size: int, us: seq<Unit>)
    requires Represents(x, size, us)
    ensures size > 0
  {
  }

  // The units dispatched so far are the first visible ones, and all once nothing is pending.
  lemma {:induction false} DispatchedUnits(c: Config, s: State, q: Queue)
    requires Sane(c) && Inv(c, s)
    ensures var rs := Issued(s.books.items);
            var n := |Of(rs[..s.done], q)|;
            && n <= |Of(rs, q)| && Units(Of(rs, q)[..n]) <= VisibleUnits(s.books.items, q)
            && (s.pending == [] ==> Units(Of(rs, q)[..n]) == VisibleUnits(s.books.items, q))
  {
    hide Total, Represents, Layout, InOrder, Numbered, Issued, Of;
    var rs := Issued(s.books.items);
    UnitsOfLog(s.books.items, c.logSize, q);
    OfPrefix(rs, s.done, q);
    if s.pending == [] {
      assert rs[..s.done] == rs;
      assert Of(rs, q)[..|Of(rs, q)|] == Of(rs, q);
    }
  }

  // Over every run: the counter of a queue is the number of its plain and committed messages
  // in the log, and once everything has been dispatched its index holds a unit for each of
  // them, in log order, and no other unit.
  lemma {:induction false} RunShowsVisible(c: Config, steps: seq<Step>, q: Queue)
    requires Sane(c) && (forall i :: 0 <= i < |steps| ==> Allowed(c, steps[i]))
    requires Total(Run(c, steps).books.items) + 2 * c.logSize < 0x8000_0000_0000_0000
    ensures var s := Run(c, steps);
            && (q.id >= 0 ==> CounterOf(s.books.table, q) == |VisibleUnits(s.books.items, q)|)
            && (s.pending == [] ==> Represents(IndexAt(s.indexes, q), c.indexSize, VisibleUnits(s.books.items, q)))
            && (s.pending == [] ==> UNIT_SIZE * |VisibleUnits(s.books.items, q)| == MaxOffset(IndexAt(s.indexes, q).fs))
  {
    hide Run, Total, Represents, Layout, InOrder, Numbered, Issued, Of;
    RunInv(c, steps);
    var s := Run(c, steps);
    UnitsOfLog(s.books.items, c.logSize, q);
    DispatchedUnits(c, s, q);
    if s.pending == [] { IndexRecovery.UnitCount(IndexAt(s.indexes, q), c.indexSize, VisibleUnits(s.books.items, q)); }
  }
}
