// From put to pull: what a consumer gets from a running store.

module Delivery {
  import opened Appending
  import opened Arithmetic
  import opened Bytes
  import opened ConsumeQueues
  import opened Decoding
  import opened Expiry
  import opened IndexRecovery
  import opened Log
  import opened Pull
  import opened Records
  import opened Replay
  import opened Segments
  import opened Store
  import opened Visibility

  // The commit-log files of the store, of which the oldest may have expired.
  ghost predicate StoredLog(v: View, items: seq<Item>) {
    && Chain(v.fs, v.size) && v.fs != [] && v.fs[0].from <= Total(items) && Layout(items, 0, v.size)
    && Flat(v.fs) == LogBytes(items, 0)[v.fs[0].from..]
  }

  // Request i was issued for one record of the log.
  lemma {:induction false} IssuedAt(items: seq<Item>, i: nat) returns (j: nat)
    requires i < |Issued(items)|
    ensures j < |items| && items[j].Record? && Storable(items[j].m)
    ensures Issued(items)[i] == Live(items[j].m, items[j].queueOffset, Wrap64(Total(items[..j])))
    decreases |items|
  {
    hide Storable, Total, Wrap64, Live;
    var n := |items| - 1;
    if i < |Issued(items[..n])| {
      j := IssuedAt(items[..n], i);
      assert items[..n][..j] == items[..j];
    } else {
      j := n;
    }
  }

  // The unit of a request points at its record, inside one file of the log.
  lemma {:induction false} UnitPoints(v: View, items: seq<Item>, i: nat) returns (j: nat)
    requires StoredLog(v, items) && i < |Issued(items)|
    ensures var u := UnitOf(Issued(items)[i]);
            && j < |items| && items[j].Record? && u.offset == Total(items[..j]) && u.size == Length(items[j])
            && u.tags == items[j].m.tagsCode && Points(v, u)
            && Storable(items[j].m) && Issued(items)[i] == Live(items[j].m, items[j].queueOffset, Wrap64(Total(items[..j])))
  {
    hide Layout, LogBytes, Total, Flat, Issued, ItemBytes, RecordLength, Wrap64, Wrap32, Fits, InFile, Storable;
    j := IssuedAt(items, i);
    ItemAt(items, 0, v.size, j);
    TotalStep(items, j);
    TotalMonotone(items, j + 1, |items|);
    assert items[..|items|] == items;
    FlatLength(v.fs, v.size);
    assert Sound(v.fs[0], v.size);
    hide Chain;
    PositiveLength(items[j].m);
    InRange(items[j], Total(items[..j]), v.size);
  }

  lemma {:induction false} InRange(i: Item, at: int, size: int)
    requires Fits(i, at, size) && i.Record?
    ensures at + RecordLength(i.m) < 0x8000_0000_0000_0000 && RecordLength(i.m) < 0x8000_0000
    ensures InFile(at, size) + RecordLength(i.m) <= size && Wrap64(at) == at && Wrap32(RecordLength(i.m)) == RecordLength(i.m)
  {
    hide InFile;
  }

  // Every client decodes the bytes into message m, stored there as number q of its queue.
  ghost predicate IsMessage(g: Selected, m: Message, q: int64) {
    Storable(m) && -0x8000_0000_0000_0000 <= g.start < 0x8000_0000_0000_0000 && Decodes(g.bytes, m, q, g.start)
  }

  lemma {:induction false} RecordIsMessage(i: Item, at: int, size: int)
    requires Fits(i, at, size) && i.Record?
    ensures IsMessage(Selected(at, ItemBytes(i, at)), i.m, i.queueOffset)
  {
    hide InFile, Decodes, RecordLength, Encode, Wrap64;
    InRange(i, at, size);
    hide Fits;
    EncodeDecodes(i.m, i.queueOffset, at);
  }

  // A stored unit's slice of the log is its record as it was written.
  lemma {:induction false} SliceIsRecord(v: View, items: seq<Item>, j: nat, u: Unit)
    requires StoredLog(v, items) && j < |items| && u.offset == Total(items[..j]) && u.size == Length(items[j])
    requires v.fs[0].from <= u.offset
    ensures Slice(v, u) == Selected(u.offset, ItemBytes(items[j], u.offset))
    ensures items[j].Record? ==> IsMessage(Slice(v, u), items[j].m, items[j].queueOffset)
  {
    hide Layout, Total, Flat, ItemBytes, Fits, LogBytes, IsMessage;
    ItemAt(items, 0, v.size, j);
    if items[j].Record? { RecordIsMessage(items[j], u.offset, v.size); }
    assert Sound(v.fs[0], v.size);
    hide Chain;
    var all, p := LogBytes(items, 0), u.offset - v.fs[0].from;
    SliceOfSlice(all, v.fs[0].from, |all|, p, p + u.size);
    assert all[v.fs[0].from..|all|] == all[v.fs[0].from..];
  }

  // The units of a queue rise through the log.
  lemma {:induction false} QueuePulls(v: View, items: seq<Item>, q: Queue, n: nat, k: nat)
    requires StoredLog(v, items) && n <= |Of(Issued(items), q)| && k <= n
    ensures Pulls(v, Units(Of(Issued(items), q)[..n]), k)
  {
    hide Layout, LogBytes, Total, Flat, Issued, Of, UnitOf, Chain, Points;
    var rs := Issued(items);
    var os := Of(rs, q);
    var us := Units(os[..n]);
    assert Chain(v.fs, v.size) && v.fs != [];
    IssuedInOrder(items, v.size);
    OfInOrder(rs, q, Total(items));
    RisingUnits(os, n, Total(items));
    forall i | k <= i < |us| ensures Points(v, us[i]) {
      var a := OfMember(rs, q, i);
      var j := UnitPoints(v, items, a);
      assert us[i] == UnitOf(os[i]);
    }
  }

  lemma {:induction false} RisingUnits(os: seq<DispatchRequest>, n: nat, end: int)
    requires InOrder(os, end) && n <= |os|
    ensures Rising(Units(os[..n]))
  {
    var us := Units(os[..n]);
    forall i, j | 0 <= i < j < |us| ensures us[i].offset < us[j].offset {
      assert us[i] == UnitOf(os[i]) && us[j] == UnitOf(os[j]);
    }
  }

  // ---------------------------------------------------------------- index files that were shut

  // With nothing dead from file i on, nothing goes and nothing is shut.
  lemma {:induction false} LiveStay(fs: seq<File>, i: nat, size: int, phyMin: int, destroyed: seq<bool>)
    requires |destroyed| == |fs| && i <= |fs| && size >= UNIT_SIZE
    requires forall j :: i <= j < |fs| - 1 ==> !Dead(fs[j], size, phyMin)
    ensures OffsetSurvivors(fs, i, size, phyMin, destroyed) == fs[i..]
    decreases |fs| - i
  {
    hide LastUnit;
    if i + 1 < |fs| {
      LiveStay(fs, i + 1, size, phyMin, destroyed);
      assert fs[i..] == [fs[i]] + fs[i + 1..];
    }
  }

  ghost predicate ShutIsDead(f: File, size: int, phyMin: int)
    requires size >= UNIT_SIZE
  {
    f.available || Dead(f, size, phyMin)
  }

  lemma {:induction false} ShutAlike(f: File, size: int)
    requires size >= UNIT_SIZE
    ensures LastUnit(Shut(f), size) == LastUnit(f, size)
  {
  }

  // Expiry by offset shuts dead files only, and these come before all others.
  lemma {:induction false} SurvivorsOpen(x: Index, size: int, us: seq<Unit>, i: nat, phyMin: int, destroyed: seq<bool>)
    requires Represents(x, size, us) && size >= UNIT_SIZE && Rising(us) && |destroyed| == |x.fs| && i < |x.fs|
    requires forall j :: 0 <= j < |x.fs| ==> x.fs[j].available
    ensures var r := OffsetSurvivors(x.fs, i, size, phyMin, destroyed);
            r != [] && Opens(r) && forall a :: 0 <= a < |r| ==> ShutIsDead(r[a], size, phyMin)
    decreases |x.fs| - i
  {
    hide Represents, LastUnit;
    var fs := x.fs;
    if i + 1 < |fs| && Shown(fs[i], size) {
      ShutAlike(fs[i], size);
      SurvivorsOpen(x, size, us, i + 1, phyMin, destroyed);
      if !Dead(fs[i], size, phyMin) {
        forall j | i < j < |fs| - 1 ensures !Dead(fs[j], size, phyMin) {
          if Dead(fs[j], size, phyMin) { DeadFirst(x, size, us, i, j, phyMin); }
        }
        LiveStay(fs, i, size, phyMin, destroyed);
      }
    }
  }

  lemma {:induction false} DeadShuts(x: Index, size: int, us: seq<Unit>, phyMin: int)
    requires Serves(x, size, us) && size >= UNIT_SIZE && Rising(us)
    requires forall a :: 0 <= a < |x.fs| ==> ShutIsDead(x.fs[a], size, phyMin)
    ensures ShutsAreDead(x, size, us, phyMin)
  {
    hide Represents, OpenFrom, LastUnit, Opens;
    var o := OpenFile(x, size, us);
    if o > 0 {
      LastUnitOf(x, size, us, o - 1);
      assert ShutIsDead(x.fs[o - 1], size, phyMin);
      var b := x.fs[o].from / UNIT_SIZE;
      assert us[b - 1].offset < phyMin;
    }
  }

  // So expiry by offset, whichever deletes fail, leaves an index that serves pulls and in which
  // every shut file is dead, if it leaves a chain of files at all.
  lemma {:induction false} ExpiryKeepsServing(x: Index, size: int, us: seq<Unit>, phyMin: int, destroyed: seq<bool>)
    requires Serves(x, size, us) && size >= UNIT_SIZE && Rising(us) && |destroyed| == |x.fs| && ShutsAreDead(x, size, us, phyMin)
    ensures var r := OffsetSurvivors(x.fs, 0, size, phyMin, destroyed);
            && (Chain(r, size) <==> Tidy(x.fs, size, phyMin, destroyed))
            && (Chain(r, size) ==> Serves(x.(fs := r), size, us) && ShutsAreDead(x.(fs := r), size, us, phyMin))
  {
    hide Represents, OpenFrom, LastUnit, Chain, Tidy, Rising;
    var r := OffsetSurvivors(x.fs, 0, size, phyMin, destroyed);
    var k := OffsetExpiryKeepsOrder(x, size, us, phyMin, destroyed);
    if x.fs[0].available {
      SurvivorsOpen(x, size, us, 0, phyMin, destroyed);
      if Chain(r, size) { DeadShuts(x.(fs := r), size, us, phyMin); }
    } else {
      assert x.fs[0..] == x.fs;
    }
  }

  // Deletes that all succeed remove exactly the oldest files whose messages are all gone from the
  // log: every unit that goes points below it, and the first file left holds one that does not,
  // unless it is the last.
  lemma {:induction false} DeadFilesGo(x: Index, size: int, us: seq<Unit>, i: nat, phyMin: int, destroyed: seq<bool>) returns (k: nat)
    requires Represents(x, size, us) && size >= UNIT_SIZE && Rising(us) && |destroyed| == |x.fs| && i < |x.fs|
    requires forall j :: 0 <= j < |x.fs| ==> x.fs[j].available && destroyed[j]
    ensures i <= k < |x.fs| && OffsetSurvivors(x.fs, i, size, phyMin, destroyed) == x.fs[k..]
    ensures forall j :: 0 <= j < |us| && x.fs[i].from <= UNIT_SIZE * j < x.fs[k].from ==> us[j].offset < phyMin
    ensures k + 1 < |x.fs| ==>
      exists j :: 0 <= j < |us| && x.fs[k].from <= UNIT_SIZE * j < x.fs[k + 1].from && us[j].offset >= phyMin
    decreases |x.fs| - i
  {
    k := i;
    hide Represents, LastUnit;
    if i + 1 < |x.fs| {
      LastUnitOf(x, size, us, i);
      LinkOf(x, size, us, i);
      var b := x.fs[i + 1].from / UNIT_SIZE;
      if us[b - 1].offset < phyMin {
        k := DeadFilesGo(x, size, us, i + 1, phyMin, destroyed);
        forall j | 0 <= j < |us| && x.fs[i].from <= UNIT_SIZE * j < x.fs[k].from ensures us[j].offset < phyMin {
          if j < b - 1 { assert us[j].offset < us[b - 1].offset; }
        }
      } else {
        LiveFrom(x, size, us, i, phyMin, destroyed);
      }
    }
  }

  lemma {:induction false} LiveFrom(x: Index, size: int, us: seq<Unit>, i: nat, phyMin: int, destroyed: seq<bool>)
    requires Represents(x, size, us) && size >= UNIT_SIZE && Rising(us) && |destroyed| == |x.fs| && i + 1 < |x.fs|
    requires !Dead(x.fs[i], size, phyMin)
    ensures OffsetSurvivors(x.fs, i, size, phyMin, destroyed) == x.fs[i..]
  {
    hide Represents, LastUnit, Rising;
    forall j | i <= j < |x.fs| - 1 ensures !Dead(x.fs[j], size, phyMin) {
      if j > i && Dead(x.fs[j], size, phyMin) { DeadFirst(x, size, us, i, j, phyMin); }
    }
    LiveStay(x.fs, i, size, phyMin, destroyed);
  }

  lemma {:induction false} LinkOf(x: Index, size: int, us: seq<Unit>, i: nat)
    requires Represents(x, size, us) && i + 1 < |x.fs| && size >= UNIT_SIZE
    ensures x.fs[i].from + UNIT_SIZE <= x.fs[i + 1].from
  {
    assert Link(x.fs, i + 1, size);
  }

  // ---------------------------------------------------------------- the whole queue

  // In every state a store can reach, whatever log and index files have expired or been shut, a
  // consumer that pulls queue q from offset k on, call after call, gets exactly the dispatched
  // messages of that queue from number k on, or from the first one whose index entry can be read,
  // that match its filter and are still stored, each once and in order, if and only if that first
  // message is not the log's first, matching and expired, with a readable and long enough file
  // in its place.  No message that is stored is behind an entry that cannot be read.
  lemma {:induction false} ConsumerGetsQueue(c: Config, s: State, v: View, q: Queue, k: nat)
    requires Sane(c) && Inv(c, s) && v.size == c.logSize && StoredLog(v, s.books.items)
    requires var rs, x := Issued(s.books.items), IndexAt(s.indexes, q);
             && k <= |Of(rs[..s.done], q)| && Serves(x, c.indexSize, Units(Of(rs, q)[..|Of(rs[..s.done], q)|]))
             && x.minLogic <= UNIT_SIZE * k
    ensures var rs, x := Issued(s.books.items), IndexAt(s.indexes, q);
            var us := Units(Of(rs, q)[..|Of(rs[..s.done], q)|]);
            && c.indexSize >= UNIT_SIZE && Pulls(v, us, k) && x.fs != []
            && var left, m := Max(k, x.fs[0].from / UNIT_SIZE), FirstThere(x, k);
               && k <= m <= |us|
               && (PullAll(v, x, c.indexSize, us, k) == Got(v, us, m, |us|) <==> !(m < |us| && Misled(v, us[m])))
               && (ShutsAreDead(x, c.indexSize, us, BaseOf(v.fs)) ==> left <= m && Got(v, us, left, |us|) == Got(v, us, m, |us|))
  {
    hide Layout, LogBytes, Total, Flat, Issued, Of, UnitOf, Points, Serves, Pulls, Got, PullAll, InOrder, Numbered, Counts, Misled,
      FirstThere, OpenFrom, ShutsAreDead;
    var rs, x := Issued(s.books.items), IndexAt(s.indexes, q);
    FirstBound(x, c.indexSize, Units(Of(rs, q)[..|Of(rs[..s.done], q)|]));
    var n := |Of(rs[..s.done], q)|;
    OfPrefix(rs, s.done, q);
    QueuePulls(v, s.books.items, q, n, k);
    WholeUnit(c.indexSize);
    var us := Units(Of(rs, q)[..n]);
    PullAllExact(v, x, c.indexSize, us, k);
    if ShutsAreDead(x, c.indexSize, us, BaseOf(v.fs)) { ShutHidesNothing(v, x, c.indexSize, us, k); }
  }

  lemma {:induction false} WholeUnit(size: int)
    requires size > 0 && Whole(size)
    ensures size >= UNIT_SIZE
  {
  }

  // ---------------------------------------------------------------- what the client decodes

  // The bytes of a pull result, one slice after another.
  function Sent(gs: seq<Selected>): seq<byte> {
    if gs == [] then [] else Sent(gs[..|gs| - 1]) + gs[|gs| - 1].bytes
  }

  // p is a plain or committed message of queue q that the log holds.
  ghost predicate InQueue(p: Kept, items: seq<Item>, q: Queue) {
    && Storable(p.m) && p.m.topic == q.topic && p.m.queueId == q.id && (p.m.sysFlag / 4) % 4 in {0, 2}
    && exists j :: 0 <= j < |items| && items[j] == Record(p.m, p.q) && p.at == Total(items[..j])
  }

  // The k-th unit of a queue, if its file is stored, is the record of one of its messages.
  lemma {:induction false} VisibleRecord(v: View, items: seq<Item>, q: Queue, k: nat) returns (p: Kept)
    requires StoredLog(v, items) && k < |VisibleUnits(items, q)| && Stored(v, VisibleUnits(items, q)[k])
    ensures var u := VisibleUnits(items, q)[k];
            InQueue(p, items, q) && u.tags == p.m.tagsCode && Slice(v, u).bytes == Encode(p.m, p.q, p.at)
  {
    hide Layout, LogBytes, Total, Flat, Issued, Of, Storable, Encode, Indexed, RecordLength, IsMessage;
    var rs, u := Issued(items), VisibleUnits(items, q)[k];
    UnitsOfLog(items, v.size, q);
    var i := OfMember(rs, q, k);
    var j := UnitPoints(v, items, i);
    IndexedBits(rs[i].sysFlag);
    if u.offset < v.fs[0].from { LookupMisses(v.fs, v.size, u.offset); }
    SliceIsRecord(v, items, j, u);
    p := Kept(items[j].m, items[j].queueOffset, Wrap64(u.offset));
  }

  // The slices are the records of the messages ps, all of them of queue q and matching the filter.
  ghost predicate AreRecords(ps: seq<Kept>, v: View, items: seq<Item>, q: Queue, gs: seq<Selected>) {
    && |ps| == |gs| && Sent(gs) == Joined(ps)
    && forall i :: 0 <= i < |ps| ==> InQueue(ps[i], items, q) && v.tags(ps[i].m.tagsCode)
  }

  // Whatever a consumer of a queue gets is, back to back, the records of stored messages of
  // that queue that match its filter.
  lemma {:induction false} GotIsRecords(v: View, items: seq<Item>, q: Queue, us: seq<Unit>, a: nat, b: nat) returns (ps: seq<Kept>)
    requires StoredLog(v, items) && us <= VisibleUnits(items, q) && b <= |us| && v.size > 0
    ensures AreRecords(ps, v, items, q, Got(v, us, a, b))
    decreases b
  {
    hide Layout, LogBytes, Total, Flat, AreRecords, VisibleUnits, Got, Chain;
    if a < b {
      var front := GotIsRecords(v, items, q, us, a, b - 1);
      ps := NextRecord(v, items, q, us, a, b, front);
    } else {
      NothingSent(v, items, q, us, a, b);
      ps := [];
    }
  }

  lemma {:induction false} NextRecord(v: View, items: seq<Item>, q: Queue, us: seq<Unit>, a: nat, b: nat, front: seq<Kept>)
    returns (ps: seq<Kept>)
    requires StoredLog(v, items) && us <= VisibleUnits(items, q) && a < b <= |us| && v.size > 0
    requires AreRecords(front, v, items, q, Got(v, us, a, b - 1))
    ensures AreRecords(ps, v, items, q, Got(v, us, a, b))
  {
    hide Layout, LogBytes, Total, Flat, Slice, InQueue, Encode, Stored, VisibleUnits, Joined, Sent, Got, Chain;
    GotStep(v, us, a, b);
    ps := front;
    if v.tags(us[b - 1].tags) && Stored(v, us[b - 1]) {
      var p := VisibleRecord(v, items, q, b - 1);
      SentSnoc(Got(v, us, a, b - 1), Slice(v, us[b - 1]));
      JoinedSnoc(front, p);
      ps := front + [p];
    }
  }

  lemma {:induction false} GotStep(v: View, us: seq<Unit>, a: nat, b: nat)
    requires v.size > 0 && v.fs != [] && a < b <= |us|
    ensures Got(v, us, a, b)
         == if v.tags(us[b - 1].tags) && Stored(v, us[b - 1]) then Got(v, us, a, b - 1) + [Slice(v, us[b - 1])]
            else Got(v, us, a, b - 1)
  {
    hide Stored, Slice;
  }

  lemma {:induction false} NothingSent(v: View, items: seq<Item>, q: Queue, us: seq<Unit>, a: nat, b: nat)
    requires v.size > 0 && v.fs != [] && b <= a && b <= |us|
    ensures AreRecords([], v, items, q, Got(v, us, a, b))
  {
  }

  lemma {:induction false} SentSnoc(gs: seq<Selected>, g: Selected)
    ensures Sent(gs + [g]) == Sent(gs) + g.bytes
  {
    assert (gs + [g])[..|gs|] == gs;
  }

  // So the client decodes it into exactly these messages, every field as it was stored, unless
  // a compressed body among them cannot be inflated: then it gets none of them.
  lemma {:induction false} ClientReads(r: Reading, v: View, items: seq<Item>, q: Queue, us: seq<Unit>, a: nat, b: nat)
    returns (ps: seq<Kept>)
    requires StoredLog(v, items) && us <= VisibleUnits(items, q) && b <= |us| && v.size > 0 && r.body
    ensures AreRecords(ps, v, items, q, Got(v, us, a, b))
    ensures Reads(r, ps, DecodeAll(r, Sent(Got(v, us, a, b))))
  {
    hide StoredLog, Got, Joined, Sent, DecodeAll, VisibleUnits, Reads, BodyOf;
    ps := GotIsRecords(v, items, q, us, a, b);
    DecodeAllOfRecords(r, ps);
  }
}
