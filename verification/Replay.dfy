// Abnormal recovery of the whole store: replaying the log over whatever the indexes still
// hold gives the indexes and counters of the recovered log.

module Replay {
  import opened Appending
  import opened Arithmetic
  import opened Bytes
  import opened ConsumeQueues
  import opened IndexRecovery
  import opened Log
  import opened QueueKeys
  import opened Records
  import opened Recovery
  import opened Segments
  import opened Store

  // ---------------------------------------------------------------- dispatching again

  function Redispatch(xs: Indexes, size: int, rs: seq<DispatchRequest>, contents: nat -> seq<byte>): Dispatched
    requires size > 0
  {
    if rs == [] then Dispatched(xs, false)
    else
      var n := |rs| - 1;
      var d := Redispatch(xs, size, rs[..n], contents);
      var e := DoDispatch(d.indexes, size, rs[n], contents(n));
      Dispatched(e.indexes, d.warned || e.warned)
  }

  // How many requests have been visited at least once when the first k counted as visited.
  function Reach(k: nat, ps: seq<nat>): (r: nat)
    ensures r >= k
  {
    if ps == [] then k else Max(Reach(k, ps[..|ps| - 1]), ps[|ps| - 1] + 1)
  }

  // The positions go back as they like but never skip ahead.
  predicate NoSkip(k: nat, ps: seq<nat>) {
    ps == [] || (NoSkip(k, ps[..|ps| - 1]) && ps[|ps| - 1] <= Reach(k, ps[..|ps| - 1]))
  }

  ghost predicate Within(ps: seq<nat>, n: nat) { forall i :: 0 <= i < |ps| ==> ps[i] < n }

  // rs taken at the given positions.
  ghost function Pick(rs: seq<DispatchRequest>, ps: seq<nat>): (qs: seq<DispatchRequest>)
    requires Within(ps, |rs|)
    ensures |qs| == |ps|
  {
    seq(|ps|, i requires 0 <= i < |ps| => rs[ps[i]])
  }

  // Replaying requests in any order that never skips ahead, however often it goes back,
  // leaves each index with what it had or with everything up to the furthest request.
  lemma {:induction false} ReplayHolds(xs: Indexes, size: int, rs: seq<DispatchRequest>, n: Queue -> nat, k: nat, ps: seq<nat>,
                                       end: int, contents: nat -> seq<byte>)
    requires Holds(xs, size, rs, n) && InOrder(rs, end) && Numbered(rs) && FileSized(contents, size)
    requires k <= |rs| && NoSkip(k, ps) && Within(ps, |rs|) && Covers(rs, n, k)
    ensures Reached(xs, Redispatch(xs, size, Pick(rs, ps), contents), size, rs, n, Reach(k, ps))
    decreases |ps|
  {
    HoldsSize(xs, size, rs, n);
    hide *;
    if ps == [] {
      NothingReplayed(xs, size, rs, n, k, contents);
    } else {
      var i := |ps| - 1;
      LastPosition(k, ps);
      PickSnoc(rs, ps);
      ReplayHolds(xs, size, rs, n, k, ps[..i], end, contents);
      RedispatchSnoc(xs, size, Pick(rs, ps[..i]), rs[ps[i]], contents);
      FileSizedAt(contents, size, i);
      ReplayOne(xs, Redispatch(xs, size, Pick(rs, ps[..i]), contents), size, rs, n, Reach(k, ps[..i]), ps[i], end, contents(i));
    }
  }

  lemma {:induction false} HoldsSize(xs: Indexes, size: int, rs: seq<DispatchRequest>, n: Queue -> nat)
    requires Holds(xs, size, rs, n)
    ensures size > 0
  {
  }

  lemma {:induction false} LastPosition(k: nat, ps: seq<nat>)
    requires NoSkip(k, ps) && ps != []
    ensures var i := |ps| - 1;
            NoSkip(k, ps[..i]) && ps[i] <= Reach(k, ps[..i]) && Reach(k, ps) == Max(Reach(k, ps[..i]), ps[i] + 1)
  {
  }

  // Every newly created index file has the right size.
  ghost predicate FileSized(contents: nat -> seq<byte>, size: int) { forall i :: |contents(i)| == size }

  lemma {:induction false} FileSizedAt(contents: nat -> seq<byte>, size: int, i: nat)
    requires FileSized(contents, size)
    ensures |contents(i)| == size
  {
  }

  // Every index has at least the requests before number k.
  ghost predicate Covers(rs: seq<DispatchRequest>, n: Queue -> nat, k: nat)
    requires k <= |rs|
  {
    forall q :: n(q) >= |Of(rs[..k], q)|
  }

  // No warning, and every index is what it was or holds everything up to request r.
  ghost predicate Reached(xs: Indexes, d: Dispatched, size: int, rs: seq<DispatchRequest>, n: Queue -> nat, r: nat) {
    && !d.warned && r <= |rs| && Holds(d.indexes, size, rs, Grown(rs, n, r))
    && Moved(xs, d.indexes, n, Grown(rs, n, r))
  }

  lemma {:induction false} ReplayOne(xs: Indexes, d: Dispatched, size: int, rs: seq<DispatchRequest>, n: Queue -> nat, r: nat, p: nat,
                                     end: int, contents: seq<byte>)
    requires InOrder(rs, end) && Numbered(rs) && p <= r && p < |rs| && |contents| == size > 0 && Reached(xs, d, size, rs, n, r)
    ensures var e := DoDispatch(d.indexes, size, rs[p], contents);
            Reached(xs, Dispatched(e.indexes, d.warned || e.warned), size, rs, n, Max(r, p + 1))
  {
    hide InOrder, Numbered, Of, DoDispatch, Holds, Grown, Moved;
    GrownReaches(rs, n, r, p);
    DispatchOne(d.indexes, size, rs, Grown(rs, n, r), p, end, contents);
    var ys := DoDispatch(d.indexes, size, rs[p], contents).indexes;
    HoldsSame(ys, size, rs, n, r, p + 1);
    MovedOn(xs, d.indexes, ys, rs, n, r, p + 1);
  }

  lemma {:induction false} MovedOn(xs: Indexes, ys: Indexes, zs: Indexes, rs: seq<DispatchRequest>, n: Queue -> nat, a: nat, b: nat)
    requires a <= |rs| && b <= |rs|
    requires Moved(xs, ys, n, Grown(rs, n, a)) && Moved(ys, zs, Grown(rs, n, a), Grown(rs, Grown(rs, n, a), b))
    ensures Moved(xs, zs, n, Grown(rs, n, Max(a, b)))
  {
    hide Of, Tailed;
    forall q
      ensures var m := Grown(rs, n, Max(a, b))(q);
              if n(q) < m then Tailed(IndexAt(zs, q)) else IndexAt(zs, q) == IndexAt(xs, q)
    {
      if a <= b { OfUpTo(rs, a, b, q); } else { OfUpTo(rs, b, a, q); }
      assert Grown(rs, Grown(rs, n, a), b)(q) == Grown(rs, n, Max(a, b))(q);
    }
  }

  lemma {:induction false} PickSnoc(rs: seq<DispatchRequest>, ps: seq<nat>)
    requires ps != [] && Within(ps, |rs|)
    ensures ps[|ps| - 1] < |rs| && Within(ps[..|ps| - 1], |rs|)
    ensures Pick(rs, ps) == Pick(rs, ps[..|ps| - 1]) + [rs[ps[|ps| - 1]]]
  {
  }

  lemma {:induction false} NothingReplayed(xs: Indexes, size: int, rs: seq<DispatchRequest>, n: Queue -> nat, k: nat,
                                           contents: nat -> seq<byte>)
    requires Holds(xs, size, rs, n) && k <= |rs| && Covers(rs, n, k)
    ensures Reached(xs, Redispatch(xs, size, Pick(rs, []), contents), size, rs, n, Reach(k, []))
  {
    hide Of, Represents, Tailed;
    assert Pick(rs, []) == [];
    assert forall q :: Grown(rs, n, k)(q) == n(q);
  }

  lemma {:induction false} RedispatchSnoc(xs: Indexes, size: int, qs: seq<DispatchRequest>, r: DispatchRequest,
                                          contents: nat -> seq<byte>)
    requires size > 0
    ensures var d := Redispatch(xs, size, qs, contents);
            var e := DoDispatch(d.indexes, size, r, contents(|qs|));
            Redispatch(xs, size, qs + [r], contents) == Dispatched(e.indexes, d.warned || e.warned)
  {
    hide DoDispatch;
    assert (qs + [r])[..|qs|] == qs;
  }

  lemma {:induction false} GrownReaches(rs: seq<DispatchRequest>, n: Queue -> nat, r: nat, p: nat)
    requires p <= r <= |rs|
    ensures forall q :: Grown(rs, n, r)(q) >= |Of(rs[..p], q)|
  {
    hide Of;
    forall q ensures Grown(rs, n, r)(q) >= |Of(rs[..p], q)| {
      assert Grown(rs, n, r)(q) == Max(n(q), |Of(rs[..r], q)|);
      OfUpTo(rs, p, r, q);
    }
  }

  lemma {:induction false} OfUpTo(rs: seq<DispatchRequest>, a: nat, b: nat, q: Queue)
    requires a <= b <= |rs|
    ensures |Of(rs[..a], q)| <= |Of(rs[..b], q)|
  {
    assert rs[..b][..a] == rs[..a];
    OfPrefix(rs[..b], a, q);
  }

  lemma {:induction false} HoldsSame(xs: Indexes, size: int, rs: seq<DispatchRequest>, n: Queue -> nat, a: nat, b: nat)
    requires a <= |rs| && b <= |rs|
    requires Holds(xs, size, rs, Grown(rs, Grown(rs, n, a), b))
    ensures Holds(xs, size, rs, Grown(rs, n, Max(a, b)))
  {
    hide Of, Represents, Tailed;
    forall q
      ensures Max(Max(n(q), |Of(rs[..a], q)|), |Of(rs[..b], q)|) == Max(n(q), |Of(rs[..Max(a, b)], q)|)
    {
      if a <= b { OfUpTo(rs, a, b, q); } else { OfUpTo(rs, b, a, q); }
    }
  }

  // ---------------------------------------------------------------- what recovery replays

  // The broker took tags and keys of every stored message from its properties.
  ghost predicate Derived(c: Codec, items: seq<Item>) {
    forall i :: 0 <= i < |items| && items[i].Record? && Storable(items[i].m) ==>
      Live(items[i].m, items[i].queueOffset, 0) == Replayed(c, items[i].m, items[i].queueOffset, 0)
  }

  lemma {:induction false} SameRequest(c: Codec, items: seq<Item>, k: nat, at: int)
    requires Derived(c, items) && k < |items|
    ensures ReplayOf(c, items[k], at) == IssuedFor(items[k], at)
  {
    hide Storable, RecordLength, Wrap64;
    if items[k].Record? && Storable(items[k].m) {
      var m, q := items[k].m, items[k].queueOffset;
      LiveEqualsReplayed(c, m, q, 0);
      LiveEqualsReplayed(c, m, q, Wrap64(at));
    }
  }

  // Number of requests issued before item k.
  function Before(items: seq<Item>, k: nat): nat
    requires k <= |items|
  {
    |Issued(items[..k])|
  }

  lemma {:induction false} BeforeOrder(items: seq<Item>, a: nat, b: nat)
    requires a <= b <= |items|
    ensures Before(items, a) <= Before(items, b) <= |Issued(items)| && Before(items, |items|) == |Issued(items)|
    ensures Issued(items[..b]) == Issued(items)[..Before(items, b)]
  {
    hide Issued;
    assert items[..|items|] == items;
    IssuedPrefix(items[..a], items[..b]);
    IssuedPrefix(items[..b], items);
  }

  // Replaying items a to b yields the requests that were issued for them.
  lemma {:induction false} ReplaysIssued(c: Codec, items: seq<Item>, a: nat, b: nat)
    requires Derived(c, items) && a <= b <= |items|
    ensures Before(items, a) <= Before(items, b) <= |Issued(items)|
    ensures Replays(c, items[a..b], Total(items[..a])) == Issued(items)[Before(items, a)..Before(items, b)]
    decreases b - a
  {
    hide ReplayOf, IssuedFor, Total, Issued;
    BeforeOrder(items, a, b);
    if a == b {
      assert items[a..b] == [];
    } else {
      ReplaysIssued(c, items, a, b - 1);
      BeforeOrder(items, a, b - 1);
      BeforeOrder(items, b - 1, b);
      assert items[a..b] == items[a..b - 1] + [items[b - 1]];
      ReplaysSnoc(c, items[a..b - 1], items[b - 1], Total(items[..a]));
      TotalOfSlice(items, a, b - 1);
      SameRequest(c, items, b - 1, Total(items[..b - 1]));
      assert items[..b] == items[..b - 1] + [items[b - 1]];
      IssuedSnoc(items[..b - 1], items[b - 1]);
      hide Replays, Derived;
    }
  }

  lemma {:induction false} TotalOfSlice(items: seq<Item>, a: nat, b: nat)
    requires a <= b <= |items|
    ensures Total(items[..a]) + Total(items[a..b]) == Total(items[..b])
  {
    TotalSplit(items[..b], a);
    assert items[..b][..a] == items[..a] && items[..b][a..] == items[a..b];
  }

  function Range(a: nat, b: nat): (r: seq<nat>)
    requires a <= b
    ensures |r| == b - a && forall i :: 0 <= i < |r| ==> r[i] == a + i
  {
    seq(b - a, i requires 0 <= i => a + i)
  }

  // A first pass over a to b and a second over everything from a on: no request is skipped.
  lemma {:induction false} TwoPasses(a: nat, b: nat, c: nat)
    requires a <= b && a <= c
    ensures NoSkip(a, Range(a, b) + Range(a, c)) && Reach(a, Range(a, b) + Range(a, c)) == Max(b, c)
    decreases c
  {
    hide NoSkip, Reach;
    if a < c {
      TwoPasses(a, b, c - 1);
      StepOn(a, Range(a, b) + Range(a, c - 1), c - 1);
      assert Range(a, b) + Range(a, c) == Range(a, b) + Range(a, c - 1) + [c - 1];
    } else {
      assert Range(a, b) + Range(a, c) == Range(a, b);
      OnePass(a, b);
    }
  }

  lemma {:induction false} OnePass(a: nat, b: nat)
    requires a <= b
    ensures NoSkip(a, Range(a, b)) && Reach(a, Range(a, b)) == b
    decreases b
  {
    if a < b {
      OnePass(a, b - 1);
      StepOn(a, Range(a, b - 1), b - 1);
      assert Range(a, b) == Range(a, b - 1) + [b - 1];
    }
  }

  lemma {:induction false} StepOn(k: nat, ps: seq<nat>, p: nat)
    requires NoSkip(k, ps) && p <= Reach(k, ps)
    ensures NoSkip(k, ps + [p]) && Reach(k, ps + [p]) == Max(Reach(k, ps), p + 1)
  {
    assert (ps + [p])[..|ps|] == ps;
  }

  lemma {:induction false} PickRanges(rs: seq<DispatchRequest>, a: nat, b: nat, c: nat)
    requires a <= b <= |rs| && a <= c <= |rs|
    ensures var ps := Range(a, b) + Range(a, c);
            Within(ps, |rs|) && Pick(rs, ps) == rs[a..b] + rs[a..c]
  {
  }

  // The log of the whole history `items` as it lies on disk: items h and later are still in
  // the files, and behind the last complete one its file holds nothing but dirt.
  ghost predicate OnDisk(c: Codec, fs: seq<File>, size: int, items: seq<Item>, h: nat, crc: bool) {
    h <= |items| && fs != [] && fs[0].from == Total(items[..h]) && Readable(c, fs, size, items[h..], crc, true)
  }

  lemma {:induction false} SlicesOfTail(items: seq<Item>, h: nat, i: nat, j: nat)
    requires h <= |items| && i <= j <= |items| - h
    ensures items[h..][..i] == items[h..h + i] && items[h..][i..] == items[h + i..|items|]
    ensures items[h..][i..j] == items[h + i..h + j]
  {
  }

  // recoverAbnormally from file p on dispatches requests of the history only, starting with
  // the first one stored in that file, skipping none and reaching the last.
  lemma {:induction false} AbnormalRequests(c: Codec, fs: seq<File>, size: int, items: seq<Item>, h: nat, p: nat, crc: bool)
    returns (k: nat, ps: seq<nat>)
    requires OnDisk(c, fs, size, items, h, crc) && p < |fs| && Derived(c, items)
    requires fs[p].from <= fs[0].from + Total(items[h..])
    ensures k <= |items| && Total(items[..k]) == fs[p].from
    ensures NoSkip(Before(items, k), ps) && Reach(Before(items, k), ps) == |Issued(items)|
    ensures Within(ps, |Issued(items)|)
    ensures ScanFiles(c, fs, p, p - 1, 0, 0, crc, true)
         == Scan(Pick(Issued(items), ps), fs[0].from + Total(Kept(fs, size, items[h..])))
  {
    hide Readable, ScanFiles, Total, Issued, Replays, Derived, NoSkip, Reach, Kept, Pick, Within, Range, Before;
    var i, j := AbnormalScan(c, fs, size, items[h..], p, crc);
    k := h + i;
    SlicesOfTail(items, h, i, j);
    TotalOfSlice(items, h, k);
    ReplaysIssued(c, items, k, h + j);
    ReplaysIssued(c, items, k, |items|);
    BeforeOrder(items, k, |items|);
    var a, b, e := Before(items, k), Before(items, h + j), |Issued(items)|;
    ps := Range(a, b) + Range(a, e);
    TwoPasses(a, b, e);
    PickRanges(Issued(items), a, b, e);
  }

  // ---------------------------------------------------------------- counters

  // The counter of every queue is the number of units its index ends with.
  ghost predicate Rebuilt(table: map<seq<byte>, int64>, xs: Indexes) {
    forall q: Queue :: q.id >= 0 ==> CounterOf(table, q) == if q in xs then MaxOffset(xs[q].fs) / UNIT_SIZE else 0
  }

  ghost predicate Countable(xs: Indexes) {
    forall q :: q in xs ==> q.id >= 0 && 0 <= MaxOffset(xs[q].fs) < 0x8000_0000_0000_0000
  }

  // recoverTopicQueueTable visits the queues in no particular order.
  method RecoverTopicQueueTable(xs: Indexes, minPhyOffset: int) returns (table: map<seq<byte>, int64>, ys: Indexes)
    requires Countable(xs)
    ensures Rebuilt(table, xs)
    ensures ys.Keys == xs.Keys && forall q :: q in xs ==> ys[q] == CorrectMin(xs[q], minPhyOffset)
  {
    hide CorrectMin, MaxOffset, Key;
    table, ys := map[], map[];
    var todo := xs.Keys;
    while todo != {}
      invariant todo <= xs.Keys && ys.Keys == xs.Keys - todo
      invariant forall q :: q in ys ==> ys[q] == CorrectMin(xs[q], minPhyOffset)
      invariant forall q: Queue :: q.id >= 0 ==>
        CounterOf(table, q) == if q in ys then MaxOffset(xs[q].fs) / UNIT_SIZE else 0
    {
      var q :| q in todo;
      CountQueue(table, q, MaxOffset(xs[q].fs) / UNIT_SIZE);
      table := table[Key(q.topic, q.id) := MaxOffset(xs[q].fs) / UNIT_SIZE];
      ys := ys[q := CorrectMin(xs[q], minPhyOffset)];
      todo := todo - {q};
    }
  }

  lemma {:induction false} CountQueue(table: map<seq<byte>, int64>, q: Queue, n: int64)
    requires q.id >= 0
    ensures forall r: Queue :: r.id >= 0 ==>
      CounterOf(table[Key(q.topic, q.id) := n], r) == if r == q then n else CounterOf(table, r)
  {
    forall r: Queue | r.id >= 0
      ensures CounterOf(table[Key(q.topic, q.id) := n], r) == if r == q then n else CounterOf(table, r)
    {
      if Key(r.topic, r.id) == Key(q.topic, q.id) { KeyInjective(r.topic, r.id, q.topic, q.id); }
    }
  }

  // Counters rebuilt from indexes that hold n(q) messages each count the messages of the log
  // exactly when the indexes are complete at that moment.
  lemma {:induction false} RebuiltCounts(table: map<seq<byte>, int64>, xs: Indexes, size: int, rs: seq<DispatchRequest>, n: Queue -> nat)
    requires Rebuilt(table, xs) && Holds(xs, size, rs, n)
    ensures Counts(table, rs) <==> forall q: Queue :: q.id >= 0 ==> n(q) == |Of(rs, q)|
  {
    hide Of, Represents;
    forall q: Queue | q.id >= 0 ensures CounterOf(table, q) == n(q) {
      UnitCount(IndexAt(xs, q), size, Units(Of(rs, q)[..n(q)]));
    }
  }

  lemma {:induction false} WholeCounts(table: map<seq<byte>, int64>, xs: Indexes, size: int, rs: seq<DispatchRequest>)
    requires Rebuilt(table, xs) && Holds(xs, size, rs, Upto(rs, |rs|))
    ensures Counts(table, rs)
  {
    hide Of, Represents, Holds, Rebuilt, Counts;
    assert rs[..|rs|] == rs;
    RebuiltCounts(table, xs, size, rs, Upto(rs, |rs|));
  }

  // ---------------------------------------------------------------- the recovered store

  // A log as runs of the store write it.
  ghost predicate Recorded(c: Config, items: seq<Item>) {
    Layout(items, 0, c.logSize) && Numbered(Issued(items))
  }

  // Any prefix of a running store's log, as a crash may leave it.
  lemma {:induction false} CrashLeavesRecorded(c: Config, s: State, k: nat)
    requires Sane(c) && Inv(c, s) && k <= |s.books.items|
    ensures Recorded(c, s.books.items[..k])
  {
    hide Layout, Issued, Of, InOrder, Counts, Holds;
    var items := s.books.items;
    LayoutSplit(items, 0, c.logSize, k);
    IssuedPrefix(items[..k], items);
    assert Issued(items)[..|Issued(items[..k])|] == Issued(items[..k]);
    NumberedPrefix(Issued(items), |Issued(items[..k])|);
  }

  // Requests come in log order, whatever the items are.
  lemma {:induction false} IssuedInOrder(items: seq<Item>, size: int)
    requires Layout(items, 0, size)
    ensures InOrder(Issued(items), Total(items))
  {
    hide InFile;
    if items != [] {
      var n := |items| - 1;
      IssuedInOrder(items[..n], size);
      IssuedOne(items[n], Total(items[..n]), size);
      var rs, at := Issued(items[..n]), Total(items[..n]);
      hide IssuedFor, Fits, Layout;
      assert Issued(items) == rs + IssuedFor(items[n], at);
      if IssuedFor(items[n], at) != [] {
        InOrderSnoc(rs, at, IssuedFor(items[n], at)[0], Total(items));
      } else {
        assert rs + [] == rs;
      }
    }
  }

  lemma {:induction false} IssuedOne(i: Item, at: nat, size: int)
    requires Fits(i, at, size)
    ensures var rs := IssuedFor(i, at);
            |rs| <= 1 && (rs != [] ==> rs[0].commitLogOffset == at && 0 < rs[0].msgSize <= Length(i))
  {
    hide InFile;
  }

  // truncateDirtyLogicFiles on every queue.
  function CutAll(xs: Indexes, size: int, phy: int): (ys: Indexes)
    requires size > UNIT_SIZE && Whole(size)
    ensures ys.Keys == xs.Keys && forall q :: q in xs ==> ys[q] == CutLogic(xs[q], size, phy)
  {
    map q | q in xs :: CutLogic(xs[q], size, phy)
  }

  lemma {:induction false} CutAllAt(xs: Indexes, size: int, phy: int, q: Queue)
    requires size > UNIT_SIZE && Whole(size)
    ensures IndexAt(CutAll(xs, size, phy), q) == CutLogic(IndexAt(xs, q), size, phy)
  {
    hide CutLogic;
    if q !in xs { CutNothing(EMPTY_INDEX, size, phy); }
  }

  // Replay and truncation give queue q the index of its first k messages, those of the log up
  // to phy: it had fewer messages to begin with; or it had exactly those, or more of which
  // whole files but not all have to go, and did not end with an empty file.  With an empty log
  // it must have none.
  ghost predicate Settles(x: Index, size: int, phy: int, k: nat, n: nat)
    requires size > 0
  {
    || n < k
    || if phy == 0 then n == 0
       else Tailed(x) && (n == k || (x.fs != [] && UNIT_SIZE * k > x.fs[0].from && Aligned(UNIT_SIZE * k, size)))
  }

  // Requests of the history behind number m.
  lemma {:induction false} OfTail(rs: seq<DispatchRequest>, m: nat, q: Queue, j: nat) returns (i: nat)
    requires m <= |rs| && |Of(rs[..m], q)| <= j < |Of(rs, q)|
    ensures m <= i < |rs| && Of(rs, q)[j] == rs[i]
    decreases |rs|
  {
    hide Indexed;
    assert rs[..|rs|] == rs;
    i := |rs| - 1;
    if j < |Of(rs[..i], q)| {
      assert rs[..i][..m] == rs[..m];
      i := OfTail(rs[..i], m, q, j);
    }
  }

  // The first m requests lie below phy, the others do not.
  ghost predicate Parted(rs: seq<DispatchRequest>, m: nat, phy: int) {
    && m <= |rs| && phy >= 0 && InOrder(rs[..m], phy)
    && forall i :: 0 <= i < |rs| ==>
         0 <= rs[i].commitLogOffset && 0 < rs[i].msgSize < 0x8000_0000 && (m <= i ==> phy <= rs[i].commitLogOffset)
  }

  lemma {:induction false} PartedUnits(rs: seq<DispatchRequest>, m: nat, phy: int, q: Queue, n: nat)
    requires Parted(rs, m, phy) && |Of(rs[..m], q)| <= n <= |Of(rs, q)|
    ensures var us, k := Units(Of(rs, q)[..n]), |Of(rs[..m], q)|;
            && Below(us, phy, k) && us[..k] == Units(Of(rs[..m], q))
            && forall j :: 0 <= j < |us| ==> IsUnit(us[j])
  {
    hide Of;
    var os, k := Of(rs, q), |Of(rs[..m], q)|;
    OfPrefix(rs, m, q);
    var us := Units(os[..n]);
    OfInOrder(rs[..m], q, phy);
    forall j | 0 <= j < n
      ensures us[j] == UnitOf(os[j]) && IsUnit(us[j]) && (if j < k then us[j].offset < phy else us[j].offset >= phy)
    {
      if j < k {
        var i := OfMember(rs, q, j);
        assert os[j] == Of(rs[..m], q)[j];
      } else {
        var i := OfTail(rs, m, q, j);
      }
    }
  }

  lemma {:induction false} QueueSettles(x: Index, y: Index, size: int, rs: seq<DispatchRequest>, m: nat, phy: int, q: Queue, n: nat)
    requires size > UNIT_SIZE && Parted(rs, m, phy) && n <= |Of(rs, q)| && |Of(rs[..m], q)| <= |Of(rs, q)|
    requires Represents(y, size, Units(Of(rs, q)[..Max(n, |Of(rs[..m], q)|)]))
    requires if n < |Of(rs[..m], q)| then Tailed(y) else y == x
    ensures Whole(size)
    ensures Represents(CutLogic(y, size, phy), size, Units(Of(rs[..m], q))) <==> Settles(x, size, phy, |Of(rs[..m], q)|, n)
    ensures Represents(CutLogic(y, size, phy), size, Units(Of(rs[..m], q))) ==> Tailed(CutLogic(y, size, phy))
  {
    var k := |Of(rs[..m], q)|;
    assert Whole(size);
    hide CutLogic, Of, Represents, Tailed, Parted, Aligned;
    PartedUnits(rs, m, phy, q, Max(n, k));
    CutExact(y, size, Units(Of(rs, q)[..Max(n, k)]), phy, k);
    if n < k { NotEmptyLog(rs, m, phy, q); }
  }

  lemma {:induction false} NotEmptyLog(rs: seq<DispatchRequest>, m: nat, phy: int, q: Queue)
    requires Parted(rs, m, phy) && Of(rs[..m], q) != []
    ensures phy > 0
  {
    var i := OfMember(rs[..m], q, 0);
  }

  // The history without the blank record that recovery may cut off at the very end.
  ghost function Surviving(fs: seq<File>, size: int, items: seq<Item>, h: nat): seq<Item>
    requires fs != [] && h <= |items|
  {
    items[..h] + Kept(fs, size, items[h..])
  }

  lemma {:induction false} SurvivingIssues(c: Codec, fs: seq<File>, size: int, items: seq<Item>, h: nat, crc: bool, body: bool)
    requires h <= |items| && fs != [] && fs[0].from == Total(items[..h]) && Readable(c, fs, size, items[h..], crc, body)
    requires Layout(items, 0, size)
    ensures var left := Surviving(fs, size, items, h);
            && Issued(left) == Issued(items) && Layout(left, 0, size) && Total(left) <= Total(items)
            && Total(left) == fs[0].from + Total(Kept(fs, size, items[h..]))
  {
    hide Readable, Total, Layout, Issued, Kept, Fits, ItemBytes;
    var kept, left := Kept(fs, size, items[h..]), Surviving(fs, size, items, h);
    KeptInEndFile(c, fs, size, items[h..], crc, body);
    assert left == items[..h + |kept|];
    LayoutSplit(items, 0, size, h + |kept|);
    TotalOfPrefix(left, items);
    TotalOfSlice(items, h, h + |kept|);
    assert items[h..h + |kept|] == kept;
    forall i | |left| <= i < |items| ensures items[i].Filler? { assert items[h..][i - h].Filler?; }
    FillersIssueNothing(items, |left|);
  }

  lemma {:induction false} FillersIssueNothing(items: seq<Item>, k: nat)
    requires k <= |items| && forall i :: k <= i < |items| ==> items[i].Filler?
    ensures Issued(items[..k]) == Issued(items)
    decreases |items|
  {
    if k < |items| {
      FillersIssueNothing(items[..|items| - 1], k);
      assert items[..|items| - 1][..k] == items[..k];
    } else {
      assert items[..k] == items;
    }
  }

  lemma {:induction false} SizesFit(items: seq<Item>, i: nat)
    requires i < |Issued(items)|
    ensures Issued(items)[i].msgSize < 0x8000_0000
    decreases |items|
  {
    var n := |items| - 1;
    if i < |Issued(items[..n])| { SizesFit(items[..n], i); }
  }

  // A message stored before file p is indexed already.
  ghost predicate IndexedBefore(items: seq<Item>, from: int, n: Queue -> nat) {
    forall k, q :: 0 <= k <= |items| && Total(items[..k]) == from ==> n(q) >= |Of(Issued(items[..k]), q)|
  }

  // Every queue settles when the log is recovered up to phy, with the messages rs.
  ghost predicate AllSettle(xs: Indexes, size: int, rs: seq<DispatchRequest>, n: Queue -> nat, phy: int)
    requires size > 0
  {
    forall q :: Settles(IndexAt(xs, q), size, phy, |Of(rs, q)|, n(q))
  }

  // The state after recovery, with every message of the log dispatched.
  function Running(table: map<seq<byte>, int64>, left: seq<Item>, ys: Indexes): State {
    State(Books(table, left), [], ys, false, |Issued(left)|)
  }

  // recoverAbnormally and what follows it, started at file p over indexes that hold, per
  // queue, any number of the history's messages, even more than are left of the log, but at
  // least those stored before file p.  The recovered store satisfies the invariant of running
  // stores, with each index exactly that of the recovered log and each counter its number of
  // entries, if and only if every queue settles.
  lemma {:induction false} AbnormalRecovery(c: Config, codec: Codec, fs: seq<File>, history: seq<Item>, t: nat, h: nat, p: nat, crc: bool,
                                            xs: Indexes, n: Queue -> nat, contents: nat -> seq<byte>,
                                            table: map<seq<byte>, int64>)
    requires Sane(c) && c.indexSize > UNIT_SIZE && Recorded(c, history) && t <= |history| && Derived(codec, history[..t])
    requires OnDisk(codec, fs, c.logSize, history[..t], h, crc) && p < |fs| && fs[p].from <= fs[0].from + Total(history[..t][h..])
    requires Holds(xs, c.indexSize, Issued(history), n) && IndexedBefore(history[..t], fs[p].from, n)
    requires FileSized(contents, c.indexSize)
    ensures var items := history[..t];
            var scan := ScanFiles(codec, fs, p, p - 1, 0, 0, crc, true);
            && scan.Scan?
            && var left := Surviving(fs, c.logSize, items, h);
               var d := Redispatch(xs, c.indexSize, scan.requests, contents);
               var ys := CutAll(d.indexes, c.indexSize, scan.offset);
               && scan.offset == Total(left) && Issued(left) == Issued(items) && !d.warned
               && (Rebuilt(table, ys) ==>
                     (Inv(c, Running(table, left, ys)) <==> AllSettle(xs, c.indexSize, Issued(items), n, scan.offset)))
  {
    hide Readable, ScanFiles, Total, Layout, Issued, Numbered, Kept, Holds, Redispatch, CutAll, Rebuilt, InOrder, Surviving,
      Derived, NoSkip, Reach, Pick, Within, Moved, AllSettle, Inv, Covers, IndexedBefore, FileSized, Parted;
    var items := history[..t];
    var left, all, rs := Surviving(fs, c.logSize, items, h), Issued(history), Issued(items);
    LayoutSplit(history, 0, c.logSize, t);
    SurvivingIssues(codec, fs, c.logSize, items, h, crc, true);
    IssuedPrefix(items, history);
    IssuedInOrder(history, c.logSize);
    var k, ps := AbnormalRequests(codec, fs, c.logSize, items, h, p, crc);
    BeforeOrder(items, k, k);
    CoversStart(items, fs[p].from, n, k, all);
    PickPrefix(rs, all, ps);
    ReplayHolds(xs, c.indexSize, all, n, Before(items, k), ps, Total(history), contents);
    var d := Redispatch(xs, c.indexSize, Pick(rs, ps), contents);
    SurvivingParts(history, t, left, c.logSize);
    assert all[..|rs|] == rs;
    if Rebuilt(table, CutAll(d.indexes, c.indexSize, Total(left))) {
      CutSettles(c, xs, d, all, n, |rs|, left, table);
    }
  }

  lemma {:induction false} CoversStart(items: seq<Item>, from: int, n: Queue -> nat, k: nat, all: seq<DispatchRequest>)
    requires IndexedBefore(items, from, n) && k <= |items| && Total(items[..k]) == from && Issued(items) <= all
    ensures Before(items, k) <= |Issued(items)| && Covers(all, n, Before(items, k))
  {
    hide Total, Issued, Of;
    BeforeOrder(items, k, k);
    assert all[..Before(items, k)] == Issued(items[..k]) by {
      IssuedPrefix(items[..k], items);
    }
    forall q ensures n(q) >= |Of(all[..Before(items, k)], q)| { StartsEarly(items, from, n, k, q); }
  }

  lemma {:induction false} PickPrefix(rs: seq<DispatchRequest>, all: seq<DispatchRequest>, ps: seq<nat>)
    requires rs <= all && Within(ps, |rs|)
    ensures Within(ps, |all|) && Pick(all, ps) == Pick(rs, ps)
  {
  }

  // The requests of what is left of the log lie below its end, those of the rest do not.
  lemma {:induction false} SurvivingParts(history: seq<Item>, t: nat, left: seq<Item>, size: int)
    requires t <= |history| && Layout(history, 0, size) && Layout(left, 0, size)
    requires Issued(left) == Issued(history[..t]) && Total(left) <= Total(history[..t])
    ensures Issued(history[..t]) <= Issued(history) && Parted(Issued(history), |Issued(history[..t])|, Total(left))
  {
    hide Total, Layout, Issued, InOrder;
    var all, rs := Issued(history), Issued(history[..t]);
    IssuedInOrder(left, size);
    IssuedPrefix(history[..t], history);
    IssuedInOrder(history, size);
    assert all[..|rs|] == rs;
    forall i | 0 <= i < |all|
      ensures 0 <= all[i].commitLogOffset && 0 < all[i].msgSize < 0x8000_0000 && (|rs| <= i ==> Total(left) <= all[i].commitLogOffset)
    {
      SizesFit(history, i);
      OrderSays(all, Total(history), i);
      if |rs| <= i { LaterOffset(history, size, t, i); }
    }
  }

  lemma {:induction false} OrderSays(rs: seq<DispatchRequest>, end: int, i: nat)
    requires InOrder(rs, end) && i < |rs|
    ensures 0 <= rs[i].commitLogOffset && 0 < rs[i].msgSize
  {
  }

  lemma {:induction false} LaterOffset(items: seq<Item>, size: int, t: nat, i: nat)
    requires Layout(items, 0, size) && t <= |items| && |Issued(items[..t])| <= i < |Issued(items)|
    ensures Issued(items)[i].commitLogOffset >= Total(items[..t])
    decreases |items|
  {
    hide Total, InFile, Storable, IssuedFor, Fits;
    assert items[..|items|] == items;
    var n := |items| - 1;
    assert items[..n][..t] == items[..t];
    TotalMonotone(items, t, n);
    if i < |Issued(items[..n])| {
      LaterOffset(items[..n], size, t, i);
    } else {
      IssuedOne(items[n], Total(items[..n]), size);
    }
  }

  // What replay left, cut at the end of the log and counted, is a running store if and only
  // if every queue settles.
  lemma {:induction false} CutSettles(c: Config, xs: Indexes, d: Dispatched, all: seq<DispatchRequest>, n: Queue -> nat, m: nat,
                                      left: seq<Item>, table: map<seq<byte>, int64>)
    requires Sane(c) && c.indexSize > UNIT_SIZE && m <= |all| && all[..m] == Issued(left) && Layout(left, 0, c.logSize)
    requires Numbered(all) && Parted(all, m, Total(left)) && Reached(xs, d, c.indexSize, all, n, m)
    requires Rebuilt(table, CutAll(d.indexes, c.indexSize, Total(left)))
    ensures Inv(c, Running(table, left, CutAll(d.indexes, c.indexSize, Total(left))))
       <==> AllSettle(xs, c.indexSize, Issued(left), n, Total(left))
  {
    hide Layout, Total, Issued, InOrder, Numbered, Of, Represents, Tailed, CutAll, CutLogic, Rebuilt, Counts, Settles, Whole;
    var size, phy, rs := c.indexSize, Total(left), Issued(left);
    var ys := CutAll(d.indexes, size, phy);
    forall q
      ensures |Of(rs, q)| <= |Of(all, q)|
      ensures Represents(IndexAt(ys, q), size, Units(Of(rs, q))) <==> Settles(IndexAt(xs, q), size, phy, |Of(rs, q)|, n(q))
      ensures Represents(IndexAt(ys, q), size, Units(Of(rs, q))) ==> Tailed(IndexAt(ys, q))
    {
      OfPrefix(all, m, q);
      CutAllAt(d.indexes, size, phy, q);
      assert Grown(all, n, m)(q) == Max(n(q), |Of(rs, q)|);
      QueueSettles(IndexAt(xs, q), IndexAt(d.indexes, q), size, all, m, phy, q, n(q));
    }
    HoldsWhole(ys, size, rs);
    NumberedPrefix(all, m);
    if Holds(ys, size, rs, Upto(rs, |rs|)) { WholeCounts(table, ys, size, rs); }
    assert rs[|rs|..] == [];
    hide Reached, Parted, Holds;
  }

  lemma {:induction false} HoldsWhole(ys: Indexes, size: int, rs: seq<DispatchRequest>)
    requires size > 0
    ensures Holds(ys, size, rs, Upto(rs, |rs|)) <==> forall q :: Represents(IndexAt(ys, q), size, Units(Of(rs, q)))
  {
    hide Of, Represents;
    assert rs[..|rs|] == rs;
    forall q ensures Of(rs, q)[..Upto(rs, |rs|)(q)] == Of(rs, q) {}
  }

  lemma {:induction false} NumberedPrefix(rs: seq<DispatchRequest>, m: nat)
    requires Numbered(rs) && m <= |rs|
    ensures Numbered(rs[..m])
  {
    hide Of;
    forall i | 0 <= i < m ensures rs[..m][i].consumeQueueOffset == |Of(rs[..m][..i], QueueOf(rs[..m][i]))| {
      assert rs[..m][..i] == rs[..i];
    }
  }

  lemma {:induction false} StartsEarly(items: seq<Item>, from: int, n: Queue -> nat, k: nat, q: Queue)
    requires IndexedBefore(items, from, n) && k <= |items| && Total(items[..k]) == from
    ensures n(q) >= |Of(Issued(items[..k]), q)|
  {
    hide Total, Issued, Of;
  }
}
