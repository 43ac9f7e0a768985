// The push consumer's process queue and the offset it may commit.

module ProcessQueues {
  // sort.Ints
  function Insert(s: seq<int>, x: int): seq<int> {
    if s == [] || s[|s| - 1] <= x then s + [x] else Insert(s[..|s| - 1], x) + [s[|s| - 1]]
  }

  function SortInts(s: seq<int>): seq<int> {
    if s == [] then [] else Insert(SortInts(s[..|s| - 1]), s[|s| - 1])
  }

  ghost predicate Sorted(s: seq<int>) { forall i, j :: 0 <= i < j < |s| ==> s[i] <= s[j] }

  lemma {:induction false} InsertSorts(s: seq<int>, x: int)
    requires Sorted(s)
    ensures Sorted(Insert(s, x)) && forall y :: y in Insert(s, x) <==> y in s || y == x
  {
    if s != [] && s[|s| - 1] > x {
      var n := |s| - 1;
      InsertSorts(s[..n], x);
      var front := Insert(s[..n], x);
      forall i | 0 <= i < |front| ensures front[i] <= s[n] {
        assert front[i] in front;
      }
    }
  }

  lemma {:induction false} SortSorts(s: seq<int>)
    ensures Sorted(SortInts(s)) && forall y :: y in SortInts(s) <==> y in s
  {
    if s != [] {
      var n := |s| - 1;
      SortSorts(s[..n]);
      InsertSorts(SortInts(s[..n]), s[n]);
    }
  }

  // The smallest element.
  ghost predicate IsMin(m: int, s: set<int>) { m in s && forall x :: x in s ==> m <= x }

  // What RemoveMessage answers: -1 if there was nothing, the smallest offset still pending, or
  // one past the largest ever put.
  ghost predicate RemoveAnswers(before: set<int>, after: set<int>, offsetMax: int, result: int) {
    if before == {} then result == -1
    else if after == {} then result == offsetMax + 1
    else IsMin(result, after)
  }

  class TreeMap<M> {
    var keys: seq<int>
    var innerMap: map<int, M>

    // Sorted keys, possibly repeated, of exactly the entries of the map.
    ghost predicate Valid()
      reads this
    {
      Sorted(keys) && forall k :: k in keys <==> k in innerMap
    }

    constructor ()
      ensures Valid() && innerMap == map[]
    {
      keys, innerMap := [], map[];
    }

    method Put(offset: int, msg: M) returns (absent: bool)
      requires Valid()
      modifies this
      ensures Valid() && innerMap == old(innerMap)[offset := msg] && absent == (offset !in old(innerMap))
    {
      absent := offset !in innerMap;
      innerMap := innerMap[offset := msg];
      SortSorts(keys + [offset]);
      keys := SortInts(keys + [offset]);
    }

    method Remove(offset: int) returns (present: bool)
      requires Valid()
      modifies this
      ensures Valid() && innerMap == old(innerMap) - {offset} && present == (offset in old(innerMap))
    {
      present := offset in innerMap;
      var newKeys: seq<int> := [];
      for i := 0 to |keys|
        invariant keys == old(keys) && innerMap == old(innerMap)
        invariant forall k :: k in newKeys <==> k in keys[..i] && k != offset
      {
        if keys[i] != offset {
          newKeys := newKeys + [keys[i]];
        }
      }
      assert keys[..|keys|] == keys;
      SortSorts(newKeys);
      keys := SortInts(newKeys);
      innerMap := innerMap - {offset};
    }

    method FirstKey() returns (k: int)
      requires Valid() && |innerMap| > 0
      ensures IsMin(k, innerMap.Keys)
    {
      NoKeys();
      k := keys[0];
      assert forall x :: x in innerMap.Keys ==> x in keys;
    }

    method LastKey() returns (k: int)
      requires Valid() && |innerMap| > 0
      ensures k in innerMap && forall x :: x in innerMap ==> x <= k
    {
      NoKeys();
      k := keys[|keys| - 1];
      assert forall x :: x in innerMap ==> x in keys;
    }

    lemma {:induction false} NoKeys()
      requires Valid()
      ensures keys == [] ==> |innerMap| == 0
    {
      if keys == [] {
        assert forall k :: k !in innerMap.Keys;
        assert innerMap.Keys == {};
      }
    }
  }

  datatype Message<M> = Message(queueOffset: int, content: M)

  class ProcessQueue<M> {
    const tree: TreeMap<M>
    var msgCount: int
    var queueOffsetMax: int

    ghost predicate Valid()
      reads this, tree
    {
      tree.Valid() && msgCount == |tree.innerMap|
    }

    constructor ()
      ensures Valid() && Pending() == {} && queueOffsetMax == 0 && fresh(tree)
    {
      tree := new TreeMap();
      msgCount, queueOffsetMax := 0, 0;
    }

    ghost function Pending(): set<int>
      reads this, tree
    {
      tree.innerMap.Keys
    }

    method PutMessage(msgs: seq<Message<M>>)
      requires Valid()
      modifies this`msgCount, this`queueOffsetMax, tree
      ensures Valid() && Pending() == old(Pending()) + Offsets(msgs)
      ensures queueOffsetMax == LastNew(old(Pending()), old(queueOffsetMax), msgs)
    {
      var valid := 0;
      for i := 0 to |msgs|
        invariant tree.Valid() && msgCount == old(msgCount) && msgCount + valid == |tree.innerMap|
        invariant Pending() == old(Pending()) + Offsets(msgs[..i])
        invariant queueOffsetMax == LastNew(old(Pending()), old(queueOffsetMax), msgs[..i])
      {
        assert msgs[..i + 1][..i] == msgs[..i];
        ghost var before := tree.innerMap;
        var absent := tree.Put(msgs[i].queueOffset, msgs[i].content);
        CountPut(before, msgs[i].queueOffset, msgs[i].content);
        if absent {
          valid := valid + 1;
          queueOffsetMax := msgs[i].queueOffset;
        }
      }
      assert msgs[..|msgs|] == msgs;
      msgCount := msgCount + valid;
    }

    // The answer is at or below every offset still pending.
    method RemoveMessage(msgs: seq<Message<M>>) returns (result: int)
      requires Valid()
      modifies this`msgCount, tree
      ensures Valid()
      ensures Pending() == if old(Pending()) == {} then {} else old(Pending()) - Offsets(msgs)
      ensures RemoveAnswers(old(Pending()), Pending(), queueOffsetMax, result)
    {
      hide Offsets, TreeMap.Valid, IsMin;
      result := -1;
      AnyKeys(tree.innerMap);
      if |tree.innerMap| > 0 {
        result := queueOffsetMax + 1;
        var removed := RemoveAll(msgs);
        msgCount := msgCount + removed;
        AnyKeys(tree.innerMap);
        if |tree.innerMap| > 0 {
          result := tree.FirstKey();
        }
      }
    }

    // The loop of RemoveMessage.
    method RemoveAll(msgs: seq<Message<M>>) returns (removed: int)
      requires tree.Valid()
      modifies tree
      ensures tree.Valid() && Pending() == old(Pending()) - Offsets(msgs) && |tree.innerMap| == |old(tree.innerMap)| + removed
    {
      hide TreeMap.Valid, Offsets;
      removed := 0;
      NoOffsets(msgs[..0]);
      for i := 0 to |msgs|
        invariant tree.Valid() && |tree.innerMap| == |old(tree.innerMap)| + removed
        invariant Pending() == old(Pending()) - Offsets(msgs[..i])
      {
        assert msgs[..i + 1][..i] == msgs[..i];
        ghost var before := tree.innerMap;
        var k := msgs[i].queueOffset;
        var present := tree.Remove(k);
        CountRemove(before, k);
        OffsetsSnoc(msgs, i);
        RemoveOneMore(old(Pending()), Offsets(msgs[..i]), k);
        if present {
          removed := removed - 1;
        }
      }
      assert msgs[..|msgs|] == msgs;
    }

    method GetMaxSpan() returns (span: int)
      requires Valid()
      ensures Pending() == {} ==> span == 0
      ensures Pending() != {} ==>
        exists a, b :: IsMin(a, Pending()) && b in Pending() && (forall x :: x in Pending() ==> x <= b) && span == b - a
    {
      if |tree.innerMap| > 0 {
        var a := tree.FirstKey();
        var b := tree.LastKey();
        return b - a;
      }
      return 0;
    }
  }

  function Offsets<M>(msgs: seq<Message<M>>): set<int> {
    if msgs == [] then {} else Offsets(msgs[..|msgs| - 1]) + {msgs[|msgs| - 1].queueOffset}
  }

  // The offset of the last message that was not pending yet.
  function LastNew<M>(pending: set<int>, max: int, msgs: seq<Message<M>>): int {
    if msgs == [] then max
    else
      var front, m := msgs[..|msgs| - 1], msgs[|msgs| - 1].queueOffset;
      if m in pending + Offsets(front) then LastNew(pending, max, front) else m
  }

  lemma {:induction false} NoOffsets<M>(msgs: seq<Message<M>>)
    requires msgs == []
    ensures Offsets(msgs) == {}
  {
  }

  lemma {:induction false} OffsetsSnoc<M>(msgs: seq<Message<M>>, i: nat)
    requires i < |msgs|
    ensures Offsets(msgs[..i + 1]) == Offsets(msgs[..i]) + {msgs[i].queueOffset}
  {
    assert msgs[..i + 1][..i] == msgs[..i];
  }

  lemma {:induction false} AnyKeys<M>(m: map<int, M>)
    ensures |m| > 0 <==> m.Keys != {}
  {
    assert |m.Keys| == |m|;
  }

  lemma {:induction false} RemoveOneMore(pending: set<int>, gone: set<int>, k: int)
    ensures pending - gone - {k} == pending - (gone + {k})
  {
  }

  lemma {:induction false} CountPut<M>(before: map<int, M>, k: int, v: M)
    ensures |before[k := v]| == |before| + if k in before then 0 else 1
  {
    assert before[k := v].Keys == before.Keys + {k};
    assert |before[k := v].Keys| == |before[k := v]| && |before.Keys| == |before|;
  }

  lemma {:induction false} CountRemove<M>(before: map<int, M>, k: int)
    ensures |before - {k}| == |before| - (if k in before then 1 else 0) && (before - {k}).Keys == before.Keys - {k}
  {
    assert (before - {k}).Keys == before.Keys - {k};
    assert |(before - {k}).Keys| == |before - {k}| && |before.Keys| == |before|;
  }
}

module CommitSafety {
  import opened ProcessQueues

  // One queue of one consumer: offsets put and not yet removed, the largest one put, the next
  // offset to pull, results on their way to the offset store, and the stored offset (-1: none).
  datatype Client = Client(pending: set<int>, offsetMax: int, next: int, underway: multiset<int>, stored: int)

  datatype Step =
    | Pulled(offsets: seq<int>, nextBegin: int)
    | PulledNothing(nextBegin: int)
    | Removed(consumed: set<int>, result: int)
    | Stored(offset: int)

  // RemoteBrokerOffsetStore.UpdateOffset, increase only.
  function UpdateOffset(stored: int, offset: int): int {
    if stored == -1 then offset else if offset > stored then offset else stored
  }

  // Pulls bring new messages in rising order between the offset asked for and the next begin.
  ghost predicate InOrder(offsets: seq<int>, from: int, to: int) {
    && (forall i :: 0 <= i < |offsets| ==> from <= offsets[i] < to)
    && (forall i, j :: 0 <= i < j < |offsets| ==> offsets[i] < offsets[j])
  }

  ghost predicate Possible(c: Client, step: Step) {
    match step
    case Pulled(offsets, nextBegin) => offsets != [] && InOrder(offsets, c.next, nextBegin)
    case PulledNothing(nextBegin) => c.next <= nextBegin
    case Removed(offsets, result) => RemoveAnswers(c.pending, c.pending - offsets, c.offsetMax, result)
    case Stored(offset) => offset in c.underway
  }

  // OnSuccess, correctTagsOffset, processConsumeResult and the store, one at a time.
  ghost function Next(c: Client, step: Step): Client {
    if !Possible(c, step) then c else
    match step
    case Pulled(offsets, nextBegin) =>
      c.(pending := c.pending + (set x | x in offsets), offsetMax := offsets[|offsets| - 1], next := nextBegin)
    case PulledNothing(nextBegin) =>
      if c.pending == {} then c.(next := nextBegin, underway := c.underway + multiset{nextBegin}) else c.(next := nextBegin)
    case Removed(offsets, result) =>
      c.(pending := c.pending - offsets, underway := if result >= 0 then c.underway + multiset{result} else c.underway)
    case Stored(offset) => c.(underway := c.underway - multiset{offset}, stored := UpdateOffset(c.stored, offset))
  }

  // Safe to commit now and for ever: not above anything pending or still to be pulled.
  ghost predicate Safe(c: Client, offset: int) {
    0 <= offset <= c.next && forall x :: x in c.pending ==> offset <= x
  }

  ghost predicate Inv(c: Client) {
    && c.next >= 0 && (forall x :: x in c.pending ==> 0 <= x <= c.offsetMax) && (c.pending != {} ==> 0 <= c.offsetMax < c.next)
    && (forall v :: v in c.underway ==> Safe(c, v))
    && (c.stored == -1 || Safe(c, c.stored))
  }

  lemma {:induction false} PulledKeeps(c: Client, offsets: seq<int>, nextBegin: int)
    requires Inv(c) && Possible(c, Pulled(offsets, nextBegin))
    ensures Inv(Next(c, Pulled(offsets, nextBegin)))
  {
    var d := Next(c, Pulled(offsets, nextBegin));
    var last := |offsets| - 1;
    forall x | x in d.pending ensures 0 <= x <= d.offsetMax && (x !in c.pending ==> x >= c.next) {
      if x !in c.pending {
        var i :| 0 <= i < |offsets| && offsets[i] == x;
        assert i == last || offsets[i] < offsets[last];
      }
    }
    forall v | Safe(c, v) ensures Safe(d, v) { }
  }

  lemma {:induction false} RemovedKeeps(c: Client, offsets: set<int>, result: int)
    requires Inv(c) && Possible(c, Removed(offsets, result))
    ensures Inv(Next(c, Removed(offsets, result)))
  {
    var d := Next(c, Removed(offsets, result));
    forall v | Safe(c, v) ensures Safe(d, v) { }
    if c.pending != {} && d.pending == {} {
      assert Safe(d, c.offsetMax + 1);
    } else if c.pending != {} {
      assert Safe(d, result);
    }
  }

  lemma {:induction false} StepKeeps(c: Client, step: Step)
    requires Inv(c)
    ensures Inv(Next(c, step)) && Next(c, step).stored >= c.stored
  {
    if Possible(c, step) {
      match step
      case Pulled(offsets, nextBegin) => PulledKeeps(c, offsets, nextBegin);
      case Removed(offsets, result) => RemovedKeeps(c, offsets, result);
      case _ =>
        var d := Next(c, step);
        forall v | Safe(c, v) ensures Safe(d, v) { }
    }
  }

  ghost function Run(c: Client, steps: seq<Step>): Client {
    if steps == [] then c else Next(Run(c, steps[..|steps| - 1]), steps[|steps| - 1])
  }

  // However pulls, consumption and the offset store interleave, the stored offset never
  // falls and never passes a message that was pulled and is not yet consumed.
  lemma {:induction false} CommitIsSafe(c: Client, steps: seq<Step>)
    requires Inv(c)
    ensures var d := Run(c, steps);
            Inv(d) && d.stored >= c.stored && (forall x :: x in d.pending ==> d.stored <= x)
  {
    hide Next, Possible;
    if steps != [] {
      CommitIsSafe(c, steps[..|steps| - 1]);
      StepKeeps(Run(c, steps[..|steps| - 1]), steps[|steps| - 1]);
    }
  }

  // While nothing is pending, the offset behind the largest one pulled has been stored or is on
  // its way.
  ghost predicate Settled(c: Client) {
    c.pending != {} || c.stored > c.offsetMax || exists v :: v in c.underway && v > c.offsetMax
  }

  lemma {:induction false} StepSettles(c: Client, step: Step)
    requires Inv(c) && (Settled(c) || (step.Pulled? && Possible(c, step)))
    ensures Settled(Next(c, step))
  {
    if Possible(c, step) {
      var d := Next(c, step);
      match step
      case Pulled(offsets, _) => assert offsets[0] in d.pending;
      case PulledNothing(nextBegin) =>
        if c.pending == {} && !(c.stored > c.offsetMax) {
          var v :| v in c.underway && v > c.offsetMax;
          assert v in d.underway;
        }
      case Removed(offsets, result) => RemovedSettles(c, offsets, result);
      case Stored(offset) =>
        if c.pending == {} && !(c.stored > c.offsetMax) {
          var v :| v in c.underway && v > c.offsetMax;
          assert v == offset || v in d.underway;
        }
    }
  }

  lemma {:induction false} RemovedSettles(c: Client, offsets: set<int>, result: int)
    requires Inv(c) && Settled(c) && Possible(c, Removed(offsets, result))
    ensures Settled(Next(c, Removed(offsets, result)))
  {
    var d := Next(c, Removed(offsets, result));
    if c.pending != {} && d.pending == {} {
      assert result in d.underway;
    }
    if c.pending == {} && !(c.stored > c.offsetMax) {
      var v :| v in c.underway && v > c.offsetMax;
      assert v in d.underway;
    }
  }

  // And nothing is forgotten: once messages have been pulled, whenever everything pulled has been
  // consumed and every result has reached the store, the stored offset is behind all of them.
  lemma {:induction false} CommitCatchesUp(c: Client, steps: seq<Step>, i: nat)
    requires Inv(c) && i < |steps| && steps[i].Pulled? && Possible(Run(c, steps[..i]), steps[i])
    ensures var d := Run(c, steps);
            Settled(d) && (d.pending == {} && d.underway == multiset{} ==> d.offsetMax < d.stored <= d.next)
  {
    hide Next, Possible, Inv, Settled;
    CommitIsSafe(c, steps);
    SettledSince(c, steps, i);
    SettledDone(Run(c, steps));
  }

  lemma {:induction false} SettledSince(c: Client, steps: seq<Step>, i: nat)
    requires Inv(c) && i < |steps| && steps[i].Pulled? && Possible(Run(c, steps[..i]), steps[i])
    ensures Settled(Run(c, steps))
  {
    var n := |steps| - 1;
    var front, last := steps[..n], steps[n];
    assert Run(c, steps) == Next(Run(c, front), last);
    hide *;
    CommitIsSafe(c, front);
    if i < n {
      assert front[..i] == steps[..i];
      SettledSince(c, front, i);
      StepSettles(Run(c, front), last);
    } else {
      StepSettles(Run(c, front), last);
    }
  }

  lemma {:induction false} SettledDone(c: Client)
    requires Inv(c) && Settled(c)
    ensures c.pending == {} && c.underway == multiset{} ==> c.offsetMax < c.stored <= c.next
  {
  }

  // A consumer that begins with nothing pulled and nothing stored is safe from its first pull
  // on.
  lemma {:induction false} SafeFromStart(next: nat, steps: seq<Step>)
    ensures var d := Run(Client({}, 0, next, multiset{}, -1), steps);
            d.stored >= -1 && forall x :: x in d.pending ==> d.stored <= x
  {
    hide Run;
    CommitIsSafe(Client({}, 0, next, multiset{}, -1), steps);
  }

  // What PutMessage does to the queue of an in-order consumer is the step above.
  lemma {:induction false} PutIsPulled<M>(pending: set<int>, max: int, msgs: seq<Message<M>>, from: int, to: int)
    requires msgs != [] && (forall x :: x in pending ==> x < from)
    requires InOrder(seq(|msgs|, i requires 0 <= i < |msgs| => msgs[i].queueOffset), from, to)
    ensures LastNew(pending, max, msgs) == msgs[|msgs| - 1].queueOffset
  {
    var offsets := seq(|msgs|, i requires 0 <= i < |msgs| => msgs[i].queueOffset);
    var n := |msgs| - 1;
    forall x | x in Offsets(msgs[..n]) ensures x < offsets[n] {
      var i := OffsetOf(msgs[..n], x);
      assert offsets[i] < offsets[n];
    }
    assert offsets[n] !in pending;
  }

  lemma {:induction false} OffsetOf<M>(msgs: seq<Message<M>>, x: int) returns (i: nat)
    requires x in Offsets(msgs)
    ensures i < |msgs| && msgs[i].queueOffset == x
  {
    i := |msgs| - 1;
    if msgs[i].queueOffset != x { i := OffsetOf(msgs[..i], x); }
  }

  class RemoteBrokerOffsetStore<Queue(==)> {
    var offsetTable: map<Queue, int>

    method UpdateOffset(mq: Queue, offset: int, increaseOnly: bool)
      modifies this
      ensures offsetTable == old(offsetTable)[mq :=
        if mq in old(offsetTable) && increaseOnly && old(offsetTable)[mq] >= offset then old(offsetTable)[mq] else offset]
    {
      if mq !in offsetTable {
        offsetTable := offsetTable[mq := offset];
      } else if increaseOnly {
        if offset > offsetTable[mq] {
          offsetTable := offsetTable[mq := offset];
        }
      } else {
        offsetTable := offsetTable[mq := offset];
      }
    }
  }
}
