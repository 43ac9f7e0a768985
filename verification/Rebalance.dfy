// Client rebalance: which process queue serves a message queue.

module Rebalance {
  datatype MessageQueue = MessageQueue(topic: string, brokerName: string, queueId: int)

  // A process queue is known by a number; a pull request ties one to its message queue.
  datatype PullRequest = PullRequest(mq: MessageQueue, pq: nat, nextOffset: int)

  // What one rebalance of a topic is given: the queues given to this client, the process
  // queues whose pulls have stalled, whether giving up a queue succeeds, and where to start.
  datatype Round = Round(
    topic: string, given: seq<MessageQueue>, stalled: set<nat>, released: MessageQueue -> bool, from: MessageQueue -> int)

  // A queue of the topic that is no longer given, or whose pulls have stalled.
  predicate Unwanted(r: Round, mq: MessageQueue, pq: nat) {
    mq.topic == r.topic && (mq !in r.given || pq in r.stalled)
  }

  ghost predicate Distinct(qs: seq<MessageQueue>) { forall i, j :: 0 <= i < j < |qs| ==> qs[i] != qs[j] }

  // What the client keeps: the table, the process queues dropped so far, and every pull
  // request ever dispatched; process queue number p came with request p.
  datatype Registry = Registry(table: map<MessageQueue, nat>, dropped: set<nat>, pulls: seq<PullRequest>)

  // Every table entry was dispatched for its queue, and every process queue ever dispatched
  // has been dropped unless it is the table's.
  ghost predicate OneLive(g: Registry) {
    && (forall p :: 0 <= p < |g.pulls| ==> g.pulls[p].pq == p)
    && (forall mq :: mq in g.table ==> g.table[mq] < |g.pulls| && g.pulls[g.table[mq]].mq == mq)
    && (forall p :: 0 <= p < |g.pulls| && p !in g.dropped ==> g.pulls[p].mq in g.table && g.table[g.pulls[p].mq] == p)
  }

  // At most one process queue of a message queue is live, and it is the table's.
  lemma {:induction false} AtMostOneLive(g: Registry, i: nat, j: nat)
    requires OneLive(g) && i < |g.pulls| && j < |g.pulls| && g.pulls[i].mq == g.pulls[j].mq
    requires i !in g.dropped && j !in g.dropped
    ensures i == j && g.pulls[i].mq in g.table && g.table[g.pulls[i].mq] == i
  {
  }

  function Drop(g: Registry, mq: MessageQueue, remove: bool): Registry
    requires mq in g.table
  {
    Registry(if remove then g.table - {mq} else g.table, g.dropped + {g.table[mq]}, g.pulls)
  }

  function Add(g: Registry, mq: MessageQueue, from: int): Registry {
    Registry(g.table[mq := |g.pulls|], g.dropped, g.pulls + [PullRequest(mq, |g.pulls|, from)])
  }

  lemma {:induction false} DropKeeps(g: Registry, mq: MessageQueue, remove: bool)
    requires OneLive(g) && mq in g.table
    ensures OneLive(Drop(g, mq, remove))
  {
    var h := Drop(g, mq, remove);
    forall p | 0 <= p < |h.pulls| && p !in h.dropped ensures h.pulls[p].mq in h.table && h.table[h.pulls[p].mq] == p {
      assert g.table[g.pulls[p].mq] == p;
    }
  }

  lemma {:induction false} AddKeeps(g: Registry, mq: MessageQueue, from: int)
    requires OneLive(g) && mq !in g.table
    ensures OneLive(Add(g, mq, from))
  {
  }

  // The first loop of updateProcessQueueTableInRebalance over the entries in `order`.
  function GiveUp(g: Registry, r: Round, order: seq<MessageQueue>): Registry {
    if order == [] then g
    else
      var h, mq := GiveUp(g, r, order[..|order| - 1]), order[|order| - 1];
      if mq in h.table && Unwanted(r, mq, h.table[mq]) then Drop(h, mq, r.released(mq)) else h
  }

  // The second loop: a new process queue and a pull request for each queue without one.
  function TakeUp(g: Registry, r: Round, given: seq<MessageQueue>): Registry {
    if given == [] then g
    else
      var h, mq := TakeUp(g, r, given[..|given| - 1]), given[|given| - 1];
      if mq !in h.table && r.from(mq) >= 0 then Add(h, mq, r.from(mq)) else h
  }

  lemma {:induction false} GiveUpKeeps(g: Registry, r: Round, order: seq<MessageQueue>)
    requires OneLive(g)
    ensures OneLive(GiveUp(g, r, order)) && GiveUp(g, r, order).pulls == g.pulls
  {
    hide OneLive;
    if order != [] {
      var front, mq := order[..|order| - 1], order[|order| - 1];
      GiveUpKeeps(g, r, front);
      var h := GiveUp(g, r, front);
      if mq in h.table { DropKeeps(h, mq, r.released(mq)); }
    }
  }

  lemma {:induction false} TakeUpKeeps(g: Registry, r: Round, given: seq<MessageQueue>)
    requires OneLive(g)
    ensures OneLive(TakeUp(g, r, given))
  {
    hide OneLive;
    if given != [] {
      var front, mq := given[..|given| - 1], given[|given| - 1];
      TakeUpKeeps(g, r, front);
      var h := TakeUp(g, r, front);
      if mq !in h.table { AddKeeps(h, mq, r.from(mq)); }
    }
  }

  // Exactly the unwanted process queues have been dropped.
  lemma {:induction false} GiveUpDrops(g: Registry, r: Round, order: seq<MessageQueue>)
    requires Distinct(order) && forall i :: 0 <= i < |order| ==> order[i] in g.table
    ensures var h := GiveUp(g, r, order);
            forall p :: p in h.dropped <==>
              p in g.dropped || exists i :: 0 <= i < |order| && g.table[order[i]] == p
                                            && order[i].topic == r.topic && (order[i] !in r.given || p in r.stalled)
  {
    if order != [] {
      var front, mq := order[..|order| - 1], order[|order| - 1];
      GiveUpDrops(g, r, front);
      GiveUpLeaves(g, r, front);
      assert mq !in front;
    }
  }

  // Exactly what was unwanted and could be released has left the table.
  lemma {:induction false} GiveUpLeaves(g: Registry, r: Round, order: seq<MessageQueue>)
    requires Distinct(order) && forall i :: 0 <= i < |order| ==> order[i] in g.table
    ensures var h := GiveUp(g, r, order);
            forall mq :: mq in h.table <==>
              mq in g.table && !(mq in order && mq.topic == r.topic && (mq !in r.given || g.table[mq] in r.stalled) && r.released(mq))
    ensures var h := GiveUp(g, r, order); forall mq :: mq in h.table ==> h.table[mq] == g.table[mq]
  {
    if order != [] {
      GiveUpLeaves(g, r, order[..|order| - 1]);
    }
  }

  // Each queue taken up gets exactly one pull request, and no other queue gets one; the request
  // starts at the offset computed for its queue.
  lemma {:induction false} OnePullEach(g: Registry, r: Round, given: seq<MessageQueue>)
    requires Distinct(given)
    ensures var h := TakeUp(g, r, given);
            && g.pulls <= h.pulls && (forall mq :: mq in g.table ==> mq in h.table && h.table[mq] == g.table[mq])
            && (forall mq :: mq in h.table <==> mq in g.table || (mq in given && r.from(mq) >= 0))
            && (forall mq :: Pulled(h, |g.pulls|, mq) == if mq in h.table && mq !in g.table then 1 else 0)
            && StartAsComputed(h.pulls, |g.pulls|, r) && h.dropped == g.dropped
  {
    TakeUpStarts(g, r, given);
    hide StartAsComputed;
    TakeUpCounts(g, r, given);
  }

  // The requests from number `first` on start where the round says, never below 0.
  ghost predicate StartAsComputed(pulls: seq<PullRequest>, first: nat, r: Round) {
    forall p :: first <= p < |pulls| ==> pulls[p].nextOffset == r.from(pulls[p].mq) >= 0
  }

  lemma {:induction false} TakeUpStarts(g: Registry, r: Round, given: seq<MessageQueue>)
    ensures var h := TakeUp(g, r, given);
            && g.pulls <= h.pulls && StartAsComputed(h.pulls, |g.pulls|, r) && h.dropped == g.dropped
            && forall p :: |g.pulls| <= p < |h.pulls| ==> h.pulls[p].mq in given
  {
    if given != [] { TakeUpStarts(g, r, given[..|given| - 1]); }
  }

  lemma {:induction false} TakeUpCounts(g: Registry, r: Round, given: seq<MessageQueue>)
    requires Distinct(given)
    ensures var h := TakeUp(g, r, given);
            && g.pulls <= h.pulls && (forall mq :: mq in g.table ==> mq in h.table && h.table[mq] == g.table[mq])
            && (forall mq :: mq in h.table <==> mq in g.table || (mq in given && r.from(mq) >= 0))
            && (forall mq :: Pulled(h, |g.pulls|, mq) == if mq in h.table && mq !in g.table then 1 else 0)
  {
    if given != [] {
      var front, mq := given[..|given| - 1], given[|given| - 1];
      TakeUpCounts(g, r, front);
      var h := TakeUp(g, r, front);
      if mq !in h.table && r.from(mq) >= 0 {
        forall q: MessageQueue
          ensures Pulled(Add(h, mq, r.from(mq)), |g.pulls|, q) == Pulled(h, |g.pulls|, q) + if q == mq then 1 else 0
        {
          PulledAdd(h, |g.pulls|, mq, r.from(mq), q);
        }
      }
    } else {
      forall q: MessageQueue ensures Pulled(g, |g.pulls|, q) == 0 { }
    }
  }

  // How many requests from number `first` on are for the queue.
  function Pulled(g: Registry, first: nat, mq: MessageQueue): nat
    decreases |g.pulls|
  {
    if |g.pulls| <= first then 0
    else
      var n := |g.pulls| - 1;
      Pulled(g.(pulls := g.pulls[..n]), first, mq) + if g.pulls[n].mq == mq then 1 else 0
  }

  lemma {:induction false} PulledAdd(g: Registry, first: nat, mq: MessageQueue, from: int, q: MessageQueue)
    requires first <= |g.pulls|
    ensures Pulled(Add(g, mq, from), first, q) == Pulled(g, first, q) + if q == mq then 1 else 0
  {
    var h := Add(g, mq, from);
    assert h.pulls[..|g.pulls|] == g.pulls;
    PulledSame(h.(pulls := g.pulls), g, first, q);
  }

  lemma {:induction false} PulledSame(g: Registry, h: Registry, first: nat, q: MessageQueue)
    requires g.pulls == h.pulls
    ensures Pulled(g, first, q) == Pulled(h, first, q)
    decreases |g.pulls|
  {
    if |g.pulls| > first {
      var n := |g.pulls| - 1;
      PulledSame(g.(pulls := g.pulls[..n]), h.(pulls := h.pulls[..n]), first, q);
    }
  }

  // ---------------------------------------------------------------- runs

  datatype Step =
    | Rebalance(r: Round, order: seq<MessageQueue>)   // one topic, entries met in this order
    | Remove(mq: MessageQueue)                        // RemoveProcessQueue
    | Illegal(pq: nat)                                // a pull answered OFFSET_ILLEGAL
    | Destroy

  function Next(g: Registry, step: Step): Registry {
    match step
    case Rebalance(r, order) => TakeUp(GiveUp(g, r, order), r, r.given)
    case Remove(mq) => if mq in g.table then Drop(g, mq, true) else g
    case Illegal(pq) => g.(dropped := g.dropped + {pq})
    case Destroy => Registry(map[], g.dropped + g.table.Values, g.pulls)
  }

  function Run(steps: seq<Step>): Registry {
    if steps == [] then Registry(map[], {}, []) else Next(Run(steps[..|steps| - 1]), steps[|steps| - 1])
  }

  // Across every sequence of rebalances, removals, illegal offsets and destroys, a message
  // queue has at most one live process queue, the one in the table.
  lemma {:induction false} OneLiveAlways(steps: seq<Step>)
    ensures OneLive(Run(steps))
  {
    if steps != [] {
      OneLiveAlways(steps[..|steps| - 1]);
      var g := Run(steps[..|steps| - 1]);
      match steps[|steps| - 1]
      case Rebalance(r, order) =>
        GiveUpKeeps(g, r, order);
        TakeUpKeeps(GiveUp(g, r, order), r, r.given);
      case Remove(mq) => if mq in g.table { DropKeeps(g, mq, true); }
      case Illegal(_) =>
      case Destroy =>
    }
  }

  // After a destroy no process queue that was ever dispatched is live and no queue is served; after
  // a removal the same holds of that one queue, and the others are as they were.
  lemma {:induction false} GoneIsDropped(steps: seq<Step>, mq: MessageQueue)
    ensures var h := Run(steps + [Destroy]);
            h.table == map[] && (forall p :: 0 <= p < |h.pulls| ==> p in h.dropped) && h.pulls == Run(steps).pulls
    ensures var g, h := Run(steps), Run(steps + [Remove(mq)]);
            && mq !in h.table && (forall q :: q in h.table <==> q in g.table && q != mq)
            && (forall q :: q in h.table ==> h.table[q] == g.table[q]) && h.pulls == g.pulls
            && (forall p :: 0 <= p < |h.pulls| ==> (p in h.dropped <==> p in g.dropped || h.pulls[p].mq == mq))
  {
    assert (steps + [Destroy])[..|steps|] == steps && (steps + [Remove(mq)])[..|steps|] == steps;
    OneLiveAlways(steps);
    var g := Run(steps);
    forall p | 0 <= p < |g.pulls| && p !in g.dropped ensures p in g.table.Values {
      assert g.table[g.pulls[p].mq] == p;
    }
  }

  // Every pull request ever dispatched came from a rebalance that was given its queue, and
  // starts at the offset which that rebalance computed for the queue.
  lemma {:induction false} StartsAlways(steps: seq<Step>, p: nat) returns (i: nat)
    requires p < |Run(steps).pulls|
    ensures i < |steps| && steps[i].Rebalance? && |Run(steps[..i]).pulls| <= p < |Run(steps[..i + 1]).pulls|
    ensures var request, r := Run(steps).pulls[p], steps[i].r;
            request.mq in r.given && request.nextOffset == r.from(request.mq) >= 0
  {
    hide GiveUp, TakeUp;
    i := |steps| - 1;
    var g, step := Run(steps[..i]), steps[i];
    match step {
      case Rebalance(r, order) =>
        GiveUpPulls(g, r, order);
        TakeUpStarts(GiveUp(g, r, order), r, r.given);
      case _ =>
    }
    if p < |g.pulls| {
      var k := StartsAlways(steps[..i], p);
      assert steps[..i][..k] == steps[..k] && steps[..i][..k + 1] == steps[..k + 1];
      i := k;
    } else {
      assert steps[..i + 1] == steps;
    }
  }

  lemma {:induction false} GiveUpPulls(g: Registry, r: Round, order: seq<MessageQueue>)
    ensures GiveUp(g, r, order).pulls == g.pulls
  {
    if order != [] { GiveUpPulls(g, r, order[..|order| - 1]); }
  }

  // ---------------------------------------------------------------- in place

  class RebalanceImpl {
    var table: map<MessageQueue, nat>
    var dropped: set<nat>
    var pulls: seq<PullRequest>

    ghost function View(): Registry
      reads this
    {
      Registry(table, dropped, pulls)
    }

    constructor ()
      ensures View() == Run([])
    {
      table, dropped, pulls := map[], {}, [];
    }

    method UpdateProcessQueueTableInRebalance(r: Round, order: seq<MessageQueue>) returns (changed: bool, added: seq<PullRequest>)
      requires forall mq :: mq in order <==> mq in table
      requires Distinct(order)
      modifies this
      ensures View() == Next(old(View()), Rebalance(r, order)) && pulls == old(pulls) + added
      ensures forall i :: 0 <= i < |added| ==> added[i].nextOffset == r.from(added[i].mq) >= 0
    {
      hide GiveUp, TakeUp;
      changed := DropUnwanted(r, order);
      added := AddMissing(r);
      changed := changed || |added| > 0;
    }

    method DropUnwanted(r: Round, order: seq<MessageQueue>) returns (changed: bool)
      requires Distinct(order) && forall i :: 0 <= i < |order| ==> order[i] in table
      modifies this`table, this`dropped
      ensures View() == GiveUp(old(View()), r, order)
    {
      changed := false;
      for i := 0 to |order|
        invariant View() == GiveUp(old(View()), r, order[..i])
        invariant forall k :: i <= k < |order| ==> order[k] in table
      {
        assert order[..i + 1][..i] == order[..i];
        var mq := order[i];
        var pq := table[mq];
        if mq.topic == r.topic && (mq !in r.given || pq in r.stalled) {
          dropped := dropped + {pq};
          if r.released(mq) {
            table := table - {mq};
            changed := true;
          }
        }
      }
      assert order[..|order|] == order;
    }

    method AddMissing(r: Round) returns (added: seq<PullRequest>)
      modifies this`table, this`pulls
      ensures View() == TakeUp(old(View()), r, r.given) && pulls == old(pulls) + added
      ensures forall i :: 0 <= i < |added| ==> added[i].nextOffset == r.from(added[i].mq) >= 0
    {
      added := [];
      for i := 0 to |r.given|
        invariant View() == TakeUp(old(View()), r, r.given[..i]) && pulls == old(pulls) + added
        invariant forall k :: 0 <= k < |added| ==> added[k].nextOffset == r.from(added[k].mq) >= 0
      {
        assert r.given[..i + 1][..i] == r.given[..i];
        var mq := r.given[i];
        if mq !in table {
          var nextOffset := r.from(mq);
          if nextOffset >= 0 {
            var request := PullRequest(mq, |pulls|, nextOffset);
            table := table[mq := |pulls|];
            added := added + [request];
            pulls := pulls + [request];
          }
        }
      }
      assert r.given[..|r.given|] == r.given;
    }

    method RemoveProcessQueue(mq: MessageQueue)
      modifies this`table, this`dropped
      ensures View() == Next(old(View()), Remove(mq))
    {
      if mq in table {
        dropped := dropped + {table[mq]};
        table := table - {mq};
      }
    }

    method Destroy()
      modifies this`table, this`dropped
      ensures View() == Next(old(View()), Step.Destroy)
    {
      dropped := dropped + table.Values;
      table := map[];
    }
  }
}
