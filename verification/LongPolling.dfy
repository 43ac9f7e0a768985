// Held pull requests of one queue: suspended, taken in hand by notifiers, woken or put back.

module LongPolling {
  datatype Request = Request(id: nat, pullFrom: int, suspendedAt: int, timeout: int)

  // Data has passed the request's offset, as the notifier was told or as it looked up itself,
  // or its time is over.
  predicate Due(r: Request, maxOffset: int, newest: int, now: int) {
    maxOffset > r.pullFrom || newest > r.pullFrom || now >= r.suspendedAt + r.timeout
  }

  // Only a request straight from the client, that allows it and found nothing, is suspended.
  predicate MaySuspend(brokerAllowSuspend: bool, hasSuspendFlag: bool, notFound: bool) {
    notFound && brokerAllowSuspend && hasSuspendFlag
  }

  // ---------------------------------------------------------------- interleavings

  // A notifier at work: the maximum offset it was called with, requests not examined yet and
  // requests to put back.
  datatype Hand = Hand(maxOffset: int, todo: seq<Request>, replay: seq<Request>)

  // Why a request was woken.
  datatype Waking = Waking(request: Request, maxOffset: int, newest: int, now: int)

  datatype State = State(held: seq<Request>, hands: seq<Hand>, woken: seq<Waking>, suspended: multiset<Request>)

  const START: State := State([], [], [], multiset{})

  datatype Step =
    | Pull(r: Request, flag: bool, notFound: bool)      // a client's pull, which may be suspended
    | Take(maxOffset: int)                              // notifyMessageArriving: CloneListAndClear
    | Examine(h: nat, newest: int, now: int)            // one round of its loop
    | PutBack(h: nat)                                   // AddManyPullRequest
    | Rerun(i: nat, flag: bool, notFound: bool)         // a woken request pulls again

  // processRequest, as far as holding goes; ExecuteRequestWhenWakeup does not allow it.
  function Process(s: State, r: Request, brokerAllowSuspend: bool, flag: bool, notFound: bool): State {
    if MaySuspend(brokerAllowSuspend, flag, notFound) then s.(held := s.held + [r], suspended := s.suspended + multiset{r})
    else s
  }

  function Next(s: State, step: Step): State {
    match step
    case Pull(r, flag, notFound) => Process(s, r, true, flag, notFound)
    case Take(maxOffset) => if s.held == [] then s else s.(held := [], hands := s.hands + [Hand(maxOffset, s.held, [])])
    case Examine(h, newest, now) =>
      if h >= |s.hands| || s.hands[h].todo == [] then s
      else
        var a := s.hands[h];
        var r, rest := a.todo[0], a.todo[1..];
        if Due(r, a.maxOffset, newest, now) then
          s.(hands := s.hands[h := a.(todo := rest)], woken := s.woken + [Waking(r, a.maxOffset, newest, now)])
        else s.(hands := s.hands[h := a.(todo := rest, replay := a.replay + [r])])
    case PutBack(h) =>
      if h >= |s.hands| || s.hands[h].todo != [] then s
      else s.(held := s.hands[h].replay + s.held, hands := s.hands[..h] + s.hands[h + 1..])
    case Rerun(i, flag, notFound) =>
      if i < |s.woken| then Process(s, s.woken[i].request, false, flag, notFound) else s
  }

  function Run(steps: seq<Step>): State {
    if steps == [] then START else Next(Run(steps[..|steps| - 1]), steps[|steps| - 1])
  }

  ghost function InHand(hands: seq<Hand>): multiset<Request> {
    if hands == [] then multiset{}
    else
      var a := hands[|hands| - 1];
      InHand(hands[..|hands| - 1]) + multiset(a.todo) + multiset(a.replay)
  }

  ghost function Woken(ws: seq<Waking>): multiset<Request> {
    if ws == [] then multiset{} else Woken(ws[..|ws| - 1]) + multiset{ws[|ws| - 1].request}
  }

  lemma {:induction false} WokenSnoc(ws: seq<Waking>, w: Waking)
    ensures Woken(ws + [w]) == Woken(ws) + multiset{w.request}
  {
    assert (ws + [w])[..|ws|] == ws;
  }

  lemma {:induction false} HandSnoc(hands: seq<Hand>, a: Hand)
    ensures InHand(hands + [a]) == InHand(hands) + multiset(a.todo) + multiset(a.replay)
  {
    assert (hands + [a])[..|hands|] == hands;
  }

  // The requests in one notifier's hand are part of those in hand.
  lemma {:induction false} HandSplit(hands: seq<Hand>, h: nat)
    requires h < |hands|
    ensures InHand(hands) == InHand(hands[..h] + hands[h + 1..]) + multiset(hands[h].todo) + multiset(hands[h].replay)
    decreases |hands|
  {
    hide InHand;
    var n := |hands| - 1;
    assert hands == hands[..n] + [hands[n]];
    HandSnoc(hands[..n], hands[n]);
    if h < n {
      HandSplit(hands[..n], h);
      var rest := hands[..h] + hands[h + 1..n];
      assert hands[..n][..h] + hands[..n][h + 1..] == rest && hands[..h] + hands[h + 1..] == rest + [hands[n]];
      HandSnoc(rest, hands[n]);
    } else {
      assert hands[..h] + hands[h + 1..] == hands[..n];
    }
  }

  // Examining a request takes it out of the hand or moves it to the requests to put back.
  lemma {:induction false} HandTake(hands: seq<Hand>, h: nat)
    requires h < |hands| && hands[h].todo != []
    ensures var a, r := hands[h], hands[h].todo[0];
            && InHand(hands) == InHand(hands[h := a.(todo := a.todo[1..])]) + multiset{r}
            && InHand(hands) == InHand(hands[h := a.(todo := a.todo[1..], replay := a.replay + [r])])
  {
    hide InHand;
    var a, r := hands[h], hands[h].todo[0];
    assert a.todo == [r] + a.todo[1..];
    HandSplit(hands, h);
    var taken, moved := a.(todo := a.todo[1..]), a.(todo := a.todo[1..], replay := a.replay + [r]);
    HandSplit(hands[h := taken], h);
    HandSplit(hands[h := moved], h);
    assert hands[h := taken][..h] + hands[h := taken][h + 1..] == hands[..h] + hands[h + 1..];
    assert hands[h := moved][..h] + hands[h := moved][h + 1..] == hands[..h] + hands[h + 1..];
  }

  ghost predicate Conserved(s: State) {
    s.suspended == multiset(s.held) + InHand(s.hands) + Woken(s.woken)
  }

  ghost predicate Justified(s: State) {
    forall i :: 0 <= i < |s.woken| ==>
      var w := s.woken[i];
      w.request.pullFrom < w.maxOffset || w.request.pullFrom < w.newest || w.request.suspendedAt + w.request.timeout <= w.now
  }

  lemma {:induction false} ExamineKeeps(s: State, h: nat, newest: int, now: int)
    requires Conserved(s) && h < |s.hands| && s.hands[h].todo != []
    ensures Conserved(Next(s, Examine(h, newest, now)))
  {
    hide InHand, Woken;
    var a := s.hands[h];
    WokenSnoc(s.woken, Waking(a.todo[0], a.maxOffset, newest, now));
    HandTake(s.hands, h);
  }

  lemma {:induction false} StepKeeps(s: State, step: Step)
    requires Conserved(s) && Justified(s)
    ensures Conserved(Next(s, step)) && Justified(Next(s, step))
  {
    hide InHand, Woken, Conserved;
    match step
    case Take(maxOffset) => TakeKeeps(s, maxOffset);
    case Examine(h, newest, now) => if h < |s.hands| && s.hands[h].todo != [] { ExamineKeeps(s, h, newest, now); }
    case PutBack(h) => PutBackKeeps(s, h);
    case Pull(r, flag, notFound) => PullKeeps(s, r, flag, notFound);
    case Rerun(_, _, _) =>
  }

  lemma {:induction false} TakeKeeps(s: State, maxOffset: int)
    requires Conserved(s)
    ensures Conserved(Next(s, Take(maxOffset)))
  {
    hide InHand, Woken;
    HandSnoc(s.hands, Hand(maxOffset, s.held, []));
  }

  lemma {:induction false} PutBackKeeps(s: State, h: nat)
    requires Conserved(s)
    ensures Conserved(Next(s, PutBack(h)))
  {
    hide InHand, Woken;
    if h < |s.hands| { HandSplit(s.hands, h); }
  }

  lemma {:induction false} PullKeeps(s: State, r: Request, flag: bool, notFound: bool)
    requires Conserved(s)
    ensures Conserved(Next(s, Pull(r, flag, notFound)))
  {
    hide InHand, Woken;
  }

  // Under every interleaving of pulls and notifiers, what was ever suspended is held, in
  // hand or woken, nothing twice; and whatever was woken was due.
  lemma {:induction false} HeldPullsConserved(steps: seq<Step>)
    ensures Conserved(Run(steps)) && Justified(Run(steps))
  {
    hide Conserved, Justified, Next;
    if steps == [] {
      NothingHeld();
    } else {
      HeldPullsConserved(steps[..|steps| - 1]);
      StepKeeps(Run(steps[..|steps| - 1]), steps[|steps| - 1]);
    }
  }

  // The pulls that have to wait: they found nothing, and the client allows it.
  ghost function Waiting(steps: seq<Step>): multiset<Request> {
    if steps == [] then multiset{}
    else
      Waiting(steps[..|steps| - 1]) +
        match steps[|steps| - 1]
        case Pull(r, flag, notFound) => if flag && notFound then multiset{r} else multiset{}
        case _ => multiset{}
  }

  // So exactly these are held, in hand or woken, each as often as it had to wait: a request that
  // was woken is answered, whatever it finds.
  lemma {:induction false} WaitingIsHeld(steps: seq<Step>)
    ensures var s := Run(steps); Waiting(steps) == multiset(s.held) + InHand(s.hands) + Woken(s.woken)
  {
    hide InHand, Woken, Justified;
    HeldPullsConserved(steps);
    WaitingIsSuspended(steps);
  }

  lemma {:induction false} WaitingIsSuspended(steps: seq<Step>)
    ensures Run(steps).suspended == Waiting(steps)
  {
    if steps != [] {
      WaitingIsSuspended(steps[..|steps| - 1]);
      OneSuspended(Run(steps[..|steps| - 1]), steps[|steps| - 1]);
      hide Next;
    }
  }

  lemma {:induction false} OneSuspended(s: State, step: Step)
    ensures Next(s, step).suspended
         == s.suspended + match step
                          case Pull(r, flag, notFound) => if flag && notFound then multiset{r} else multiset{}
                          case _ => multiset{}
  {
  }

  lemma {:induction false} NothingHeld()
    ensures Conserved(START) && Justified(START)
  {
  }

  // A request suspended once is woken at most once.
  lemma {:induction false} WokenAtMostOnce(steps: seq<Step>, r: Request)
    requires Run(steps).suspended[r] <= 1
    ensures Woken(Run(steps).woken)[r] <= 1
    ensures r in Woken(Run(steps).woken) ==> r !in Run(steps).held && r !in InHand(Run(steps).hands)
  {
    hide Run, InHand, Woken;
    HeldPullsConserved(steps);
    var s := Run(steps);
    assert s.suspended[r] == multiset(s.held)[r] + InHand(s.hands)[r] + Woken(s.woken)[r];
  }

  // ---------------------------------------------------------------- one notifier

  // The loop of notifyMessageArriving: newest[i] and now[i] are what it reads in round i.
  datatype Split = Split(woken: seq<Request>, kept: seq<Request>)

  function Notify(list: seq<Request>, maxOffset: int, newest: seq<int>, now: seq<int>): Split
    requires |newest| == |now| == |list|
  {
    if list == [] then Split([], [])
    else
      var n := |list| - 1;
      var p := Notify(list[..n], maxOffset, newest[..n], now[..n]);
      if Due(list[n], maxOffset, newest[n], now[n]) then p.(woken := p.woken + [list[n]]) else p.(kept := p.kept + [list[n]])
  }

  // Each request kept was not due in its own round: not by the offset given, not by the offset
  // looked up, and not by the clock.
  lemma {:induction false} KeptWasNotDue(list: seq<Request>, maxOffset: int, newest: seq<int>, now: seq<int>, k: nat) returns (i: nat)
    requires |newest| == |now| == |list| && k < |Notify(list, maxOffset, newest, now).kept|
    ensures i < |list| && list[i] == Notify(list, maxOffset, newest, now).kept[k]
    ensures maxOffset <= list[i].pullFrom && newest[i] <= list[i].pullFrom && now[i] < list[i].suspendedAt + list[i].timeout
    decreases |list|
  {
    var n := |list| - 1;
    i := n;
    if k < |Notify(list[..n], maxOffset, newest[..n], now[..n]).kept| {
      i := KeptWasNotDue(list[..n], maxOffset, newest[..n], now[..n], k);
    }
  }

  // Each request woken was due in its own round.
  lemma {:induction false} WokenWasDue(list: seq<Request>, maxOffset: int, newest: seq<int>, now: seq<int>, k: nat) returns (i: nat)
    requires |newest| == |now| == |list| && k < |Notify(list, maxOffset, newest, now).woken|
    ensures i < |list| && list[i] == Notify(list, maxOffset, newest, now).woken[k]
    ensures list[i].pullFrom < maxOffset || list[i].pullFrom < newest[i] || list[i].suspendedAt + list[i].timeout <= now[i]
    decreases |list|
  {
    var n := |list| - 1;
    i := n;
    if k < |Notify(list[..n], maxOffset, newest[..n], now[..n]).woken| {
      i := WokenWasDue(list[..n], maxOffset, newest[..n], now[..n], k);
    }
  }

  lemma {:induction false} NotifyConserves(list: seq<Request>, maxOffset: int, newest: seq<int>, now: seq<int>)
    requires |newest| == |now| == |list|
    ensures var p := Notify(list, maxOffset, newest, now); multiset(p.woken) + multiset(p.kept) == multiset(list)
  {
    hide Due;
    if list != [] {
      var n := |list| - 1;
      NotifyConserves(list[..n], maxOffset, newest[..n], now[..n]);
      assert list == list[..n] + [list[n]];
    }
  }

  // An uninterrupted notifier loses no request, wakes none twice, and keeps none whose data
  // had arrived.
  lemma {:induction false} NotifySplits(list: seq<Request>, maxOffset: int, newest: seq<int>, now: seq<int>)
    requires |newest| == |now| == |list|
    ensures var p := Notify(list, maxOffset, newest, now);
            && multiset(p.woken) + multiset(p.kept) == multiset(list)
            && (forall i :: 0 <= i < |p.kept| ==> maxOffset <= p.kept[i].pullFrom)
  {
    hide Notify;
    NotifyConserves(list, maxOffset, newest, now);
    forall k | 0 <= k < |Notify(list, maxOffset, newest, now).kept|
      ensures maxOffset <= Notify(list, maxOffset, newest, now).kept[k].pullFrom
    {
      var i := KeptWasNotDue(list, maxOffset, newest, now, k);
    }
  }

  class ManyPullRequest {
    var pullRequestList: seq<Request>

    constructor ()
      ensures pullRequestList == []
    {
      pullRequestList := [];
    }

    method AddPullRequest(r: Request)
      modifies this
      ensures pullRequestList == old(pullRequestList) + [r]
    {
      pullRequestList := pullRequestList + [r];
    }

    method AddManyPullRequest(rs: seq<Request>)
      modifies this
      ensures pullRequestList == rs + old(pullRequestList)
    {
      pullRequestList := rs + pullRequestList;
    }

    method CloneListAndClear() returns (rs: seq<Request>)
      modifies this
      ensures rs == old(pullRequestList) && pullRequestList == []
    {
      rs := [];
      if pullRequestList != [] {
        rs := pullRequestList;
        pullRequestList := [];
      }
    }

    method NotifyMessageArriving(maxOffset: int, newest: seq<int>, now: seq<int>) returns (woken: seq<Request>)
      requires |newest| == |now| == |pullRequestList|
      modifies this
      ensures Split(woken, pullRequestList) == Notify(old(pullRequestList), maxOffset, newest, now)
      ensures forall i :: 0 <= i < |pullRequestList| ==> maxOffset <= pullRequestList[i].pullFrom
    {
      var requestList := CloneListAndClear();
      var replayList := [];
      woken := [];
      for i := 0 to |requestList|
        invariant pullRequestList == []
        invariant Split(woken, replayList) == Notify(requestList[..i], maxOffset, newest[..i], now[..i])
      {
        assert requestList[..i + 1][..i] == requestList[..i] && newest[..i + 1][..i] == newest[..i] && now[..i + 1][..i] == now[..i];
        var r := requestList[i];
        if maxOffset > r.pullFrom {
          woken := woken + [r];
        } else if newest[i] > r.pullFrom {
          woken := woken + [r];
        } else if now[i] >= r.suspendedAt + r.timeout {
          woken := woken + [r];
        } else {
          replayList := replayList + [r];
        }
      }
      var n := |requestList|;
      assert requestList[..n] == requestList && newest[..n] == newest && now[..n] == now;
      NotifySplits(requestList, maxOffset, newest, now);
      if |replayList| > 0 {
        AddManyPullRequest(replayList);
        assert pullRequestList == replayList;
      }
    }
  }

  // The hold lists of all queues, by the key made of topic and queue id.
  class PullRequestHoldService {
    var pullRequestTable: map<string, ManyPullRequest>

    // No two queues share a list.
    ghost predicate Valid()
      reads this
    {
      forall j, k :: j in pullRequestTable && k in pullRequestTable && j != k ==> pullRequestTable[j] != pullRequestTable[k]
    }

    ghost function Held(key: string): seq<Request>
      reads this, pullRequestTable.Values
    {
      if key in pullRequestTable then pullRequestTable[key].pullRequestList else []
    }

    // The request joins its own queue's list, which is created when it is the first; no other
    // queue's list changes.
    method SuspendPullRequest(key: string, r: Request)
      requires Valid()
      modifies this, pullRequestTable.Values
      ensures Valid() && Held(key) == old(Held(key)) + [r]
      ensures forall k :: k != key ==> Held(k) == old(Held(k))
    {
      if key !in pullRequestTable {
        var mpr := new ManyPullRequest();
        pullRequestTable := pullRequestTable[key := mpr];
      }
      pullRequestTable[key].AddPullRequest(r);
    }
  }
}
