// ConsumeQueue.getOffsetInQueueByTime: the entry nearest to a store time, by binary search.

module TimeSearch {
  import opened Arithmetic
  import opened Bytes
  import opened ConsumeQueues
  import opened IndexFiles
  import opened IndexRecovery
  import opened Log
  import opened LogFiles
  import opened MapedFiles
  import opened Pull
  import opened Pulling
  import opened Records
  import opened Segments

  const TIMESTAMP_POSITION: nat := 56

  // CommitLog.pickupStoretimestamp: -1 when the message is gone, and also for the very first
  // message of the log.
  function PickupStoreTimestamp(fs: seq<File>, size: int, u: Unit): int
    requires size > 0
  {
    if u.offset > MinOffset(fs) then
      match GetLogMessage(fs, size, u.offset, u.size)
      case Some(m) => R64(m.bytes, TIMESTAMP_POSITION)
      case None => -1
    else -1
  }

  // Store time of unit k of an index file's bytes s.
  function TimeAt(fs: seq<File>, size: int, s: seq<byte>, k: nat): int
    requires size > 0
  {
    PickupStoreTimestamp(fs, size, Seen(s, UNIT_SIZE * k))
  }

  function Distance(a: int, b: int): (n: nat)
    ensures n == a - b || n == b - a
  {
    if a < b then b - a else a - b
  }

  // The units behind lo are found in the log, and no time falls.  Unit lo may be the first
  // message of the log, for which -1 is found.
  ghost predicate Sorted(fs: seq<File>, size: int, s: seq<byte>, lo: nat, n: nat) {
    && size > 0
    && (forall k :: lo < k < n ==> TimeAt(fs, size, s, k) >= 0)
    && (forall j, k :: lo <= j < k < n ==> TimeAt(fs, size, s, j) <= TimeAt(fs, size, s, k))
  }

  // No unit is nearer, and a later one only if it is strictly nearer than every earlier one.
  ghost predicate Nearest(fs: seq<File>, size: int, s: seq<byte>, lo: nat, n: nat, time: int, r: nat)
    requires size > 0
  {
    && lo <= r < n
    && (forall k :: lo <= k < n ==> Distance(TimeAt(fs, size, s, r), time) <= Distance(TimeAt(fs, size, s, k), time))
    && (TimeAt(fs, size, s, r) > time ==>
          forall k :: lo <= k < n && TimeAt(fs, size, s, k) < time ==>
            Distance(TimeAt(fs, size, s, r), time) < Distance(TimeAt(fs, size, s, k), time))
  }

  // The units next to the searched time on either side are the only candidates.
  lemma {:induction false} NeighboursSuffice(fs: seq<File>, size: int, s: seq<byte>, lo: nat, n: nat, time: int, cut: nat, r: nat)
    requires Sorted(fs, size, s, lo, n) && lo <= cut <= n && lo <= r < n
    requires forall k :: lo <= k < cut ==> TimeAt(fs, size, s, k) < time
    requires forall k :: cut <= k < n ==> TimeAt(fs, size, s, k) > time
    requires r == cut - 1 || r == cut
    requires r == cut && cut > lo ==> time - TimeAt(fs, size, s, cut - 1) > TimeAt(fs, size, s, cut) - time
    requires r == cut - 1 && cut < n ==> time - TimeAt(fs, size, s, cut - 1) <= TimeAt(fs, size, s, cut) - time
    ensures Nearest(fs, size, s, lo, n, time, r)
  {
    hide TimeAt;
    forall k | lo <= k < n
      ensures Distance(TimeAt(fs, size, s, r), time) <= Distance(TimeAt(fs, size, s, k), time)
      ensures r == cut && k < cut ==> Distance(TimeAt(fs, size, s, r), time) < Distance(TimeAt(fs, size, s, k), time)
    {
      if k < cut {
        assert k == cut - 1 || TimeAt(fs, size, s, k) <= TimeAt(fs, size, s, cut - 1);
      } else {
        assert k == cut || TimeAt(fs, size, s, cut) <= TimeAt(fs, size, s, k);
      }
    }
  }

  // The search has narrowed the range to l..h: earlier units are older, later ones newer.
  ghost predicate Bracket(fs: seq<File>, size: int, s: seq<byte>, lo: nat, n: nat, time: int, l: nat, h: int)
    requires size > 0
  {
    && lo <= l <= h + 1 <= n
    && (forall k :: lo <= k < l ==> TimeAt(fs, size, s, k) < time)
    && (forall k :: h < k < n ==> TimeAt(fs, size, s, k) > time)
  }

  // The unit behind lo is not newer than the searched time.
  ghost predicate Passed(fs: seq<File>, size: int, s: seq<byte>, lo: nat, n: nat, time: int)
    requires size > 0
  {
    lo + 1 < n && TimeAt(fs, size, s, lo + 1) <= time
  }

  // How far behind unit lo lies the last unit probed before lo itself, if the search goes left
  // at every probe and starts with d units behind lo.
  function Leftmost(d: nat): (k: nat)
    ensures k <= d
    ensures d >= 2 ==> k > 0
  {
    if d <= 5 then d / 2 else Leftmost(d / 2 - 1)
  }

  // The search looks at unit lo: there is at most one unit behind it, or the last unit before
  // it on the way is newer than the searched time.
  ghost predicate Probed(fs: seq<File>, size: int, s: seq<byte>, lo: nat, d: nat, time: int)
    requires size > 0
  {
    d <= 1 || TimeAt(fs, size, s, lo + Leftmost(d)) > time
  }

  // The search gives up: the first unit is not found in the log, and it is looked at.
  ghost predicate GivesUp(fs: seq<File>, size: int, s: seq<byte>, lo: nat, n: nat, time: int)
    requires size > 0
  {
    lo < n && TimeAt(fs, size, s, lo) < 0 && Probed(fs, size, s, lo, n - 1 - lo, time)
  }

  lemma {:induction false} ProbedStep(fs: seq<File>, size: int, s: seq<byte>, lo: nat, n: nat, d: nat, time: int)
    requires Sorted(fs, size, s, lo, n) && 2 <= d < n - lo
    ensures Probed(fs, size, s, lo, d, time)
       <==> TimeAt(fs, size, s, lo + d / 2) > time && Probed(fs, size, s, lo, d / 2 - 1, time)
  {
    hide TimeAt;
    if d > 5 { assert TimeAt(fs, size, s, lo + Leftmost(d)) <= TimeAt(fs, size, s, lo + d / 2); }
  }

  // Two units, the first of them the log's first message: the search gives up whatever the
  // time, though the second one may be an exact match.
  lemma {:induction false} TwoUnitsGiveUp(fs: seq<File>, size: int, s: seq<byte>, lo: nat, time: int)
    requires Sorted(fs, size, s, lo, lo + 2) && TimeAt(fs, size, s, lo) < 0 && TimeAt(fs, size, s, lo + 1) == time
    ensures GivesUp(fs, size, s, lo, lo + 2, time) && Nearest(fs, size, s, lo, lo + 2, time, lo + 1)
    ensures !Nearest(fs, size, s, lo, lo + 2, time, lo)
  {
    hide TimeAt;
    assert Distance(TimeAt(fs, size, s, lo + 1), time) == 0 < Distance(TimeAt(fs, size, s, lo), time);
  }

  lemma {:induction false} Narrow(fs: seq<File>, size: int, s: seq<byte>, lo: nat, n: nat, time: int, l: nat, h: int, m: nat)
    requires Sorted(fs, size, s, lo, n) && Bracket(fs, size, s, lo, n, time, l, h) && l <= m <= h
    ensures TimeAt(fs, size, s, m) < time ==> Bracket(fs, size, s, lo, n, time, m + 1, h)
    ensures TimeAt(fs, size, s, m) > time ==> Bracket(fs, size, s, lo, n, time, l, m - 1)
    ensures TimeAt(fs, size, s, m) == time ==> Nearest(fs, size, s, lo, n, time, m)
    ensures TimeAt(fs, size, s, m) < 0 ==> m == lo
    ensures lo < m && TimeAt(fs, size, s, m) <= time ==> Passed(fs, size, s, lo, n, time)
  {
    hide TimeAt;
  }

  // If unit lo is the first message of the log and the search got by without it, the answer is
  // also nearest by that message's true store time, whatever -1 stood in for.
  lemma {:induction false} NearestByTrueTime(fs: seq<File>, size: int, s: seq<byte>, lo: nat, n: nat, time: int, r: nat, first: int)
    requires Sorted(fs, size, s, lo, n) && Nearest(fs, size, s, lo, n, time, r) && Passed(fs, size, s, lo, n, time)
    requires lo < r && first <= TimeAt(fs, size, s, lo + 1)
    ensures Distance(TimeAt(fs, size, s, r), time) <= Distance(first, time)
    ensures TimeAt(fs, size, s, r) > time && first < time ==> Distance(TimeAt(fs, size, s, r), time) < Distance(first, time)
  {
    hide TimeAt;
    assert Distance(TimeAt(fs, size, s, r), time) <= Distance(TimeAt(fs, size, s, lo + 1), time);
  }

  // What is known of the neighbour on either side: its byte offset and its time.
  datatype Side = Side(offset: int, value: int)

  const NO_SIDE: Side := Side(-1, -1)

  ghost predicate Sides(fs: seq<File>, size: int, s: seq<byte>, lo: nat, n: nat, l: nat, h: int, left: Side, right: Side)
    requires size > 0
  {
    && (if l == lo then left == NO_SIDE
        else l > 0 && left == Side(UNIT_SIZE * (l - 1), TimeAt(fs, size, s, l - 1)) && left.value >= 0)
    && (if h == n - 1 then right == NO_SIDE
        else h >= -1 && right == Side(UNIT_SIZE * (h + 1), TimeAt(fs, size, s, h + 1)) && right.value >= 0)
  }

  // The end of getOffsetInQueueByTime: the nearer neighbour, the earlier one on a tie.
  function Choose(time: int, left: Side, right: Side): int {
    if left.value == -1 then right.offset
    else if right.value == -1 then left.offset
    else if Distance(time, left.value) > Distance(time, right.value) then right.offset
    else left.offset
  }

  lemma {:induction false} ChooseNearest(fs: seq<File>, size: int, s: seq<byte>, lo: nat, n: nat, time: int, l: nat, left: Side,
                                         right: Side)
    requires Sorted(fs, size, s, lo, n) && lo < n && Bracket(fs, size, s, lo, n, time, l, l - 1)
    requires Sides(fs, size, s, lo, n, l, l - 1, left, right)
    ensures var o := Choose(time, left, right);
            o >= 0 && Whole(o) && Nearest(fs, size, s, lo, n, time, o / UNIT_SIZE)
  {
    hide TimeAt;
    NeighboursSuffice(fs, size, s, lo, n, time, l, Choose(time, left, right) / UNIT_SIZE);
  }

  method Pickup(log: MapedFileQueue, u: Unit) returns (time: int)
    requires log.Valid()
    ensures time == PickupStoreTimestamp(log.View(), log.size, u)
  {
    hide GetLogMessage, R64;
    var min := if log.files == [] then -1 else log.files[0].from;
    if u.offset > min {
      var m := GetLogMessageIn(log, u.offset, u.size);
      if m.Some? {
        return R64(m.value.bytes, TIMESTAMP_POSITION);
      }
    }
    return -1;
  }

  // Whether the search gives up is still open while the range begins at lo, and settled once
  // it begins behind.
  ghost predicate AsGiven(fs: seq<File>, size: int, s: seq<byte>, lo: nat, n: nat, time: int, l: nat, h: int)
    requires size > 0
  {
    if l > lo then !GivesUp(fs, size, s, lo, n, time)
    else GivesUp(fs, size, s, lo, n, time) <==> lo <= h && TimeAt(fs, size, s, lo) < 0 && Probed(fs, size, s, lo, h - lo, time)
  }

  lemma {:induction false} AsGivenStep(fs: seq<File>, size: int, s: seq<byte>, lo: nat, n: nat, time: int, l: nat, h: int)
    requires Sorted(fs, size, s, lo, n) && lo <= l <= h < n && AsGiven(fs, size, s, lo, n, time, l, h)
    ensures var m := (l + h) / 2;
            && (TimeAt(fs, size, s, m) < 0 ==> GivesUp(fs, size, s, lo, n, time))
            && (TimeAt(fs, size, s, m) >= 0 && TimeAt(fs, size, s, m) <= time ==> !GivesUp(fs, size, s, lo, n, time))
            && (TimeAt(fs, size, s, m) > time && TimeAt(fs, size, s, m) >= 0 ==> AsGiven(fs, size, s, lo, n, time, l, m - 1))
  {
    hide TimeAt, GivesUp, Leftmost;
    if l == lo {
      assert (l + h) / 2 == lo + (h - lo) / 2;
      if h - lo >= 2 { ProbedStep(fs, size, s, lo, n, h - lo, time); }
    }
  }

  lemma {:induction false} NotGivenUp(fs: seq<File>, size: int, s: seq<byte>, lo: nat, n: nat, time: int, l: nat)
    requires size > 0 && lo <= l && AsGiven(fs, size, s, lo, n, time, l, l - 1)
    ensures !GivesUp(fs, size, s, lo, n, time)
  {
    hide TimeAt, GivesUp;
  }

  // What the search promises of its answer: it gives up exactly where it has to, and otherwise
  // names the nearest unit, which is not the first if that one was not found.
  ghost predicate Answers(fs: seq<File>, size: int, s: seq<byte>, lo: nat, n: nat, time: int, offset: Option<int>)
    requires size > 0
  {
    && (offset.None? <==> GivesUp(fs, size, s, lo, n, time))
    && (offset.Some? ==>
          && offset.value >= 0 && Whole(offset.value)
          && Nearest(fs, size, s, lo, n, time, offset.value / UNIT_SIZE)
          && (TimeAt(fs, size, s, lo) < 0 ==> offset.value / UNIT_SIZE > lo && Passed(fs, size, s, lo, n, time)))
  }

  lemma {:induction false} AnswersNone(fs: seq<File>, size: int, s: seq<byte>, lo: nat, n: nat, time: int)
    requires size > 0 && GivesUp(fs, size, s, lo, n, time)
    ensures Answers(fs, size, s, lo, n, time, None)
  {
    hide GivesUp;
  }

  lemma {:induction false} AnswersSome(fs: seq<File>, size: int, s: seq<byte>, lo: nat, n: nat, time: int, o: int)
    requires size > 0 && o >= 0 && Whole(o) && !GivesUp(fs, size, s, lo, n, time) && Nearest(fs, size, s, lo, n, time, o / UNIT_SIZE)
    requires TimeAt(fs, size, s, lo) < 0 ==> o / UNIT_SIZE > lo && Passed(fs, size, s, lo, n, time)
    ensures Answers(fs, size, s, lo, n, time, Some(o))
  {
    hide GivesUp, Nearest, Passed, TimeAt;
  }

  lemma {:induction false} ChoiceAnswers(fs: seq<File>, size: int, s: seq<byte>, lo: nat, n: nat, time: int, l: nat, left: Side,
                                         right: Side)
    requires Sorted(fs, size, s, lo, n) && lo < n && lo <= l && Bracket(fs, size, s, lo, n, time, l, l - 1)
    requires Sides(fs, size, s, lo, n, l, l - 1, left, right) && AsGiven(fs, size, s, lo, n, time, l, l - 1)
    requires TimeAt(fs, size, s, lo) < 0 ==> (lo < l ==> Passed(fs, size, s, lo, n, time)) && l != lo + 1
    ensures Answers(fs, size, s, lo, n, time, Some(Choose(time, left, right)))
  {
    assert size > 0;
    hide TimeAt, Sorted, Bracket, Nearest, Passed, GivesUp;
    NotGivenUp(fs, size, s, lo, n, time, l);
    ChooseNearest(fs, size, s, lo, n, time, l, left, right);
    hide AsGiven;
    AnswersSome(fs, size, s, lo, n, time, Choose(time, left, right));
  }

  lemma {:induction false} NoSides(fs: seq<File>, size: int, s: seq<byte>, lo: nat, n: nat)
    requires size > 0
    ensures Sides(fs, size, s, lo, n, lo, n - 1, NO_SIDE, NO_SIDE)
  {
  }

  // One probe at unit m moves the side it falls on.
  lemma {:induction false} SidesMove(fs: seq<File>, size: int, s: seq<byte>, lo: nat, n: nat, l: nat, h: int, left: Side,
                                     right: Side, m: nat)
    requires size > 0 && Sides(fs, size, s, lo, n, l, h, left, right) && lo <= l <= m <= h < n && TimeAt(fs, size, s, m) >= 0
    ensures Sides(fs, size, s, lo, n, l, m - 1, left, Side(UNIT_SIZE * m, TimeAt(fs, size, s, m)))
    ensures Sides(fs, size, s, lo, n, m + 1, h, Side(UNIT_SIZE * m, TimeAt(fs, size, s, m)), right)
  {
    hide TimeAt;
  }

  // What the search knows when it has narrowed the range to l..h.
  ghost predicate Searching(fs: seq<File>, size: int, s: seq<byte>, lo: nat, n: nat, time: int, l: nat, h: int, left: Side, right: Side)
    requires size > 0
  {
    && lo <= l && -1 <= h < n && (lo >= n ==> l == lo && h == n - 1)
    && Sides(fs, size, s, lo, n, l, h, left, right)
    && (Sorted(fs, size, s, lo, n) && lo < n ==> Narrowed(fs, size, s, lo, n, time, l, h))
  }

  ghost predicate Narrowed(fs: seq<File>, size: int, s: seq<byte>, lo: nat, n: nat, time: int, l: nat, h: int)
    requires size > 0
  {
    && Bracket(fs, size, s, lo, n, time, l, h) && AsGiven(fs, size, s, lo, n, time, l, h)
    && (TimeAt(fs, size, s, lo) < 0 ==> (lo < l ==> Passed(fs, size, s, lo, n, time)) && l != lo + 1)
  }

  lemma {:induction false} SearchStarts(fs: seq<File>, size: int, s: seq<byte>, lo: nat, n: nat, time: int)
    requires size > 0
    ensures Searching(fs, size, s, lo, n, time, lo, n - 1, NO_SIDE, NO_SIDE)
  {
    hide TimeAt, Sorted, Bracket, Probed, Passed;
    NoSides(fs, size, s, lo, n);
    if lo < n { WholeBracket(fs, size, s, lo, n, time); }
  }

  // One probe, if the times are in order: the search gives up, has its answer, or goes on.
  lemma {:induction false} ProbeNarrows(fs: seq<File>, size: int, s: seq<byte>, lo: nat, n: nat, time: int, l: nat, h: int, m: nat)
    requires Sorted(fs, size, s, lo, n) && lo < n && lo <= l <= h < n && Narrowed(fs, size, s, lo, n, time, l, h) && m == (l + h) / 2
    ensures var t := TimeAt(fs, size, s, m);
            && (t < 0 ==> Answers(fs, size, s, lo, n, time, None))
            && (t >= 0 && t == time ==> Answers(fs, size, s, lo, n, time, Some(UNIT_SIZE * m)))
            && (t >= 0 && t > time ==> Narrowed(fs, size, s, lo, n, time, l, m - 1))
            && (t >= 0 && t < time ==> Narrowed(fs, size, s, lo, n, time, m + 1, h))
  {
    hide *;
    SortedSize(fs, size, s, lo, n);
    NarrowedSays(fs, size, s, lo, n, time, l, h);
    Halfway(l, h, m);
    Narrow(fs, size, s, lo, n, time, l, h, m);
    AsGivenStep(fs, size, s, lo, n, time, l, h);
    if TimeAt(fs, size, s, m) < 0 {
      AnswersNone(fs, size, s, lo, n, time);
    } else if TimeAt(fs, size, s, m) == time {
      AnswersSome(fs, size, s, lo, n, time, UNIT_SIZE * m);
    } else if TimeAt(fs, size, s, m) > time {
      GoesLeft(fs, size, s, lo, n, time, l, h, m);
    } else {
      GoesRight(fs, size, s, lo, n, time, m, h);
    }
  }

  lemma {:induction false} NarrowedSays(fs: seq<File>, size: int, s: seq<byte>, lo: nat, n: nat, time: int, l: nat, h: int)
    requires size > 0 && Narrowed(fs, size, s, lo, n, time, l, h)
    ensures Bracket(fs, size, s, lo, n, time, l, h) && AsGiven(fs, size, s, lo, n, time, l, h)
  {
    hide Bracket, AsGiven, TimeAt, Passed;
  }

  lemma {:induction false} Halfway(l: nat, h: int, m: nat)
    requires l <= h && m == (l + h) / 2
    ensures l <= m <= h && 0 <= UNIT_SIZE * m && Whole(UNIT_SIZE * m) && UNIT_SIZE * m / UNIT_SIZE == m
  {
  }

  lemma {:induction false} SortedSize(fs: seq<File>, size: int, s: seq<byte>, lo: nat, n: nat)
    requires Sorted(fs, size, s, lo, n)
    ensures size > 0
  {
  }

  lemma {:induction false} GoesLeft(fs: seq<File>, size: int, s: seq<byte>, lo: nat, n: nat, time: int, l: nat, h: int, m: nat)
    requires size > 0 && Narrowed(fs, size, s, lo, n, time, l, h)
    requires Bracket(fs, size, s, lo, n, time, l, m - 1) && AsGiven(fs, size, s, lo, n, time, l, m - 1)
    ensures Narrowed(fs, size, s, lo, n, time, l, m - 1)
  {
    hide TimeAt, Bracket, AsGiven, Passed;
  }

  lemma {:induction false} GoesRight(fs: seq<File>, size: int, s: seq<byte>, lo: nat, n: nat, time: int, m: nat, h: int)
    requires size > 0 && lo <= m && TimeAt(fs, size, s, m) >= 0 && (lo < m ==> Passed(fs, size, s, lo, n, time))
    requires Bracket(fs, size, s, lo, n, time, m + 1, h) && !GivesUp(fs, size, s, lo, n, time)
    ensures Narrowed(fs, size, s, lo, n, time, m + 1, h)
  {
    hide TimeAt, Bracket, GivesUp, Passed;
  }

  lemma {:induction false} SearchProbe(fs: seq<File>, size: int, s: seq<byte>, lo: nat, n: nat, time: int, l: nat, h: int,
                                       left: Side, right: Side)
    requires size > 0 && Searching(fs, size, s, lo, n, time, l, h, left, right) && l <= h
    ensures var m := (l + h) / 2;
            var t := TimeAt(fs, size, s, m);
            && (t < 0 && Sorted(fs, size, s, lo, n) && lo < n ==> Answers(fs, size, s, lo, n, time, None))
            && (t >= 0 && t == time && Sorted(fs, size, s, lo, n) && lo < n ==> Answers(fs, size, s, lo, n, time, Some(UNIT_SIZE * m)))
            && (t >= 0 && t > time ==> Searching(fs, size, s, lo, n, time, l, m - 1, left, Side(UNIT_SIZE * m, t)))
            && (t >= 0 && t < time ==> Searching(fs, size, s, lo, n, time, m + 1, h, Side(UNIT_SIZE * m, t), right))
  {
    hide TimeAt, Sorted, Sides, Narrowed, Answers;
    if Sorted(fs, size, s, lo, n) && lo < n { ProbeNarrows(fs, size, s, lo, n, time, l, h, (l + h) / 2); }
    if TimeAt(fs, size, s, (l + h) / 2) >= 0 { SidesMove(fs, size, s, lo, n, l, h, left, right, (l + h) / 2); }
  }

  lemma {:induction false} SearchEnds(fs: seq<File>, size: int, s: seq<byte>, lo: nat, n: nat, time: int, l: nat, h: int,
                                      left: Side, right: Side)
    requires size > 0 && Searching(fs, size, s, lo, n, time, l, h, left, right) && h < l
    ensures lo >= n ==> Choose(time, left, right) == -1
    ensures Sorted(fs, size, s, lo, n) && lo < n ==> Answers(fs, size, s, lo, n, time, Some(Choose(time, left, right)))
  {
    hide TimeAt, Sorted, Bracket, Passed, AsGiven, Answers;
    if Sorted(fs, size, s, lo, n) && lo < n {
      BracketMeets(fs, size, s, lo, n, time, l, h);
      ChoiceAnswers(fs, size, s, lo, n, time, l, left, right);
    }
  }

  // The search in one index file whose buffer shows s, from byte `first` on: the byte offset
  // it settles on, or None where the code gives up and answers 0.
  method SearchFile(log: MapedFileQueue, s: seq<byte>, first: nat, timestamp: int) returns (offset: Option<int>)
    requires log.Valid() && Whole(|s|) && Whole(first)
    ensures var fs, size := log.View(), log.size;
            var lo, n := first / UNIT_SIZE, |s| / UNIT_SIZE;
            Sorted(fs, size, s, lo, n) ==>
              if lo < n then Answers(fs, size, s, lo, n, timestamp, offset) else offset == Some(-1)
  {
    hide TimeAt, Sorted, Answers, Searching, Choose;
    ghost var fs, size := log.View(), log.size;
    ghost var lo, n := first / UNIT_SIZE, |s| / UNIT_SIZE;
    var low, high := first, |s| - UNIT_SIZE;
    var left, right := NO_SIDE, NO_SIDE;
    ghost var l: nat, h: int := lo, n - 1;
    SearchStarts(fs, size, s, lo, n, timestamp);
    while low <= high
      invariant low == UNIT_SIZE * l && high == UNIT_SIZE * h && log.View() == fs
      invariant Searching(fs, size, s, lo, n, timestamp, l, h, left, right) && (lo >= n ==> l > h)
      decreases high - low
    {
      var midOffset := (low + high) / (2 * UNIT_SIZE) * UNIT_SIZE;
      ghost var m := (l + h) / 2;
      assert midOffset == UNIT_SIZE * m && l <= m <= h;
      SearchProbe(fs, size, s, lo, n, timestamp, l, h, left, right);
      var storeTime := TimeOfUnit(log, s, midOffset, m);
      if storeTime < 0 {
        return None;
      } else if storeTime == timestamp {
        return Some(midOffset);
      } else if storeTime > timestamp {
        high, right := midOffset - UNIT_SIZE, Side(midOffset, storeTime);
        h := m - 1;
      } else {
        low, left := midOffset + UNIT_SIZE, Side(midOffset, storeTime);
        l := m + 1;
      }
    }
    offset := Some(Choose(timestamp, left, right));
    SearchEnds(fs, size, s, lo, n, timestamp, l, h, left, right);
  }

  // getOffsetInQueueByTime in the file chosen by modification time: the number of the nearest
  // unit from the queue's minimum on, if the units there are stored with rising times, or 0
  // exactly where the search gives up.
  method GetOffsetInQueueByTime(log: MapedFileQueue, x: ConsumeQueue, f: MapedFile, timestamp: int) returns (r: int)
    requires log.Valid() && x.Valid() && f.Valid() && 0 <= f.writePos <= f.size && Whole(f.writePos)
    requires f.from >= 0 && Whole(f.from) && x.minLogicOffset >= 0 && Whole(x.minLogicOffset)
    ensures var s := Window(f.View());
            var lo, n := Max(0, x.minLogicOffset - f.from) / UNIT_SIZE, |s| / UNIT_SIZE;
            f.wrote > 0 && f.available && lo < n && Sorted(log.View(), log.size, s, lo, n) ==>
              if GivesUp(log.View(), log.size, s, lo, n, timestamp) then r == 0
              else
                && r >= f.from / UNIT_SIZE
                && Nearest(log.View(), log.size, s, lo, n, timestamp, r - f.from / UNIT_SIZE)
  {
    hide Sorted, Nearest, Passed, TimeAt, GivesUp;
    var low := 0;
    if x.minLogicOffset > f.from {
      low := x.minLogicOffset - f.from;
    }
    WindowIs(f);
    if !(0 < f.wrote && f.available) {
      return 0;
    }
    var offset := SearchFile(log, f.data[..f.writePos], low, timestamp);
    if offset.None? {
      return 0;
    }
    r := Quo(f.from + offset.value, UNIT_SIZE);
  }

  method TimeOfUnit(log: MapedFileQueue, s: seq<byte>, at: nat, ghost k: nat) returns (time: int)
    requires log.Valid() && at == UNIT_SIZE * k
    ensures time == TimeAt(log.View(), log.size, s, k)
  {
    hide PickupStoreTimestamp, Seen;
    time := Pickup(log, Seen(s, at));
  }

  lemma {:induction false} WholeBracket(fs: seq<File>, size: int, s: seq<byte>, lo: nat, n: nat, time: int)
    requires size > 0 && lo <= n
    ensures Bracket(fs, size, s, lo, n, time, lo, n - 1)
  {
    hide TimeAt;
  }

  lemma {:induction false} BracketMeets(fs: seq<File>, size: int, s: seq<byte>, lo: nat, n: nat, time: int, l: nat, h: int)
    requires size > 0 && Bracket(fs, size, s, lo, n, time, l, h) && h < l
    ensures h == l - 1
  {
    hide TimeAt;
  }

  // The time found for a unit that points at a record is the record's store time; only the
  // first message of the log is not found, though it is stored.
  lemma {:induction false} PickupIsStoreTime(v: View, items: seq<Item>, j: nat, u: Unit)
    requires HoldsItems(v.fs, v.size, items) && v.fs != [] && j < |items| && items[j].Record?
    requires u.offset == v.fs[0].from + Total(items[..j]) && u.size == Length(items[j]) && Stored(v, u) && Points(v, u)
    ensures PickupStoreTimestamp(v.fs, v.size, u) == if j == 0 then -1 else items[j].m.storeTimestamp
  {
    hide Flat, Layout, LogBytes, Chain, Fits, Encode, Slice, Stored, GetLogMessage, R64, Points;
    GetsOwnBytes(v, u);
    SliceIsItem(v, items, j, u);
    var m, q, at := items[j].m, items[j].queueOffset, Wrap64(u.offset);
    RecordTime(m, q, at, []);
    assert Encode(m, q, at) + [] == Encode(m, q, at);
    if j > 0 {
      TotalMonotone(items, 1, j);
      TotalStep(items, 0);
      assert items[..0] == [];
    } else {
      assert items[..0] == [];
    }
  }
}
