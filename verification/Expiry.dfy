// Expiry: which files MapedFileQueue deletes, by time and by physical offset.

module Expiry {
  import opened Arithmetic
  import opened Bytes
  import opened ConsumeQueues
  import opened IndexRecovery
  import opened MapedFiles
  import opened Segments

  // deleteExpiredFileByTime from file i on: expired[i] is what the clock said when file i was
  // looked at, destroyed[i] whether destroying it succeeds, left how many may still go.
  function TimeSurvivors(fs: seq<File>, i: nat, expired: seq<bool>, destroyed: seq<bool>, left: int): seq<File>
    requires |expired| == |destroyed| == |fs| && i <= |fs|
    decreases |fs| - i
  {
    if i + 1 >= |fs| then fs[i..]
    else if !expired[i] then [fs[i]] + TimeSurvivors(fs, i + 1, expired, destroyed, left)
    else if !destroyed[i] then [Shut(fs[i])] + fs[i + 1..]
    else if left <= 1 then fs[i + 1..]
    else TimeSurvivors(fs, i + 1, expired, destroyed, left - 1)
  }

  // The same files, some of them shut down.
  ghost predicate Alike(r: seq<File>, v: seq<File>) {
    |r| == |v| && forall k :: 0 <= k < |r| ==> r[k] == v[k] || r[k] == Shut(v[k])
  }

  lemma {:induction false} AlikeSelf(v: seq<File>)
    ensures Alike(v, v)
  {
  }

  lemma {:induction false} AlikeCons(f: File, r: seq<File>, g: File, v: seq<File>)
    requires (f == g || f == Shut(g)) && Alike(r, v)
    ensures Alike([f] + r, [g] + v)
  {
  }

  lemma {:induction false} AlikeChain(r: seq<File>, v: seq<File>, size: int)
    requires Alike(r, v)
    ensures Chain(r, size) <==> Chain(v, size)
  {
    hide Aligned;
    if Chain(r, size) || Chain(v, size) {
      forall i | 0 <= i < |r| ensures Sound(r[i], size) <==> Sound(v[i], size) {}
      forall i | 0 < i < |r| ensures Link(r, i, size) <==> Link(v, i, size) { assert r[i - 1] == v[i - 1] || r[i - 1] == Shut(v[i - 1]); }
    }
  }

  lemma {:induction false} AlikeFlat(r: seq<File>, v: seq<File>)
    requires Alike(r, v)
    ensures Flat(r) == Flat(v)
  {
    hide Written;
    if r != [] {
      var n := |r| - 1;
      AlikeFlat(r[..n], v[..n]);
      SameWritten(r[n], v[n]);
    }
  }

  lemma {:induction false} SameWritten(f: File, g: File)
    requires f == g || f == Shut(g)
    ensures Written(f) == Written(g)
  {
  }

  // Shutting files down leaves the index of the same units.
  lemma {:induction false} AlikeIndex(x: Index, size: int, us: seq<Unit>, r: seq<File>)
    requires Represents(x, size, us) && Alike(r, x.fs)
    ensures Represents(x.(fs := r), size, us)
  {
    AlikeChain(r, x.fs, size);
    AlikeFlat(r, x.fs);
    hide Chain, Flat, UnitsBytes, Whole;
  }

  // Which places survive.
  function Survivors<T>(fs: seq<T>, i: nat, expired: seq<bool>, destroyed: seq<bool>, left: int): seq<T>
    requires |expired| == |destroyed| == |fs| && i <= |fs|
    decreases |fs| - i
  {
    if i + 1 >= |fs| then fs[i..]
    else if !expired[i] then [fs[i]] + Survivors(fs, i + 1, expired, destroyed, left)
    else if !destroyed[i] then fs[i..]
    else if left <= 1 then fs[i + 1..]
    else Survivors(fs, i + 1, expired, destroyed, left - 1)
  }

  // No file from i on is deleted: the first expired one, if any, cannot be destroyed.
  predicate Untouched(i: nat, expired: seq<bool>, destroyed: seq<bool>)
    requires |expired| == |destroyed|
    decreases |expired| - i
  {
    i + 1 >= |expired| || (if expired[i] then !destroyed[i] else Untouched(i + 1, expired, destroyed))
  }

  // After the first file that has not expired nothing is deleted any more.
  predicate Orderly(i: nat, expired: seq<bool>, destroyed: seq<bool>, left: int)
    requires |expired| == |destroyed|
    decreases |expired| - i
  {
    i + 1 >= |expired| ||
    (if expired[i] then destroyed[i] && left > 1 ==> Orderly(i + 1, expired, destroyed, left - 1)
     else Untouched(i + 1, expired, destroyed))
  }

  lemma {:induction false} UntouchedKeeps<T>(fs: seq<T>, i: nat, expired: seq<bool>, destroyed: seq<bool>, left: int)
    requires |expired| == |destroyed| == |fs| && i <= |fs|
    ensures Untouched(i, expired, destroyed) <==> Survivors(fs, i, expired, destroyed, left) == fs[i..]
    ensures |Survivors(fs, i, expired, destroyed, left)| <= |fs| - i
    ensures i < |fs| ==> Survivors(fs, i, expired, destroyed, left) != []
    decreases |fs| - i
  {
    if i + 1 < |fs| {
      assert fs[i..] == [fs[i]] + fs[i + 1..];
      if !expired[i] {
        UntouchedKeeps(fs, i + 1, expired, destroyed, left);
        assert ([fs[i]] + Survivors(fs, i + 1, expired, destroyed, left))[1..] == Survivors(fs, i + 1, expired, destroyed, left);
      } else if destroyed[i] && left > 1 {
        UntouchedKeeps(fs, i + 1, expired, destroyed, left - 1);
      }
    }
  }

  lemma {:induction false} TimeAlike(fs: seq<File>, i: nat, expired: seq<bool>, destroyed: seq<bool>, left: int)
    requires |expired| == |destroyed| == |fs| && i <= |fs|
    ensures Alike(TimeSurvivors(fs, i, expired, destroyed, left), Survivors(fs, i, expired, destroyed, left))
    decreases |fs| - i
  {
    hide Alike, Shut;
    if i + 1 >= |fs| {
      AlikeSelf(fs[i..]);
    } else if !expired[i] {
      TimeAlike(fs, i + 1, expired, destroyed, left);
      AlikeCons(fs[i], TimeSurvivors(fs, i + 1, expired, destroyed, left), fs[i], Survivors(fs, i + 1, expired, destroyed, left));
    } else if !destroyed[i] {
      AlikeSelf(fs[i + 1..]);
      AlikeCons(Shut(fs[i]), fs[i + 1..], fs[i], fs[i + 1..]);
      assert fs[i..] == [fs[i]] + fs[i + 1..];
    } else if left <= 1 {
      AlikeSelf(fs[i + 1..]);
    } else {
      TimeAlike(fs, i + 1, expired, destroyed, left - 1);
    }
  }

  // What is left is a chain, and then the queue without its oldest files, the last file always
  // kept, exactly when the clock never called an older file live and a newer one expired.  A
  // file whose deletion failed stays, but shut down.
  lemma {:induction false} ExpiryKeepsOrder(fs: seq<File>, size: int, i: nat, expired: seq<bool>, destroyed: seq<bool>, left: int)
    returns (k: nat)
    requires Chain(fs, size) && |expired| == |destroyed| == |fs| && i < |fs|
    ensures i <= k < |fs|
    ensures var r := TimeSurvivors(fs, i, expired, destroyed, left);
            && (Chain(r, size) <==> Orderly(i, expired, destroyed, left))
            && (Chain(r, size) ==> Alike(r, fs[k..]))
  {
    hide TimeSurvivors, Survivors, Orderly, Alike;
    k := SurvivorsInOrder(fs, size, i, expired, destroyed, left);
    TimeAlike(fs, i, expired, destroyed, left);
    AlikeChain(TimeSurvivors(fs, i, expired, destroyed, left), Survivors(fs, i, expired, destroyed, left), size);
    DropChain(fs, size, k);
  }

  lemma {:induction false} DropChain(fs: seq<File>, size: int, k: nat)
    requires Chain(fs, size) && k <= |fs|
    ensures Chain(fs[k..], size)
  {
    hide Sound;
    forall i | 0 < i < |fs| - k ensures Link(fs[k..], i, size) { assert Link(fs, k + i, size); }
  }

  lemma {:induction false} SurvivorsInOrder(fs: seq<File>, size: int, i: nat, expired: seq<bool>, destroyed: seq<bool>, left: int)
    returns (k: nat)
    requires Chain(fs, size) && |expired| == |destroyed| == |fs| && i < |fs|
    ensures i <= k < |fs|
    ensures Orderly(i, expired, destroyed, left) ==> Survivors(fs, i, expired, destroyed, left) == fs[k..]
    ensures !Orderly(i, expired, destroyed, left) ==> !Chain(Survivors(fs, i, expired, destroyed, left), size)
    decreases |fs| - i
  {
    hide Sound;
    k := i;
    if i + 1 < |fs| {
      if !expired[i] {
        UntouchedKeeps(fs, i + 1, expired, destroyed, left);
        assert fs[i..] == [fs[i]] + fs[i + 1..];
        if !Untouched(i + 1, expired, destroyed) { GapBreaks(fs, size, i, expired, destroyed, left); }
      } else if destroyed[i] && left > 1 {
        k := SurvivorsInOrder(fs, size, i + 1, expired, destroyed, left - 1);
      } else if destroyed[i] {
        k := i + 1;
      }
    }
  }

  // The last survivor is the last file.
  lemma {:induction false} LastSurvives(fs: seq<File>, i: nat, expired: seq<bool>, destroyed: seq<bool>, left: int)
    requires |expired| == |destroyed| == |fs| && i < |fs|
    ensures var r := Survivors(fs, i, expired, destroyed, left); r != [] && r[|r| - 1] == fs[|fs| - 1]
    decreases |fs| - i
  {
    if i + 1 < |fs| {
      LastSurvives(fs, i + 1, expired, destroyed, left);
      LastSurvives(fs, i + 1, expired, destroyed, left - 1);
    }
  }

  // A chain from file i to the last file has every file in between.
  lemma {:induction false} GapBreaks(fs: seq<File>, size: int, i: nat, expired: seq<bool>, destroyed: seq<bool>, left: int)
    requires Chain(fs, size) && |expired| == |destroyed| == |fs| && i + 1 < |fs| && !expired[i]
    requires !Untouched(i + 1, expired, destroyed)
    ensures !Chain(Survivors(fs, i, expired, destroyed, left), size)
  {
    hide Survivors, Chain, Untouched;
    var r := Survivors(fs, i, expired, destroyed, left);
    SurvivorsStep(fs, i, expired, destroyed, left);
    UntouchedKeeps(fs, i + 1, expired, destroyed, left);
    SameLength(fs, i + 1, expired, destroyed, left);
    LastSurvives(fs, i, expired, destroyed, left);
    if Chain(r, size) { SameEnds(fs, r, size, i); }
  }

  // Two chains with the same first and last file are equally long.
  lemma {:induction false} SameEnds(fs: seq<File>, r: seq<File>, size: int, i: nat)
    requires Chain(fs, size) && Chain(r, size) && i < |fs| && r != [] && r[0] == fs[i] && r[|r| - 1] == fs[|fs| - 1]
    ensures |r| == |fs| - i
  {
    ChainFrom(r, size, |r| - 1);
    ChainFrom(fs, size, |fs| - 1);
    ChainFrom(fs, size, i);
    assert size > 0;
    hide Chain;
    SameProduct(|r| - 1, |fs| - 1, i, size);
  }

  lemma {:induction false} SameProduct(m: int, n: int, i: int, s: int)
    requires s > 0 && i * s + m * s == n * s
    ensures m == n - i
  {
    assert (i + m) * s == i * s + m * s;
    MulOrder(i + m + 1, n, s);
    MulOrder(n + 1, i + m, s);
    assert (i + m + 1) * s == (i + m) * s + s && (n + 1) * s == n * s + s;
  }

  // As many survivors as files means nothing was deleted.
  lemma {:induction false} SameLength(fs: seq<File>, i: nat, expired: seq<bool>, destroyed: seq<bool>, left: int)
    requires |expired| == |destroyed| == |fs| && i < |fs|
    ensures |Survivors(fs, i, expired, destroyed, left)| == |fs| - i ==> Survivors(fs, i, expired, destroyed, left) == fs[i..]
    decreases |fs| - i
  {
    if i + 1 < |fs| {
      assert fs[i..] == [fs[i]] + fs[i + 1..];
      SameLength(fs, i + 1, expired, destroyed, left);
      UntouchedKeeps(fs, i + 1, expired, destroyed, left - 1);
    }
  }

  // One clock reading for all files, whose last messages were stored in order, is orderly.
  lemma {:induction false} OneClockIsOrderly(fs: seq<File>, i: nat, expired: seq<bool>, destroyed: seq<bool>, left: int, now: int,
                                             expiredTime: int, immediately: bool)
    requires |expired| == |destroyed| == |fs|
    requires forall j :: 0 <= j < |fs| ==> expired[j] == (now > fs[j].storeTimestamp + expiredTime || immediately)
    requires forall j, k :: 0 <= j < k < |fs| ==> fs[j].storeTimestamp <= fs[k].storeTimestamp
    ensures Orderly(i, expired, destroyed, left)
    decreases |fs| - i
  {
    if i + 1 < |fs| {
      if expired[i] { OneClockIsOrderly(fs, i + 1, expired, destroyed, left - 1, now, expiredTime, immediately); }
      else { LiveStaysLive(i + 1, expired, destroyed); }
    }
  }

  // With one clock reading, stamps in order and deletes that succeed, exactly the oldest files go:
  // each that goes is past its time, at most `left` of them (at least one), never the last; and
  // the next one stays only because it is not past its time, is the last, or `left` have gone.
  lemma {:induction false} OldestGo(fs: seq<File>, i: nat, expired: seq<bool>, destroyed: seq<bool>, left: int, now: int,
                                    expiredTime: int, immediately: bool) returns (d: nat)
    requires |expired| == |destroyed| == |fs| && i <= |fs| && forall j :: 0 <= j < |fs| ==> destroyed[j]
    requires forall j :: 0 <= j < |fs| ==> expired[j] == (now > fs[j].storeTimestamp + expiredTime || immediately)
    requires forall j, k :: 0 <= j < k < |fs| ==> fs[j].storeTimestamp <= fs[k].storeTimestamp
    ensures d <= |fs| - i && TimeSurvivors(fs, i, expired, destroyed, left) == fs[i + d..]
    ensures d > 0 ==> i + d < |fs| && d <= Max(1, left)
    ensures forall j :: i <= j < i + d ==> now > fs[j].storeTimestamp + expiredTime || immediately
    ensures i + d + 1 >= |fs| || d == Max(1, left) || (now <= fs[i + d].storeTimestamp + expiredTime && !immediately)
    decreases |fs| - i
  {
    d := 0;
    if i + 1 < |fs| {
      if expired[i] {
        d := 1;
        if left > 1 {
          var e := OldestGo(fs, i + 1, expired, destroyed, left - 1, now, expiredTime, immediately);
          d := 1 + e;
        }
      } else {
        LiveAllStay(fs, i, expired, destroyed, left);
      }
    }
  }

  lemma {:induction false} LiveAllStay(fs: seq<File>, i: nat, expired: seq<bool>, destroyed: seq<bool>, left: int)
    requires |expired| == |destroyed| == |fs| && i <= |fs| && forall j :: i <= j < |fs| ==> !expired[j]
    ensures TimeSurvivors(fs, i, expired, destroyed, left) == fs[i..]
    decreases |fs| - i
  {
    if i + 1 < |fs| {
      LiveAllStay(fs, i + 1, expired, destroyed, left);
      assert fs[i..] == [fs[i]] + fs[i + 1..];
    }
  }

  lemma {:induction false} LiveStaysLive(i: nat, expired: seq<bool>, destroyed: seq<bool>)
    requires |expired| == |destroyed| && forall j :: i <= j < |expired| ==> !expired[j]
    ensures Untouched(i, expired, destroyed)
    decreases |expired| - i
  {
    if i < |expired| { LiveStaysLive(i + 1, expired, destroyed); }
  }

  // The code reads the clock again for every file.  Two files stamped alike are enough: the
  // clock ticks between them, and the newer one goes while the older one stays.
  lemma {:induction false} TickingClockLeavesGap(expiredTime: int)
    ensures var stamp := 0;
            var clock := [expiredTime, expiredTime + 1, expiredTime + 1];
            var expired := [clock[0] > stamp + expiredTime, clock[1] > stamp + expiredTime, clock[2] > stamp + expiredTime];
            !Orderly(0, expired, [true, true, true], 10)
  {
    var expired := [false, true, true];
    assert !Untouched(1, expired, [true, true, true]);
  }

  // ---------------------------------------------------------------- by physical offset

  function LastUnit(f: File, size: int): Unit
    requires size >= UNIT_SIZE
  {
    Seen(Window(f), size - UNIT_SIZE)
  }

  // deleteExpiredFileByOffset from file i on.
  function OffsetSurvivors(fs: seq<File>, i: nat, size: int, phyMin: int, destroyed: seq<bool>): seq<File>
    requires |destroyed| == |fs| && i <= |fs| && size >= UNIT_SIZE
    decreases |fs| - i
  {
    if i + 1 >= |fs| || !(size - UNIT_SIZE < fs[i].wrote && fs[i].available) then fs[i..]
    else if LastUnit(fs[i], size).offset < phyMin && destroyed[i] then OffsetSurvivors(fs, i + 1, size, phyMin, destroyed)
    else
      [if LastUnit(fs[i], size).offset < phyMin then Shut(fs[i]) else fs[i]]
      + OffsetSurvivors(fs, i + 1, size, phyMin, destroyed)
  }

  // The last unit of a file that is not the last file.
  lemma {:induction false} LastUnitOf(x: Index, size: int, us: seq<Unit>, i: nat)
    requires Represents(x, size, us) && size >= UNIT_SIZE && i + 1 < |x.fs|
    ensures var b := x.fs[i + 1].from / UNIT_SIZE;
            && 0 < b <= |us| && UNIT_SIZE * b == x.fs[i + 1].from && x.fs[i].wrote == size && LastUnit(x.fs[i], size) == us[b - 1]
  {
    hide Flat, UnitsBytes, Seen;
    BeginsOf(x, size, us);
    assert Sound(x.fs[i], size) && Sound(x.fs[i + 1], size);
    assert Link(x.fs, i + 1, size);
    FileAligned(x.fs[i + 1].from, size);
    NotPastEnd(x.fs, size, i + 1);
    var b := x.fs[i + 1].from / UNIT_SIZE;
    UnitInFile(x.fs, size, us, i, b - 1);
  }

  lemma {:induction false} NotPastEnd(fs: seq<File>, size: int, i: nat)
    requires Chain(fs, size) && i < |fs|
    ensures fs[i].from <= MaxOffset(fs)
  {
    assert Sound(fs[|fs| - 1], size);
    if i < |fs| - 1 { ChainOrder(fs, size, i, |fs| - 1); }
  }

  // What happens to file i: it cannot be read and ends the loop, it is dead (its last message
  // is gone) and deleted, or it stays.
  predicate Shown(f: File, size: int) { size - UNIT_SIZE < f.wrote && f.available }

  predicate Dead(f: File, size: int, phyMin: int)
    requires size >= UNIT_SIZE
  {
    LastUnit(f, size).offset < phyMin
  }

  ghost function Ends(fs: seq<File>, size: int, phyMin: int, destroyed: seq<bool>): (r: seq<bool>)
    requires |destroyed| == |fs| && size >= UNIT_SIZE
    ensures |r| == |fs| && forall i :: 0 <= i < |r| ==> r[i] == (!Shown(fs[i], size) || (Dead(fs[i], size, phyMin) && destroyed[i]))
  {
    seq(|fs|, i requires 0 <= i < |fs| => !Shown(fs[i], size) || (Dead(fs[i], size, phyMin) && destroyed[i]))
  }

  ghost function AllShown(fs: seq<File>, size: int): (r: seq<bool>)
    ensures |r| == |fs| && forall i :: 0 <= i < |r| ==> r[i] == Shown(fs[i], size)
  {
    seq(|fs|, i requires 0 <= i < |fs| => Shown(fs[i], size))
  }

  // The loop by offset is the loop by time without a limit, in which only a file that cannot
  // be read ends the loop early.
  lemma {:induction false} SameLoop(fs: seq<File>, i: nat, size: int, phyMin: int, destroyed: seq<bool>, left: int)
    requires |destroyed| == |fs| && i <= |fs| && size >= UNIT_SIZE && left > |fs| - i
    ensures Alike(OffsetSurvivors(fs, i, size, phyMin, destroyed),
                  Survivors(fs, i, Ends(fs, size, phyMin, destroyed), AllShown(fs, size), left))
    decreases |fs| - i
  {
    hide LastUnit, Alike;
    var ends, shown := Ends(fs, size, phyMin, destroyed), AllShown(fs, size);
    if i + 1 >= |fs| || !Shown(fs[i], size) {
      AlikeSelf(fs[i..]);
    } else if ends[i] {
      SameLoop(fs, i + 1, size, phyMin, destroyed, left - 1);
    } else {
      SameLoop(fs, i + 1, size, phyMin, destroyed, left);
      var f := if Dead(fs[i], size, phyMin) then Shut(fs[i]) else fs[i];
      AlikeCons(f, OffsetSurvivors(fs, i + 1, size, phyMin, destroyed), fs[i], Survivors(fs, i + 1, ends, shown, left));
    }
  }

  ghost predicate ShownBetween(fs: seq<File>, size: int, a: nat, b: nat)
    requires b < |fs|
  {
    forall m :: a <= m <= b ==> Shown(fs[m], size)
  }

  // The loop goes on after a failed delete, up to the first file that cannot be read.  Among
  // the dead files before that no failed delete may come before a successful one.
  ghost predicate Tidy(fs: seq<File>, size: int, phyMin: int, destroyed: seq<bool>)
    requires |destroyed| == |fs| && size >= UNIT_SIZE
  {
    forall i, j :: 0 <= i < j < |fs| - 1 && ShownBetween(fs, size, 0, j) && Dead(fs[j], size, phyMin) && destroyed[j] ==> destroyed[i]
  }

  // Unit offsets rise, so the dead files come first.
  lemma {:induction false} DeadFirst(x: Index, size: int, us: seq<Unit>, i: nat, j: nat, phyMin: int)
    requires Represents(x, size, us) && size >= UNIT_SIZE && Rising(us) && i < j && j + 1 < |x.fs| && Dead(x.fs[j], size, phyMin)
    ensures Dead(x.fs[i], size, phyMin)
  {
    hide Seen, LastUnit;
    LastUnitOf(x, size, us, i);
    LastUnitOf(x, size, us, j);
    OrderOf(x, size, us, i + 1, j + 1);
    hide Represents;
  }

  lemma {:induction false} OrderOf(x: Index, size: int, us: seq<Unit>, i: nat, j: nat)
    requires Represents(x, size, us) && i < j < |x.fs|
    ensures x.fs[i].from < x.fs[j].from
  {
    ChainOrder(x.fs, size, i, j);
  }

  lemma {:induction false} TidyIsOrderly(x: Index, size: int, us: seq<Unit>, i: nat, phyMin: int, destroyed: seq<bool>, left: int)
    requires Represents(x, size, us) && size >= UNIT_SIZE && Rising(us) && |destroyed| == |x.fs| && left > |x.fs| - i
    requires i <= |x.fs| && forall j :: 0 <= j < i ==> destroyed[j] && Shown(x.fs[j], size)
    ensures Orderly(i, Ends(x.fs, size, phyMin, destroyed), AllShown(x.fs, size), left) <==> Tidy(x.fs, size, phyMin, destroyed)
    decreases |x.fs| - i
  {
    hide LastUnit, Represents, Dead, Shown, Tidy, Untouched;
    var fs := x.fs;
    if i + 1 >= |fs| || !Shown(fs[i], size) {
      TidyBefore(fs, size, phyMin, destroyed, i);
    } else if Dead(fs[i], size, phyMin) && destroyed[i] {
      TidyIsOrderly(x, size, us, i + 1, phyMin, destroyed, left - 1);
    } else {
      NoneGone(fs, size, i + 1, phyMin, destroyed);
      if destroyed[i] {
        forall j | i < j < |fs| - 1 ensures !Dead(fs[j], size, phyMin) {
          if Dead(fs[j], size, phyMin) { DeadFirst(x, size, us, i, j, phyMin); }
        }
        TidyLive(fs, size, phyMin, destroyed, i);
      } else {
        TidyFailed(fs, size, phyMin, destroyed, i);
      }
    }
  }

  // Only files before i are read.
  lemma {:induction false} TidyBefore(fs: seq<File>, size: int, phyMin: int, destroyed: seq<bool>, i: nat)
    requires |destroyed| == |fs| && size >= UNIT_SIZE && forall j :: 0 <= j < i && j < |fs| ==> destroyed[j]
    requires i + 1 >= |fs| || !Shown(fs[i], size)
    ensures Tidy(fs, size, phyMin, destroyed)
  {
    hide Dead, Shown;
    forall j | i <= j < |fs| - 1 ensures !ShownBetween(fs, size, 0, j) {}
  }

  // No file behind i is dead.
  lemma {:induction false} TidyLive(fs: seq<File>, size: int, phyMin: int, destroyed: seq<bool>, i: nat)
    requires |destroyed| == |fs| && size >= UNIT_SIZE && forall j :: 0 <= j <= i && j < |fs| ==> destroyed[j]
    requires forall j :: i < j < |fs| - 1 ==> !Dead(fs[j], size, phyMin)
    ensures Tidy(fs, size, phyMin, destroyed)
  {
    hide Dead, Shown;
  }

  // The delete of file i is the first that fails.
  lemma {:induction false} TidyFailed(fs: seq<File>, size: int, phyMin: int, destroyed: seq<bool>, i: nat)
    requires |destroyed| == |fs| && size >= UNIT_SIZE && i < |fs| && !destroyed[i]
    requires forall j :: 0 <= j < i ==> destroyed[j]
    requires forall j :: 0 <= j <= i ==> Shown(fs[j], size)
    ensures Tidy(fs, size, phyMin, destroyed)
       <==> forall j :: i + 1 <= j < |fs| - 1 && ShownBetween(fs, size, i + 1, j) ==> !(Dead(fs[j], size, phyMin) && destroyed[j])
  {
    hide Dead, Shown;
    forall j | i < j < |fs| - 1 ensures ShownBetween(fs, size, 0, j) <==> ShownBetween(fs, size, i + 1, j) {}
  }

  // From file i on nothing goes, exactly when no file there that the loop reaches is dead and
  // deleted.
  lemma {:induction false} NoneGone(fs: seq<File>, size: int, i: nat, phyMin: int, destroyed: seq<bool>)
    requires |destroyed| == |fs| && size >= UNIT_SIZE
    ensures Untouched(i, Ends(fs, size, phyMin, destroyed), AllShown(fs, size))
       <==> forall j :: i <= j < |fs| - 1 && ShownBetween(fs, size, i, j) ==> !(Dead(fs[j], size, phyMin) && destroyed[j])
    decreases |fs| - i
  {
    hide Dead, Shown;
    if i + 1 < |fs| {
      NoneGone(fs, size, i + 1, phyMin, destroyed);
      forall j | i < j < |fs| - 1
        ensures ShownBetween(fs, size, i, j) <==> Shown(fs[i], size) && ShownBetween(fs, size, i + 1, j)
      {
      }
      assert ShownBetween(fs, size, i, i) <==> Shown(fs[i], size);
    }
  }

  // With rising units, expiry by offset leaves the index without its oldest files, a chain
  // that never loses its last file, exactly when no failed delete precedes a successful one
  // among the dead files up to the first unreadable one; and the index is that of the same
  // units, some of its files perhaps shut down.
  lemma {:induction false} OffsetExpiryKeepsOrder(x: Index, size: int, us: seq<Unit>, phyMin: int, destroyed: seq<bool>)
    returns (k: nat)
    requires Represents(x, size, us) && size >= UNIT_SIZE && Rising(us) && x.fs != [] && |destroyed| == |x.fs|
    ensures k < |x.fs|
    ensures var r := OffsetSurvivors(x.fs, 0, size, phyMin, destroyed);
            && (Chain(r, size) <==> Tidy(x.fs, size, phyMin, destroyed))
            && (Chain(r, size) ==> Alike(r, x.fs[k..]) && Represents(x.(fs := r), size, us))
  {
    hide LastUnit, Survivors, OffsetSurvivors, Orderly, Represents, Dead, Tidy, Alike, Chain;
    var fs, left := x.fs, |x.fs| + 1;
    var ends, shown := Ends(fs, size, phyMin, destroyed), AllShown(fs, size);
    SameLoop(fs, 0, size, phyMin, destroyed, left);
    TidyIsOrderly(x, size, us, 0, phyMin, destroyed, left);
    ChainOfIndex(x, size, us);
    k := SurvivorsInOrder(fs, size, 0, ends, shown, left);
    DropChain(fs, size, k);
    var r := OffsetSurvivors(fs, 0, size, phyMin, destroyed);
    AlikeChain(r, Survivors(fs, 0, ends, shown, left), size);
    ExpireFiles(x, size, us, k);
    if Chain(r, size) { AlikeIndex(x.(fs := fs[k..]), size, us, r); }
  }

  lemma {:induction false} ChainOfIndex(x: Index, size: int, us: seq<Unit>)
    requires Represents(x, size, us)
    ensures Chain(x.fs, size)
  {
  }

  // Deletes that all succeed remove exactly the dead files.
  lemma {:induction false} AllDeadGo(fs: seq<File>, i: nat, size: int, phyMin: int, destroyed: seq<bool>)
    requires |destroyed| == |fs| && i < |fs| && size >= UNIT_SIZE
    requires forall j :: 0 <= j < |fs| ==> destroyed[j] && (Shown(fs[j], size) || j == |fs| - 1)
    ensures var r := OffsetSurvivors(fs, i, size, phyMin, destroyed);
            r != [] && forall f :: f in r[..|r| - 1] ==> !Dead(f, size, phyMin)
    decreases |fs| - i
  {
    hide LastUnit;
    if i + 1 < |fs| {
      AllDeadGo(fs, i + 1, size, phyMin, destroyed);
      var r := OffsetSurvivors(fs, i + 1, size, phyMin, destroyed);
      assert ([fs[i]] + r)[..|r|] == [fs[i]] + r[..|r| - 1];
    }
  }

  // Three files, the first two dead: if only the first delete fails, the gap between the
  // files that stay breaks the chain.
  lemma {:induction false} FailedDeleteLeavesGap(x: Index, size: int, us: seq<Unit>, phyMin: int)
    requires Represents(x, size, us) && size >= UNIT_SIZE && Rising(us) && |x.fs| == 3
    requires x.fs[0].available && x.fs[1].available && Dead(x.fs[1], size, phyMin)
    ensures !Chain(OffsetSurvivors(x.fs, 0, size, phyMin, [false, true, true]), size)
  {
    hide OffsetSurvivors, Represents, Dead;
    var destroyed := [false, true, true];
    assert destroyed[1] && !destroyed[0];
    LastUnitOf(x, size, us, 0);
    LastUnitOf(x, size, us, 1);
    assert ShownBetween(x.fs, size, 0, 1);
    var k := OffsetExpiryKeepsOrder(x, size, us, phyMin, destroyed);
  }

  // A dead first file whose deletion failed has been shut down: no later run gets past it.
  lemma {:induction false} FailedDeleteBlocks(fs: seq<File>, size: int, phyMin: int, destroyed: seq<bool>, phyMin': int,
                                              destroyed': seq<bool>)
    requires |destroyed| == |fs| > 1 && size >= UNIT_SIZE && Shown(fs[0], size) && Dead(fs[0], size, phyMin) && !destroyed[0]
    requires |destroyed'| == |OffsetSurvivors(fs, 0, size, phyMin, destroyed)|
    ensures var r := OffsetSurvivors(fs, 0, size, phyMin, destroyed);
            r != [] && r[0] == Shut(fs[0]) && OffsetSurvivors(r, 0, size, phyMin', destroyed') == r
  {
    hide LastUnit;
  }

  // ---------------------------------------------------------------- the loops

  // r is fs at the places d, which rise from i on.
  ghost predicate Places<T>(fs: seq<T>, i: nat, r: seq<T>, d: seq<nat>) {
    && |r| == |d| && (forall k :: 0 <= k < |d| ==> i <= d[k] < |fs| && r[k] == fs[d[k]])
    && (forall j, k :: 0 <= j < k < |d| ==> d[j] < d[k])
  }

  // Which files survive depends on their places only.
  lemma {:induction false} SurvivorsById<T>(fs: seq<T>, ids: seq<nat>, i: nat, expired: seq<bool>, destroyed: seq<bool>, left: int)
    requires |expired| == |destroyed| == |fs| == |ids| && i <= |fs| && forall j :: 0 <= j < |ids| ==> ids[j] == j
    ensures Places(fs, i, Survivors(fs, i, expired, destroyed, left), Survivors(ids, i, expired, destroyed, left))
    decreases |fs| - i
  {
    hide Places;
    PlacesTail(fs, ids, i);
    if i + 1 < |fs| {
      PlacesTail(fs, ids, i + 1);
      if !expired[i] || (destroyed[i] && left > 1) {
        var l := if expired[i] then left - 1 else left;
        SurvivorsById(fs, ids, i + 1, expired, destroyed, l);
        PlacesCons(fs, i, Survivors(fs, i + 1, expired, destroyed, l), Survivors(ids, i + 1, expired, destroyed, l));
      } else {
        PlacesCons(fs, i, fs[i + 1..], ids[i + 1..]);
      }
    }
  }

  lemma {:induction false} PlacesTail<T>(fs: seq<T>, ids: seq<nat>, i: nat)
    requires |fs| == |ids| && i <= |fs| && forall j :: 0 <= j < |ids| ==> ids[j] == j
    ensures Places(fs, i, fs[i..], ids[i..])
  {
  }

  lemma {:induction false} PlacesCons<T>(fs: seq<T>, i: nat, r: seq<T>, d: seq<nat>)
    requires Places(fs, i + 1, r, d) && i < |fs|
    ensures Places(fs, i, r, d) && Places(fs, i, [fs[i]] + r, [i] + d)
  {
  }

  lemma {:induction false} SurvivingPlaces(q: MapedFileQueue, expired: seq<bool>, destroyed: seq<bool>, left: int)
    requires q.Valid() && |expired| == |destroyed| == |q.files|
    ensures var r, v := Survivors(q.files, 0, expired, destroyed, left), Survivors(q.View(), 0, expired, destroyed, left);
            && |r| == |v| && (forall k :: 0 <= k < |r| ==> r[k].View() == v[k] && r[k].Valid() && r[k].size == q.size)
            && (forall j, k :: 0 <= j < k < |r| ==> r[j] != r[k])
  {
    hide Survivors;
    var ids := seq(|q.files|, j requires 0 <= j => j);
    SurvivorsById(q.files, ids, 0, expired, destroyed, left);
    SurvivorsById(q.View(), ids, 0, expired, destroyed, left);
  }

  // How many files the loop has looked at when it ends.
  function Stop(i: nat, expired: seq<bool>, destroyed: seq<bool>, left: int): (m: nat)
    requires |expired| == |destroyed|
    ensures i <= m
    decreases |expired| - i
  {
    if i + 1 >= |expired| then i
    else if !expired[i] then Stop(i + 1, expired, destroyed, left)
    else if !destroyed[i] || left <= 1 then i + 1
    else Stop(i + 1, expired, destroyed, left - 1)
  }

  // fs with every file shut down that destroy was called for, among the first m.
  ghost predicate Marked(vs: seq<File>, fs: seq<File>, i: nat, m: nat, tried: seq<bool>) {
    && |vs| == |fs| == |tried|
    && forall j :: i <= j < |fs| ==> vs[j] == if j < m && tried[j] then Shut(fs[j]) else fs[j]
  }

  lemma {:induction false} TimeMarked(vs: seq<File>, fs: seq<File>, i: nat, expired: seq<bool>, destroyed: seq<bool>, left: int)
    requires |expired| == |destroyed| == |fs| && i <= |fs|
    requires Marked(vs, fs, i, Stop(i, expired, destroyed, left), expired)
    ensures Survivors(vs, i, expired, destroyed, left) == TimeSurvivors(fs, i, expired, destroyed, left)
    decreases |fs| - i
  {
    if i + 1 >= |fs| {
      assert vs[i..] == fs[i..];
    } else if !expired[i] {
      TimeMarked(vs, fs, i + 1, expired, destroyed, left);
    } else if destroyed[i] && left > 1 {
      TimeMarked(vs, fs, i + 1, expired, destroyed, left - 1);
    } else {
      assert vs[i + 1..] == fs[i + 1..];
      assert vs[i..] == [vs[i]] + vs[i + 1..];
    }
  }

  // MapedFile.destroy as far as it concerns a file that is left: it is shut down.
  method ShutDown(q: MapedFileQueue, i: nat, ghost fs: seq<File>, ghost tried: seq<bool>)
    requires q.Valid() && i < |q.files| && Marked(q.View(), fs, 0, i, tried) && tried[i]
    modifies q.files[i]
    ensures q.Valid() && Marked(q.View(), fs, 0, i + 1, tried) && Bounded(q) == old(Bounded(q))
  {
    ghost var was := q.View();
    q.files[i].available := false;
    forall j | 0 <= j < |q.files| && j != i ensures q.files[j].View() == was[j] { assert q.files[j] != q.files[i]; }
    assert q.View() == was[i := Shut(was[i])];
  }

  lemma {:induction false} MarkedNext(vs: seq<File>, fs: seq<File>, i: nat, tried: seq<bool>)
    requires Marked(vs, fs, 0, i, tried) && i < |fs|
    ensures vs[i] == fs[i] && (!tried[i] ==> Marked(vs, fs, 0, i + 1, tried))
  {
  }

  // The loop of deleteExpiredFileByTime; clock[i] is the time read for file i.
  method ChooseByTime(q: MapedFileQueue, expiredTime: int, clock: seq<int>, immediately: bool, destroyed: seq<bool>, batchMax: int,
                      ghost fs: seq<File>, ghost expired: seq<bool>) returns (kept: seq<MapedFile>, count: nat)
    requires q.Valid() && |clock| == |destroyed| == |q.files| && fs == q.View()
    requires expired == Expired(fs, expiredTime, clock, immediately)
    modifies q.files
    ensures q.Valid() && kept == Survivors(q.files, 0, expired, destroyed, batchMax) && |kept| + count == |q.files|
    ensures Marked(q.View(), fs, 0, Stop(0, expired, destroyed, batchMax), expired)
  {
    hide MapedFileQueue.Valid, MapedFileQueue.View, Survivors, Marked, Stop, Expired;
    var files, i := q.files, 0;
    kept, count := [], 0;
    ghost var m, left := Stop(0, expired, destroyed, batchMax), batchMax;
    ghost var all := Survivors(files, 0, expired, destroyed, batchMax);
    StartMarked(q, expired);
    while i + 1 < |files|
      invariant q.Valid() && i <= |files| && count + |kept| == i && left == batchMax - count
      invariant m == Stop(i, expired, destroyed, left) && Marked(q.View(), fs, 0, i, expired)
      invariant all == kept + Survivors(files, i, expired, destroyed, left)
    {
      SurvivorsStep(files, i, expired, destroyed, left);
      StopStep(i, expired, destroyed, left);
      MarkedNext(q.View(), fs, i, expired);
      if clock[i] > files[i].storeTimestamp + expiredTime || immediately {
        ShutDown(q, i, fs, expired);
        if !destroyed[i] {
          assert all == kept + files[i..];
          break;
        }
        assert left <= 1 ==> all == kept + files[i + 1..];
        count, left := count + 1, left - 1;
        i := i + 1;
        if count >= batchMax {
          break;
        }
      } else {
        ghost var rest := Survivors(files, i + 1, expired, destroyed, left);
        Regroup(kept, files[i], rest);
        kept := kept + [files[i]];
        i := i + 1;
      }
    }
    if i + 1 >= |files| { SurvivorsEnd(files, i, expired, destroyed, left); }
    assert all == kept + files[i..];
    kept := kept + files[i..];
  }

  lemma {:induction false} Regroup<T>(a: seq<T>, x: T, b: seq<T>)
    ensures a + ([x] + b) == a + [x] + b
  {
  }

  lemma {:induction false} StartMarked(q: MapedFileQueue, tried: seq<bool>)
    requires |tried| == |q.files|
    ensures Marked(q.View(), q.View(), 0, 0, tried)
  {
  }

  lemma {:induction false} StopStep(i: nat, expired: seq<bool>, destroyed: seq<bool>, left: int)
    requires |expired| == |destroyed| && i + 1 < |expired|
    ensures Stop(i, expired, destroyed, left) ==
      if !expired[i] then Stop(i + 1, expired, destroyed, left)
      else if !destroyed[i] || left <= 1 then i + 1
      else Stop(i + 1, expired, destroyed, left - 1)
  {
  }

  lemma {:induction false} SurvivorsEnd<T>(fs: seq<T>, i: nat, expired: seq<bool>, destroyed: seq<bool>, left: int)
    requires |expired| == |destroyed| == |fs| && i <= |fs| <= i + 1
    ensures Survivors(fs, i, expired, destroyed, left) == fs[i..] && Stop(i, expired, destroyed, left) == i
  {
  }

  lemma {:induction false} SurvivorsStep<T>(fs: seq<T>, i: nat, expired: seq<bool>, destroyed: seq<bool>, left: int)
    requires |expired| == |destroyed| == |fs| && i + 1 < |fs|
    ensures Survivors(fs, i, expired, destroyed, left) ==
      if !expired[i] then [fs[i]] + Survivors(fs, i + 1, expired, destroyed, left)
      else if !destroyed[i] then fs[i..]
      else if left <= 1 then fs[i + 1..]
      else Survivors(fs, i + 1, expired, destroyed, left - 1)
  {
  }

  method DeleteExpiredFileByTime(q: MapedFileQueue, expiredTime: int, clock: seq<int>, immediately: bool, destroyed: seq<bool>,
                                 batchMax: int)
    returns (count: nat)
    requires q.Valid() && |clock| == |destroyed| == |q.files|
    modifies q`files, q.files
    ensures q.Valid() && |q.files| + count == |old(q.files)|
    ensures q.View() == TimeSurvivors(old(q.View()), 0, Expired(old(q.View()), expiredTime, clock, immediately), destroyed, batchMax)
  {
    hide Survivors, TimeSurvivors, Stop, Marked;
    ghost var fs := q.View();
    ghost var expired := Expired(fs, expiredTime, clock, immediately);
    var kept;
    kept, count := ChooseByTime(q, expiredTime, clock, immediately, destroyed, batchMax, fs, expired);
    TimeMarked(q.View(), fs, 0, expired, destroyed, batchMax);
    SurvivingPlaces(q, expired, destroyed, batchMax);
    q.files := kept;
  }

  ghost function Expired(fs: seq<File>, expiredTime: int, clock: seq<int>, immediately: bool): (r: seq<bool>)
    requires |clock| == |fs|
    ensures |r| == |fs| && forall i :: 0 <= i < |r| ==> r[i] == (clock[i] > fs[i].storeTimestamp + expiredTime || immediately)
  {
    seq(|fs|, i requires 0 <= i < |fs| => clock[i] > fs[i].storeTimestamp + expiredTime || immediately)
  }

  // The files destroy is called for, as far as the loop by offset gets.
  ghost function Tried(fs: seq<File>, size: int, phyMin: int): (r: seq<bool>)
    requires size >= UNIT_SIZE
    ensures |r| == |fs| && forall i :: 0 <= i < |r| ==> r[i] == (Shown(fs[i], size) && Dead(fs[i], size, phyMin))
  {
    seq(|fs|, i requires 0 <= i < |fs| => Shown(fs[i], size) && Dead(fs[i], size, phyMin))
  }

  lemma {:induction false} OffsetMarked(vs: seq<File>, fs: seq<File>, i: nat, size: int, phyMin: int, destroyed: seq<bool>, left: int)
    requires |destroyed| == |fs| && i <= |fs| && size >= UNIT_SIZE && left > |fs| - i
    requires Marked(vs, fs, i, Stop(i, Ends(fs, size, phyMin, destroyed), AllShown(fs, size), left), Tried(fs, size, phyMin))
    ensures Survivors(vs, i, Ends(fs, size, phyMin, destroyed), AllShown(fs, size), left)
         == OffsetSurvivors(fs, i, size, phyMin, destroyed)
    decreases |fs| - i
  {
    hide LastUnit;
    if i + 1 >= |fs| {
      assert vs[i..] == fs[i..];
    } else if !Shown(fs[i], size) {
      assert vs[i..] == fs[i..];
    } else if Dead(fs[i], size, phyMin) && destroyed[i] {
      OffsetMarked(vs, fs, i + 1, size, phyMin, destroyed, left - 1);
    } else {
      OffsetMarked(vs, fs, i + 1, size, phyMin, destroyed, left);
    }
  }

  // The loop of deleteExpiredFileByOffset.
  method ChooseByOffset(q: MapedFileQueue, phyMin: int, destroyed: seq<bool>, ghost fs: seq<File>) returns (kept: seq<MapedFile>)
    requires q.Valid() && q.size >= UNIT_SIZE && |destroyed| == |q.files| && fs == q.View() && Bounded(q)
    modifies q.files
    ensures q.Valid() && kept == Survivors(q.files, 0, Ends(fs, q.size, phyMin, destroyed), AllShown(fs, q.size), |fs| + 1)
    ensures var stop := Stop(0, Ends(fs, q.size, phyMin, destroyed), AllShown(fs, q.size), |fs| + 1);
            Marked(q.View(), fs, 0, stop, Tried(fs, q.size, phyMin))
  {
    hide Survivors, Seen, Marked, Stop, Shown, Dead, MapedFileQueue.Valid, MapedFileQueue.View, Bounded, Ends, AllShown, Tried;
    var files, i := q.files, 0;
    ghost var ends, shown, left := Ends(fs, q.size, phyMin, destroyed), AllShown(fs, q.size), |fs| + 1;
    ghost var tried, m := Tried(fs, q.size, phyMin), Stop(0, ends, shown, left);
    kept := [];
    StartMarked(q, tried);
    while i + 1 < |files|
      invariant q.Valid() && Bounded(q) && i <= |files| && left >= |fs| + 1 - i && |kept| <= i
      invariant m == Stop(i, ends, shown, left) && Marked(q.View(), fs, 0, i, tried)
      invariant Survivors(files, 0, ends, shown, |fs| + 1) == kept + Survivors(files, i, ends, shown, left)
    {
      SurvivorsStep(files, i, ends, shown, left);
      StopStep(i, ends, shown, left);
      MarkedNext(q.View(), fs, i, tried);
      LooksAt(q, i, phyMin);
      if !(q.size - UNIT_SIZE < files[i].wrote && files[i].available) {
        break;
      }
      var dead := Seen(files[i].data[..files[i].writePos], q.size - UNIT_SIZE).offset < phyMin;
      if dead {
        ShutDown(q, i, fs, tried);
      }
      if dead && destroyed[i] {
        left := left - 1;
      } else {
        ghost var rest := Survivors(files, i + 1, ends, shown, left);
        Regroup(kept, files[i], rest);
        kept := kept + [files[i]];
      }
      i := i + 1;
    }
    if i + 1 >= |files| { SurvivorsEnd(files, i, ends, shown, left); }
    kept := kept + files[i..];
  }

  // What selectMapedBuffer and the first field read show of a file.
  lemma {:induction false} LooksAt(q: MapedFileQueue, i: nat, phyMin: int)
    requires q.Valid() && Bounded(q) && i < |q.files| && q.size >= UNIT_SIZE
    ensures 0 <= q.files[i].writePos <= |q.files[i].data| && q.files[i].View() == q.View()[i]
    ensures var f := q.files[i];
            && (Shown(f.View(), q.size) <==> q.size - UNIT_SIZE < f.wrote && f.available)
            && (Dead(f.View(), q.size, phyMin) <==> Seen(f.data[..f.writePos], q.size - UNIT_SIZE).offset < phyMin)
  {
    hide Seen;
    WindowIs(q.files[i]);
  }

  method DeleteExpiredFileByOffset(q: MapedFileQueue, phyMin: int, destroyed: seq<bool>) returns (count: nat)
    requires q.Valid() && q.size >= UNIT_SIZE && |destroyed| == |q.files| && Bounded(q)
    modifies q`files, q.files
    ensures q.Valid() && q.View() == OffsetSurvivors(old(q.View()), 0, q.size, phyMin, destroyed)
    ensures count == |old(q.files)| - |q.files|
  {
    hide Survivors, OffsetSurvivors, Stop, Marked;
    ghost var fs := q.View();
    ghost var ends, shown := Ends(fs, q.size, phyMin, destroyed), AllShown(fs, q.size);
    var kept := ChooseByOffset(q, phyMin, destroyed, fs);
    OffsetMarked(q.View(), fs, 0, q.size, phyMin, destroyed, |fs| + 1);
    SurvivingPlaces(q, ends, shown, |fs| + 1);
    UntouchedKeeps(q.files, 0, ends, shown, |fs| + 1);
    count := |q.files| - |kept|;
    q.files := kept;
  }
}
