// What the master sends on a connection, and when the slave catches up with it.

module CatchUp {
  import opened Arithmetic
  import opened Bytes
  import opened Framing
  import opened Replication
  import opened Reput
  import opened Segments
  import opened SlaveLog

  // ---------------------------------------------------------------- one frame

  // Where a connection stands: where the last frame ended, else where the slave asked for, else,
  // for a slave without data, at the first file or at the last file boundary in the log.
  lemma {:induction false} StandsAt(size: int, full: bool, s: Pair)
    requires Inv(size, s) && s.conn.Some?
    ensures NextOffset(full, s.master, size, s.conn.value)
         == (if s.conn.value.next != -1 then s.conn.value.next
             else if s.conn.value.request != 0 then s.conn.value.request
             else if full then BaseOf(s.master) else |s.history| - |s.history| % size)
  {
    hide Flat, CopyOf, SoundConn, Chain, Rem;
    EndOf(s.master, size, s.history);
    RemOf(|s.history|, size);
  }

  lemma {:induction false} RemOf(n: nat, size: int)
    requires size > 0
    ensures Rem(n, size) == n % size && 0 <= n - n % size
  {
    DivBounds(n, size);
    MulOrder(0, n / size, size);
  }

  lemma {:induction false} StandsInside(size: int, full: bool, s: Pair)
    requires Inv(size, s) && s.conn.Some?
    ensures var p := NextOffset(full, s.master, size, s.conn.value);
            -1 <= p <= |s.history| < 0x8000_0000_0000_0000 && (p == 0 ==> BaseOf(s.master) == 0)
  {
    hide CopyOf, LogOf, Start, Aligned;
    EndOf(s.slave, size, s.history);
    HistoryBound(s.master, size, s.history);
    StartAligned(full, s.master, size, s.history);
  }

  // What is written from offset p of a log to the end of its file.
  function Left(size: int, end: nat, p: nat): (n: nat)
    requires size > 0 && p < end
    ensures 0 < n <= end - p
  {
    Min(size - p % size, end - p)
  }

  // How many bytes the next frame carries at offset p: what is left of the file, at most `batch`;
  // nothing below the first file and at the end of the log.
  function Carried(base: int, size: int, end: nat, p: int, batch: nat): (n: nat)
    requires size > 0
  {
    if 0 <= p && base <= p < end then Min(batch, Left(size, end, p)) else 0
  }

  // The bytes from p to the end of its file.
  lemma {:induction false} DataHere(fs: seq<File>, size: int, history: seq<byte>, p: int)
    requires size > 0 && LogOf(fs, size, history) && BaseOf(fs) <= p < |history|
    ensures fs != [] && p >= 0
    ensures GetData(fs, size, p) == Some(Data(p, history[p..p + Left(size, |history|, p)]))
  {
    hide Flat, GetData, Window;
    EndOf(fs, size, history);
    var i := DataAt(fs, size, p);
    var f := fs[i];
    FileIsHistory(fs, size, history, i);
    assert Sound(f, size);
    DivBounds(f.from, size);
    DivUnique(p, f.from / size, size);
    FileEnd(fs, size, i);
    if i < |fs| - 1 { assert Link(fs, i + 1, size); }
    hide LogOf, Chain;
    assert history[f.from..f.from + f.wrote][p - f.from..] == history[p..f.from + f.wrote];
  }

  lemma {:induction false} NothingHere(fs: seq<File>, size: int, history: seq<byte>, p: int)
    requires size > 0 && LogOf(fs, size, history) && p >= -1 && (p == 0 ==> BaseOf(fs) == 0)
    requires p < BaseOf(fs) || p >= |history|
    ensures GetData(fs, size, p) == None
  {
    hide Flat, GetData;
    EndOf(fs, size, history);
    if fs != [] && p >= fs[0].from { NoDataAt(fs, size, p); } else { NothingBelow(fs, size, history, p); }
  }

  // The frame for a connection that stands at p, and where it stands afterwards.
  lemma {:induction false} BuiltExactly(full: bool, fs: seq<File>, size: int, history: seq<byte>, c: Conn, p: int, batch: nat)
    requires size > 0 && LogOf(fs, size, history) && p == NextOffset(full, fs, size, c)
    requires -1 <= p <= |history| && (p == 0 ==> BaseOf(fs) == 0)
    ensures |history| < 0x8000_0000_0000_0000
    ensures var n := Carried(BaseOf(fs), size, |history|, p, batch);
            && (n > 0 ==> 0 <= p < p + n <= |history|)
            && BuildData(full, fs, size, c, batch)
               == c.(next := p + n, frames := c.frames + [Frame(p, if n > 0 then history[p..p + n] else [])])
  {
    hide LogOf, NextOffset, GetData, Left;
    HistoryBound(fs, size, history);
    if BaseOf(fs) <= p < |history| {
      DataHere(fs, size, history, p);
      BuiltFrom(full, fs, size, history, c, p, Left(size, |history|, p), batch);
    } else {
      NothingHere(fs, size, history, p);
    }
  }

  lemma {:induction false} BuiltFrom(full: bool, fs: seq<File>, size: int, history: seq<byte>, c: Conn, p: nat, m: nat, batch: nat)
    requires size > 0 && p == NextOffset(full, fs, size, c) && p + m <= |history| < 0x8000_0000_0000_0000
    requires GetData(fs, size, p) == Some(Data(p, history[p..p + m]))
    ensures var n := Min(batch, m);
            BuildData(full, fs, size, c, batch)
            == c.(next := p + n, frames := c.frames + [Frame(p, if n > 0 then history[p..p + n] else [])])
  {
    hide NextOffset, GetData;
    PieceHere(history, p, m, Min(batch, m));
  }

  lemma {:induction false} PieceHere(history: seq<byte>, p: nat, m: nat, n: nat)
    requires n <= m && p + m <= |history|
    ensures history[p..p + m][..n] == if n > 0 then history[p..p + n] else []
  {
  }

  // Whatever log the files hold, if the connection stands inside it then the frame is the log's
  // bytes from there, as many as `Carried` says, and the next offset their end.
  ghost predicate SendsLog(full: bool, fs: seq<File>, size: int, c: Conn, batch: nat, f: Frame, next: int)
    requires size > 0
  {
    var p := NextOffset(full, fs, size, c);
    forall history :: LogOf(fs, size, history) && BaseOf(fs) <= p <= |history| ==>
      var n := Carried(BaseOf(fs), size, |history|, p, batch);
      f.offset == p && 0 <= p <= p + n == next <= |history| && f.body == history[p..p + n]
  }

  lemma {:induction false} BuiltFromLog(full: bool, fs: seq<File>, size: int, c: Conn, batch: nat)
    requires size > 0 && c.frames == []
    ensures var r := BuildData(full, fs, size, c, batch);
            |r.frames| == 1 && SendsLog(full, fs, size, c, batch, r.frames[0], r.next)
  {
    hide NextOffset, Carried, GetData;
    var p, r := NextOffset(full, fs, size, c), BuildData(full, fs, size, c, batch);
    assert |r.frames| == 1;
    forall history | LogOf(fs, size, history) && BaseOf(fs) <= p <= |history|
      ensures var n := Carried(BaseOf(fs), size, |history|, p, batch);
              r.frames[0].offset == p && 0 <= p <= p + n == r.next <= |history| && r.frames[0].body == history[p..p + n]
    {
      BuiltExactly(full, fs, size, history, c, p, batch);
    }
  }

  // A step of the master's sender appends exactly one frame: the bytes of its log from where the
  // connection stands, as many as `Carried` says, and the connection then stands behind them.
  lemma {:induction false} SendExact(size: int, full: bool, s: Pair, batch: nat)
    requires Inv(size, s) && s.conn.Some?
    ensures var c, p := s.conn.value, NextOffset(full, s.master, size, s.conn.value);
            var n := Carried(BaseOf(s.master), size, |s.history|, p, batch);
            && -0x8000_0000_0000_0000 <= p < 0x8000_0000_0000_0000 && (n > 0 ==> 0 <= p < p + n <= |s.history|)
            && Next(size, full, s, Send(batch))
               == s.(conn := Some(c.(next := p + n, frames := c.frames + [Frame(p, if n > 0 then s.history[p..p + n] else [])])))
  {
    StandsInside(size, full, s);
    hide CopyOf, LogOf, NextOffset, SoundConn, BuildData, Carried, Next;
    BuiltExactly(full, s.master, size, s.history, s.conn.value, NextOffset(full, s.master, size, s.conn.value), batch);
    NextOf(size, full, s, Send(batch));
  }

  // ---------------------------------------------------------------- frames in a row

  // The data frames follow one another from offset `at` to `next`.
  ghost predicate Lined(at: int, frames: seq<Frame>, next: int)
    decreases |frames|
  {
    if frames == [] then at == next
    else if frames[0].body == [] then Lined(at, frames[1..], next)
    else frames[0].offset == at && Lined(at + |frames[0].body|, frames[1..], next)
  }

  // The offset of the first data frame under way or, if there is none, of the next one to come.
  function Standing(frames: seq<Frame>, next: int): int {
    if frames == [] then next else if frames[0].body != [] then frames[0].offset else Standing(frames[1..], next)
  }

  ghost predicate InRow(frames: seq<Frame>, next: int) { Lined(Standing(frames, next), frames, next) }

  lemma {:induction false} LinedStands(at: int, frames: seq<Frame>, next: int)
    requires Lined(at, frames, next)
    ensures Standing(frames, next) == at <= next
    ensures forall i :: 0 <= i < |frames| && frames[i].body != [] ==> at <= frames[i].offset < frames[i].offset + |frames[i].body| <= next
    decreases |frames|
  {
    if frames != [] {
      LinedStands(if frames[0].body == [] then at else at + |frames[0].body|, frames[1..], next);
      forall i | 0 <= i < |frames| && frames[i].body != []
        ensures at <= frames[i].offset < frames[i].offset + |frames[i].body| <= next
      {
        if i > 0 { assert frames[1..][i - 1] == frames[i]; }
      }
    }
  }

  lemma {:induction false} LinedSnoc(at: int, frames: seq<Frame>, next: int, f: Frame)
    requires Lined(at, frames, next) && (f.body != [] ==> f.offset == next)
    ensures Lined(at, frames + [f], next + |f.body|)
    decreases |frames|
  {
    if frames == [] {
      assert [] + [f] == [f] && [f][1..] == [];
    } else {
      assert (frames + [f])[1..] == frames[1..] + [f];
      LinedSnoc(if frames[0].body == [] then at else at + |frames[0].body|, frames[1..], next, f);
    }
  }

  // While the next offset is unknown no data frame is under way, so any offset may become it.
  lemma {:induction false} NoneYet(frames: seq<Frame>, p: int)
    requires forall i :: 0 <= i < |frames| ==> frames[i].body == []
    ensures Lined(p, frames, p)
  {
    if frames != [] { NoneYet(frames[1..], p); }
  }

  // What every run keeps besides `Inv`: the frames are in a row, and the newest report, under way
  // or read, is the end of the slave's log.
  ghost predicate Tidy(s: Pair) {
    s.conn.Some? ==>
      var c := s.conn.value;
      && InRow(c.frames, c.next) && s.reported == MaxOffset(s.slave)
      && if c.acks == [] then s.pushed >= s.reported else c.acks[|c.acks| - 1] == s.reported
  }

  // The same once the next offset has been settled.
  lemma {:induction false} StillInRow(size: int, full: bool, s: Pair)
    requires Inv(size, s) && Tidy(s) && s.conn.Some?
    ensures var c := s.conn.value; InRow(c.frames, NextOffset(full, s.master, size, c))
  {
    hide CopyOf, LogOf, Start;
    var c := s.conn.value;
    var p := NextOffset(full, s.master, size, c);
    if c.next == -1 {
      LinedStands(Standing(c.frames, -1), c.frames, -1);
      forall i | 0 <= i < |c.frames| ensures c.frames[i].body == [] {
        assert TrueFrame(c.frames[i], size, s.history);
      }
      NoneYet(c.frames, p);
      LinedStands(p, c.frames, p);
    }
  }

  // ---------------------------------------------------------------- every run is tidy

  lemma {:induction false} SendTidy(size: int, full: bool, s: Pair, batch: nat)
    requires Inv(size, s) && Tidy(s) && s.conn.Some?
    ensures var r := Next(size, full, s, Send(batch));
            var p := NextOffset(full, s.master, size, s.conn.value);
            && Tidy(r) && r.conn.Some? && r.conn.value.next >= p
            && Standing(r.conn.value.frames, r.conn.value.next) == Standing(s.conn.value.frames, p)
  {
    StillInRow(size, full, s);
    hide Inv, Next, NextOffset, InRow, Standing;
    var f := OneFrame(size, full, s, batch);
    RowGrows(s.conn.value.frames, NextOffset(full, s.master, size, s.conn.value), f);
  }

  lemma {:induction false} OneFrame(size: int, full: bool, s: Pair, batch: nat) returns (f: Frame)
    requires Inv(size, s) && s.conn.Some?
    ensures var c, p := s.conn.value, NextOffset(full, s.master, size, s.conn.value);
            && Next(size, full, s, Send(batch)) == s.(conn := Some(c.(next := p + |f.body|, frames := c.frames + [f])))
            && (f.body != [] ==> f.offset == p)
  {
    assert size > 0;
    hide Inv, Next, NextOffset, Left;
    SendExact(size, full, s, batch);
    f := Next(size, full, s, Send(batch)).conn.value.frames[|s.conn.value.frames|];
  }

  lemma {:induction false} RowGrows(frames: seq<Frame>, p: int, f: Frame)
    requires InRow(frames, p) && (f.body != [] ==> f.offset == p)
    ensures InRow(frames + [f], p + |f.body|) && Standing(frames + [f], p + |f.body|) == Standing(frames, p)
  {
    LinedSnoc(Standing(frames, p), frames, p, f);
    LinedStands(Standing(frames, p), frames + [f], p + |f.body|);
  }

  // What a delivery does to a row of frames: an empty frame goes; a data frame goes onto the end of
  // the slave's log, or the connection ends where it does not continue it.
  lemma {:induction false} DeliverExact(size: int, full: bool, s: Pair, c1: seq<byte>, c2: seq<byte>)
    requires Inv(size, s) && Tidy(s) && s.conn.Some? && s.conn.value.frames != [] && |c1| == size && |c2| == size
    ensures var c, f := s.conn.value, s.conn.value.frames[0];
            var r, rest := Next(size, full, s, Deliver(c1, c2)), c.(frames := c.frames[1..]);
            if f.body == [] then r == s.(conn := Some(rest))
            else if s.slave != [] && MaxOffset(s.slave) != f.offset then r == s.(conn := None)
            else && MaxOffset(r.slave) == f.offset + |f.body| > 0 && r.slave != []
                 && r == s.(slave := r.slave, reported := MaxOffset(r.slave),
                            conn := Some(rest.(acks := c.acks + [MaxOffset(r.slave)])))
  {
    hide LogOf, Aligned, AppendData, InRow, StartsFile;
    var c, f := s.conn.value, s.conn.value.frames[0];
    EndOf(s.slave, size, s.history);
    assert TrueFrame(f, size, s.history);
    if s.slave == [] { FirstFrameAligned(c.frames, c.next, size); }
    if f.body != [] && (s.slave == [] || MaxOffset(s.slave) == f.offset) {
      OffsetOf(f, size, s.history);
      AppendsCopy(size, s, f, c1, c2);
    }
  }

  lemma {:induction false} RestInRow(frames: seq<Frame>, next: int)
    requires InRow(frames, next) && frames != []
    ensures InRow(frames[1..], next)
    ensures frames[0].body == [] ==> Standing(frames[1..], next) == Standing(frames, next)
    ensures frames[0].body != [] ==> Standing(frames, next) == frames[0].offset
    ensures frames[0].body != [] ==> Standing(frames[1..], next) == frames[0].offset + |frames[0].body| <= next
  {
    var at := Standing(frames, next) + |frames[0].body|;
    LinedStands(at, frames[1..], next);
  }

  // Every step keeps frames and reports in order.
  lemma {:induction false} StepTidy(size: int, full: bool, s: Pair, step: Step)
    requires Inv(size, s) && Tidy(s)
    ensures Tidy(Next(size, full, s, step))
  {
    match step
    case Send(batch) => if s.conn.Some? { SendTidy(size, full, s, batch); }
    case Deliver(c1, c2) =>
      if s.conn.Some? && s.conn.value.frames != [] && |c1| == size && |c2| == size {
        DeliverTidy(size, full, s, c1, c2);
      }
    case _ => OtherTidy(size, full, s, step);
  }

  lemma {:induction false} DeliverTidy(size: int, full: bool, s: Pair, c1: seq<byte>, c2: seq<byte>)
    requires Inv(size, s) && Tidy(s) && s.conn.Some? && s.conn.value.frames != [] && |c1| == size && |c2| == size
    ensures Tidy(Next(size, full, s, Deliver(c1, c2)))
  {
    DeliverExact(size, full, s, c1, c2);
    hide Inv, Next, InRow;
    RestInRow(s.conn.value.frames, s.conn.value.next);
  }

  lemma {:induction false} OtherTidy(size: int, full: bool, s: Pair, step: Step)
    requires Inv(size, s) && Tidy(s) && !step.Send? && !step.Deliver?
    ensures Tidy(Next(size, full, s, step))
  {
    hide LogOf, CopyOf, SoundConn;
  }

  // So every run that starts without a connection is tidy.
  lemma {:induction false} TidyAlways(size: int, full: bool, s: Pair, steps: seq<Step>)
    requires Inv(size, s) && Tidy(s)
    ensures var r := Run(size, full, s, steps); Inv(size, r) && Tidy(r)
  {
    assert size > 0;
    hide Inv, Tidy, Next;
    if steps != [] {
      TidyAlways(size, full, s, steps[..|steps| - 1]);
      var t := Run(size, full, s, steps[..|steps| - 1]);
      StepKeeps(size, full, t, steps[|steps| - 1]);
      StepTidy(size, full, t, steps[|steps| - 1]);
    }
  }

  // ---------------------------------------------------------------- catching up

  // The steps of an undisturbed connection: the master sends at least a byte at a time, the slave
  // takes frames and reports, the master reads reports.
  predicate Flows(size: int, step: Step) {
    match step
    case Send(batch) => batch > 0
    case Deliver(c1, c2) => |c1| == size && |c2| == size
    case Beat => true
    case ReadAcks(_) => true
    case _ => false
  }

  // Where the connection stands, once the slave's request has been read.
  ghost predicate Asked(s: Pair) { s.conn.Some? && (s.conn.value.request >= 0 || s.conn.value.next >= 0) }

  ghost function Position(size: int, full: bool, s: Pair): int
    requires size > 0 && s.conn.Some?
  {
    NextOffset(full, s.master, size, s.conn.value)
  }

  // The bytes the connection goes on with are still stored, and they are the ones the slave lacks:
  // they continue its log or, if it has none, there are some.
  ghost predicate OnTrack(size: int, full: bool, s: Pair)
    requires size > 0
  {
    && Asked(s) && BaseOf(s.master) <= Position(size, full, s)
    && var at := Standing(s.conn.value.frames, Position(size, full, s));
       if s.slave == [] then at < |s.history| else at == MaxOffset(s.slave)
  }

  // A step of an undisturbed connection keeps it on track, moves its position only by sending, and
  // then at least a byte ahead unless it is at the end.
  lemma {:induction false} SendFlows(size: int, full: bool, s: Pair, batch: nat)
    requires Inv(size, s) && Tidy(s) && OnTrack(size, full, s) && batch > 0
    ensures var r := Next(size, full, s, Send(batch));
            && OnTrack(size, full, r) && r == s.(conn := r.conn)
            && Min(|s.history|, Position(size, full, s) + 1) <= Position(size, full, r)
  {
    StandsInside(size, full, s);
    hide Inv, Next, NextOffset, Standing, Tidy, Left;
    SendExact(size, full, s, batch);
    SendTidy(size, full, s, batch);
    KnownNext(full, s.master, size, Next(size, full, s, Send(batch)).conn.value);
    AskedInside(size, full, s);
  }

  lemma {:induction false} KnownNext(full: bool, fs: seq<File>, size: int, c: Conn)
    requires size > 0 && c.next >= 0
    ensures NextOffset(full, fs, size, c) == c.next
  {
  }

  lemma {:induction false} AskedInside(size: int, full: bool, s: Pair)
    requires Inv(size, s) && Asked(s)
    ensures size > 0 && s.conn.Some? && 0 <= Position(size, full, s) <= |s.history|
  {
    hide LogOf, CopyOf, Start;
    StandsInside(size, full, s);
    StartAligned(full, s.master, size, s.history);
  }

  lemma {:induction false} DeliverFlows(size: int, full: bool, s: Pair, c1: seq<byte>, c2: seq<byte>)
    requires Inv(size, s) && Tidy(s) && OnTrack(size, full, s) && |c1| == size && |c2| == size
    ensures var r := Next(size, full, s, Deliver(c1, c2));
            && OnTrack(size, full, r) && r.master == s.master && r.history == s.history
            && Position(size, full, r) == Position(size, full, s)
  {
    StillInRow(size, full, s);
    var c := s.conn.value;
    if c.frames == [] {
      assert Next(size, full, s, Deliver(c1, c2)) == s;
    } else {
      DeliverExact(size, full, s, c1, c2);
      hide Inv, Next, InRow, Tidy, Start, Standing;
      RestInRow(c.frames, Position(size, full, s));
    }
  }

  lemma {:induction false} ReportFlows(size: int, full: bool, s: Pair, step: Step)
    requires Inv(size, s) && OnTrack(size, full, s) && (step.Beat? || step.ReadAcks?)
    ensures var r := Next(size, full, s, step);
            && OnTrack(size, full, r) && r.master == s.master && r.history == s.history
            && Position(size, full, r) == Position(size, full, s)
  {
    hide Inv, Standing, Start;
  }

  // A step of an undisturbed connection keeps it on track and moves its position only by sending,
  // then by a byte at least unless the log ends there.
  lemma {:induction false} StepFlows(size: int, full: bool, s: Pair, step: Step)
    requires Inv(size, s) && Tidy(s) && OnTrack(size, full, s) && Flows(size, step)
    ensures var r := Next(size, full, s, step);
            && Inv(size, r) && Tidy(r) && OnTrack(size, full, r) && r.master == s.master && r.history == s.history
            && Min(|s.history|, Position(size, full, s) + if step.Send? then 1 else 0) <= Position(size, full, r)
  {
    StepKeeps(size, full, s, step);
    StepTidy(size, full, s, step);
    AskedInside(size, full, s);
    hide Inv, Tidy, Next, OnTrack;
    match step
    case Send(batch) => SendFlows(size, full, s, batch);
    case Deliver(c1, c2) => DeliverFlows(size, full, s, c1, c2);
    case _ => ReportFlows(size, full, s, step);
  }

  function Sends(steps: seq<Step>): nat {
    if steps == [] then 0 else Sends(steps[..|steps| - 1]) + if steps[|steps| - 1].Send? then 1 else 0
  }

  // From s, with k sends, an undisturbed connection on track has come to r.
  ghost predicate Reached(size: int, full: bool, s: Pair, k: nat, r: Pair)
    requires size > 0 && s.conn.Some?
  {
    && Inv(size, r) && Tidy(r) && OnTrack(size, full, r) && r.master == s.master && r.history == s.history
    && Min(|s.history|, Position(size, full, s) + k) <= Position(size, full, r) <= |s.history|
  }

  lemma {:induction false} ReachedStep(size: int, full: bool, s: Pair, k: nat, t: Pair, step: Step)
    requires size > 0 && s.conn.Some? && Reached(size, full, s, k, t) && Flows(size, step)
    ensures Reached(size, full, s, if step.Send? then k + 1 else k, Next(size, full, t, step))
  {
    StepFlows(size, full, t, step);
    var r := Next(size, full, t, step);
    assert Asked(r);
    AskedInside(size, full, r);
    hide Inv, Tidy, Next, OnTrack, Position, Flows;
  }

  lemma {:induction false} RunFlows(size: int, full: bool, s: Pair, steps: seq<Step>)
    requires Inv(size, s) && Tidy(s) && OnTrack(size, full, s) && forall i :: 0 <= i < |steps| ==> Flows(size, steps[i])
    ensures Reached(size, full, s, Sends(steps), Run(size, full, s, steps))
  {
    ReachedNow(size, full, s);
    hide Reached, Inv, Tidy, Next, OnTrack, Flows;
    if steps == [] {
      assert Sends(steps) == 0 && Run(size, full, s, steps) == s;
    } else {
      var n := |steps| - 1;
      RunFlows(size, full, s, steps[..n]);
      RunSnoc(size, full, s, steps[..n], steps[n]);
      assert steps[..n] + [steps[n]] == steps;
      hide Run, Sends;
      ReachedStep(size, full, s, Sends(steps[..n]), Run(size, full, s, steps[..n]), steps[n]);
    }
  }

  lemma {:induction false} ReachedNow(size: int, full: bool, s: Pair)
    requires Inv(size, s) && Tidy(s) && OnTrack(size, full, s)
    ensures size > 0 && s.conn.Some? && Reached(size, full, s, 0, s)
  {
    AskedInside(size, full, s);
    hide Inv, Tidy, OnTrack, Position;
  }

  // A connection on track catches up: however its sends, deliveries and reports are ordered, once
  // there have been as many sends as bytes were missing and every frame has been delivered, the
  // slave's log ends where the master's does, and once every report has been read the master
  // knows that.
  lemma {:induction false} CatchesUp(size: int, full: bool, s: Pair, steps: seq<Step>)
    requires Inv(size, s) && Tidy(s) && OnTrack(size, full, s) && forall i :: 0 <= i < |steps| ==> Flows(size, steps[i])
    requires Sends(steps) >= |s.history| - Position(size, full, s)
    ensures var r := Run(size, full, s, steps);
            && r.history == s.history && r.conn.Some?
            && (r.conn.value.frames == [] ==> MaxOffset(r.slave) == |s.history|)
            && (r.conn.value.frames == [] && r.conn.value.acks == [] ==> r.pushed == |s.history|)
  {
    RunFlows(size, full, s, steps);
    hide LogOf, CopyOf, SoundConn, Next, NextOffset;
  }

  // ---------------------------------------------------------------- such a run exists

  lemma {:induction false} RunSnoc(size: int, full: bool, s: Pair, steps: seq<Step>, step: Step)
    requires size > 0
    ensures Run(size, full, s, steps + [step]) == Next(size, full, Run(size, full, s, steps), step)
    ensures Sends(steps + [step]) == Sends(steps) + if step.Send? then 1 else 0
  {
    hide Next;
    assert (steps + [step])[..|steps|] == steps;
  }

  lemma {:induction false} OnlySends(n: nat)
    ensures Sends(seq(n, _ => Send(1))) == n
  {
    if n > 0 {
      assert seq(n, _ => Send(1))[..n - 1] == seq(n - 1, _ => Send(1));
      OnlySends(n - 1);
    }
  }

  lemma {:induction false} OneDelivered(size: int, full: bool, s: Pair, c: seq<byte>)
    requires Inv(size, s) && Tidy(s) && OnTrack(size, full, s) && s.conn.value.frames != [] && |c| == size
    ensures var r := Next(size, full, s, Deliver(c, c));
            r.conn.Some? && |r.conn.value.frames| == |s.conn.value.frames| - 1
  {
    DeliverFlows(size, full, s, c, c);
    DeliverExact(size, full, s, c, c);
    hide Inv, Tidy, Next, Position;
  }

  // Deliveries until no frame is left.
  lemma {:induction false} Drain(size: int, full: bool, s: Pair, steps: seq<Step>) returns (all: seq<Step>)
    requires Inv(size, s) && Tidy(s) && OnTrack(size, full, s) && forall i :: 0 <= i < |steps| ==> Flows(size, steps[i])
    requires Run(size, full, s, steps).conn.Some?
    ensures (forall i :: 0 <= i < |all| ==> Flows(size, all[i])) && Sends(all) == Sends(steps)
    ensures var r := Run(size, full, s, all); r.conn.Some? && r.conn.value.frames == []
    decreases |Run(size, full, s, steps).conn.value.frames|
  {
    assert size > 0;
    var t := Run(size, full, s, steps);
    all := steps;
    if t.conn.value.frames != [] {
      RunFlows(size, full, s, steps);
      hide Inv, Tidy, Next, OnTrack, Position, Run, Sends;
      OneDelivered(size, full, t, Zeros(size));
      var step := Deliver(Zeros(size), Zeros(size));
      RunSnoc(size, full, s, steps, step);
      all := Drain(size, full, s, steps + [step]);
    }
  }

  // A connection on track can be brought to the end, and its master be told.
  lemma {:induction false} CanCatchUp(size: int, full: bool, s: Pair) returns (steps: seq<Step>)
    requires Inv(size, s) && Tidy(s) && OnTrack(size, full, s)
    ensures forall i :: 0 <= i < |steps| ==> Flows(size, steps[i])
    ensures var r := Run(size, full, s, steps);
            r.history == s.history && MaxOffset(r.slave) == r.pushed == |s.history|
  {
    AskedInside(size, full, s);
    var n := |s.history| - Position(size, full, s);
    OnlySends(n);
    var sends := seq(n, _ => Send(1));
    CatchesUp(size, full, s, sends);
    steps := Drain(size, full, s, sends);
    CatchesUp(size, full, s, steps);
    var acks := Run(size, full, s, steps).conn.value.acks;
    if acks != [] {
      hide Inv, Tidy, OnTrack, Position, Run, Sends;
      RunSnoc(size, full, s, steps, ReadAcks(|acks|));
      steps := steps + [ReadAcks(|acks|)];
      CatchesUp(size, full, s, steps);
    }
  }

  // ---------------------------------------------------------------- and exactly then

  // A connection that is over, or goes on with other bytes than the slave lacks.
  ghost predicate Stuck(size: int, full: bool, s: Pair) {
    && Inv(size, s) && Tidy(s) && MaxOffset(s.slave) < |s.history|
    && (s.conn.Some? ==> Asked(s) && !OnTrack(size, full, s))
  }

  lemma {:induction false} DeliverStuck(size: int, full: bool, s: Pair, c1: seq<byte>, c2: seq<byte>)
    requires Stuck(size, full, s) && s.conn.Some? && s.conn.value.frames != [] && |c1| == size && |c2| == size
    ensures var r := Next(size, full, s, Deliver(c1, c2));
            && MaxOffset(r.slave) < |s.history| && r.history == s.history
            && (r.conn.Some? ==> Asked(r) && !OnTrack(size, full, r))
  {
    StillInRow(size, full, s);
    var c := s.conn.value;
    DeliverExact(size, full, s, c1, c2);
    BaseInside(size, s);
    assert TrueFrame(c.frames[0], size, s.history);
    hide Inv, Tidy, Next, InRow, Start, Standing;
    RestInRow(c.frames, Position(size, full, s));
  }

  lemma {:induction false} BaseInside(size: int, s: Pair)
    requires Inv(size, s)
    ensures size > 0 && BaseOf(s.master) <= |s.history|
  {
  }

  lemma {:induction false} SendStuck(size: int, full: bool, s: Pair, batch: nat)
    requires Stuck(size, full, s) && s.conn.Some?
    ensures var r := Next(size, full, s, Send(batch));
            r.slave == s.slave && r.history == s.history && r.conn.Some? && Asked(r) && !OnTrack(size, full, r)
  {
    AskedInside(size, full, s);
    hide Inv, Next, NextOffset, Standing, Tidy, Left;
    SendExact(size, full, s, batch);
    SendTidy(size, full, s, batch);
    KnownNext(full, s.master, size, Next(size, full, s, Send(batch)).conn.value);
  }

  lemma {:induction false} ReportStuck(size: int, full: bool, s: Pair, step: Step)
    requires Stuck(size, full, s) && s.conn.Some? && (step.Beat? || step.ReadAcks?)
    ensures var r := Next(size, full, s, step);
            r.slave == s.slave && r.history == s.history && r.conn.Some? && Asked(r) && !OnTrack(size, full, r)
  {
    assert size > 0;
    hide Inv, Tidy, Start, Standing;
  }

  lemma {:induction false} StaysStuck(size: int, full: bool, s: Pair, step: Step)
    requires Stuck(size, full, s) && Flows(size, step)
    ensures Stuck(size, full, Next(size, full, s, step)) && Next(size, full, s, step).history == s.history
  {
    StepKeeps(size, full, s, step);
    StepTidy(size, full, s, step);
    if s.conn.None? {
      assert Next(size, full, s, step) == s;
    } else {
      match step
      case Send(batch) => SendStuck(size, full, s, batch);
      case Deliver(c1, c2) =>
        if s.conn.value.frames != [] { DeliverStuck(size, full, s, c1, c2); }
        else { assert Next(size, full, s, step) == s; }
      case _ => ReportStuck(size, full, s, step);
    }
  }

  lemma {:induction false} StuckForEver(size: int, full: bool, s: Pair, steps: seq<Step>)
    requires Stuck(size, full, s) && forall i :: 0 <= i < |steps| ==> Flows(size, steps[i])
    ensures size > 0 && Run(size, full, s, steps).history == s.history && Stuck(size, full, Run(size, full, s, steps))
  {
    assert size > 0;
    hide Stuck, Next;
    if steps != [] {
      var n := |steps| - 1;
      StuckForEver(size, full, s, steps[..n]);
      StaysStuck(size, full, Run(size, full, s, steps[..n]), steps[n]);
    }
  }

  // The steps bring the slave to the end of the log.
  ghost predicate Brings(size: int, full: bool, s: Pair, steps: seq<Step>)
    requires size > 0
  {
    && (forall i :: 0 <= i < |steps| ==> Flows(size, steps[i]))
    && MaxOffset(Run(size, full, s, steps).slave) == |s.history|
  }

  // An undisturbed connection whose request has been read can bring its slave to the end of the
  // log exactly when the slave is there already or the connection is on track.
  lemma {:induction false} CatchUpExact(size: int, full: bool, s: Pair)
    requires Inv(size, s) && Tidy(s) && Asked(s)
    ensures size > 0
    ensures (exists steps :: Brings(size, full, s, steps)) <==> MaxOffset(s.slave) == |s.history| || OnTrack(size, full, s)
  {
    EndInside(size, s);
    hide Inv, Tidy, OnTrack, Asked, Next;
    if OnTrack(size, full, s) {
      var steps := CanCatchUp(size, full, s);
      assert Brings(size, full, s, steps);
    }
    if MaxOffset(s.slave) == |s.history| {
      assert Brings(size, full, s, []);
    }
    if MaxOffset(s.slave) < |s.history| && !OnTrack(size, full, s) {
      forall steps | Brings(size, full, s, steps) ensures false {
        StuckForEver(size, full, s, steps);
      }
    }
  }

  // So for every pair that started with any log and any piece of it, whatever it has been through:
  // once connected and asked, it can catch up exactly when the slave is there or it is on track.
  lemma {:induction false} RunCatchesUp(size: int, full: bool, history: seq<byte>, master: seq<File>, slave: seq<File>, steps: seq<Step>)
    requires size > 0 && LogOf(master, size, history) && CopyOf(slave, size, history)
    ensures var r := Run(size, full, Pair(history, master, slave, 0, true, None, 0), steps);
            Asked(r) ==>
              ((exists more :: Brings(size, full, r, more)) <==> MaxOffset(r.slave) == |r.history| || OnTrack(size, full, r))
  {
    hide LogOf, CopyOf, Run, Inv, OnTrack, Asked, Brings;
    MayStart(size, history, master, slave);
    TidyAlways(size, full, Pair(history, master, slave, 0, true, None, 0), steps);
    var r := Run(size, full, Pair(history, master, slave, 0, true, None, 0), steps);
    if Asked(r) { CatchUpExact(size, full, r); }
  }

  lemma {:induction false} EndInside(size: int, s: Pair)
    requires Inv(size, s)
    ensures size > 0 && MaxOffset(s.slave) <= |s.history|
  {
    EndOf(s.slave, size, s.history);
  }

  // ---------------------------------------------------------------- a new connection

  // A slave that connects while its master has nothing else to read, and whose newest report is
  // read first, is on track exactly when the byte after its last one is still stored; a slave
  // without data, when there is a byte behind the first file's start or the last file boundary.
  lemma {:induction false} FreshConnection(size: int, full: bool, s: Pair)
    requires Inv(size, s) && s.conn.None?
    ensures size > 0 && CopyOf(s.slave, size, s.history)
    ensures var k := if s.seeded then 2 else 1;
            var r := Next(size, full, Next(size, full, s, Connect), ReadAcks(k));
            && Asked(r) && r.conn.value.request == MaxOffset(s.slave) && r.slave == s.slave && r.history == s.history
            && (OnTrack(size, full, r) <==>
                  if s.slave != [] then BaseOf(s.master) <= MaxOffset(s.slave)
                  else if full then BaseOf(s.master) < |s.history| else |s.history| % size != 0)
  {
    hide CopyOf, LogOf, Start;
    EndOf(s.slave, size, s.history);
    var r := Next(size, full, Next(size, full, s, Connect), ReadAcks(if s.seeded then 2 else 1));
    StepKeeps(size, full, s, Connect);
    StepKeeps(size, full, Next(size, full, s, Connect), ReadAcks(if s.seeded then 2 else 1));
    StandsAt(size, full, r);
    BoundaryInside(size, s);
    hide Next, Inv;
  }

  lemma {:induction false} BoundaryInside(size: int, s: Pair)
    requires Inv(size, s)
    ensures 0 <= BaseOf(s.master) <= |s.history| - |s.history| % size
  {
    hide CopyOf, Flat;
    EndOf(s.master, size, s.history);
    RemOf(|s.history|, size);
    if s.master != [] {
      assert Sound(s.master[0], size);
      FloorAbove(s.master[0].from, |s.history|, size);
    }
  }

  // No boundary lies between the last one and the end.
  lemma {:induction false} FloorAbove(a: nat, n: nat, size: int)
    requires size > 0 && Aligned(a, size) && a <= n
    ensures a <= n - n % size
  {
    DivBounds(a, size);
    DivBounds(n, size);
    var i, j := a / size, n / size;
    MulOrder(i, j, size);
    MulOrder(j + 1, i, size);
    assert (j + 1) * size == j * size + size;
  }

  // The other order of the first reports: a slave that has data but whose seeded zero report is
  // read first is sent its master's start instead, and is on track only if that is where it ends.
  lemma {:induction false} ZeroReadFirst(size: int, full: bool, s: Pair)
    requires Inv(size, s) && s.conn.None? && s.seeded && s.slave != []
    ensures size > 0
    ensures var r := Next(size, full, Next(size, full, s, Connect), ReadAcks(1));
            && Asked(r) && r.conn.value.request == 0 && r.slave == s.slave && r.history == s.history
            && (OnTrack(size, full, r) <==>
                  MaxOffset(s.slave) == if full then BaseOf(s.master) else |s.history| - |s.history| % size)
  {
    hide CopyOf, LogOf, Start;
    var r := Next(size, full, Next(size, full, s, Connect), ReadAcks(1));
    StepKeeps(size, full, s, Connect);
    StepKeeps(size, full, Next(size, full, s, Connect), ReadAcks(1));
    StandsAt(size, full, r);
    BoundaryInside(size, s);
    hide Next, Inv;
  }
}
