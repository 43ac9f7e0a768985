// The slave's ReputMessageService: dispatching a log that arrives byte by byte.

module Reput {
  import opened Arithmetic
  import opened Bytes
  import opened Log
  import opened Records
  import opened Recovery
  import opened Segments

  // CommitLog.rollNextFile
  function RollNextFile(offset: int, size: int): int
    requires size > 0
  {
    offset + size - Rem(offset, size)
  }

  // CommitLog.getData: where the data starts, and all that is written in that file from there.
  datatype Data = Data(start: int, bytes: seq<byte>)

  function GetData(fs: seq<File>, size: int, offset: int): Option<Data>
    requires size > 0
  {
    match Lookup(fs, size, offset, offset == 0)
    case None => None
    case Some(i) =>
      if i < |fs| && 0 <= Rem(offset, size) < fs[i].wrote && Rem(offset, size) <= |Window(fs[i])| && fs[i].available then
        Some(Data(fs[i].from + Rem(offset, size), Window(fs[i])[Rem(offset, size)..]))
      else None
  }

  // What a loop of doReput dispatches and where it leaves reputFromOffset.
  datatype Progress = Progress(requests: seq<DispatchRequest>, from: int, doNext: bool) | ReputPanic

  function Ahead(rs: seq<DispatchRequest>, p: Progress): Progress {
    match p case Progress(qs, f, go) => Progress(rs + qs, f, go) case ReputPanic => ReputPanic
  }

  // The inner loop: s is still unread, left is result.Size - readSize.
  function ReadOn(c: Codec, s: seq<byte>, left: int, from: int, size: int): Progress
    requires size > 0
    decreases |s|
  {
    if left <= 0 then Progress([], from, true)
    else
      match Parse(c, s, false, false)
      case Panic => ReputPanic
      case Parsed(request, consumed) =>
        if request.msgSize > 0 then
          Ahead([request], ReadOn(c, s[consumed..], left - request.msgSize, from + request.msgSize, size))
        else if request.msgSize == -1 then Progress([], from, false)
        else if request.msgSize == 0 then Progress([], RollNextFile(from, size), true)
        else ReadOn(c, s[consumed..], left, from, size)
  }

  // The log has arrived up to byte n: a record counts once it is complete, a blank record as
  // soon as its first eight bytes are there.
  ghost predicate Visible(items: seq<Item>, k: nat, n: nat)
    requires k < |items|
  {
    Total(items[..k]) + (if items[k].Record? then Length(items[k]) else END_FILE_MIN_BLANK) <= n
  }

  // The files hold the first n bytes of the log.
  ghost predicate Arrived(fs: seq<File>, size: int, items: seq<Item>, n: nat) {
    && Chain(fs, size) && fs != [] && Layout(items, fs[0].from, size) && n <= Total(items)
    && Flat(fs) == LogBytes(items, fs[0].from)[..n] && (forall i :: 0 <= i < |fs| ==> fs[i].available)
  }

  // The first k items' bytes, then what has arrived of the others, up to `end`.
  function Rest(items: seq<Item>, k: nat, base: int, end: int): seq<byte>
    requires k <= |items|
  {
    Take(LogBytes(items[k..], base + Total(items[..k])), end - base - Total(items[..k]))
  }

  lemma {:induction false} RestSplit(items: seq<Item>, k: nat, base: int, size: int, end: int)
    requires k < |items| && base + Total(items[..k]) <= end && Layout(items, base, size)
    ensures var at := base + Total(items[..k]);
            var len := Length(items[k]);
            var bytes := ItemBytes(items[k], at);
            && Total(items[..k + 1]) == Total(items[..k]) + len && Fits(items[k], at, size)
            && (at + len <= end ==> Rest(items, k, base, end) == bytes + Rest(items, k + 1, base, end))
            && (end <= at + len ==> Rest(items, k, base, end) == bytes[..end - at])
  {
    hide Layout, LogBytes, Total, ItemBytes, Fits;
    var at := base + Total(items[..k]);
    TotalStep(items, k);
    LayoutSplit(items, base, size, k);
    LogHead(items[k..], at, size);
    assert items[k..][0] == items[k] && items[k..][1..] == items[k + 1..];
    hide Take;
    TakeOfSum(ItemBytes(items[k], at), LogBytes(items[k + 1..], at + Length(items[k])), end - at);
    if end <= at + Length(items[k]) { TakeIs(ItemBytes(items[k], at), end - at); }
  }

  lemma {:induction false} RestLength(items: seq<Item>, k: nat, base: int, end: int)
    requires k <= |items| && base + Total(items[..k]) <= end <= base + Total(items)
    ensures |Rest(items, k, base, end)| == end - base - Total(items[..k])
  {
    hide LogBytes;
    TotalSplit(items, k);
  }

  // A complete record is dispatched and stepped over.
  lemma {:induction false} ReadRecord(c: Codec, m: Message, q: int64, at: int, rest: seq<byte>, size: int)
    requires Storable(m) && size > 0
    ensures var s := Encode(m, q, Wrap64(at)) + rest;
            ReadOn(c, s, |s|, at, size)
              == Ahead([Replayed(c, m, q, Wrap64(at))], ReadOn(c, rest, |rest|, at + RecordLength(m), size))
  {
    hide Parse, Encode, Replayed, RecordLength, Storable, RollNextFile, Wrap64;
    ParseOfEncode(c, m, q, Wrap64(at), rest, false, false);
    ReplayedSize(c, m, q, Wrap64(at));
    var s := Encode(m, q, Wrap64(at)) + rest;
    assert s[RecordLength(m)..] == rest;
  }

  // Anything cut short stops the run where it is.
  lemma {:induction false} ReadCut(c: Codec, i: Item, at: int, taken: nat, size: int)
    requires size > 0 && 0 < taken && (i.Record? ==> Storable(i.m) && taken < Length(i)) && (i.Filler? ==> taken < END_FILE_MIN_BLANK)
    ensures var s := ItemBytes(i, at)[..taken];
            ReadOn(c, s, |s|, at, size) == Progress([], at, false)
  {
    hide Parse, Encode, Blank, RecordLength, Storable, RollNextFile, Wrap64;
    var s := ItemBytes(i, at)[..taken];
    match i
    case Record(m, q) => ParseOfCut(c, m, q, Wrap64(at), taken, false, false);
    case Filler(_) => ShortIsDirty(c, s);
  }

  lemma {:induction false} ShortIsDirty(c: Codec, s: seq<byte>)
    requires |s| < 8
    ensures var r := Parse(c, s, false, false); r.Parsed? && r.request.msgSize == -1
  {
    hide R32, ParseTail;
    CutMagic(s, MESSAGE_MAGIC);
    CutMagic(s, BLANK_MAGIC);
  }

  // The start of a blank record rolls to the next file.
  lemma {:induction false} ReadBlank(c: Codec, length: BlankLength, at: int, taken: nat, size: int)
    requires size > 0 && 0 <= at && length == size - InFile(at, size) && 8 <= taken <= length
    ensures var s := Blank(length)[..taken];
            ReadOn(c, s, |s|, at, size) == Progress([], at + length, true)
  {
    hide Parse, Blank;
    var s := Blank(length)[..taken];
    assert s[..8] == Blank(length)[..8];
    ParseOfBlank(c, length, s, false, false);
    assert RollNextFile(at, size) == at + length by { DivBounds(at, size); }
  }

  // Item k starts in a file whose data has arrived up to `end`: to the end of the file or, in
  // the last file, to the end of what has arrived at all.
  ghost predicate Standing(items: seq<Item>, k: nat, base: int, size: int, end: int, n: nat) {
    && size > 0 && k <= |items| && Layout(items, base, size) && base >= 0 && n <= Total(items)
    && var at := base + Total(items[..k]);
       && at <= end <= base + n && end <= at + size - InFile(at, size)
       && (end < base + n ==> InFile(end, size) == 0)
  }

  ghost predicate AllVisible(items: seq<Item>, k: nat, j: nat, n: nat) {
    k <= j <= |items| && forall i :: k <= i < j ==> Visible(items, i, n)
  }

  // The records of the items k to j have been dispatched and item j comes next; the run goes
  // on only if there is nothing left in this file, and stops only at an item still missing.
  ghost predicate ReadTo(c: Codec, items: seq<Item>, k: nat, j: nat, base: int, end: int, n: nat, r: Progress) {
    && AllVisible(items, k, j, n)
    && r == Progress(Replays(c, items[k..j], base + Total(items[..k])), base + Total(items[..j]), r.Progress? && r.doNext)
    && (if r.doNext then base + Total(items[..j]) >= end && (j > k || base + Total(items[..k]) == end)
        else j < |items| && !Visible(items, j, n))
  }

  // What has not arrived completely is not visible, and nothing else.
  lemma {:induction false} MissingEnd(items: seq<Item>, k: nat, base: int, size: int, end: int, n: nat)
    requires Standing(items, k, base, size, end, n) && k < |items| && base + Total(items[..k]) < end
    ensures var at := base + Total(items[..k]);
            && Fits(items[k], at, size) && Total(items[..k + 1]) == Total(items[..k]) + Length(items[k])
            && (items[k].Record? ==> (Visible(items, k, n) <==> at + Length(items[k]) <= end))
            && (items[k].Filler? ==> (Visible(items, k, n) <==> at + END_FILE_MIN_BLANK <= end))
            && (items[k].Record? ==> InFile(at + Length(items[k]), size) == InFile(at, size) + Length(items[k]))
  {
    hide Layout, LogBytes, Total, ItemBytes, InFile;
    var at := base + Total(items[..k]);
    ItemAt(items, base, size, k);
    TotalStep(items, k);
    RoomBehind(items[k], at, size);
    if items[k].Record? { InFileAdd(at, Length(items[k]), size); }
    if end < base + n { ItemInFile(items[k], at, size, end); }
  }

  lemma {:induction false} ReplaysHead(c: Codec, items: seq<Item>, k: nat, j: nat, at: int)
    requires k < j <= |items|
    ensures Replays(c, items[k..j], at) == ReplayOf(c, items[k], at) + Replays(c, items[k + 1..j], at + Length(items[k]))
  {
    hide ReplayOf, Length;
    assert items[k..j][0] == items[k] && items[k..j][1..] == items[k + 1..j];
  }

  lemma {:induction false} ReadFile(c: Codec, items: seq<Item>, k: nat, base: int, size: int, end: int, n: nat) returns (j: nat)
    requires Standing(items, k, base, size, end, n)
    ensures var s := Rest(items, k, base, end);
            ReadTo(c, items, k, j, base, end, n, ReadOn(c, s, |s|, base + Total(items[..k]), size))
    decreases |items| - k
  {
    hide Layout, LogBytes, Total, InFile, ReadOn, Rest, Replays, ReplayOf, Fits, ItemBytes, Visible, Length;
    var at := base + Total(items[..k]);
    RestLength(items, k, base, end);
    j := k;
    if at == end {
      NothingLeft(c, Rest(items, k, base, end), at, size);
      assert items[k..k] == [];
      NoReplays(c, at);
    } else {
      assert items[..|items|] == items;
      MissingEnd(items, k, base, size, end, n);
      if !Visible(items, k, n) {
        StopHere(c, items, k, base, size, end, n);
      } else if items[k].Filler? {
        j := k + 1;
        RollOver(c, items, k, base, size, end, n);
      } else {
        j := ReadFile(c, items, k + 1, base, size, end, n);
        StepOver(c, items, k, j, base, size, end, n);
      }
    }
  }

  lemma {:induction false} StopHere(c: Codec, items: seq<Item>, k: nat, base: int, size: int, end: int, n: nat)
    requires Standing(items, k, base, size, end, n) && k < |items| && base + Total(items[..k]) < end && !Visible(items, k, n)
    ensures var s := Rest(items, k, base, end);
            ReadTo(c, items, k, k, base, end, n, ReadOn(c, s, |s|, base + Total(items[..k]), size))
  {
    hide Layout, LogBytes, Total, InFile, ReadOn, Rest, Replays, ItemBytes, Visible, RecordLength;
    var at := base + Total(items[..k]);
    MissingEnd(items, k, base, size, end, n);
    RestSplit(items, k, base, size, end);
    ReadCut(c, items[k], at, end - at, size);
    assert items[k..k] == [];
    NoReplays(c, at);
  }

  lemma {:induction false} RollOver(c: Codec, items: seq<Item>, k: nat, base: int, size: int, end: int, n: nat)
    requires Standing(items, k, base, size, end, n) && k < |items| && base + Total(items[..k]) < end
    requires items[k].Filler? && Visible(items, k, n)
    ensures var s := Rest(items, k, base, end);
            ReadTo(c, items, k, k + 1, base, end, n, ReadOn(c, s, |s|, base + Total(items[..k]), size))
  {
    hide Layout, LogBytes, Total, InFile, ReadOn, Rest, Visible, Replays, Blank;
    var at := base + Total(items[..k]);
    MissingEnd(items, k, base, size, end, n);
    RestSplit(items, k, base, size, end);
    ReadBlank(c, items[k].length, at, end - at, size);
    ReplaysHead(c, items, k, k + 1, at);
    assert items[k + 1..k + 1] == [];
    NoReplays(c, at + Length(items[k]));
  }

  lemma {:induction false} StepOver(c: Codec, items: seq<Item>, k: nat, j: nat, base: int, size: int, end: int, n: nat)
    requires Standing(items, k, base, size, end, n) && k < |items| && base + Total(items[..k]) < end
    requires items[k].Record? && Visible(items, k, n)
    requires Total(items[..k + 1]) == Total(items[..k]) + Length(items[k])
    requires var s := Rest(items, k + 1, base, end);
             ReadTo(c, items, k + 1, j, base, end, n, ReadOn(c, s, |s|, base + Total(items[..k + 1]), size))
    ensures var s := Rest(items, k, base, end);
            ReadTo(c, items, k, j, base, end, n, ReadOn(c, s, |s|, base + Total(items[..k]), size))
  {
    hide Layout, LogBytes, Total, InFile, ReadOn, Rest, Visible, Replays, Encode, RecordLength, Storable, Replayed;
    var at := base + Total(items[..k]);
    MissingEnd(items, k, base, size, end, n);
    RestSplit(items, k, base, size, end);
    ReadRecord(c, items[k].m, items[k].queueOffset, at, Rest(items, k + 1, base, end), size);
    ReplaysHead(c, items, k, j, at);
  }

  lemma {:induction false} NothingLeft(c: Codec, s: seq<byte>, at: int, size: int)
    requires size > 0 && s == []
    ensures ReadOn(c, s, |s|, at, size) == Progress([], at, true)
  {
  }

  // ---------------------------------------------------------------- the outer loop

  lemma {:induction false} ReadOnForward(c: Codec, s: seq<byte>, left: int, from: int, size: int)
    requires size > 0 && from >= 0
    ensures var r := ReadOn(c, s, left, from, size); r.Progress? ==> r.from >= from && (left > 0 && r.doNext ==> r.from > from)
    decreases |s|
  {
    hide Parse;
    if left > 0 {
      var p := Parse(c, s, false, false);
      if p.Parsed? {
        if p.request.msgSize > 0 {
          ReadOnForward(c, s[p.consumed..], left - p.request.msgSize, from + p.request.msgSize, size);
        } else if p.request.msgSize < -1 {
          ReadOnForward(c, s[p.consumed..], left, from, size);
        }
        DivBounds(from, size);
      }
    }
  }

  // Data is found at an offset exactly as long as some has been written there; the one
  // exception is offset 0, which stands for the first file whatever its offset.
  lemma {:induction false} DataAt(fs: seq<File>, size: int, offset: int) returns (i: nat)
    requires Chain(fs, size) && fs != [] && (forall i :: 0 <= i < |fs| ==> fs[i].available)
    requires fs[0].from <= offset < MaxOffset(fs)
    ensures i < |fs| && fs[i].from <= offset < fs[i].from + fs[i].wrote == fs[i].from + |Window(fs[i])|
    ensures GetData(fs, size, offset) == Some(Data(offset, Window(fs[i])[offset - fs[i].from..]))
  {
    hide Flat, Rem, Aligned;
    var n := |fs| - 1;
    assert Sound(fs[n], size);
    i := Cover(fs, size, offset);
    assert Sound(fs[i], size);
    if i < n {
      assert Link(fs, i + 1, size);
      ChainOrder(fs, size, i, n);
    }
    hide Chain, Lookup;
  }

  lemma {:induction false} NoDataAt(fs: seq<File>, size: int, offset: int)
    requires Chain(fs, size) && fs != [] && fs[0].from <= offset && offset >= MaxOffset(fs)
    ensures GetData(fs, size, offset) == None
  {
    hide Flat, Rem, Aligned;
    var n := |fs| - 1;
    assert Sound(fs[n], size) && Sound(fs[0], size);
    if n > 0 { ChainOrder(fs, size, 0, n); }
    if offset < fs[n].from + size {
      var i := Cover(fs, size, offset);
      if i < n { ChainOrder(fs, size, i, n); }
    } else {
      LookupMisses(fs, size, offset);
    }
  }

  lemma {:induction false} DataForward(fs: seq<File>, size: int, offset: int)
    requires Chain(fs, size) && offset >= 0
    ensures GetData(fs, size, offset).Some? ==>
      && offset <= GetData(fs, size, offset).value.start < MaxOffset(fs)
      && GetData(fs, size, offset).value.bytes != []
  {
    hide Flat;
    var l := Lookup(fs, size, offset, offset == 0);
    if l.Some? {
      var i := l.value;
      assert Sound(fs[i], size);
      if i < |fs| - 1 {
        ChainOrder(fs, size, i, |fs| - 1);
        assert Sound(fs[|fs| - 1], size);
      }
      StartIsForward(fs, size, offset, i);
    }
  }

  lemma {:induction false} StartIsForward(fs: seq<File>, size: int, offset: int, i: nat)
    requires Chain(fs, size) && offset >= 0 && Lookup(fs, size, offset, offset == 0) == Some(i) && i < |fs|
    ensures fs[i].from + Rem(offset, size) >= offset
  {
    hide Flat;
    assert Sound(fs[i], size);
    if Lookup(fs, size, offset, false) == Some(i) {
      LookupCovers(fs, size, offset, i);
      RemInFile(fs[i].from, size, offset);
    }
  }

  lemma {:induction false} RoundForward(c: Codec, fs: seq<File>, size: int, from: int)
    requires Chain(fs, size) && from >= 0 && GetData(fs, size, from).Some?
    ensures var d := GetData(fs, size, from).value;
            var r := ReadOn(c, d.bytes, |d.bytes|, d.start, size);
            from < MaxOffset(fs) && (r.Progress? && r.doNext ==> r.from > from)
  {
    hide GetData, ReadOn;
    DataForward(fs, size, from);
    var d := GetData(fs, size, from).value;
    ReadOnForward(c, d.bytes, |d.bytes|, d.start, size);
  }

  // doReput
  ghost function DoReput(c: Codec, fs: seq<File>, size: int, from: int): Progress
    requires Chain(fs, size) && from >= 0
    decreases Max(0, MaxOffset(fs) - from)
  {
    hide GetData, ReadOn;
    match GetData(fs, size, from)
    case None => Progress([], from, false)
    case Some(d) =>
      RoundForward(c, fs, size, from);
      var r := ReadOn(c, d.bytes, |d.bytes|, d.start, size);
      if r.Progress? && r.doNext then Ahead(r.requests, DoReput(c, fs, size, r.from)) else r
  }

  lemma {:induction false} DataIsRest(fs: seq<File>, size: int, items: seq<Item>, n: nat, k: nat, i: nat)
    requires Arrived(fs, size, items, n) && k <= |items| && i < |fs|
    requires fs[i].from <= fs[0].from + Total(items[..k]) < fs[i].from + fs[i].wrote
    ensures var base := fs[0].from;
            var at, end := base + Total(items[..k]), fs[i].from + fs[i].wrote;
            Window(fs[i])[at - fs[i].from..] == Rest(items, k, base, end) && Standing(items, k, base, size, end, n)
  {
    hide LogBytes, Layout, Total, Window, Rest, Standing, Chain, Flat;
    DataBytes(fs, size, items, n, k, i);
    DataStands(fs, size, items, n, k, i);
  }

  lemma {:induction false} DataStands(fs: seq<File>, size: int, items: seq<Item>, n: nat, k: nat, i: nat)
    requires Arrived(fs, size, items, n) && k <= |items| && i < |fs|
    requires fs[i].from <= fs[0].from + Total(items[..k]) < fs[i].from + fs[i].wrote
    ensures Standing(items, k, fs[0].from, size, fs[i].from + fs[i].wrote, n)
  {
    hide LogBytes, Layout, Total, Flat, InFile;
    FileEnd(fs, size, i);
    FlatLength(fs, size);
    assert |Flat(fs)| == n;
    hide Chain;
    InFileOf(fs[i].from, fs[0].from + Total(items[..k]) - fs[i].from, size);
  }

  lemma {:induction false} DataBytes(fs: seq<File>, size: int, items: seq<Item>, n: nat, k: nat, i: nat)
    requires Arrived(fs, size, items, n) && k <= |items| && i < |fs|
    requires fs[i].from <= fs[0].from + Total(items[..k]) < fs[i].from + fs[i].wrote
    ensures var at := fs[0].from + Total(items[..k]);
            at - fs[i].from <= |Window(fs[i])| && Window(fs[i])[at - fs[i].from..] == Rest(items, k, fs[0].from, fs[i].from + fs[i].wrote)
  {
    hide LogBytes, Layout, Total, Flat, Window, Written, InFile, Take;
    var base := fs[0].from;
    FlatSlice(fs, size, i);
    LogSplit(items, base, k);
    assert Sound(fs[i], size);
    WindowOf(fs[i], size);
    hide Chain, Sound;
    RestIs(Flat(fs), LogBytes(items[..k], base), LogBytes(items[k..], base + Total(items[..k])), n, fs[i].from - base, Written(fs[i]));
  }

  lemma {:induction false} WindowOf(f: File, size: int)
    requires Sound(f, size)
    ensures Window(f) == Written(f) && |Written(f)| == f.wrote
  {
  }

  lemma {:induction false} RestIs(flat: seq<byte>, before: seq<byte>, after: seq<byte>, n: nat, p: nat, w: seq<byte>)
    requires n <= |before + after| && flat == (before + after)[..n] && At(flat, p, w) && p <= |before| < p + |w|
    ensures w[|before| - p..] == Take(after, p + |w| - |before|)
  {
    var m := p + |w| - |before|;
    assert w == flat[p..p + |w|];
    assert w[|before| - p..] == flat[|before|..p + |w|];
    assert flat[|before|..p + |w|] == (before + after)[|before|..p + |w|];
    assert (before + after)[|before|..p + |w|] == after[..m];
  }

  lemma {:induction false} FileEnd(fs: seq<File>, size: int, i: nat)
    requires Chain(fs, size) && i < |fs|
    ensures Sound(fs[i], size) && fs[0].from >= 0 && fs[i].from + fs[i].wrote <= MaxOffset(fs)
    ensures fs[i].from + fs[i].wrote < MaxOffset(fs) ==> fs[i].wrote == size
    ensures InFile(fs[i].from + size, size) == 0
  {
    hide Flat;
    assert Sound(fs[i], size) && Sound(fs[0], size) && Sound(fs[|fs| - 1], size);
    InFileRoll(fs[i].from, size);
    if i < |fs| - 1 {
      ChainOrder(fs, size, i, |fs| - 1);
      assert Link(fs, i + 1, size);
    }
  }

  // One run of doReput from item k on: it ends, dispatches each complete record from there on
  // exactly once and in order, and stands at the first item that has not arrived.
  lemma {:induction false} ReputReaches(c: Codec, fs: seq<File>, size: int, items: seq<Item>, n: nat, k: nat) returns (j: nat)
    requires Arrived(fs, size, items, n) && k <= |items|
    ensures AllVisible(items, k, j, n) && (j < |items| ==> !Visible(items, j, n))
    ensures fs[0].from >= 0
    ensures DoReput(c, fs, size, fs[0].from + Total(items[..k]))
         == Progress(Replays(c, items[k..j], fs[0].from + Total(items[..k])), fs[0].from + Total(items[..j]), false)
    decreases |items| - k
  {
    hide LogBytes, Layout, Total, Flat, Window, Written, Rest, ReadOn, Replays, Visible, GetData, Length, DoReput;
    var base := fs[0].from;
    var at := base + Total(items[..k]);
    FileEnd(fs, size, 0);
    FlatLength(fs, size);
    j := k;
    if at >= MaxOffset(fs) {
      NoDataAt(fs, size, at);
      StopsWithoutData(c, fs, size, at);
      assert items[k..k] == [];
      NoReplays(c, at);
      if k < |items| { NotThere(items, k, n); }
    } else {
      var r, end;
      j, end, r := OneFile(c, fs, size, items, n, k);
      if r.doNext {
        var m := j;
        hide Arrived, Chain;
        j := ReputReaches(c, fs, size, items, n, m);
        JoinReplays(c, items, k, m, j, base);
      }
    }
  }

  lemma {:induction false} StopsWithoutData(c: Codec, fs: seq<File>, size: int, from: int)
    requires Chain(fs, size) && from >= 0 && GetData(fs, size, from) == None
    ensures DoReput(c, fs, size, from) == Progress([], from, false)
  {
  }

  lemma {:induction false} RoundOf(c: Codec, fs: seq<File>, size: int, from: int)
    requires Chain(fs, size) && from >= 0 && GetData(fs, size, from).Some?
    ensures var d := GetData(fs, size, from).value;
            var r := ReadOn(c, d.bytes, |d.bytes|, d.start, size);
            r.Progress? && r.doNext && r.from >= 0 ==> DoReput(c, fs, size, from) == Ahead(r.requests, DoReput(c, fs, size, r.from))
    ensures var d := GetData(fs, size, from).value;
            var r := ReadOn(c, d.bytes, |d.bytes|, d.start, size);
            !(r.Progress? && r.doNext) ==> DoReput(c, fs, size, from) == r
  {
    hide GetData, ReadOn;
  }

  // One round of the outer loop.
  lemma {:induction false} OneFile(c: Codec, fs: seq<File>, size: int, items: seq<Item>, n: nat, k: nat)
    returns (m: nat, end: int, r: Progress)
    requires Arrived(fs, size, items, n) && k <= |items| && fs[0].from >= 0
    requires fs[0].from + Total(items[..k]) < MaxOffset(fs)
    ensures ReadTo(c, items, k, m, fs[0].from, end, n, r) && fs[0].from + Total(items[..k]) < end && r.from >= 0
    ensures DoReput(c, fs, size, fs[0].from + Total(items[..k]))
         == if r.doNext then Ahead(r.requests, DoReput(c, fs, size, r.from)) else r
  {
    hide LogBytes, Layout, Total, Flat, Window, Written, Rest, ReadOn, Replays, Visible, GetData, Length, DoReput, Standing;
    var base := fs[0].from;
    var at := base + Total(items[..k]);
    var i := DataAt(fs, size, at);
    DataIsRest(fs, size, items, n, k, i);
    RoundOf(c, fs, size, at);
    hide Arrived, Chain;
    end := fs[i].from + fs[i].wrote;
    m := ReadFile(c, items, k, base, size, end, n);
    var s := Rest(items, k, base, end);
    r := ReadOn(c, s, |s|, at, size);
  }

  lemma {:induction false} NotThere(items: seq<Item>, k: nat, n: nat)
    requires k < |items| && Total(items[..k]) >= n
    ensures !Visible(items, k, n)
  {
  }

  lemma {:induction false} JoinReplays(c: Codec, items: seq<Item>, k: nat, m: nat, j: nat, base: int)
    requires k <= m <= j <= |items|
    ensures Replays(c, items[k..m], base + Total(items[..k])) + Replays(c, items[m..j], base + Total(items[..m]))
         == Replays(c, items[k..j], base + Total(items[..k]))
    decreases m - k
  {
    hide ReplayOf, Total, Replays, Length;
    if k == m {
      assert items[k..m] == [];
      NoReplays(c, base + Total(items[..k]));
    } else {
      TotalStep(items, k);
      JoinReplays(c, items, k + 1, m, j, base);
      ReplaysHead(c, items, k, m, base + Total(items[..k]));
      ReplaysHead(c, items, k, j, base + Total(items[..k]));
    }
  }

  // ---------------------------------------------------------------- many runs

  // A slave that keeps the same first file: after each append of replicated bytes the files
  // hold some longer prefix of the log.
  datatype Arrival = Arrival(fs: seq<File>, n: nat)

  ghost predicate Arrivals(size: int, items: seq<Item>, base: int, xs: seq<Arrival>) {
    && (forall i :: 0 <= i < |xs| ==> Arrived(xs[i].fs, size, items, xs[i].n) && xs[i].fs[0].from == base)
    && (forall i, j :: 0 <= i < j < |xs| ==> xs[i].n <= xs[j].n)
  }

  // doReput after each of them.
  ghost function Runs(c: Codec, size: int, items: seq<Item>, base: int, xs: seq<Arrival>, from: nat): Progress
    requires Arrivals(size, items, base, xs)
    decreases |xs|
  {
    if xs == [] then Progress([], from, false)
    else
      var r := Runs(c, size, items, base, xs[..|xs| - 1], from);
      if r.Progress? && r.from >= 0 then Ahead(r.requests, DoReput(c, xs[|xs| - 1].fs, size, r.from)) else r
  }

  // However the log arrived, in whatever pieces and with however many runs in between, the
  // requests dispatched are those of the complete records from item k on, each exactly once
  // and in log order; they depend only on how much has arrived in the end.
  lemma {:induction false} ChunkingIndependent(c: Codec, size: int, items: seq<Item>, base: nat, xs: seq<Arrival>,
                                               k: nat) returns (j: nat)
    requires Arrivals(size, items, base, xs) && xs != [] && k <= |items|
    ensures AllVisible(items, k, j, xs[|xs| - 1].n) && (j < |items| ==> !Visible(items, j, xs[|xs| - 1].n))
    ensures Runs(c, size, items, base, xs, base + Total(items[..k]))
         == Progress(Replays(c, items[k..j], base + Total(items[..k])), base + Total(items[..j]), false)
    decreases |xs|
  {
    hide Arrived, Total, Replays, DoReput, Visible;
    var l := |xs| - 1;
    var front, n := xs[..l], xs[l].n;
    var m := k;
    assert items[k..k] == [];
    NoReplays(c, base + Total(items[..k]));
    if l > 0 {
      m := ChunkingIndependent(c, size, items, base, front, k);
      MoreVisible(items, k, m, front[l - 1].n, n);
    }
    j := ReputReaches(c, xs[l].fs, size, items, n, m);
    JoinReplays(c, items, k, m, j, base);
  }

  lemma {:induction false} MoreVisible(items: seq<Item>, k: nat, j: nat, n: nat, n': nat)
    requires AllVisible(items, k, j, n) && n <= n'
    ensures AllVisible(items, k, j, n')
  {
    forall i | k <= i < j ensures Visible(items, i, n') {
      assert Visible(items, i, n);
    }
  }

  // The item a run stops at is determined by what has arrived.
  lemma {:induction false} StopIsUnique(items: seq<Item>, k: nat, i: nat, j: nat, n: nat)
    requires AllVisible(items, k, i, n) && (i < |items| ==> !Visible(items, i, n))
    requires AllVisible(items, k, j, n) && (j < |items| ==> !Visible(items, j, n))
    ensures i == j
  {
    hide Visible;
  }

  // A fresh service starts at 0, which finds the first file wherever the slave's log begins.
  lemma {:induction false} ReputFromZero(c: Codec, fs: seq<File>, size: int)
    requires Chain(fs, size) && fs != [] && fs[0].from >= 0 && fs[0].wrote > 0 && fs[0].available
    ensures DoReput(c, fs, size, 0) == DoReput(c, fs, size, fs[0].from)
  {
    hide ReadOn, Flat, Window;
    assert Sound(fs[0], size);
    RemInFile(fs[0].from, size, fs[0].from);
    LookupCovers(fs, size, fs[0].from, 0);
    if fs[0].from > 0 {
      DivBounds(fs[0].from, size);
      assert Quo(0, size) == 0 && fs[0].from / size > 0;
    }
    assert GetData(fs, size, 0) == GetData(fs, size, fs[0].from);
  }
}
