// What the recovery loops of CommitLog find in the files: the scan itself, and its meaning
// for files that hold a log.

module Recovery {
  import opened Arithmetic
  import opened Bytes
  import opened Log
  import opened LogFiles
  import opened Records
  import opened Segments

  // The dispatch requests found and the offset at which the scan stopped.
  datatype Scan = Scan(requests: seq<DispatchRequest>, offset: int) | ScanPanic

  function Prepend(rs: seq<DispatchRequest>, s: Scan): Scan {
    match s case Scan(qs, o) => Scan(rs + qs, o) case ScanPanic => ScanPanic
  }

  // The loop shared by recoverNormally and recoverAbnormally: `cur` is the file being read,
  // `index` the number the code keeps for it, rp the read position and off mapedFileOffset.
  function ScanFiles(c: Codec, fs: seq<File>, cur: nat, index: int, rp: nat, off: int, crc: bool, body: bool): Scan
    requires cur < |fs| && -1 <= index < |fs| && rp <= |Window(fs[cur])|
    decreases |fs| - index, |Window(fs[cur])| - rp
  {
    var s := Window(fs[cur])[rp..];
    match Parse(c, s, crc, body)
    case Panic => ScanPanic
    case Parsed(request, consumed) =>
      if request.msgSize > 0 then
        Prepend([request], ScanFiles(c, fs, cur, index, rp + consumed, off + request.msgSize, crc, body))
      else if request.msgSize == -1 then Scan([], fs[cur].from + off)
      else if request.msgSize == 0 then
        if index + 1 >= |fs| then Scan([], fs[cur].from + off)
        else ScanFiles(c, fs, index + 1, index + 1, 0, 0, crc, body)
      else ScanFiles(c, fs, cur, index, rp + consumed, off, crc, body)
  }

  // The requests a replay of the items yields, in log order.
  function Replays(c: Codec, items: seq<Item>, base: int): seq<DispatchRequest> {
    if items == [] then []
    else
      ReplayOf(c, items[0], base) + Replays(c, items[1..], base + Length(items[0]))
  }

  function ReplayOf(c: Codec, i: Item, at: int): seq<DispatchRequest> {
    if i.Record? && Storable(i.m) then [Replayed(c, i.m, i.queueOffset, Wrap64(at))] else []
  }

  // Every stored body passes its CRC, as putMessage computes it.
  ghost predicate Checksummed(c: Codec, items: seq<Item>) {
    forall i :: 0 <= i < |items| && items[i].Record? ==> items[i].m.bodyCRC == c.crc(items[i].m.body)
  }

  // Every file counts as written to its end, as after load, and the files begin with the log.
  ghost predicate Loaded(fs: seq<File>, size: int, items: seq<Item>) {
    && Chain(fs, size) && fs != [] && (forall i :: 0 <= i < |fs| ==> fs[i].wrote == size)
    && Layout(items, fs[0].from, size)
    && Total(items) <= |Flat(fs)| && Flat(fs)[..Total(items)] == LogBytes(items, fs[0].from)
  }

  // Offset `at` lies in file cur, where item k of the log starts.
  ghost predicate AtItem(fs: seq<File>, size: int, items: seq<Item>, k: nat, cur: nat)
    requires Loaded(fs, size, items)
  {
    && k <= |items| && cur < |fs|
    && fs[cur].from <= fs[0].from + Total(items[..k]) < fs[cur].from + size
  }

  lemma {:induction false} LoadedWindow(fs: seq<File>, size: int, items: seq<Item>, cur: nat)
    requires Loaded(fs, size, items) && cur < |fs|
    ensures Window(fs[cur]) == fs[cur].data && |fs[cur].data| == size && Aligned(fs[cur].from, size)
    ensures fs[0].from <= fs[cur].from && At(Flat(fs), fs[cur].from - fs[0].from, fs[cur].data)
  {
    assert Sound(fs[cur], size);
    FlatSlice(fs, size, cur);
  }

  // The file shows item k at its place, followed by the rest of the file.
  lemma {:induction false} ItemInWindow(fs: seq<File>, size: int, items: seq<Item>, k: nat, cur: nat)
    requires Loaded(fs, size, items) && k < |items| && AtItem(fs, size, items, k, cur)
    ensures var at := fs[0].from + Total(items[..k]);
            var rp := at - fs[cur].from;
            && Fits(items[k], at, size) && InFile(at, size) == rp && rp + Length(items[k]) <= size
            && |Window(fs[cur])| == |fs[cur].data| == size
            && Window(fs[cur])[rp..] == ItemBytes(items[k], at) + fs[cur].data[rp + Length(items[k])..]
  {
    hide Layout, LogBytes, Total, Flat, InFile, Fits, ItemBytes, Window;
    var base := fs[0].from;
    var at := base + Total(items[..k]);
    var rp, bytes := at - fs[cur].from, ItemBytes(items[k], at);
    LoadedWindow(fs, size, items, cur);
    InFileOf(fs[cur].from, rp, size);
    ItemAt(items, base, size, k);
    FitsInFile(items[k], at, size);
    AtPrefix(Flat(fs), LogBytes(items, base), at - base, bytes);
    hide Loaded, AtItem;
    AtInner(Flat(fs), fs[cur].from - base, fs[cur].data, rp, bytes);
    assert fs[cur].data[rp..] == fs[cur].data[rp..rp + |bytes|] + fs[cur].data[rp + |bytes|..];
  }

  lemma {:induction false} FitsInFile(i: Item, at: int, size: int)
    requires Fits(i, at, size)
    ensures InFile(at, size) + Length(i) <= size
  {
  }

  lemma {:induction false} InFileOf(from: int, rp: int, size: int)
    requires size > 0 && Aligned(from, size) && 0 <= rp < size
    ensures InFile(from + rp, size) == rp
  {
    InFileAdd(from, rp, size);
  }

  lemma {:induction false} ReplayedSize(c: Codec, m: Message, q: int64, at: int64)
    requires Storable(m)
    ensures Replayed(c, m, q, at).msgSize == RecordLength(m) >= FIXED_PART
  {
  }

  // Reading one item: a record is reported and stepped over, a filler ends its file.
  lemma {:induction false} ScanItem(c: Codec, fs: seq<File>, size: int, items: seq<Item>, k: nat, cur: nat, index: int, crc: bool,
                                    body: bool)
    requires Loaded(fs, size, items) && k < |items| && AtItem(fs, size, items, k, cur)
    requires Checksummed(c, items) && -1 <= index < |fs|
    ensures var at := fs[0].from + Total(items[..k]);
            var rp := at - fs[cur].from;
            && rp <= |Window(fs[cur])|
            && match items[k]
               case Record(m, q) =>
                 && rp + RecordLength(m) + END_FILE_MIN_BLANK <= size == |Window(fs[cur])|
                 && ScanFiles(c, fs, cur, index, rp, rp, crc, body)
                    == Prepend(ReplayOf(c, items[k], at),
                               ScanFiles(c, fs, cur, index, rp + RecordLength(m), rp + RecordLength(m), crc, body))
               case Filler(length) =>
                 && rp + length == size
                 && ScanFiles(c, fs, cur, index, rp, rp, crc, body)
                    == (if index + 1 >= |fs| then Scan([], at)
                        else ScanFiles(c, fs, index + 1, index + 1, 0, 0, crc, body))
  {
    hide Layout, LogBytes, Total, Flat, Chain, InFile, Window, Parse, Encode, Blank, RecordLength, Replayed;
    var at := fs[0].from + Total(items[..k]);
    var rp := at - fs[cur].from;
    ItemInWindow(fs, size, items, k, cur);
    var rest := fs[cur].data[rp + Length(items[k])..];
    match items[k]
    case Record(m, q) =>
      assert m.bodyCRC == c.crc(m.body);
      ReplayedSize(c, m, q, Wrap64(at));
      ParseOfEncode(c, m, q, Wrap64(at), rest, crc, body);
    case Filler(length) =>
      assert (Blank(length) + rest)[..8] == Blank(length)[..8];
      ParseOfBlank(c, length, Blank(length) + rest, crc, body);
  }

  lemma {:induction false} SameFile(fs: seq<File>, size: int, at: int, i: nat, j: nat)
    requires Chain(fs, size) && i < |fs| && j < |fs|
    requires fs[i].from <= at < fs[i].from + size && fs[j].from <= at < fs[j].from + size
    ensures i == j
  {
    if i < j { ChainOrder(fs, size, i, j); }
    if j < i { ChainOrder(fs, size, j, i); }
  }

  // Where the scan stands after item k.
  lemma {:induction false} NextItem(fs: seq<File>, size: int, items: seq<Item>, k: nat, cur: nat, last: nat)
    requires Loaded(fs, size, items) && k < |items| && AtItem(fs, size, items, k, cur)
    requires AtItem(fs, size, items, |items|, last)
    ensures Total(items[..k + 1]) == Total(items[..k]) + Length(items[k])
    ensures items[k].Record? ==> AtItem(fs, size, items, k + 1, cur)
    ensures items[k].Filler? ==>
      cur + 1 < |fs| && fs[cur + 1].from == fs[0].from + Total(items[..k + 1]) && AtItem(fs, size, items, k + 1, cur + 1)
  {
    hide Layout, LogBytes, Total, Flat, InFile, Window, Fits, ItemBytes;
    TotalStep(items, k);
    TotalMonotone(items, k + 1, |items|);
    ItemInWindow(fs, size, items, k, cur);
    var at := fs[0].from + Total(items[..k]);
    RoomBehind(items[k], at, size);
    if items[k].Filler? { FollowingFile(fs, size, fs[0].from + Total(items[..|items|]), cur, last); }
    hide Chain;
  }

  lemma {:induction false} RoomBehind(i: Item, at: int, size: int)
    requires Fits(i, at, size)
    ensures i.Record? ==> InFile(at, size) + Length(i) < size
    ensures i.Filler? ==> InFile(at, size) + Length(i) == size
  {
  }

  // If some offset past file cur is still inside file `last`, there is a file after cur.
  lemma {:induction false} FollowingFile(fs: seq<File>, size: int, end: int, cur: nat, last: nat)
    requires Chain(fs, size) && cur < |fs| && last < |fs| && fs[cur].from + size <= end < fs[last].from + size
    ensures cur + 1 < |fs| && fs[cur + 1].from == fs[cur].from + size
  {
    if last < cur { ChainOrder(fs, size, last, cur); }
    assert Link(fs, cur + 1, size);
  }

  // From item k on, the scan reports every remaining record once and in order, and then goes
  // on with whatever bytes stand behind the log in file `last`.
  lemma {:induction false} ScanLog(c: Codec, fs: seq<File>, size: int, items: seq<Item>, k: nat, cur: nat, last: nat,
                                   crc: bool, body: bool)
    requires Loaded(fs, size, items) && Checksummed(c, items)
    requires AtItem(fs, size, items, k, cur) && AtItem(fs, size, items, |items|, last)
    ensures var at := fs[0].from + Total(items[..k]);
            var end := fs[0].from + Total(items);
            && |Window(fs[cur])| == |Window(fs[last])| == size && items[..|items|] == items
            && ScanFiles(c, fs, cur, cur, at - fs[cur].from, at - fs[cur].from, crc, body)
               == Prepend(Replays(c, items[k..], at),
                          ScanFiles(c, fs, last, last, end - fs[last].from, end - fs[last].from, crc, body))
    decreases |items| - k
  {
    hide Layout, LogBytes, Total, Flat, InFile, Window, ScanFiles, ReplayOf;
    var at := fs[0].from + Total(items[..k]);
    LoadedWindow(fs, size, items, cur);
    LoadedWindow(fs, size, items, last);
    assert items[..|items|] == items;
    if k == |items| {
      SameFile(fs, size, at, cur, last);
      assert items[k..] == [];
    } else {
      ScanItem(c, fs, size, items, k, cur, cur, crc, body);
      NextItem(fs, size, items, k, cur, last);
      hide Loaded, AtItem, Chain;
      ScanLog(c, fs, size, items, k + 1, if items[k].Record? then cur else cur + 1, last, crc, body);
      assert items[k..][0] == items[k] && items[k..][1..] == items[k + 1..];
      var rest := Replays(c, items[k + 1..], at + Length(items[k]));
      var end := fs[0].from + Total(items);
      PrependTwice(ReplayOf(c, items[k], at), rest, ScanFiles(c, fs, last, last, end - fs[last].from, end - fs[last].from, crc, body));
      if items[k].Filler? {
        FillerReplaysNothing(c, items[k], at);
        assert [] + rest == rest;
      }
    }
  }

  lemma {:induction false} FillerReplaysNothing(c: Codec, i: Item, at: int)
    requires i.Filler?
    ensures ReplayOf(c, i, at) == []
  {
  }

  lemma {:induction false} PrependNothing(s: Scan)
    ensures Prepend([], s) == s
  {
  }

  lemma {:induction false} PrependTwice(rs: seq<DispatchRequest>, qs: seq<DispatchRequest>, s: Scan)
    ensures Prepend(rs, Prepend(qs, s)) == Prepend(rs + qs, s)
  {
    if s.Scan? { assert rs + (qs + s.requests) == (rs + qs) + s.requests; }
  }

  // A scan never stops before the offset it has reached.
  lemma {:induction false} ScanForward(c: Codec, fs: seq<File>, cur: nat, index: int, rp: nat, off: nat, crc: bool, body: bool)
    requires cur < |fs| && -1 <= index < |fs| && rp <= |Window(fs[cur])|
    requires forall i :: 0 <= i < |fs| ==> fs[i].from >= 0
    ensures var r := ScanFiles(c, fs, cur, index, rp, off, crc, body); r.Scan? ==> r.offset >= 0
    decreases |fs| - index, |Window(fs[cur])| - rp
  {
    hide Parse, Window;
    var r := Parse(c, Window(fs[cur])[rp..], crc, body);
    if r.Parsed? {
      if r.request.msgSize > 0 {
        ScanForward(c, fs, cur, index, rp + r.consumed, off + r.request.msgSize, crc, body);
      } else if r.request.msgSize == 0 && index + 1 < |fs| {
        ScanForward(c, fs, index + 1, index + 1, 0, 0, crc, body);
      } else if r.request.msgSize < -1 {
        ScanForward(c, fs, cur, index, rp + r.consumed, off, crc, body);
      }
    }
  }

  // ---------------------------------------------------------------- recoverNormally

  // The bytes behind the log are no record: the parser answers -1.
  ghost predicate Dirty(c: Codec, s: seq<byte>, crc: bool, body: bool) {
    var r := Parse(c, s, crc, body); r.Parsed? && r.request.msgSize == -1
  }

  // The CRC check finds the body damaged.
  ghost predicate BadBody(c: Codec, s: seq<byte>, crc: bool, body: bool) {
    crc && body && R32(s, 84) > 0 && c.crc(Padded(From(s, 88), R32(s, 84))) != R32(s, 8)
  }

  // Which bytes are dirty: another magic code; a record longer than the data, with a damaged
  // body, or with the length -1 (unless skipping its body panics).
  lemma {:induction false} DirtyExact(c: Codec, s: seq<byte>, crc: bool, body: bool)
    ensures Dirty(c, s, crc, body)
       <==> || (R32(s, 4) != MESSAGE_MAGIC && R32(s, 4) != BLANK_MAGIC)
            || (&& R32(s, 4) == MESSAGE_MAGIC
                && (|| R32(s, 0) > |s| || BadBody(c, s, crc, body)
                    || (R32(s, 0) == -1 && (body || R32(s, 84) <= 0 || Min(88, |s|) + R32(s, 84) <= |s|))))
  {
    hide R32, R64;
  }

  // A record of which the first k bytes reached the disk, in a file of zeros: it ends the log
  // if and only if its magic code is cut, or the CRC check is on and finds the body damaged.
  lemma {:induction false} TornExact(c: Codec, m: Message, q: int64, at: int64, k: nat, z: nat, crc: bool, body: bool)
    requires Storable(m) && k < RecordLength(m) <= k + z
    ensures var s := Encode(m, q, at)[..k] + Zeros(z);
            && (Dirty(c, s, crc, body) <==> k < 8 || BadBody(c, s, crc, body))
            && (k >= 88 ==> R32(s, 84) == |m.body| && R32(s, 8) == m.bodyCRC)
  {
    hide R32, Encode, BadBody, Dirty;
    var s := Encode(m, q, at)[..k] + Zeros(z);
    DirtyExact(c, s, crc, body);
    if k < 8 { TornMagic(Encode(m, q, at), k, z); } else { TornHead(m, q, at, k, z); }
  }

  lemma {:induction false} TornMagic(e: seq<byte>, k: nat, z: nat)
    requires k < 8 && k <= |e| && k + z >= 8
    ensures var s := e[..k] + Zeros(z); R32(s, 4) != MESSAGE_MAGIC && R32(s, 4) != BLANK_MAGIC
  {
    hide AsI32;
    var s := e[..k] + Zeros(z);
    assert Padded(From(s, 4), 4)[3] == s[7] == 0;
    NoMagic(Padded(From(s, 4), 4), MESSAGE_MAGIC);
    NoMagic(Padded(From(s, 4), 4), BLANK_MAGIC);
  }

  lemma {:induction false} TornHead(m: Message, q: int64, at: int64, k: nat, z: nat)
    requires Storable(m) && 8 <= k < RecordLength(m)
    ensures var s := Encode(m, q, at)[..k] + Zeros(z);
            && R32(s, 4) == MESSAGE_MAGIC && R32(s, 0) == RecordLength(m)
            && (k >= 88 ==> R32(s, 84) == |m.body| && R32(s, 8) == m.bodyCRC)
  {
    hide AsI32, I32, Head, Tail, HeadRead;
    var e := Encode(m, q, at);
    var s := e[..k] + Zeros(z);
    CutHead(e, k, m, q, at);
    SameWord(e[..k], s, 4);
    SameWord(e[..k], s, 0);
    if k >= 88 {
      assert At(e, 0, e);
      AtSplit(e, 0, Head(m, q, at), Tail(m));
      HeadFields(e, m, q, at);
      BodyFields(e, m);
      CrcRead(e, m, q, at);
      SameWord(e[..k], e, 84);
      SameWord(e[..k], s, 84);
      SameWord(e[..k], e, 8);
      SameWord(e[..k], s, 8);
    }
  }

  lemma {:induction false} CrcRead(e: seq<byte>, m: Message, q: int64, at: int64)
    requires HeadRead(e, m, q, at)
    ensures R32(e, 8) == m.bodyCRC
  {
  }

  lemma {:induction false} SameWord(a: seq<byte>, b: seq<byte>, p: nat)
    requires p + 4 <= |a| <= |b| && b[..|a|] == a
    ensures R32(a, p) == R32(b, p)
  {
    hide AsI32;
    assert From(a, p)[..4] == a[p..p + 4] == b[..|a|][p..p + 4] == b[p..p + 4] == From(b, p)[..4];
  }

  // The CRC covers the body alone: a record that lost its topic or its properties is taken for
  // a whole one even if the CRC is checked, and so without the check is every record that has
  // kept its magic code.
  lemma {:induction false} TornAccepted(c: Codec, m: Message, q: int64, at: int64, k: nat, z: nat, crc: bool)
    requires Storable(m) && 8 <= k < RecordLength(m) <= k + z && m.bodyCRC == c.crc(m.body)
    requires !crc || k >= 88 + |m.body|
    ensures !Dirty(c, Encode(m, q, at)[..k] + Zeros(z), crc, true)
  {
    hide R32, Encode, Dirty, Padded, From;
    TornExact(c, m, q, at, k, z, crc, true);
    if crc { WholeBody(m, q, at, k, z); }
  }

  lemma {:induction false} WholeBody(m: Message, q: int64, at: int64, k: nat, z: nat)
    requires Storable(m) && 88 + |m.body| <= k <= RecordLength(m)
    ensures Padded(From(Encode(m, q, at)[..k] + Zeros(z), 88), |m.body|) == m.body
  {
    hide I32, Head, TopicAndProperties, R32;
    var e := Encode(m, q, at);
    assert At(e, 0, e);
    AtSplit(e, 0, Head(m, q, at), Tail(m));
    BodyFields(e, m);
    var s := e[..k] + Zeros(z);
    assert s[88..88 + |m.body|] == e[88..88 + |m.body|];
    ReadAt(s, 88, m.body);
  }

  // The log the recovered files hold.  A log that ends exactly with the last file loses the
  // blank record there, and nothing else.
  ghost function Kept(fs: seq<File>, size: int, items: seq<Item>): seq<Item>
    requires fs != []
  {
    if items != [] && fs[0].from + Total(items) == fs[|fs| - 1].from + size then items[..|items| - 1] else items
  }

  // The file in which the log ends.
  ghost function EndFile(fs: seq<File>, size: int, items: seq<Item>): (e: nat)
    requires fs != [] && size > 0
    ensures e < |fs|
  {
    var e := Total(items) / size; if e < |fs| then e else |fs| - 1
  }

  lemma {:induction false} EndFileCovers(fs: seq<File>, size: int, items: seq<Item>)
    requires Loaded(fs, size, items)
    ensures var e, end := EndFile(fs, size, items), fs[0].from + Total(items);
            && fs[e].from <= end && (end < fs[|fs| - 1].from + size ==> end < fs[e].from + size)
            && (end >= fs[|fs| - 1].from + size ==> e == |fs| - 1)
  {
    hide Layout, LogBytes, Flat, InFile, Total;
    var t, e, n := Total(items), EndFile(fs, size, items), |fs| - 1;
    ChainFrom(fs, size, e);
    ChainFrom(fs, size, n);
    hide Chain;
    DivBounds(t, size);
    var q := t / size;
    MulOrder(n, q, size);
    MulOrder(q + 1, n + 1, size);
    MulOrder(q + 1, n, size);
    assert (n + 1) * size == n * size + size && (q + 1) * size == q * size + size;
  }

  // A file other than the end file does not cover the end.
  lemma {:induction false} EndFileIs(fs: seq<File>, size: int, items: seq<Item>, p: nat)
    requires Loaded(fs, size, items) && p < |fs|
    requires fs[p].from <= fs[0].from + Total(items) < fs[p].from + size
    ensures p == EndFile(fs, size, items) && fs[0].from + Total(items) < fs[|fs| - 1].from + size
  {
    hide Layout, LogBytes, Flat, InFile, Total, EndFile;
    EndFileCovers(fs, size, items);
    if p < |fs| - 1 { ChainOrder(fs, size, p, |fs| - 1); }
    SameFile(fs, size, fs[0].from + Total(items), p, EndFile(fs, size, items));
  }

  // What stands behind the log in that file.
  ghost function Behind(fs: seq<File>, size: int, items: seq<Item>): seq<byte>
    requires fs != [] && size > 0
  {
    var f := fs[EndFile(fs, size, items)];
    f.data[Max(0, Min(fs[0].from + Total(items) - f.from, |f.data|))..]
  }

  function StartFile(n: nat): nat { if n < 3 then 0 else n - 3 }

  // A log read back from the files has nothing but dirt behind it in the file where it ends;
  // what the files behind that one hold does not matter.
  ghost predicate Readable(c: Codec, fs: seq<File>, size: int, items: seq<Item>, crc: bool, body: bool) {
    && Loaded(fs, size, items) && Checksummed(c, items)
    && (fs[0].from + Total(items) < fs[|fs| - 1].from + size ==> Dirty(c, Behind(fs, size, items), crc, body))
  }

  // A file the log reaches starts where some item starts.
  lemma {:induction false} StartsAtItem(fs: seq<File>, size: int, items: seq<Item>, cur: nat) returns (k: nat)
    requires Loaded(fs, size, items) && cur < |fs| && fs[cur].from <= fs[0].from + Total(items)
    ensures k <= |items| && fs[0].from + Total(items[..k]) == fs[cur].from && AtItem(fs, size, items, k, cur)
  {
    hide Layout, LogBytes, Total, Flat, InFile;
    assert Sound(fs[cur], size);
    if cur > 0 { ChainOrder(fs, size, 0, cur); }
    k := BoundaryIsStart(items, fs[0].from, size, fs[cur].from);
  }

  lemma {:induction false} LoadedPrefix(fs: seq<File>, size: int, items: seq<Item>)
    requires Loaded(fs, size, items) && items != []
    ensures Loaded(fs, size, items[..|items| - 1])
  {
    var n := |items| - 1;
    hide ItemBytes, Fits, Flat, Chain;
    var flat := Flat(fs);
    assert LogBytes(items[..n], fs[0].from) == LogBytes(items, fs[0].from)[..Total(items[..n])];
    assert flat[..Total(items)][..Total(items[..n])] == flat[..Total(items[..n])];
  }

  // A scan that starts at any file the log reaches reports every record from there on and
  // stops behind the last complete record.
  lemma {:induction false} ScanStops(c: Codec, fs: seq<File>, size: int, items: seq<Item>, cur: nat, crc: bool,
                                     body: bool) returns (k: nat)
    requires Readable(c, fs, size, items, crc, body) && cur < |fs| && fs[cur].from <= fs[0].from + Total(items)
    ensures k <= |items| && fs[0].from + Total(items[..k]) == fs[cur].from && AtItem(fs, size, items, k, cur)
    ensures ScanFiles(c, fs, cur, cur, 0, 0, crc, body)
         == Scan(Replays(c, items[k..], fs[cur].from), fs[0].from + Total(Kept(fs, size, items)))
  {
    hide Layout, LogBytes, Total, Flat, InFile, Replays, Parse, ScanFiles, Window, Dirty, EndFile;
    k := StartsAtItem(fs, size, items, cur);
    var e := EndFile(fs, size, items);
    assert items[..|items|] == items;
    EndFileCovers(fs, size, items);
    LoadedWindow(fs, size, items, e);
    if fs[0].from + Total(items) < fs[|fs| - 1].from + size {
      ScanLog(c, fs, size, items, k, cur, e, crc, body);
      StopsAtDirt(c, fs, size, items, e, crc, body);
      hide Loaded, Chain;
    } else {
      FullScan(c, fs, size, items, k, cur, crc, body);
    }
  }

  // Behind the log the scan stops, whatever number the code keeps for the file.
  lemma {:induction false} StopsAtDirt(c: Codec, fs: seq<File>, size: int, items: seq<Item>, index: int, crc: bool, body: bool)
    requires Readable(c, fs, size, items, crc, body) && -1 <= index < |fs|
    requires fs[0].from + Total(items) < fs[|fs| - 1].from + size
    ensures var p, end := EndFile(fs, size, items), fs[0].from + Total(items);
            && |Window(fs[p])| == size && Kept(fs, size, items) == items && Replays(c, [], fs[p].from) == []
            && fs[p].from <= end < fs[p].from + size
            && ScanFiles(c, fs, p, index, end - fs[p].from, end - fs[p].from, crc, body) == Scan([], end)
  {
    hide Layout, LogBytes, Total, Flat, InFile, Parse, EndFile;
    var p, end := EndFile(fs, size, items), fs[0].from + Total(items);
    EndFileCovers(fs, size, items);
    LoadedWindow(fs, size, items, p);
    hide Loaded, Chain;
    assert Window(fs[p])[end - fs[p].from..] == Behind(fs, size, items);
  }

  // A log that fills the last file ends with a filler in it.
  lemma {:induction false} LastIsFiller(fs: seq<File>, size: int, items: seq<Item>)
    requires Loaded(fs, size, items) && fs[0].from + Total(items) >= fs[|fs| - 1].from + size
    ensures items != [] && items[|items| - 1].Filler?
    ensures fs[0].from + Total(items) == fs[|fs| - 1].from + size
    ensures AtItem(fs, size, items, |items| - 1, |fs| - 1)
  {
    hide LogBytes, Flat, InFile, Fits, Total, Layout, ItemBytes;
    var n, m := |fs| - 1, |items| - 1;
    FillsExactly(fs, size, items);
    EmptyLog(0, 0);
    assert Sound(fs[n], size);
    LastItem(items, fs[0].from, size);
    hide Chain;
    EndsFile(items[m], fs[0].from + Total(items[..m]), size, fs[n].from);
  }

  lemma {:induction false} LastItem(items: seq<Item>, base: int, size: int)
    requires Layout(items, base, size) && items != []
    ensures var m := |items| - 1;
            Fits(items[m], base + Total(items[..m]), size) && Total(items) == Total(items[..m]) + Length(items[m])
  {
    hide Fits, Length;
  }

  lemma {:induction false} FillsExactly(fs: seq<File>, size: int, items: seq<Item>)
    requires Loaded(fs, size, items) && fs[0].from + Total(items) >= fs[|fs| - 1].from + size
    ensures fs[0].from + Total(items) == fs[|fs| - 1].from + size && Total(items) >= size
  {
    hide LogBytes, Flat, InFile, Total, Layout;
    var n := |fs| - 1;
    FlatLength(fs, size);
    if n > 0 { ChainOrder(fs, size, 0, n); }
  }

  lemma {:induction false} EndsFile(i: Item, at: int, size: int, from: int)
    requires Fits(i, at, size) && Aligned(from, size) && at + Length(i) == from + size
    ensures i.Filler? && from <= at < from + size
  {
    InFileRoll(from, size);
    if i.Record? { InFileAdd(at, Length(i), size); }
    hide InFile;
  }

  lemma {:induction false} ReplaysSnoc(c: Codec, items: seq<Item>, i: Item, base: int)
    ensures Replays(c, items + [i], base) == Replays(c, items, base) + ReplayOf(c, i, base + Total(items))
    decreases |items|
  {
    hide ReplayOf, Length;
    if items == [] {
      assert ([] + [i])[1..] == [];
      assert Replays(c, [i], base) == ReplayOf(c, i, base) + [];
    } else {
      var rest := items[1..];
      ReplaysSnoc(c, rest, i, base + Length(items[0]));
      TotalSplit(items, 1);
      TotalOne(items[0]);
      hide Total;
      assert items[..1] == [items[0]];
      assert (items + [i])[1..] == rest + [i];
    }
  }

  lemma {:induction false} TotalOne(i: Item)
    ensures Total([i]) == Length(i)
  {
    assert [i][..0] == [];
  }

  // The same when a blank record closes the last file.
  lemma {:induction false} FullScan(c: Codec, fs: seq<File>, size: int, items: seq<Item>, k: nat, cur: nat, crc: bool, body: bool)
    requires Loaded(fs, size, items) && Checksummed(c, items) && AtItem(fs, size, items, k, cur)
    requires fs[0].from + Total(items[..k]) == fs[cur].from
    requires fs[0].from + Total(items) >= fs[|fs| - 1].from + size
    ensures ScanFiles(c, fs, cur, cur, 0, 0, crc, body)
         == Scan(Replays(c, items[k..], fs[cur].from), fs[0].from + Total(Kept(fs, size, items)))
  {
    hide Layout, LogBytes, Flat, InFile, Parse, ScanFiles, Window, Total, Replays, Chain;
    var n, m := |fs| - 1, |items| - 1;
    LastIsFiller(fs, size, items);
    assert items[..|items|] == items;
    if cur < n { ChainOrder(fs, size, cur, n); }
    assert k <= m;
    var front := items[..m];
    assert front[..k] == items[..k] && front[..m] == front;
    LoadedPrefix(fs, size, items);
    ScanLog(c, fs, size, front, k, cur, n, crc, body);
    ScanItem(c, fs, size, items, m, n, n, crc, body);
    ReplaysSnoc(c, front[k..], items[m], fs[cur].from);
    assert items[k..] == front[k..] + [items[m]];
    assert ReplayOf(c, items[m], fs[cur].from + Total(front[k..])) == [];
  }

  lemma {:induction false} KeptInEndFile(c: Codec, fs: seq<File>, size: int, items: seq<Item>, crc: bool, body: bool)
    requires Readable(c, fs, size, items, crc, body)
    ensures var kept, e := Kept(fs, size, items), EndFile(fs, size, items);
            && Loaded(fs, size, kept) && kept <= items
            && fs[e].from <= fs[0].from + Total(kept) < fs[e].from + size
            && forall i :: |kept| <= i < |items| ==> items[i].Filler?
  {
    hide Layout, LogBytes, Flat, InFile, Total, Chain, EndFile;
    EndFileCovers(fs, size, items);
    if fs[0].from + Total(items) >= fs[|fs| - 1].from + size {
      LastIsFiller(fs, size, items);
      LoadedPrefix(fs, size, items);
    }
  }

  // A scan never stops before the file it starts with.
  lemma {:induction false} ScanNotBefore(c: Codec, fs: seq<File>, size: int, cur: nat, rp: nat, off: nat, crc: bool, body: bool)
    requires Chain(fs, size) && cur < |fs| && rp <= |Window(fs[cur])|
    ensures var r := ScanFiles(c, fs, cur, cur, rp, off, crc, body); r.Scan? ==> r.offset >= fs[cur].from
    decreases |fs| - cur, |Window(fs[cur])| - rp
  {
    hide Parse, Window, Chain;
    var r := Parse(c, Window(fs[cur])[rp..], crc, body);
    if r.Parsed? {
      if r.request.msgSize > 0 {
        ScanNotBefore(c, fs, size, cur, rp + r.consumed, off + r.request.msgSize, crc, body);
      } else if r.request.msgSize == 0 && cur + 1 < |fs| {
        ChainOrder(fs, size, cur, cur + 1);
        assert size > 0 by { ChainSize(fs, size); }
        ScanNotBefore(c, fs, size, cur + 1, 0, 0, crc, body);
      } else if r.request.msgSize < -1 {
        ScanNotBefore(c, fs, size, cur, rp + r.consumed, off, crc, body);
      }
    }
  }

  lemma {:induction false} ChainSize(fs: seq<File>, size: int)
    requires Chain(fs, size)
    ensures size > 0
  {
  }

  // recoverNormally reads at most the last three files.  It finds the end of the last complete
  // record exactly when the log reaches the first file read, wherever behind that it is torn;
  // truncation then leaves files that hold exactly the log: nothing behind it, and of the log
  // at most a blank record that closes the last file lost.
  lemma {:induction false} NormalRecovery(c: Codec, fs: seq<File>, size: int, items: seq<Item>, crc: bool)
    requires Readable(c, fs, size, items, crc, crc)
    ensures var start := Max(0, |fs| - 3);
            var scan := ScanFiles(c, fs, start, start, 0, 0, crc, crc);
            var kept := Kept(fs, size, items);
            && (scan.Scan? && scan.offset == fs[0].from + Total(kept) <==> fs[start].from <= fs[0].from + Total(items))
            && (fs[start].from <= fs[0].from + Total(items) ==>
                  && HoldsItems(Truncate(fs, size, scan.offset), size, kept)
                  && MaxOffset(Truncate(fs, size, scan.offset)) == scan.offset)
  {
    hide Layout, LogBytes, Flat, InFile, Total, ScanFiles, Kept, Truncate, Take, EndFile, Dirty;
    var start := StartFile(|fs|);
    if fs[start].from <= fs[0].from + Total(items) {
      var k := ScanStops(c, fs, size, items, start, crc, crc);
      TruncatedHolds(c, fs, size, items, crc, crc);
    } else {
      LoadedWindow(fs, size, items, start);
      ScanNotBefore(c, fs, size, start, 0, 0, crc, crc);
      KeptInEndFile(c, fs, size, items, crc, crc);
      KeptIsShorter(fs, size, items);
    }
  }

  lemma {:induction false} KeptIsShorter(fs: seq<File>, size: int, items: seq<Item>)
    requires fs != []
    ensures Total(Kept(fs, size, items)) <= Total(items)
  {
    hide Length;
    if items != [] { TotalStep(items, |items| - 1); assert items[..|items|] == items; }
  }

  lemma {:induction false} TruncatedHolds(c: Codec, fs: seq<File>, size: int, items: seq<Item>, crc: bool, body: bool)
    requires Readable(c, fs, size, items, crc, body)
    ensures var kept := Kept(fs, size, items);
            var offset := fs[0].from + Total(kept);
            HoldsItems(Truncate(fs, size, offset), size, kept) && MaxOffset(Truncate(fs, size, offset)) == offset
  {
    hide Layout, LogBytes, Flat, InFile, Total, Kept, Truncate, EndFile;
    var kept, e := Kept(fs, size, items), EndFile(fs, size, items);
    var offset := fs[0].from + Total(kept);
    KeptInEndFile(c, fs, size, items, crc, body);
    assert Sound(fs[0], size) && fs[e].wrote == size;
    TruncateKeeps(fs, size, offset, e);
    hide Chain;
    assert Take(Flat(fs), Total(kept)) == Flat(fs)[..Total(kept)];
  }

  // ---------------------------------------------------------------- recoverAbnormally

  lemma {:induction false} ReplaysRange(c: Codec, items: seq<Item>, k: nat, j: nat, at: int)
    requires k < j <= |items|
    ensures Replays(c, items[k..j], at) == ReplayOf(c, items[k], at) + Replays(c, items[k + 1..j], at + Length(items[k]))
  {
    hide ReplayOf, Length;
    assert items[k..j][0] == items[k] && items[k..j][1..] == items[k + 1..j];
  }

  // Records inside one file are read in order whatever number the code keeps for the file.
  lemma {:induction false} ScanRecords(c: Codec, fs: seq<File>, size: int, items: seq<Item>, k: nat, j: nat, cur: nat,
                                       index: int, crc: bool, body: bool)
    requires Loaded(fs, size, items) && Checksummed(c, items) && k <= j <= |items| && -1 <= index < |fs|
    requires AtItem(fs, size, items, k, cur) && AtItem(fs, size, items, j, cur)
    requires forall i :: k <= i < j ==> items[i].Record?
    ensures var at, end := fs[0].from + Total(items[..k]), fs[0].from + Total(items[..j]);
            && |Window(fs[cur])| == size
            && ScanFiles(c, fs, cur, index, at - fs[cur].from, at - fs[cur].from, crc, body)
               == Prepend(Replays(c, items[k..j], at),
                          ScanFiles(c, fs, cur, index, end - fs[cur].from, end - fs[cur].from, crc, body))
    decreases j - k
  {
    hide Layout, LogBytes, Total, Flat, InFile, Window, ScanFiles, ReplayOf, Replays, Prepend, Storable, Chain, RecordLength;
    LoadedWindow(fs, size, items, cur);
    var at, end := fs[0].from + Total(items[..k]), fs[0].from + Total(items[..j]);
    var x := ScanFiles(c, fs, cur, index, end - fs[cur].from, end - fs[cur].from, crc, body);
    if k == j {
      assert items[k..j] == [];
      NoReplays(c, at);
      PrependNothing(x);
    } else {
      ScanItem(c, fs, size, items, k, cur, index, crc, body);
      TotalStep(items, k);
      TotalMonotone(items, k + 1, j);
      ScanRecords(c, fs, size, items, k + 1, j, cur, index, crc, body);
      hide Loaded;
      ReplaysRange(c, items, k, j, at);
      PrependTwice(ReplayOf(c, items[k], at), Replays(c, items[k + 1..j], at + Length(items[k])), x);
    }
  }

  lemma {:induction false} NoReplays(c: Codec, at: int)
    ensures Replays(c, [], at) == []
  {
  }

  // No filler inside a file except at its end.
  lemma {:induction false} OnlyRecords(fs: seq<File>, size: int, items: seq<Item>, k: nat, j: nat, cur: nat)
    requires Loaded(fs, size, items) && k <= j <= |items|
    requires AtItem(fs, size, items, k, cur) && AtItem(fs, size, items, j, cur)
    ensures forall i :: k <= i < j ==> items[i].Record?
  {
    hide Layout, LogBytes, Total, Flat, InFile, Chain, Window, Fits, ItemBytes;
    forall i | k <= i < j
      ensures items[i].Record?
    {
      TotalMonotone(items, k, i);
      TotalMonotone(items, i + 1, j);
      TotalStep(items, i);
      ItemInWindow(fs, size, items, i, cur);
      RoomBehind(items[i], fs[0].from + Total(items[..i]), size);
    }
  }

  // The filler that ends file cur, if the log goes on past that file.
  lemma {:induction false} FillerOf(fs: seq<File>, size: int, items: seq<Item>, cur: nat) returns (j: nat)
    requires Loaded(fs, size, items) && cur < |fs| && fs[cur].from + size <= fs[0].from + Total(items)
    ensures j < |items| && items[j].Filler? && AtItem(fs, size, items, j, cur)
  {
    hide Layout, LogBytes, Total, Flat, InFile, Fits, ItemBytes;
    assert Sound(fs[cur], size);
    if cur > 0 { ChainOrder(fs, size, 0, cur); }
    assert InFile(fs[cur].from + size, size) == 0 by { InFileRoll(fs[cur].from, size); }
    var k := BoundaryIsStart(items, fs[0].from, size, fs[cur].from + size);
    EmptyLog(0, 0);
    assert items[..0] == [];
    assert k > 0;
    j := k - 1;
    TotalStep(items, j);
    ItemAt(items, fs[0].from, size, j);
    EndsFile(items[j], fs[0].from + Total(items[..j]), size, fs[cur].from);
  }

  // recoverAbnormally starts at file p with a number that is one too small, so it reads a
  // file that ends with a blank record twice before it goes on.
  lemma {:induction false} AbnormalScan(c: Codec, fs: seq<File>, size: int, items: seq<Item>, p: nat, crc: bool)
    returns (k: nat, j: nat)
    requires Readable(c, fs, size, items, crc, true) && p < |fs| && fs[p].from <= fs[0].from + Total(items)
    ensures k <= j <= |items| && fs[0].from + Total(items[..k]) == fs[p].from
    ensures ScanFiles(c, fs, p, p - 1, 0, 0, crc, true)
         == Scan(Replays(c, items[k..j], fs[p].from) + Replays(c, items[k..], fs[p].from),
                 fs[0].from + Total(Kept(fs, size, items)))
  {
    hide Layout, LogBytes, Total, Flat, InFile, Chain, Replays, ReplayOf, Kept, Parse, Window, ScanFiles, EndFile, Dirty;
    k := ScanStops(c, fs, size, items, p, crc, true);
    var end := fs[0].from + Total(items);
    assert items[..|items|] == items;
    LoadedWindow(fs, size, items, p);
    if fs[p].from + size <= end {
      j := FillerOf(fs, size, items, p);
      assert k <= j by { if j < k { TotalMonotone(items, j + 1, k); TotalStep(items, j); } }
      OnlyRecords(fs, size, items, k, j, p);
      ScanRecords(c, fs, size, items, k, j, p, p - 1, crc, true);
      ScanItem(c, fs, size, items, j, p, p - 1, crc, true);
    } else {
      EndFileIs(fs, size, items, p);
      j := k;
      OnlyRecords(fs, size, items, k, |items|, p);
      ScanRecords(c, fs, size, items, k, |items|, p, p - 1, crc, true);
      assert items[k..|items|] == items[k..] && items[k..k] == [];
      StopsAtDirt(c, fs, size, items, p - 1, crc, true);
    }
  }
}
