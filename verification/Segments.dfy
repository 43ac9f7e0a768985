// A queue of fixed-size files as a value: one flat offset space cut at multiples of
// the file size.  The classes in MapedFiles.dfy are proved against these functions.

module Segments {
  import opened Arithmetic
  import opened Bytes

  datatype Option<+T> = None | Some(value: T)

  // One mapped file.  data is its memory and disk what a machine crash would leave of it; wrote is
  // wrotePostion, writePos the position kept by its buffer, committed is committedPosition.
  datatype File = File(
    from: int, data: seq<byte>, disk: seq<byte>, wrote: int, writePos: int, committed: int,
    storeTimestamp: int, firstCreate: bool, available: bool)

  predicate Aligned(offset: int, size: int)
    requires size > 0
  {
    InFile(offset, size) == 0
  }

  ghost predicate Sound(f: File, size: int) {
    && size > 0 && f.from >= 0 && Aligned(f.from, size)
    && |f.data| == size && 0 <= f.committed <= f.wrote <= size && f.writePos == f.wrote
  }

  // File i + 1 starts where file i ends, and only the last file may have room left.
  ghost predicate Chain(fs: seq<File>, size: int) {
    && size > 0
    && (forall i :: 0 <= i < |fs| ==> Sound(fs[i], size))
    && (forall i :: 0 < i < |fs| ==> Link(fs, i, size))
  }

  ghost predicate Link(fs: seq<File>, i: int, size: int)
    requires 0 < i < |fs|
  {
    fs[i].from == fs[i - 1].from + size && fs[i - 1].wrote == size
  }

  // The first n bytes of s, as far as there are any.
  function Take(s: seq<byte>, n: int): seq<byte> { s[..Max(0, Min(n, |s|))] }

  lemma {:induction false} TakeIs(s: seq<byte>, n: nat)
    requires n <= |s|
    ensures Take(s, n) == s[..n]
  {
  }

  function Written(f: File): (s: seq<byte>)
    ensures 0 <= f.wrote <= |f.data| ==> s == f.data[..f.wrote] && |s| == f.wrote
  {
    Take(f.data, f.wrote)
  }

  // What Bytes() of the file's buffer shows a reader.
  function Window(f: File): seq<byte> { Take(f.data, f.writePos) }

  // Everything written, first file first.
  ghost function Flat(fs: seq<File>): seq<byte> {
    if fs == [] then [] else Flat(fs[..|fs| - 1]) + Written(fs[|fs| - 1])
  }

  function BaseOf(fs: seq<File>): int { if fs == [] then 0 else fs[0].from }

  function MinOffset(fs: seq<File>): int { if fs == [] then -1 else fs[0].from }

  function MaxOffset(fs: seq<File>): int {
    if fs == [] then 0 else fs[|fs| - 1].from + fs[|fs| - 1].wrote
  }

  lemma {:induction false} ChainFrom(fs: seq<File>, size: int, i: nat)
    requires Chain(fs, size) && i < |fs|
    ensures fs[i].from == fs[0].from + i * size
  {
    if i > 0 {
      ChainFrom(fs, size, i - 1);
      assert Link(fs, i, size);
      assert i * size == (i - 1) * size + size;
    }
  }

  lemma {:induction false} ChainOrder(fs: seq<File>, size: int, i: nat, j: nat)
    requires Chain(fs, size) && i < j < |fs|
    ensures fs[i].from + size <= fs[j].from
    decreases j
  {
    assert Link(fs, j, size);
    if i < j - 1 { ChainOrder(fs, size, i, j - 1); }
  }

  lemma {:induction false} ChainPrefix(fs: seq<File>, size: int, k: nat)
    requires Chain(fs, size) && k <= |fs|
    ensures Chain(fs[..k], size) && Chain(fs[k..], size)
  {
    hide Sound;
    forall i | 0 < i < k ensures Link(fs[..k], i, size) { assert Link(fs, i, size); }
    forall i | 0 < i < |fs| - k ensures Link(fs[k..], i, size) { assert Link(fs, k + i, size); }
  }

  lemma {:induction false} FlatLength(fs: seq<File>, size: int)
    requires Chain(fs, size) && fs != []
    ensures |Flat(fs)| == MaxOffset(fs) - fs[0].from
  {
    var n := |fs| - 1;
    assert Sound(fs[n], size);
    hide Sound;
    if n > 0 {
      ChainPrefix(fs, size, n);
      FlatLength(fs[..n], size);
      assert Link(fs, n, size);
    } else {
      assert Flat(fs[..0]) == [];
    }
  }

  lemma {:induction false} FlatSplit(fs: seq<File>, k: nat)
    requires k < |fs|
    ensures Flat(fs) == Flat(fs[..k]) + (Written(fs[k]) + Flat(fs[k + 1..]))
    decreases |fs|
  {
    hide Written;
    var n := |fs| - 1;
    if k < n {
      FlatSplit(fs[..n], k);
      var front, mid, last := Flat(fs[..k]), Flat(fs[k + 1..n]), Written(fs[n]);
      assert fs[..n][..k] == fs[..k] && fs[..n][k + 1..] == fs[k + 1..n] && fs[k + 1..][..n - k - 1] == fs[k + 1..n];
      assert Flat(fs[k + 1..]) == mid + last && Flat(fs) == front + (Written(fs[k]) + mid) + last;
      hide Flat;
      assert front + (Written(fs[k]) + mid) + last == front + (Written(fs[k]) + (mid + last));
    } else {
      assert Flat(fs[k + 1..]) == [];
    }
  }

  // The files before file k hold exactly the bytes below its offset.
  lemma {:induction false} FlatBefore(fs: seq<File>, size: int, k: nat)
    requires Chain(fs, size) && k < |fs|
    ensures |Flat(fs[..k])| == fs[k].from - fs[0].from
  {
    if k > 0 {
      ChainPrefix(fs, size, k);
      FlatLength(fs[..k], size);
      assert Link(fs, k, size);
    }
  }

  // File i is the slice of the flat space that starts at its own offset.
  lemma {:induction false} FlatSlice(fs: seq<File>, size: int, i: nat)
    requires Chain(fs, size) && i < |fs|
    ensures 0 <= fs[i].from - fs[0].from && At(Flat(fs), fs[i].from - fs[0].from, Written(fs[i]))
  {
    FlatBefore(fs, size, i);
    FlatSplit(fs, i);
    hide Chain, Flat, Written;
    assert At(Flat(fs), |Flat(fs[..i])|, Written(fs[i]));
  }

  lemma {:induction false} FlatJoin(fs: seq<File>, n: nat)
    requires n < |fs|
    ensures Flat(fs) == Flat(fs[..n]) + Flat(fs[n..])
  {
    hide Written;
    FlatSplit(fs, n);
    FlatSplit(fs[n..], 0);
    assert fs[n..][..0] == [] && Flat([]) == [];
    assert fs[n..][0] == fs[n] && fs[n..][1..] == fs[n + 1..];
    hide Flat;
    assert [] + (Written(fs[n]) + Flat(fs[n + 1..])) == Written(fs[n]) + Flat(fs[n + 1..]);
  }

  // Without its first n files a chain holds what stood from file n on.
  lemma {:induction false} DropFiles(fs: seq<File>, size: int, n: nat)
    requires Chain(fs, size) && n < |fs|
    ensures Chain(fs[n..], size) && 0 <= fs[0].from <= fs[n].from && fs[n].from - fs[0].from <= |Flat(fs)|
    ensures Flat(fs[n..]) == Flat(fs)[fs[n].from - fs[0].from..]
  {
    hide Flat, Sound;
    ChainPrefix(fs, size, n);
    FlatBefore(fs, size, n);
    FlatJoin(fs, n);
    assert 0 <= fs[0].from by { FirstFrom(fs, size); }
    hide Chain;
  }

  lemma {:induction false} FirstFrom(fs: seq<File>, size: int)
    requires Chain(fs, size) && fs != []
    ensures 0 <= fs[0].from
  {
    assert Sound(fs[0], size);
  }

  // ---------------------------------------------------------------- lookup

  // findMapedFileByOffset: a position in the list, not a search.
  function Lookup(fs: seq<File>, size: int, offset: int, firstOnNotFound: bool): Option<nat>
    requires size > 0
  {
    if fs == [] then None
    else
      var index := Quo(offset, size) - Quo(fs[0].from, size);
      if 0 <= index < |fs| then Some(index)
      else if firstOnNotFound then Some(0)
      else None
  }

  // The arithmetic lookup finds file i exactly when file i covers the offset.
  lemma {:induction false} LookupCovers(fs: seq<File>, size: int, offset: int, i: nat)
    requires Chain(fs, size) && offset >= 0 && i < |fs|
    ensures Lookup(fs, size, offset, false) == Some(i) <==> fs[i].from <= offset < fs[i].from + size
  {
    ChainFrom(fs, size, i);
    var b := fs[0].from / size;
    DivBounds(fs[0].from, size);
    assert fs[i].from == (b + i) * size by { assert (b + i) * size == b * size + i * size; }
    if fs[i].from <= offset < fs[i].from + size {
      DivUnique(offset, b + i, size);
    } else if Lookup(fs, size, offset, false) == Some(i) {
      assert offset / size == b + i;
      DivBounds(offset, size);
    }
  }

  // No file covers the offset exactly when the offset is below the first file or at or
  // past the end of the last one.
  lemma {:induction false} LookupMisses(fs: seq<File>, size: int, offset: int)
    requires Chain(fs, size) && fs != [] && offset >= 0
    ensures Lookup(fs, size, offset, false) == None
       <==> offset < fs[0].from || offset >= fs[|fs| - 1].from + size
  {
    var n := |fs| - 1;
    ChainFrom(fs, size, n);
    var b, q := fs[0].from / size, offset / size;
    DivBounds(fs[0].from, size);
    DivBounds(offset, size);
    assert fs[n].from == (b + n) * size by { assert (b + n) * size == b * size + n * size; }
    if q < b { MulMonotone(q + 1, b, size); assert (q + 1) * size == q * size + size; }
    else { MulMonotone(b, q, size); }
    if q > b + n { MulMonotone(b + n + 1, q, size); assert (b + n + 1) * size == (b + n) * size + size; }
    else { MulMonotone(q, b + n, size); }
  }

  // Negative offsets above -size are not rejected: with a first file at 0 the lookup
  // answers file 0, because Go's division truncates toward zero.
  lemma {:induction false} LookupNegative(fs: seq<File>, size: int, offset: int)
    requires Chain(fs, size) && fs != [] && offset < 0
    ensures Lookup(fs, size, offset, false) == None <==> fs[0].from > 0 || offset <= -size
  {
    var b := fs[0].from / size;
    DivBounds(fs[0].from, size);
    DivBounds(-offset, size);
    if b <= 0 { MulMonotone(b, 0, size); } else { MulMonotone(1, b, size); }
    if (-offset) / size <= 0 { MulMonotone((-offset) / size, 0, size); }
    else { MulMonotone(1, (-offset) / size, size); }
  }

  // ---------------------------------------------------------------- growing

  function NewFile(from: int, contents: seq<byte>, first: bool): File {
    File(from, contents, contents, 0, 0, 0, 0, first, true)
  }

  // getLastMapedFile: the last file, or a new one if there is none or it is full.
  function EnsureLast(fs: seq<File>, size: int, startOffset: int, contents: seq<byte>): (r: seq<File>)
    requires size > 0
    ensures r != []
  {
    if fs == [] then [NewFile(startOffset - Rem(startOffset, size), contents, true)]
    else
      var last := fs[|fs| - 1];
      if last.wrote == size then fs + [NewFile(last.from + size, contents, false)] else fs
  }

  lemma {:induction false} EnsureLastKeeps(fs: seq<File>, size: int, startOffset: int, contents: seq<byte>)
    requires Chain(fs, size) && startOffset >= 0 && |contents| == size
    ensures var r := EnsureLast(fs, size, startOffset, contents);
            Chain(r, size) && Flat(r) == Flat(fs) && fs <= r && r[|r| - 1].wrote < size
            && (fs != [] ==> MaxOffset(r) == MaxOffset(fs))
            && (fs == [] ==> r[0].from <= startOffset < r[0].from + size)
  {
    hide Rem, InFile, Flat;
    var r := EnsureLast(fs, size, startOffset, contents);
    FirstFile(startOffset, size, contents);
    if fs == [] {
      GrowFlat(fs, size, r[0]);
      assert r == fs + [r[0]];
    } else {
      var last := fs[|fs| - 1];
      assert Sound(last, size);
      if last.wrote == size {
        NextFile(last, size, contents);
        GrowFlat(fs, size, r[|fs|]);
      }
    }
  }

  lemma {:induction false} FirstFile(startOffset: int, size: int, contents: seq<byte>)
    requires size > 0 && startOffset >= 0 && |contents| == size
    ensures var f := NewFile(startOffset - Rem(startOffset, size), contents, true);
            Sound(f, size) && f.from <= startOffset < f.from + size
  {
    DivBounds(startOffset, size);
    MulMonotone(0, startOffset / size, size);
    DivUnique(startOffset - startOffset % size, startOffset / size, size);
  }

  lemma {:induction false} NextFile(last: File, size: int, contents: seq<byte>)
    requires Sound(last, size) && |contents| == size
    ensures Sound(NewFile(last.from + size, contents, false), size)
  {
    DivShift(last.from, 1, size);
  }

  lemma {:induction false} GrowFlat(fs: seq<File>, size: int, f: File)
    requires Chain(fs, size) && Sound(f, size) && f.wrote == 0
    requires fs != [] ==> fs[|fs| - 1].wrote == size && f.from == fs[|fs| - 1].from + size
    ensures Chain(fs + [f], size) && Flat(fs + [f]) == Flat(fs)
  {
    var r := fs + [f];
    assert r[..|fs|] == fs;
    ChainSnoc(fs, size, f);
    hide Chain;
    assert Written(f) == [];
  }

  lemma {:induction false} ChainSnoc(fs: seq<File>, size: int, f: File)
    requires Chain(fs, size) && Sound(f, size)
    requires fs != [] ==> fs[|fs| - 1].wrote == size && f.from == fs[|fs| - 1].from + size
    ensures Chain(fs + [f], size)
  {
    hide Sound;
    var r := fs + [f];
    forall i | 0 < i < |r| ensures Link(r, i, size) {
      if i < |fs| { assert Link(fs, i, size); }
    }
  }

  function Overwrite(s: seq<byte>, p: nat, d: seq<byte>): (r: seq<byte>)
    requires p + |d| <= |s|
    ensures |r| == |s| && r[..p] == s[..p] && r[p..p + |d|] == d && r[p + |d|..] == s[p + |d|..]
  {
    s[..p] + d + s[p + |d|..]
  }

  // MapedFile.appendMessage on a file whose two positions agree.
  function AppendTo(f: File, d: seq<byte>): File
    requires 0 <= f.writePos && f.writePos + |d| <= |f.data|
  {
    f.(data := Overwrite(f.data, f.writePos, d), wrote := f.wrote + |d|, writePos := f.writePos + |d|)
  }

  lemma {:induction false} AppendToWritten(f: File, size: int, d: seq<byte>)
    requires Sound(f, size) && f.wrote + |d| <= size
    ensures Sound(AppendTo(f, d), size) && Written(AppendTo(f, d)) == Written(f) + d
  {
    var g := AppendTo(f, d);
    assert g.data[..f.wrote + |d|] == g.data[..f.wrote] + g.data[f.wrote..f.wrote + |d|];
  }

  function WithLast(fs: seq<File>, f: File): seq<File>
    requires fs != []
  {
    fs[..|fs| - 1] + [f]
  }

  // An append to the last file (which may also stamp it) appends to the flat space and to
  // nothing else.
  lemma {:induction false} AppendLast(fs: seq<File>, size: int, d: seq<byte>, stamp: int)
    requires Chain(fs, size) && fs != [] && fs[|fs| - 1].wrote + |d| <= size
    ensures var r := WithLast(fs, AppendTo(fs[|fs| - 1], d).(storeTimestamp := stamp));
            Chain(r, size) && Flat(r) == Flat(fs) + d && MaxOffset(r) == MaxOffset(fs) + |d|
            && r[0].from == fs[0].from
  {
    var n := |fs| - 1;
    assert Sound(fs[n], size);
    StampedAppend(fs[n], size, d, stamp);
    hide AppendTo, Chain, Flat, Written;
    SwapLast(fs, size, AppendTo(fs[n], d).(storeTimestamp := stamp), d);
  }

  lemma {:induction false} StampedAppend(f: File, size: int, d: seq<byte>, stamp: int)
    requires Sound(f, size) && f.wrote + |d| <= size
    ensures var g := AppendTo(f, d).(storeTimestamp := stamp);
            Sound(g, size) && g.from == f.from && g.wrote == f.wrote + |d| && Written(g) == Written(f) + d
  {
    hide Aligned;
    AppendToWritten(f, size, d);
  }

  lemma {:induction false} SwapLast(fs: seq<File>, size: int, g: File, d: seq<byte>)
    requires Chain(fs, size) && fs != [] && Sound(g, size) && g.from == fs[|fs| - 1].from
    requires g.wrote == fs[|fs| - 1].wrote + |d| && Written(g) == Written(fs[|fs| - 1]) + d
    ensures var r := WithLast(fs, g);
            Chain(r, size) && Flat(r) == Flat(fs) + d && MaxOffset(r) == MaxOffset(fs) + |d| && r[0].from == fs[0].from
  {
    hide Sound, Written, Chain, Flat;
    SwapChain(fs, size, g);
    SwapFlat(fs, g, d);
  }

  lemma {:induction false} SwapChain(fs: seq<File>, size: int, g: File)
    requires Chain(fs, size) && fs != [] && Sound(g, size) && g.from == fs[|fs| - 1].from
    ensures Chain(WithLast(fs, g), size)
  {
    hide Sound;
    var n := |fs| - 1;
    ChainPrefix(fs, size, n);
    if n > 0 { assert Link(fs, n, size); }
    ChainSnoc(fs[..n], size, g);
  }

  lemma {:induction false} SwapFlat(fs: seq<File>, g: File, d: seq<byte>)
    requires fs != [] && Written(g) == Written(fs[|fs| - 1]) + d
    ensures Flat(WithLast(fs, g)) == Flat(fs) + d
  {
    hide Written;
    var n := |fs| - 1;
    assert WithLast(fs, g)[..n] == fs[..n];
    assert Flat(fs[..n]) + (Written(fs[n]) + d) == Flat(fs[..n]) + Written(fs[n]) + d;
  }

  // ---------------------------------------------------------------- truncation

  // truncateDirtyFiles on one file: drop it, cut it, or leave it.
  function CutFile(f: File, size: int, offset: int): Option<File>
    requires size > 0
  {
    if f.from + size <= offset then Some(f)
    else if offset >= f.from then
      var pos := Rem(offset, size);
      Some(f.(wrote := pos, writePos := pos, committed := pos))
    else None
  }

  function Truncate(fs: seq<File>, size: int, offset: int): seq<File>
    requires size > 0
  {
    if fs == [] then []
    else
      Truncate(fs[..|fs| - 1], size, offset)
      + match CutFile(fs[|fs| - 1], size, offset) { case Some(f) => [f] case None => [] }
  }

  lemma {:induction false} TruncateStep(fs: seq<File>, size: int, offset: int, i: nat)
    requires size > 0 && i < |fs|
    ensures Truncate(fs[..i + 1], size, offset)
         == Truncate(fs[..i], size, offset) + match CutFile(fs[i], size, offset) { case Some(f) => [f] case None => [] }
  {
    hide CutFile;
    assert fs[..i + 1][..i] == fs[..i];
  }

  lemma {:induction false} TruncateUntouched(fs: seq<File>, size: int, offset: int)
    requires size > 0 && forall i :: 0 <= i < |fs| ==> fs[i].from + size <= offset
    ensures Truncate(fs, size, offset) == fs
  {
    if fs != [] { TruncateUntouched(fs[..|fs| - 1], size, offset); }
  }

  lemma {:induction false} TruncateDrops(fs: seq<File>, k: nat, size: int, offset: int)
    requires size > 0 && k <= |fs| && forall i :: k <= i < |fs| ==> offset < fs[i].from
    ensures Truncate(fs, size, offset) == Truncate(fs[..k], size, offset)
    decreases |fs|
  {
    if k == |fs| {
      assert fs[..k] == fs;
    } else {
      var n := |fs| - 1;
      TruncateDrops(fs[..n], k, size, offset);
      assert fs[..n][..k] == fs[..k];
      assert CutFile(fs[n], size, offset) == None;
    }
  }

  // Truncation at an offset inside file k keeps the files before k, cuts file k at the
  // offset and drops the rest; the flat space becomes its own prefix.
  lemma {:induction false} TruncateKeeps(fs: seq<File>, size: int, offset: int, k: nat)
    requires Chain(fs, size) && k < |fs| && fs[k].from <= offset < fs[k].from + size
    requires offset - fs[k].from <= fs[k].wrote
    ensures var r := Truncate(fs, size, offset);
            |r| == k + 1 && r[..k] == fs[..k] && r[k].data == fs[k].data && Chain(r, size)
            && MaxOffset(r) == offset && r[0].from == fs[0].from
            && Flat(r) == Take(Flat(fs), offset - fs[0].from)
  {
    hide Take, Aligned, Rem, Truncate;
    var g := CutAt(fs, size, offset, k);
    var r := fs[..k] + [g];
    assert r[..k] == fs[..k];
    ChainPrefix(fs, size, k);
    if k > 0 { assert Link(fs, k, size); }
    ChainSnoc(fs[..k], size, g);
    CutFlat(fs, size, k, offset);
    hide Chain;
    assert Written(g) == fs[k].data[..offset - fs[k].from];
  }

  lemma {:induction false} CutAt(fs: seq<File>, size: int, offset: int, k: nat) returns (g: File)
    requires Chain(fs, size) && k < |fs| && fs[k].from <= offset < fs[k].from + size
    ensures Truncate(fs, size, offset) == fs[..k] + [g]
    ensures Sound(g, size) && g == fs[k].(wrote := offset - fs[k].from, writePos := offset - fs[k].from,
                                          committed := offset - fs[k].from)
  {
    forall i | 0 <= i < |fs|
      ensures i < k ==> fs[i].from + size <= offset
      ensures i > k ==> offset < fs[i].from
    {
      if i < k { ChainOrder(fs, size, i, k); }
      if i > k { ChainOrder(fs, size, k, i); }
    }
    hide Rem, Aligned;
    assert Sound(fs[k], size);
    RemInFile(fs[k].from, size, offset);
    g := CutFile(fs[k], size, offset).value;
    TruncateUntouched(fs[..k], size, offset);
    assert fs[..k + 1][..k] == fs[..k];
    TruncateDrops(fs, k + 1, size, offset);
  }

  lemma {:induction false} RemInFile(from: int, size: int, offset: int)
    requires size > 0 && 0 <= from <= offset < from + size && Aligned(from, size)
    ensures Rem(offset, size) == offset - from
  {
    DivBounds(from, size);
    DivUnique(offset, from / size, size);
  }

  // Every offset between the first and the last file lies in one, which the lookup finds.
  lemma {:induction false} Cover(fs: seq<File>, size: int, offset: int) returns (i: nat)
    requires Chain(fs, size) && fs != [] && fs[0].from <= offset < fs[|fs| - 1].from + size
    ensures i < |fs| && fs[i].from <= offset < fs[i].from + size
    ensures Lookup(fs, size, offset, false) == Some(i) == Lookup(fs, size, offset, true)
    ensures Rem(offset, size) == offset - fs[i].from
  {
    hide Flat;
    assert Sound(fs[0], size);
    LookupMisses(fs, size, offset);
    i := Lookup(fs, size, offset, false).value;
    LookupCovers(fs, size, offset, i);
    assert Sound(fs[i], size);
    RemInFile(fs[i].from, size, offset);
  }

  lemma {:induction false} CutFlat(fs: seq<File>, size: int, k: nat, offset: int)
    requires Chain(fs, size) && k < |fs| && fs[k].from <= offset <= fs[k].from + fs[k].wrote
    ensures Take(Flat(fs), offset - fs[0].from) == Flat(fs[..k]) + fs[k].data[..offset - fs[k].from]
  {
    assert Sound(fs[k], size);
    FlatBefore(fs, size, k);
    FlatSplit(fs, k);
    TakeWritten(fs[k], offset - fs[k].from);
    hide Chain, Sound, Flat, Take, Written;
    TakeOfSum(Flat(fs[..k]), Written(fs[k]) + Flat(fs[k + 1..]), offset - fs[0].from);
    TakeOfSum(Written(fs[k]), Flat(fs[k + 1..]), offset - fs[k].from);
  }

  lemma {:induction false} TakeOfSum(a: seq<byte>, b: seq<byte>, n: nat)
    ensures n <= |a| ==> Take(a + b, n) == Take(a, n)
    ensures n >= |a| ==> Take(a + b, n) == a + Take(b, n - |a|)
  {
  }

  lemma {:induction false} TakeWritten(f: File, c: nat)
    requires c <= f.wrote <= |f.data|
    ensures Take(Written(f), c) == f.data[..c] && |Written(f)| == f.wrote
  {
  }

  // destroy shuts the file down before it can fail.
  function Shut(f: File): File { f.(available := false) }

  // ---------------------------------------------------------------- load

  // MapedFileQueue.load: a new mapping of the file, counted as written to its end.
  function LoadFile(f: File): File {
    File(f.from, f.data, f.disk, |f.data|, |f.data|, |f.data|, 0, false, true)
  }

  function Load(fs: seq<File>): (gs: seq<File>)
    ensures |gs| == |fs| && forall i :: 0 <= i < |gs| ==> gs[i] == LoadFile(fs[i])
  {
    seq(|fs|, i requires 0 <= i < |fs| => LoadFile(fs[i]))
  }

  lemma {:induction false} LoadChain(fs: seq<File>, size: int)
    requires Chain(fs, size)
    ensures Chain(Load(fs), size) && forall i :: 0 <= i < |fs| ==> Load(fs)[i].wrote == size
  {
    hide Aligned;
    var gs := Load(fs);
    forall i | 0 <= i < |gs| ensures Sound(gs[i], size) && gs[i].wrote == size { assert Sound(fs[i], size); }
    forall i | 0 < i < |gs| ensures Link(gs, i, size) { assert Link(fs, i, size); }
  }
}
