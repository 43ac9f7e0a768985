// The commit log as a list of items: records, and the blank record that closes a file.

module Log {
  import opened Arithmetic
  import opened Bytes
  import opened Records

  type BlankLength = n: int32 | n >= END_FILE_MIN_BLANK witness 8

  datatype Item = Record(m: Message, queueOffset: int64) | Filler(length: BlankLength)

  function Length(i: Item): nat {
    match i case Record(m, _) => RecordLength(m) case Filler(length) => length
  }

  function ItemBytes(i: Item, at: int): (s: seq<byte>)
    ensures |s| == Length(i)
  {
    match i case Record(m, q) => Encode(m, q, Wrap64(at)) case Filler(length) => Blank(length)
  }

  // An item at offset `at` of a log cut into files of `size` bytes: a record leaves room
  // for a blank record behind it in its file, a filler runs to the end of its file.
  predicate Fits(i: Item, at: int, size: int) {
    && size > 0 && 0 <= at && at + Length(i) < 0x8000_0000_0000_0000
    && match i
       case Record(m, _) => Storable(m) && InFile(at, size) + RecordLength(m) + END_FILE_MIN_BLANK <= size
       case Filler(length) => length == size - InFile(at, size)
  }

  function Total(items: seq<Item>): nat {
    if items == [] then 0 else Total(items[..|items| - 1]) + Length(items[|items| - 1])
  }

  // The bytes of the items, the first of them at offset base.
  function LogBytes(items: seq<Item>, base: int): (s: seq<byte>)
    ensures |s| == Total(items)
  {
    if items == [] then []
    else
      var n := |items| - 1;
      LogBytes(items[..n], base) + ItemBytes(items[n], base + Total(items[..n]))
  }

  predicate Layout(items: seq<Item>, base: int, size: int) {
    items == [] ||
      var n := |items| - 1;
      Layout(items[..n], base, size) && Fits(items[n], base + Total(items[..n]), size)
  }

  lemma {:induction false} LayoutSnoc(items: seq<Item>, i: Item, base: int, size: int)
    ensures Layout(items + [i], base, size) <==> Layout(items, base, size) && Fits(i, base + Total(items), size)
    ensures LogBytes(items + [i], base) == LogBytes(items, base) + ItemBytes(i, base + Total(items))
    ensures Total(items + [i]) == Total(items) + Length(i)
  {
    hide Fits, ItemBytes, Length;
    assert (items + [i])[..|items|] == items;
  }

  lemma {:induction false} TotalSplit(items: seq<Item>, k: nat)
    requires k <= |items|
    ensures Total(items) == Total(items[..k]) + Total(items[k..])
    decreases |items|
  {
    hide Length;
    if k == |items| {
      assert items[..k] == items && items[k..] == [];
    } else {
      var n := |items| - 1;
      TotalSplit(items[..n], k);
      assert items[..n][..k] == items[..k] && items[..n][k..] == items[k..][..n - k];
    }
  }

  // A log splits at every item: the rest is a log of its own that starts where item k does.
  lemma {:induction false} LogSplit(items: seq<Item>, base: int, k: nat)
    requires k <= |items|
    ensures LogBytes(items, base) == LogBytes(items[..k], base) + LogBytes(items[k..], base + Total(items[..k]))
    decreases |items|
  {
    hide *;
    if k == |items| {
      SplitAtEnd(items, base);
    } else {
      var n := |items| - 1;
      LogSplit(items[..n], base, k);
      SplitLater(items, base, k);
    }
  }

  lemma {:induction false} SplitAtEnd(items: seq<Item>, base: int)
    ensures LogBytes(items, base) == LogBytes(items[..|items|], base) + LogBytes(items[|items|..], base + Total(items[..|items|]))
  {
    hide ItemBytes, Length, Total;
    assert items[..|items|] == items && items[|items|..] == [];
  }

  lemma {:induction false} SplitLater(items: seq<Item>, base: int, k: nat)
    requires k < |items|
    requires var front := items[..|items| - 1];
             LogBytes(front, base) == LogBytes(front[..k], base) + LogBytes(front[k..], base + Total(front[..k]))
    ensures LogBytes(items, base) == LogBytes(items[..k], base) + LogBytes(items[k..], base + Total(items[..k]))
  {
    hide *;
    var front, i := items[..|items| - 1], items[|items| - 1];
    TotalSplit(front, k);
    Rejoin(items, k);
    var p, r, at := LogBytes(front[..k], base), LogBytes(front[k..], base + Total(front[..k])), base + Total(front);
    assert LogBytes(items, base) == LogBytes(front, base) + ItemBytes(i, at) by { LayoutSnoc(front, i, base, 1); }
    assert LogBytes(items[k..], base + Total(front[..k])) == r + ItemBytes(i, at) by {
      LayoutSnoc(front[k..], i, base + Total(front[..k]), 1);
    }
    Regroup(p, r, ItemBytes(i, at));
  }

  lemma {:induction false} Rejoin(items: seq<Item>, k: nat)
    requires k < |items|
    ensures var front, i := items[..|items| - 1], items[|items| - 1];
            front + [i] == items && front[k..] + [i] == items[k..] && front[..k] == items[..k]
  {
  }

  lemma {:induction false} Regroup(a: seq<byte>, b: seq<byte>, c: seq<byte>)
    ensures a + b + c == a + (b + c)
  {
  }

  lemma {:induction false} LayoutSplit(items: seq<Item>, base: int, size: int, k: nat)
    requires k <= |items|
    ensures Layout(items, base, size)
       <==> Layout(items[..k], base, size) && Layout(items[k..], base + Total(items[..k]), size)
    decreases |items|
  {
    hide Fits;
    if k == |items| {
      assert items[..k] == items && items[k..] == [];
    } else {
      var n := |items| - 1;
      LayoutSplit(items[..n], base, size, k);
      TotalSplit(items[..n], k);
      hide Total;
      assert items[..n][..k] == items[..k] && items[..n][k..] == items[k..][..n - k];
    }
  }

  // The first item comes first.
  lemma {:induction false} LogHead(items: seq<Item>, base: int, size: int)
    requires items != []
    ensures Total(items) == Length(items[0]) + Total(items[1..])
    ensures LogBytes(items, base) == ItemBytes(items[0], base) + LogBytes(items[1..], base + Length(items[0]))
    ensures Layout(items, base, size)
       <==> Fits(items[0], base, size) && Layout(items[1..], base + Length(items[0]), size)
  {
    hide Fits, ItemBytes, Length;
    TotalSplit(items, 1);
    LogSplit(items, base, 1);
    LayoutSplit(items, base, size, 1);
    LayoutSnoc([], items[0], base, size);
    EmptyLog(base, size);
    hide Total, LogBytes, Layout;
    assert items[..1] == [] + [items[0]];
  }

  // Item k stands in the log at its own offset, and fits there.
  lemma {:induction false} ItemAt(items: seq<Item>, base: int, size: int, k: nat)
    requires Layout(items, base, size) && k < |items|
    ensures var at := base + Total(items[..k]);
            Fits(items[k], at, size) && At(LogBytes(items, base), Total(items[..k]), ItemBytes(items[k], at))
  {
    hide Fits, ItemBytes;
    LayoutSplit(items, base, size, k);
    LogHead(items[k..], base + Total(items[..k]), size);
    LogSplit(items, base, k);
    hide Layout, LogBytes, Total;
  }

  lemma {:induction false} TotalStep(items: seq<Item>, k: nat)
    requires k < |items|
    ensures Total(items[..k + 1]) == Total(items[..k]) + Length(items[k])
  {
    assert items[..k + 1][..k] == items[..k];
  }

  lemma {:induction false} TotalMonotone(items: seq<Item>, j: nat, k: nat)
    requires j <= k <= |items|
    ensures Total(items[..j]) <= Total(items[..k])
    decreases k
  {
    if j < k {
      TotalMonotone(items, j, k - 1);
      TotalStep(items, k - 1);
    }
  }

  lemma {:induction false} EmptyLog(base: int, size: int)
    ensures Total([]) == 0 && LogBytes([], base) == [] && Layout([], base, size)
  {
  }

  // No item crosses a file boundary: every multiple of the file size inside the log is
  // the start of some item.
  lemma {:induction false} BoundaryIsStart(items: seq<Item>, base: int, size: int, boundary: int) returns (k: nat)
    requires size > 0 && Layout(items, base, size) && InFile(boundary, size) == 0
    requires base <= boundary <= base + Total(items)
    ensures k <= |items| && base + Total(items[..k]) == boundary
    decreases |items|
  {
    hide InFile, Fits, Length;
    k := |items|;
    assert items[..k] == items;
    if boundary < base + Total(items) {
      var n := |items| - 1;
      var at := base + Total(items[..n]);
      ItemInFile(items[n], at, size, boundary);
      k := BoundaryIsStart(items[..n], base, size, boundary);
      assert items[..n][..k] == items[..k];
    }
  }

  lemma {:induction false} ItemInFile(i: Item, at: int, size: int, boundary: int)
    requires Fits(i, at, size) && InFile(boundary, size) == 0
    ensures !(at < boundary < at + Length(i))
  {
    DivBounds(at, size);
    DivBounds(boundary, size);
    var q, b := at / size, boundary / size;
    assert (q + 1) * size == q * size + size;
    MulOrder(b, q, size);
    MulOrder(q + 1, b, size);
  }
}
