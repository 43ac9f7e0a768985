// Where abnormal recovery starts: the checkpoint's promise about the index is enough.

module Checkpoint {
  import opened Arithmetic
  import opened Bytes
  import opened ConsumeQueues
  import opened Log
  import opened LogFiles
  import opened Records
  import opened Recovering
  import opened Recovery
  import opened Replay
  import opened RoundTrip
  import opened Segments
  import opened Store

  // Store times do not fall in log order.
  ghost predicate TimesRise(rs: seq<DispatchRequest>) {
    forall i, j :: 0 <= i < j < |rs| ==> rs[i].storeTimestamp <= rs[j].storeTimestamp
  }

  // Every message that is not indexed was stored after the checkpoint.
  ghost predicate Vouched(rs: seq<DispatchRequest>, n: Queue -> nat, checkpoint: int64) {
    forall q, i :: n(q) <= i < |Of(rs, q)| ==> checkpoint < Of(rs, q)[i].storeTimestamp
  }

  lemma {:induction false} SameStart(items: seq<Item>, a: nat, b: nat)
    requires a <= |items| && b <= |items| && Total(items[..a]) == Total(items[..b])
    ensures a == b
  {
    hide Total;
    if a < b { TotalStep(items, a); TotalMonotone(items, a + 1, b); }
    if b < a { TotalStep(items, b); TotalMonotone(items, b + 1, a); }
  }

  // A file that matches and starts with an item starts with a record not newer than the
  // checkpoint.
  lemma {:induction false} MatchedRecord(i: Item, at: int, rest: seq<byte>, f: File, checkpoint: int64)
    requires Window(f) == ItemBytes(i, at) + rest && Matched(f, checkpoint)
    ensures i.Record? && i.m.storeTimestamp <= checkpoint
  {
    hide R32, R64, Window, Encode, Blank;
    var s := Window(f);
    match i
    case Record(m, q) => RecordTime(m, q, Wrap64(at), rest);
    case Filler(length) => BlankMagic(length, rest);
  }

  lemma {:induction false} BlankMagic(length: BlankLength, rest: seq<byte>)
    ensures R32(Blank(length) + rest, 4) == BLANK_MAGIC
  {
    hide AsI32, I32;
    var s := Blank(length) + rest;
    assert s[4..8] == I32(BLANK_MAGIC);
    assert At(s, 4, I32(BLANK_MAGIC));
    ReadsI32(s, 4, BLANK_MAGIC);
  }

  // The first record of file p.
  lemma {:induction false} FirstRecord(fs: seq<File>, size: int, items: seq<Item>, p: nat, checkpoint: int64) returns (k: nat)
    requires Loaded(fs, size, items) && p < |fs| && fs[p].from < fs[0].from + Total(items) && Matched(fs[p], checkpoint)
    ensures k < |items| && fs[0].from + Total(items[..k]) == fs[p].from
    ensures items[k].Record? && Storable(items[k].m) && items[k].m.storeTimestamp <= checkpoint
  {
    hide Layout, LogBytes, Total, Flat, InFile, Chain, Window, ItemBytes, Matched, Storable, RecordLength;
    k := StartsAtItem(fs, size, items, p);
    assert items[..|items|] == items;
    ItemInWindow(fs, size, items, k, p);
    assert Window(fs[p])[0..] == Window(fs[p]);
    MatchedRecord(items[k], fs[p].from, fs[p].data[Length(items[k])..], fs[p], checkpoint);
  }

  lemma {:induction false} NotNewer(rs: seq<DispatchRequest>, f: nat, q: Queue, i: nat)
    requires TimesRise(rs) && f < |rs| && i < |Of(rs[..f], q)|
    ensures i < |Of(rs, q)| && Of(rs, q)[i].storeTimestamp <= rs[f].storeTimestamp
  {
    hide Of;
    var a := OfMember(rs[..f], q, i);
    OfPrefix(rs, f, q);
    assert Of(rs, q)[i] == rs[a];
  }

  // A request before a record of the checkpoint's age is indexed.
  lemma {:induction false} OlderIsIndexed(items: seq<Item>, k: nat, n: Queue -> nat, checkpoint: int64, q: Queue)
    requires k < |items| && items[k].Record? && Storable(items[k].m) && items[k].m.storeTimestamp <= checkpoint
    requires TimesRise(Issued(items)) && Vouched(Issued(items), n, checkpoint)
    ensures n(q) >= |Of(Issued(items[..k]), q)|
  {
    hide Of, Issued, Storable, Total;
    var rs, front := Issued(items), Issued(items[..k]);
    BeforeOrder(items, k, k + 1);
    BeforeOrder(items, k, k);
    assert items[..k + 1] == items[..k] + [items[k]];
    IssuedSnoc(items[..k], items[k]);
    IssuedPrefix(items[..k + 1], items);
    assert rs[|front|].storeTimestamp == items[k].m.storeTimestamp;
    assert rs[..|front|] == front;
    if n(q) < |Of(front, q)| { NotNewer(rs, |front|, q, n(q)); }
  }

  // The start file that recoverAbnormally chooses is not later than the first unindexed
  // message: if store times do not fall, every unindexed message is newer than the checkpoint,
  // and those in expired files are indexed.  (The log goes on in the chosen file, or it is the
  // first one.)
  lemma {:induction false} ChosenStartIsEarly(fs: seq<File>, size: int, items: seq<Item>, h: nat, n: Queue -> nat, checkpoint: int64)
    requires h <= |items| && Loaded(fs, size, items[h..]) && fs[0].from == Total(items[..h])
    requires TimesRise(Issued(items)) && Vouched(Issued(items), n, checkpoint)
    requires forall q :: n(q) >= |Of(Issued(items[..h]), q)|
    requires RecoverFrom(fs, checkpoint) == 0 || fs[RecoverFrom(fs, checkpoint)].from < Total(items)
    ensures IndexedBefore(items, fs[RecoverFrom(fs, checkpoint)].from, n)
  {
    hide Layout, LogBytes, Total, Flat, InFile, Chain, Window, Matched, Of, Issued, TimesRise, Vouched, Storable, RecoverFrom;
    var p := RecoverFrom(fs, checkpoint);
    var k := h;
    TotalSplit(items, h);
    if p > 0 {
      var i := FirstRecord(fs, size, items[h..], p, checkpoint);
      k := h + i;
      TotalOfSlice(items, h, k);
      assert items[h..][..i] == items[h..k] && items[h..][i] == items[k];
      forall q ensures n(q) >= |Of(Issued(items[..k]), q)| { OlderIsIndexed(items, k, n, checkpoint, q); }
    }
    forall j, q | 0 <= j <= |items| && Total(items[..j]) == fs[p].from ensures n(q) >= |Of(Issued(items[..j]), q)| {
      SameStart(items, j, k);
    }
  }

  // A file that starts with a record matches exactly if that has a store time, not a newer one.
  lemma {:induction false} RecordMatches(i: Item, at: int, rest: seq<byte>, f: File, checkpoint: int64)
    requires Window(f) == ItemBytes(i, at) + rest && i.Record?
    ensures Matched(f, checkpoint) <==> i.m.storeTimestamp != 0 && i.m.storeTimestamp <= checkpoint
  {
    hide R32, R64, Window, Head, Tail;
    var s := ItemBytes(i, at) + rest;
    assert At(s, 0, ItemBytes(i, at));
    AtSplit(s, 0, Head(i.m, i.queueOffset, Wrap64(at)), Tail(i.m));
    HeadFields(s, i.m, i.queueOffset, Wrap64(at));
  }

  lemma {:induction false} FirstMatches(fs: seq<File>, size: int, items: seq<Item>, p: nat, checkpoint: int64) returns (k: nat)
    requires Loaded(fs, size, items) && p < |fs| && fs[p].from < fs[0].from + Total(items)
    ensures k < |items| && fs[0].from + Total(items[..k]) == fs[p].from
    ensures items[k].Record? ==>
      (Matched(fs[p], checkpoint) <==> items[k].m.storeTimestamp != 0 && items[k].m.storeTimestamp <= checkpoint)
  {
    hide Layout, LogBytes, Total, Flat, InFile, Chain, Window, ItemBytes, Matched, Storable, RecordLength;
    k := StartsAtItem(fs, size, items, p);
    assert items[..|items|] == items;
    ItemInWindow(fs, size, items, k, p);
    assert Window(fs[p])[0..] == Window(fs[p]);
    if items[k].Record? { RecordMatches(items[k], fs[p].from, fs[p].data[Length(items[k])..], fs[p], checkpoint); }
  }

  // Nor is it earlier than need be: no later file that the log goes on in starts with a record
  // that has a store time not newer than the checkpoint.
  lemma {:induction false} ChosenStartIsLatest(fs: seq<File>, size: int, items: seq<Item>, checkpoint: int64, p: nat) returns (k: nat)
    requires Loaded(fs, size, items) && RecoverFrom(fs, checkpoint) < p < |fs| && fs[p].from < fs[0].from + Total(items)
    ensures k < |items| && fs[0].from + Total(items[..k]) == fs[p].from
    ensures items[k].Record? ==> items[k].m.storeTimestamp == 0 || checkpoint < items[k].m.storeTimestamp
  {
    hide Loaded, Total, RecoverFrom, Matched;
    k := FirstMatches(fs, size, items, p, checkpoint);
  }

  // A crashed store that recovers from the file its checkpoint selects is a running store
  // again, with every message of the log indexed, if and only if every queue settles: all it
  // takes is that every unindexed message left is newer than the checkpoint and not expired.
  lemma {:induction false} CheckpointRestart(c: Config, codec: Codec, s: State, fs: seq<File>, t: nat, h: nat, crc: bool, xs: Indexes,
                                             n: Queue -> nat, checkpoint: int64, contents: nat -> seq<byte>,
                                             table: map<seq<byte>, int64>)
    requires Crashed(c, codec, s, fs, t, h, crc) && FileSized(contents, c.indexSize)
    requires Holds(xs, c.indexSize, Issued(s.books.items), n)
    requires TimesRise(Issued(s.books.items[..t])) && Vouched(Issued(s.books.items[..t]), n, checkpoint)
    requires forall q :: n(q) >= |Of(Issued(s.books.items[..t][..h]), q)|
    requires var p := RecoverFrom(Load(fs), checkpoint); p == 0 || Load(fs)[p].from < Total(s.books.items[..t])
    ensures Restarts(c, codec, s, fs, t, h, RecoverFrom(Load(fs), checkpoint), crc, xs, n, contents, table)
  {
    hide Holds, IndexedBefore, Restarts, Issued, Of, TimesRise, Vouched, RecoverFrom, Loaded, FileSized, Sane, Crashed;
    CrashedLoaded(c, codec, s, fs, t, h, crc);
    var items, gs := s.books.items[..t], Load(fs);
    ChosenStartIsEarly(gs, c.logSize, items, h, n, checkpoint);
    CrashRestart(c, codec, s, fs, t, h, RecoverFrom(gs, checkpoint), crc, xs, n, contents, table);
  }

  lemma {:induction false} CrashedLoaded(c: Config, codec: Codec, s: State, fs: seq<File>, t: nat, h: nat, crc: bool)
    requires Crashed(c, codec, s, fs, t, h, crc)
    ensures Sane(c) && c.indexSize > UNIT_SIZE && h <= t <= |s.books.items| && fs != []
    ensures fs[0].from == Total(s.books.items[..t][..h]) && Loaded(Load(fs), c.logSize, s.books.items[..t][h..])
  {
    hide Inv, HoldsItems, Checksummed, Dirty, OnDisk, Loaded, Total, Derived;
    LoadedOnDisk(codec, fs, c.logSize, s.books.items[..t], h, crc);
    OnDiskLoaded(codec, Load(fs), c.logSize, s.books.items[..t], h, crc);
  }

  lemma {:induction false} OnDiskLoaded(codec: Codec, fs: seq<File>, size: int, items: seq<Item>, h: nat, crc: bool)
    requires OnDisk(codec, fs, size, items, h, crc)
    ensures h <= |items| && Loaded(fs, size, items[h..])
  {
    hide Loaded, Checksummed, Dirty;
  }
}
