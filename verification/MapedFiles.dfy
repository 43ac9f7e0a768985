// Mapped buffers, mapped files and the queue of files, updated in place.  Creating a
// file may fail; a fresh mapping has arbitrary contents.

module MapedFiles {
  import opened Arithmetic
  import opened Bytes
  import opened Segments

  // A byte buffer with separate read and write positions.  Two buffers may share buf:
  // Bytes() hands out the same memory with a shorter length.
  class MappedByteBuffer {
    const buf: array<byte>
    const len: nat
    var readPos: nat
    var writePos: nat
    var limit: nat

    ghost predicate Valid()
      reads this
    {
      len <= buf.Length
    }

    constructor (buf: array<byte>, len: nat)
      requires len <= buf.Length
      ensures Valid() && this.buf == buf && this.len == len
      ensures readPos == 0 && writePos == 0 && limit == buf.Length
    {
      this.buf, this.len := buf, len;
      readPos, writePos, limit := 0, 0, buf.Length;
    }

    // The bytes a reader has not consumed yet.
    function Unread(): seq<byte>
      requires Valid() && readPos <= len
      reads this, buf
    {
      buf[readPos..len]
    }

    method Write(data: seq<byte>) returns (ok: bool)
      requires Valid() && limit <= len
      modifies this`writePos, buf
      ensures ok == (old(writePos) + |data| <= limit)
      ensures ok ==> writePos == old(writePos) + |data|
                     && buf[..] == Overwrite(old(buf[..]), old(writePos), data)
      ensures !ok ==> writePos == old(writePos) && buf[..] == old(buf[..])
    {
      if writePos + |data| > limit {
        return false;
      }
      for i := 0 to |data|
        invariant writePos == old(writePos)
        invariant buf[writePos..writePos + i] == data[..i]
        invariant buf[..writePos] == old(buf[..writePos])
        invariant buf[writePos + |data|..] == old(buf[writePos + |data|..])
      {
        buf[writePos + i] := data[i];
      }
      assert buf[..] == buf[..writePos] + buf[writePos..writePos + |data|] + buf[writePos + |data|..];
      writePos := writePos + |data|;
      ok := true;
    }

    // Fills a fresh n-byte slice: short reads leave zeros at its end.
    method Read(n: nat) returns (data: seq<byte>)
      requires Valid() && readPos <= len
      modifies this`readPos
      ensures readPos == Min(old(readPos) + n, len) && readPos <= len
      ensures data == Padded(old(Unread()), n)
    {
      var taken := Min(n, len - readPos);
      data := buf[readPos..readPos + taken] + Zeros(n - taken);
      assert data == Padded(Unread(), n);
      readPos := readPos + taken;
    }
  }

  // A mapped file.  Its memory is the sequence `data` of fixed length `size`; writePos is
  // the position its buffer keeps, wrote the position the file keeps.
  class MapedFile {
    const from: int
    const size: int
    var data: seq<byte>
    var writePos: int
    var wrote: int
    var committed: int
    var storeTimestamp: int
    var firstCreate: bool
    var available: bool
    ghost var disk: seq<byte>

    ghost predicate Valid()
      reads this
    {
      size > 0 && |data| == size && 0 <= writePos
    }

    ghost function View(): File
      reads this
    {
      File(from, data, disk, wrote, writePos, committed, storeTimestamp, firstCreate, available)
    }

    constructor (from: int, contents: seq<byte>)
      requires contents != []
      ensures Valid() && this.from == from && size == |contents|
      ensures View() == NewFile(from, contents, false)
    {
      this.from, size, data := from, |contents|, contents;
      writePos, wrote, committed, storeTimestamp := 0, 0, 0, 0;
      firstCreate, available := false, true;
      disk := contents;
    }

    // MappedByteBuffer.Write on the file's own buffer, whose limit is the file size.
    method Write(bytes: seq<byte>) returns (ok: bool)
      requires Valid()
      modifies this`data, this`writePos
      ensures Valid() && ok == (old(writePos) + |bytes| <= size)
      ensures ok ==> data == Overwrite(old(data), old(writePos), bytes) && writePos == old(writePos) + |bytes|
      ensures !ok ==> data == old(data) && writePos == old(writePos)
    {
      if writePos + |bytes| > size {
        return false;
      }
      data := data[..writePos] + bytes + data[writePos + |bytes|..];
      writePos := writePos + |bytes|;
      ok := true;
    }

    method AppendMessage(bytes: seq<byte>) returns (ok: bool)
      requires Valid()
      modifies this`wrote, this`data, this`writePos
      ensures Valid() && ok == (old(wrote) + |bytes| <= size && old(writePos) + |bytes| <= size)
      ensures View() == if ok then AppendTo(old(View()), bytes) else old(View())
    {
      ok := false;
      if wrote + |bytes| <= size {
        ok := Write(bytes);
        if ok {
          wrote := wrote + |bytes|;
        }
      }
    }
  }

  // One file of truncateDirtyFiles: left alone, cut at the offset, or (keep == false) dropped.
  method CutOne(f: MapedFile, offset: int) returns (keep: bool)
    requires f.Valid() && offset >= 0
    modifies f`wrote, f`writePos, f`committed
    ensures f.Valid()
    ensures keep == CutFile(old(f.View()), f.size, offset).Some?
    ensures f.View() == (if keep then CutFile(old(f.View()), f.size, offset).value else old(f.View()))
  {
    hide Rem;
    RemRange(offset, f.size);
    keep := true;
    if f.from + f.size > offset {
      if offset >= f.from {
        var pos := Rem(offset, f.size);
        f.wrote, f.writePos, f.committed := pos, pos, pos;
      } else {
        keep := false;
      }
    }
  }

  class MapedFileQueue {
    const size: int
    var files: seq<MapedFile>
    var committedWhere: int

    ghost predicate Valid()
      reads this, files
    {
      && size > 0
      && (forall i :: 0 <= i < |files| ==> files[i].Valid() && files[i].size == size)
      && (forall i, j :: 0 <= i < j < |files| ==> files[i] != files[j])
    }

    ghost function View(): (fs: seq<File>)
      reads this, files
      ensures |fs| == |files| && forall i :: 0 <= i < |fs| ==> fs[i] == files[i].View()
    {
      seq(|files|, i requires 0 <= i < |files| reads this, files => files[i].View())
    }

    constructor (size: int)
      requires size > 0
      ensures Valid() && this.size == size && files == [] && committedWhere == 0
    {
      this.size, files, committedWhere := size, [], 0;
    }

    // If nothing but the last file changed, the view changed only there.
    twostate lemma {:induction false} OnlyLastChanged(f: MapedFile)
      requires old(Valid()) && files == old(files) != [] && f == files[|files| - 1] && f.Valid()
      requires forall g :: g in files && g != f ==> unchanged(g)
      ensures View() == WithLast(old(View()), f.View()) && Valid()
    {
      forall i | 0 <= i < |files| - 1
        ensures files[i].View() == old(files[i].View()) && files[i].Valid()
      {
        assert files[i] in files;
      }
    }

    method FindMapedFileByOffset(offset: int, firstOnNotFound: bool) returns (i: int, f: MapedFile?)
      requires Valid()
      ensures match Lookup(View(), size, offset, firstOnNotFound)
              case None => f == null
              case Some(k) => i == k < |files| && f == files[k]
    {
      i, f := -1, null;
      if files == [] {
        return;
      }
      var index := Quo(offset, size) - Quo(files[0].from, size);
      for k := 0 to |files|
        invariant index < 0 || k <= index
      {
        if k == index {
          return k, files[k];
        }
      }
      if firstOnNotFound {
        return 0, files[0];
      }
    }

    // The last file, or a new one if there is none or it is full.  A new file maps whatever
    // `contents` the file system provides; creating it may fail.
    method GetLastMapedFile(startOffset: int, createOk: bool, contents: seq<byte>) returns (f: MapedFile?)
      requires Valid() && startOffset >= 0 && |contents| == size
      requires files != [] ==> files[|files| - 1].from >= 0
      modifies this`files
      ensures Valid()
      ensures f == null ==> !createOk && files == old(files)
      ensures f != null ==>
        && files != [] && f == files[|files| - 1]
        && View() == EnsureLast(old(View()), size, startOffset, contents)
        && (files == old(files) || (files == old(files) + [f] && fresh(f)))
    {
      hide Rem;
      StartOfFile(startOffset, size);
      var createOffset := -1;
      var last: MapedFile? := null;
      if files == [] {
        createOffset := startOffset - Rem(startOffset, size);
      } else {
        last := files[|files| - 1];
      }
      if last != null && last.wrote == size {
        createOffset := last.from + size;
      }
      if createOffset == -1 {
        return last;
      }
      if !createOk {
        return null;
      }
      var file := new MapedFile(createOffset, contents);
      file.firstCreate := files == [];
      files := files + [file];
      f := file;
    }

    // truncateDirtyFiles: cut the file that covers the offset, drop the files behind it.
    method TruncateDirtyFiles(offset: int)
      requires Valid() && offset >= 0
      modifies this`files, files
      ensures Valid() && View() == Truncate(old(View()), size, offset)
      ensures forall f :: f in files ==> f in old(files)
    {
      hide CutFile, Truncate;
      ghost var fs := View();
      TruncateNothing(fs[..0], size, offset);
      var kept: seq<MapedFile> := [];
      for i := 0 to |files|
        invariant files == old(files) && Valid()
        invariant forall j :: i <= j < |files| ==> files[j].View() == fs[j]
        invariant forall k :: 0 <= k < |kept| ==> kept[k] in files[..i]
        invariant forall j, k :: 0 <= j < k < |kept| ==> kept[j] != kept[k]
        invariant |kept| == |Truncate(fs[..i], size, offset)|
        invariant forall k :: 0 <= k < |kept| ==> kept[k].View() == Truncate(fs[..i], size, offset)[k]
      {
        var f := files[i];
        TruncateStep(fs, size, offset, i);
        assert f !in kept;
        var keep := CutOne(f, offset);
        if keep {
          kept := kept + [f];
        }
      }
      assert fs[..|files|] == fs;
      files := kept;
    }
  }

  lemma {:induction false} TruncateNothing(fs: seq<File>, size: int, offset: int)
    requires size > 0 && fs == []
    ensures Truncate(fs, size, offset) == []
  {
  }

  lemma {:induction false} RemRange(offset: int, size: int)
    requires size > 0 && offset >= 0
    ensures 0 <= Rem(offset, size) < size
  {
  }

  lemma {:induction false} StartOfFile(offset: int, size: int)
    requires size > 0 && offset >= 0
    ensures 0 <= offset - Rem(offset, size) <= offset
  {
    DivBounds(offset, size);
    MulMonotone(0, offset / size, size);
  }

  lemma {:induction false} WindowIs(f: MapedFile)
    requires f.Valid() && f.writePos <= f.size
    ensures Window(f.View()) == f.data[..f.writePos]
  {
  }

  // No file is written past its end.
  ghost predicate Bounded(q: MapedFileQueue)
    reads q, q.files
  {
    forall i :: 0 <= i < |q.files| ==> q.files[i].writePos <= q.size
  }
}
