// A log of items laid out in a chain of files.

module LogFiles {
  import opened Arithmetic
  import opened Log
  import opened Segments

  // The files hold exactly the items.  putMessage creates the first file at offset 0.
  ghost predicate HoldsItems(fs: seq<File>, size: int, items: seq<Item>) {
    && Chain(fs, size) && 0 <= BaseOf(fs) && InFile(BaseOf(fs), size) == 0
    && Layout(items, BaseOf(fs), size) && Flat(fs) == LogBytes(items, BaseOf(fs))
    && (fs == [] ==> items == [])
  }
}
