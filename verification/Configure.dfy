/**
 Configuration files (configure.cc): an ordered map of items in memory, printed cell by cell into an
 empty file, written back into its old cells later, and loaded by scanning the cells.
 */
module Configure {
  import opened Options
  import opened Bytes
  import opened Parts
  import opened Posix
  import opened ConfigItem
  import opened Layout

  class Configuration {
    var fd: File
    var items: seq<Item> // the std::map, as the sequence it iterates
    var blank: bool
    var needSolid: bool
    var lastOffset: int
    const itemBuffer: array<byte>

    ghost predicate Valid()
      reads this
    {
      Ascending(items) && itemBuffer.Length == ITEM_SIZE + 1
    }

    /** Create */
    constructor Create(fd: File)
      ensures Valid() && this.fd == fd && items == [] && blank && needSolid && lastOffset == FEB31
      ensures fresh(itemBuffer)
    {
      this.fd := fd;
      items, blank, needSolid, lastOffset := [], true, true, FEB31;
      itemBuffer := new byte[ITEM_SIZE + 1](_ => 0);
    }

    /** NewItem: put an item under its key, whatever was there. */
    method NewItem(item: Item)
      requires Valid()
      modifies this`items
      ensures Valid() && forall x :: x in items <==> x == item || (x in old(items) && x.key != item.key)
    {
      InsertKeepsOrder(items, item);
      items := Insert(items, item);
    }

    /** Get: the value of a visual item; a black one has none. */
    method Get(key: text) returns (s: Status, property: seq<byte>)
      requires Valid()
      ensures s == if FindItem(items, key).Some? then Ok else NotExist
      ensures s == Ok ==>
        var item := FindItem(items, key).value;
        property == if item.Visual? then item.value else []
    {
      property := [];
      match FindItem(items, key)
      case None => s := NotExist;
      case Some(item) =>
        s := Ok;
        if item.Visual? { property := item.value; }
    }

    /** Set: only a key that exists gets a new value, as a visual item. */
    method Set(key: text, property: text) returns (s: Status)
      requires Valid()
      modifies this`items, this`needSolid
      ensures Valid() && s == if FindItem(old(items), key).Some? then Ok else NotExist
      ensures s != Ok ==> items == old(items)
      ensures s == Ok ==> needSolid
      ensures s == Ok ==>
        forall x :: x in items <==> x == Visual(key, property) || (x in old(items) && x.key != key)
    {
      match FindItem(items, key)
      case None => s := NotExist;
      case Some(_) =>
        NewItem(Visual(key, property));
        needSolid := true;
        s := Ok;
    }

    /** AppendItem: the cell, then the bytes of a sized item. */
    method AppendItem(item: Item, offset: nat) returns (next: nat)
      requires item.Black? ==> |item.key| < ITEM_SIZE
      requires item.Sized() ==> item.len == |item.data|
      modifies fd
      ensures fd.bytes == WriteAt(old(fd.bytes), offset, CellBytes(item)) && next == offset + |CellBytes(item)|
    {
      hide WriteAt, Serialize;
      var cell := Serialize(item);
      fd.Write(offset, cell);
      next := offset;
      if item.Sized() {
        fd.Write(offset + ITEM_SIZE, item.data);
        next := next + item.len;
        WriteWrite(old(fd.bytes), offset, cell, item.data);
      } else {
        assert CellBytes(item) == cell;
      }
      next := next + ITEM_SIZE;
    }

    /** One more item behind those written so far. */
    method AppendNext(item: Item, offset: nat, ghost before: seq<byte>, ghost done: seq<Item>) returns (next: nat)
      requires Printable(item)
      requires offset == |Printed(done)| && fd.bytes == WriteAt(before, 0, Printed(done))
      modifies fd
      ensures next == |Printed(done + [item])| && fd.bytes == WriteAt(before, 0, Printed(done + [item]))
    {
      hide Printed, WriteAt;
      PrintedAppend(done, item);
      WriteNext(before, Printed(done), CellBytes(item));
      next := AppendItem(item, offset);
    }

    /** The cells of a list of items, one after another. */
    method AppendItems(list: seq<Item>, offset: nat, ghost before: seq<byte>, ghost done: seq<Item>) returns (next: nat)
      requires forall x | x in list :: Printable(x)
      requires offset == |Printed(done)| && fd.bytes == WriteAt(before, 0, Printed(done))
      modifies fd
      ensures next == |Printed(done + list)| && fd.bytes == WriteAt(before, 0, Printed(done + list))
    {
      hide Printed, WriteAt, Printable;
      next := offset;
      assert done + list[..0] == done;
      for i := 0 to |list|
        invariant next == |Printed(done + list[..i])|
        invariant fd.bytes == WriteAt(before, 0, Printed(done + list[..i]))
      {
        assert list[i] in list;
        assert done + list[..i + 1] == done + list[..i] + [list[i]];
        next := AppendNext(list[i], next, before, done + list[..i]);
      }
      assert list[..|list|] == list;
    }

    /** The first Solid: visual items on the fly, black ones collected, sized before open-ended. */
    method SolidBlank()
      requires Valid() && blank && forall x | x in items :: Printable(x)
      modifies fd, this`lastOffset, this`blank, this`needSolid
      ensures fd.bytes == WriteAt(old(fd.bytes), 0, Printed(Ordered(items)))
      ensures lastOffset == fd.Last() && !blank && !needSolid
    {
      hide Printed, WriteAt, Printable, Ascending;
      ghost var before := fd.bytes;
      var off := 0;
      var blackItems, lastItems := [], [];
      NothingPrinted(before);
      for i := 0 to |items|
        invariant blackItems == Select(items[..i], 1) && lastItems == Select(items[..i], 2)
        invariant off == |Printed(Select(items[..i], 0))| && fd.bytes == WriteAt(before, 0, Printed(Select(items[..i], 0)))
      {
        var item := items[i];
        assert item in items;
        assert items[..i + 1][..i] == items[..i];
        if item.Black? {
          assert Select(items[..i + 1], 0) == Select(items[..i], 0);
          if item.Open() {
            lastItems := lastItems + [item];
          } else {
            blackItems := blackItems + [item];
          }
        } else {
          off := AppendNext(item, off, before, Select(items[..i], 0));
        }
      }
      assert items[..|items|] == items;
      SelectMembers(items, 1);
      SelectMembers(items, 2);
      ghost var visual := Select(items, 0);
      off := AppendItems(blackItems, off, before, visual);
      off := AppendItems(lastItems, off, before, visual + blackItems);
      lastOffset := fd.Last();
      blank, needSolid := false, false;
    }

    /** SearchItemOffset: scan the cells for a key. */
    method SearchItemOffset(key: text, ghost cells: seq<Item>, ghost tail: seq<byte>)
      returns (s: Status, off: nat, ghost at: nat)
      requires itemBuffer.Length == ITEM_SIZE + 1 && OnFile(fd.bytes, cells, tail) && AllSeen(cells)
      modifies itemBuffer
      ensures s == Ok ==> at < |cells| && cells[at].key == key && off == Start(CellsOf(cells), at)
      ensures s != Ok ==> s == NotExist && forall x | x in cells :: x.key != key
    {
      hide OnFile, Parse, Start, CellsOf, Printed, Stops;
      off, at := 0, 0;
      s := Ok;
      ghost var file := fd.bytes;
      FirstStart(CellsOf(cells));
      while s != EndOfFile
        invariant s == Ok && at <= |cells| && off == Start(CellsOf(cells), at)
        invariant at == |cells| ==> !EndsScan(cells)
        invariant forall j | 0 <= j < at :: cells[j].key != key
        decreases |cells| - at
      {
        CellOrEnd(file, cells, tail, at);
        var n;
        s, n := fd.Read(off, itemBuffer, ITEM_SIZE);
        if s != Ok {
          break;
        }
        assert itemBuffer[..ITEM_SIZE] == file[off..off + ITEM_SIZE];
        var header := Parse(itemBuffer[..ITEM_SIZE]);
        if key == header.key {
          return;
        }
        var next := NextOffset(header, off);
        at := at + 1;
        if next == FEB31 {
          break;
        }
        off := next;
      }
      s := NotExist;
    }

    /** InjectItem: write an item back into the cell with its key. */
    method InjectItem(item: Item, ghost cells: seq<Item>, ghost tail: seq<byte>) returns (s: Status)
      requires itemBuffer.Length == ITEM_SIZE + 1 && OnFile(fd.bytes, cells, tail) && AllSeen(cells) && Replaces([item], cells)
      modifies fd, itemBuffer
      ensures s == if FindItem(cells, item.key).Some? then Ok else NotExist
      ensures OnFile(fd.bytes, Rewritten(cells, [item]), tail)
    {
      hide OnFile, ItemFits, CellsOf, Start, CellBytes, Rewritten;
      var off;
      ghost var at;
      s, off, at := SearchItemOffset(item.key, cells, tail);
      if s != Ok {
        NothingRewritten(cells, [item]);
        return;
      }
      assert item in [item] && cells[at] in cells;
      FitsCell(item);
      OverwriteCell(fd.bytes, cells, tail, at, item);
      off := AppendItem(item, off);
    }

    /**
     A later Solid: every item goes back into its own cell. When all keys have a cell the file is the
     same layout with the map's items, every cell at its old offset, and the tail is untouched; the
     first key without a cell stops it.
     */
    method SolidInPlace(ghost cells: seq<Item>, ghost tail: seq<byte>) returns (s: Status, ghost n: nat)
      requires Valid() && !blank && OnFile(fd.bytes, cells, tail) && AllSeen(cells) && Replaces(items, cells)
      modifies fd, itemBuffer, this`needSolid
      ensures n <= |items| && OnFile(fd.bytes, Rewritten(cells, items[..n]), tail)
      ensures s == Ok ==> n == |items| && forall x | x in items :: FindItem(cells, x.key).Some?
      ensures s != Ok ==> s == NotExist && n < |items| && FindItem(cells, items[n].key).None?
    {
      hide OnFile, ItemFits, Replaces, Rewritten, Ascending;
      AscendingDistinctItems();
      CellsDistinct(fd.bytes, cells, tail);
      n := 0;
      s := Ok;
      NothingRewritten(cells, items[..0]);
      for i := 0 to |items|
        invariant n == i && s == Ok
        invariant OnFile(fd.bytes, Rewritten(cells, items[..i]), tail)
        invariant forall j | 0 <= j < i :: FindItem(cells, items[j].key).Some?
      {
        ReplacesRewritten(cells, items, i);
        RewriteStep(cells, items, i);
        FindRewritten(cells, items[..i], items[i].key);
        ghost var now := Rewritten(cells, items[..i]);
        StillSeen(cells, items, i);
        s := InjectItem(items[i], now, tail);
        if s != Ok {
          MissingCell(now, items[i]);
          return;
        }
        n := i + 1;
      }
      assert items[..|items|] == items;
      needSolid := false;
    }

    lemma AscendingDistinctItems()
      requires Valid()
      ensures DistinctKeys(items)
    {
      AscendingDistinct(items);
    }

    /** FetchItemBuffer, the buffer constructor of ITEM and the read of its bytes: cell `at` as an item. */
    method FetchItem(off: nat, ghost cells: seq<Item>, ghost tail: seq<byte>, ghost at: nat) returns (item: Item)
      requires itemBuffer.Length == ITEM_SIZE + 1 && OnFile(fd.bytes, cells, tail)
      requires at < |cells| && off == Start(CellsOf(cells), at)
      modifies itemBuffer
      ensures item == cells[at]
    {
      hide OnFile, Parse, Start, CellsOf, Serialize, VisualFits, BlackFits;
      ghost var file := fd.bytes;
      ReadCell(file, cells, tail, at);
      CellFits(file, cells, tail, at);
      var s, n := fd.Read(off, itemBuffer, ITEM_SIZE);
      assert itemBuffer[..ITEM_SIZE] == file[off..off + ITEM_SIZE];
      match Parse(itemBuffer[..ITEM_SIZE])
      case VisualHeader(key, value) =>
        item := Visual(key, value);
      case BlackHeader(key, len) =>
        if len != FEB31 {
          var buf := new byte[len];
          s, n := fd.Read(off + ITEM_SIZE, buf, len);
          item := Black(key, len, buf[..]);
        } else {
          item := Black(key, len, []);
        }
    }

    /** Load: scan the cells of a file into the map. */
    method Load(file: File, ghost cells: seq<Item>, ghost tail: seq<byte>) returns (s: Status)
      requires Valid() && OnFile(file.bytes, cells, tail)
      modifies this`fd, this`items, this`lastOffset, this`needSolid, this`blank, itemBuffer
      ensures Valid() && s == Ok && fd == file && lastOffset == file.Last() && !needSolid && !blank
      ensures var seen := cells[..Reached(cells, 0)];
        forall x :: x in items <==> x in seen || (x in old(items) && FindItem(seen, x.key).None?)
    {
      hide OnFile, Parse, Start, CellsOf, Ascending, Stops, DistinctKeys;
      fd := file;
      var off := 0;
      ghost var at := 0;
      FirstStart(CellsOf(cells));
      CellsDistinct(file.bytes, cells, tail);
      assert cells[..0] == [];
      while true
        invariant Valid() && fd == file && at <= |cells| && off == Start(CellsOf(cells), at)
        invariant at == |cells| ==> !EndsScan(cells)
        invariant Reached(cells, at) == Reached(cells, 0)
        invariant forall x :: x in items <==> x in cells[..at] || (x in old(items) && FindItem(cells[..at], x.key).None?)
        decreases |cells| - at
      {
        CellOrEnd(file.bytes, cells, tail, at);
        var n;
        s, n := fd.Read(off, itemBuffer, ITEM_SIZE);
        if s == EndOfFile {
          break;
        }
        var item := FetchItem(off, cells, tail, at);
        NewItem(item);
        LoadedOne(cells, at, old(items));
        var next := NextOffset(HeaderOf(item), off);
        at := at + 1;
        if next == FEB31 {
          break;
        }
        off := next;
      }
      assert at == Reached(cells, 0);
      s, lastOffset, needSolid, blank := Ok, fd.Last(), false, false;
    }
  }

  /**
   A first Solid into an empty file and a Load give back every item, type, key, value, length and
   bytes, exactly when a scan can see the whole layout.
   */
  method SolidThenLoad(conf: Configuration) returns (loaded: Configuration)
    requires conf.Valid() && conf.blank && AllFit(conf.items) && conf.fd.bytes == []
    modifies conf, conf.fd
    ensures conf.Valid() && conf.items == old(conf.items) && conf.fd == old(conf.fd)
    ensures OnFile(conf.fd.bytes, Ordered(conf.items), []) && conf.fd.bytes == Printed(Ordered(conf.items))
    ensures fresh(loaded) && loaded.Valid()
    ensures loaded.items == conf.items <==> AllSeen(Ordered(conf.items))
  {
    hide Printed, ItemFits, Ordered, Stops;
    ghost var cells := Ordered(conf.items);
    OrderedMembers(conf.items);
    AscendingDistinct(conf.items);
    OrderedDistinct(conf.items);
    forall x | x in conf.items ensures Printable(x) { FitsCell(x); }
    conf.SolidBlank();
    assert conf.fd.bytes == Printed(cells) + [];
    loaded := new Configuration.Create(conf.fd);
    var s := loaded.Load(conf.fd, cells, []);
    ReachedAll(cells, 0);
    WholeOrPart(cells, conf.items, loaded.items);
  }

  lemma WholeOrPart(cells: seq<Item>, items: seq<Item>, loaded: seq<Item>)
    requires DistinctKeys(cells) && Ascending(items) && Ascending(loaded)
    requires forall x :: x in cells <==> x in items
    requires forall x :: x in loaded <==> x in cells[..Reached(cells, 0)]
    ensures loaded == items <==> Reached(cells, 0) == |cells|
  {
    var n := Reached(cells, 0);
    if n == |cells| {
      assert cells[..n] == cells;
      SameMembersSameMap(loaded, items);
    } else {
      var missed := cells[n];
      assert missed in cells;
      forall i | 0 <= i < n ensures cells[..n][i] != missed {}
    }
  }

  /**
   When the items in memory may be written back and have the keys of the cells, Solid and Load give back
   exactly the map in memory; every cell keeps its offset and the tail of the file is not touched.
   */
  method ResolidThenLoad(conf: Configuration, ghost cells: seq<Item>, ghost tail: seq<byte>) returns (loaded: Configuration)
    requires conf.Valid() && !conf.blank && OnFile(conf.fd.bytes, cells, tail) && AllSeen(cells)
    requires Replaces(conf.items, cells)
    requires forall x | x in conf.items :: FindItem(cells, x.key).Some?
    requires forall x | x in cells :: FindItem(conf.items, x.key).Some?
    modifies conf, conf.fd, conf.itemBuffer
    ensures conf.items == old(conf.items) && conf.fd == old(conf.fd)
    ensures fresh(loaded) && loaded.Valid() && loaded.items == conf.items
    ensures var now := Rewritten(cells, conf.items);
      && OnFile(conf.fd.bytes, now, tail)
      && forall i | 0 <= i <= |cells| :: Start(CellsOf(now), i) == Start(CellsOf(cells), i)
  {
    hide Printed, ItemFits, AllFit, Stops, AllSeen, Rewritten, Start, CellsOf;
    hide Ascending, DistinctKeys, OnFile, Replaces, FindItem, EndsScan, Reached;
    ghost var now := Rewritten(cells, conf.items);
    WrittenBack(conf.fd.bytes, cells, tail, conf.items);
    var s;
    ghost var n;
    s, n := conf.SolidInPlace(cells, tail);
    assert conf.items[..|conf.items|] == conf.items;
    loaded := new Configuration.Create(conf.fd);
    s := loaded.Load(conf.fd, now, tail);
    assert now[..|now|] == now;
    SameMembersSameMap(loaded.items, conf.items);
  }

  /**
   A load, any settings, Solid and a load again. Settings of keys without a cell are refused; all others
   show in the cells, the last one winning. Nothing else of the file changes, and the second load gives
   exactly those items.
   */
  method LoadSetSolidLoad(file: File, sets: seq<Setting>, ghost cells: seq<Item>, ghost tail: seq<byte>)
    returns (loaded: Configuration)
    requires OnFile(file.bytes, cells, tail) && AllSeen(cells) && Settable(cells, sets)
    modifies file
    ensures fresh(loaded) && loaded.Valid()
    ensures var now := AfterSets(cells, sets);
      && OnFile(file.bytes, now, tail)
      && (forall i | 0 <= i <= |cells| :: Start(CellsOf(now), i) == Start(CellsOf(cells), i))
      && (forall x :: x in loaded.items <==> x in now)
  {
    hide OnFile, ItemFits, AllFit, Stops, AllSeen, AfterSets, Start, CellsOf, Ascending, DistinctKeys, Replaces;
    hide EndsScan, Reached, Settable, Rewritten, FindItem;
    CellsDistinct(file.bytes, cells, tail);
    var conf := new Configuration.Create(file);
    var s := conf.Load(file, cells, tail);
    LoadedWhole(cells);
    for i := 0 to |sets|
      invariant conf.Valid() && conf.fd == file && !conf.blank && OnFile(file.bytes, cells, tail)
      invariant forall x :: x in conf.items <==> x in AfterSets(cells, sets[..i])
    {
      ghost var before := conf.items;
      s := conf.Set(sets[i].0, sets[i].1);
      SetStep(cells, sets, i, before, conf.items);
    }
    assert sets[..|sets|] == sets;
    conf.AscendingDistinctItems();
    SetsWriteBack(cells, sets, conf.items);
    loaded := ResolidThenLoad(conf, cells, tail);
  }

  lemma LoadedWhole(cells: seq<Item>)
    requires AllSeen(cells)
    ensures Reached(cells, 0) == |cells| && cells[..|cells|] == cells && AfterSets(cells, []) == cells
  {
    ReachedAll(cells, 0);
  }

  /** What a Solid in place leaves on file when map and cells have the same keys. */
  lemma WrittenBack(file: seq<byte>, cells: seq<Item>, tail: seq<byte>, items: seq<Item>)
    requires OnFile(file, cells, tail) && AllSeen(cells) && Replaces(items, cells) && Ascending(items)
    requires forall x | x in items :: FindItem(cells, x.key).Some?
    requires forall x | x in cells :: FindItem(items, x.key).Some?
    ensures var now := Rewritten(cells, items);
      && Reached(now, 0) == |now|
      && (forall i | 0 <= i <= |cells| :: Start(CellsOf(now), i) == Start(CellsOf(cells), i))
      && (forall x :: x in now <==> x in items)
  {
    hide Printed, ItemFits, Stops, Rewritten, Start, CellsOf;
    RewrittenLayout(cells, items);
    AscendingDistinct(items);
    SameKeys(cells, items);
    RewrittenMembers(cells, items);
    ReachedAll(Rewritten(cells, items), 0);
  }

  lemma SameKeys(cells: seq<Item>, items: seq<Item>)
    requires forall x | x in items :: FindItem(cells, x.key).Some?
    requires forall x | x in cells :: FindItem(items, x.key).Some?
    ensures forall x | x in items :: exists i :: 0 <= i < |cells| && cells[i].key == x.key
    ensures forall i | 0 <= i < |cells| :: FindItem(items, cells[i].key).Some?
  {
    forall x | x in items ensures exists i :: 0 <= i < |cells| && cells[i].key == x.key {
      var y := FindItem(cells, x.key).value;
      var i :| 0 <= i < |cells| && cells[i] == y;
    }
    forall i | 0 <= i < |cells| ensures FindItem(items, cells[i].key).Some? { assert cells[i] in cells; }
  }

  lemma CellsDistinct(file: seq<byte>, cells: seq<Item>, tail: seq<byte>)
    requires OnFile(file, cells, tail)
    ensures DistinctKeys(cells) && AllFit(cells)
  {
  }

  lemma StillSeen(cells: seq<Item>, items: seq<Item>, n: nat)
    requires Replaces(items, cells) && n < |items| && AllSeen(cells) && AllFit(cells) && DistinctKeys(cells)
    ensures AllSeen(Rewritten(cells, items[..n]))
  {
    ReplacesRewritten(cells, items, n);
    RewrittenLayout(cells, items[..n]);
  }

  lemma FitsCell(item: Item)
    requires ItemFits(item)
    ensures Printable(item)
  {
  }

  lemma CellFits(file: seq<byte>, cells: seq<Item>, tail: seq<byte>, at: nat)
    requires OnFile(file, cells, tail) && at < |cells|
    ensures ItemFits(cells[at])
  {
    assert cells[at] in cells;
  }

  lemma FindRewritten(cells: seq<Item>, items: seq<Item>, key: seq<byte>)
    ensures FindItem(Rewritten(cells, items), key).Some? <==> FindItem(cells, key).Some?
  {
    var r := Rewritten(cells, items);
    if FindItem(cells, key).Some? {
      var i :| 0 <= i < |cells| && cells[i] == FindItem(cells, key).value;
      assert r[i] in r;
    }
    if FindItem(r, key).Some? {
      var i :| 0 <= i < |r| && r[i] == FindItem(r, key).value;
      assert cells[i] in cells;
    }
  }

  lemma MissingCell(cells: seq<Item>, item: Item)
    requires FindItem(cells, item.key).None?
    ensures Rewritten(cells, [item]) == cells
  {
    forall i | 0 <= i < |cells| ensures cells[i].key != item.key { assert cells[i] in cells; }
  }

  /** The items loaded so far, after one more cell. */
  lemma LoadedOne(cells: seq<Item>, at: nat, before: seq<Item>)
    requires at < |cells| && DistinctKeys(cells)
    ensures cells[..at + 1] == cells[..at] + [cells[at]]
    ensures forall x | x in cells[..at] :: x.key != cells[at].key
    ensures forall key: seq<byte> ::
      FindItem(cells[..at + 1], key).None? <==> FindItem(cells[..at], key).None? && key != cells[at].key
  {
    assert cells[..at + 1] == cells[..at] + [cells[at]];
    forall key: seq<byte>
      ensures FindItem(cells[..at + 1], key).None? <==> FindItem(cells[..at], key).None? && key != cells[at].key
    {
      FindInLonger(cells[..at], cells[at], key);
    }
  }

  /** A reader at position `at` finds cell `at`, or the end of the file behind the last one. */
  lemma CellOrEnd(file: seq<byte>, cells: seq<Item>, tail: seq<byte>, at: nat)
    requires OnFile(file, cells, tail) && at <= |cells| && (at == |cells| ==> !EndsScan(cells))
    ensures var off := Start(CellsOf(cells), at);
      if at == |cells| then off == |file|
      else
        var next := NextOffset(HeaderOf(cells[at]), off);
        && off + ITEM_SIZE <= |file| && Parse(file[off..off + ITEM_SIZE]) == HeaderOf(cells[at])
        && (next == FEB31 <==> Stops(cells, at))
        && (next != FEB31 ==> next == Start(CellsOf(cells), at + 1) && (at == |cells| - 1 ==> !EndsScan(cells)))
  {
    hide Printed, Parse, Start, CellsOf, AllFit, DistinctKeys;
    if at < |cells| { ReadCell(file, cells, tail, at); } else { LayoutEnd(file, cells, tail); }
  }

  lemma NothingPrinted(before: seq<byte>)
    ensures Printed([]) == [] && WriteAt(before, 0, Printed([])) == before
  {
  }

  /** Writing one more piece behind what has been written from the start of the file. */
  lemma WriteNext(before: seq<byte>, done: seq<byte>, more: seq<byte>)
    ensures WriteAt(WriteAt(before, 0, done), |done|, more) == WriteAt(before, 0, done + more)
  {
    hide WriteAt;
    if done == [] {
      assert done + more == more;
      WriteNothing(before);
    } else {
      WriteWrite(before, 0, done, more);
    }
  }

  lemma WriteNothing(before: seq<byte>)
    ensures WriteAt(before, 0, []) == before
  {
  }
}
