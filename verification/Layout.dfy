/**
 The layout of a configuration file: the cells of all items end to end, a sized black item followed
 by its bytes, an open-ended item last and followed by a tail that belongs to somebody else.
 */
module Layout {
  import opened Options
  import opened Bytes
  import opened Parts
  import opened ConfigItem

  // ----- the item map, in the order std::map iterates it

  predicate Less(a: seq<byte>, b: seq<byte>) {
    b != [] && (a == [] || a[0] < b[0] || (a[0] == b[0] && Less(a[1..], b[1..])))
  }

  /** The order of std::map: at the first difference the smaller byte decides, and a prefix comes first. */
  lemma {:induction false} LessMeans(a: seq<byte>, b: seq<byte>)
    ensures Less(a, b) <==>
      exists i: nat :: i <= |a| && i < |b| && a[..i] == b[..i] && (i == |a| || a[i] < b[i])
  {
    if b == [] {
      return;
    }
    if a == [] || a[0] != b[0] {
      assert a[..0] == b[..0];
      if a != [] { SameFirst(a, b); }
    } else {
      LessMeans(a[1..], b[1..]);
      forall i: nat | i <= |a[1..]| && i < |b[1..]| && a[1..][..i] == b[1..][..i]
        ensures a[..i + 1] == b[..i + 1]
      {
        assert a[..i + 1] == [a[0]] + a[1..][..i] && b[..i + 1] == [b[0]] + b[1..][..i];
      }
      forall i: nat | 0 < i <= |a| && i < |b| && a[..i] == b[..i] ensures a[1..][..i - 1] == b[1..][..i - 1] {
        assert a[1..][..i - 1] == a[..i][1..] && b[1..][..i - 1] == b[..i][1..];
      }
      LessStep(a, b);
    }
  }

  lemma SameFirst(a: seq<byte>, b: seq<byte>)
    requires a != [] && b != []
    ensures forall i: nat | 0 < i <= |a| && i < |b| && a[..i] == b[..i] :: a[0] == b[0]
  {
    forall i: nat | 0 < i <= |a| && i < |b| && a[..i] == b[..i] ensures a[0] == b[0] {
      assert a[0] == a[..i][0] == b[..i][0];
    }
  }

  lemma LessStep(a: seq<byte>, b: seq<byte>)
    requires a != [] && b != [] && a[0] == b[0]
    requires forall i: nat | i <= |a[1..]| && i < |b[1..]| && a[1..][..i] == b[1..][..i] :: a[..i + 1] == b[..i + 1]
    requires forall i: nat | 0 < i <= |a| && i < |b| && a[..i] == b[..i] :: a[1..][..i - 1] == b[1..][..i - 1]
    ensures (exists i: nat :: i <= |a| && i < |b| && a[..i] == b[..i] && (i == |a| || a[i] < b[i]))
      <==> (exists i: nat :: i <= |a[1..]| && i < |b[1..]| && a[1..][..i] == b[1..][..i] && (i == |a[1..]| || a[1..][i] < b[1..][i]))
  {
    if i: nat :| i <= |a| && i < |b| && a[..i] == b[..i] && (i == |a| || a[i] < b[i]) {
      assert i > 0 && a[1..][..i - 1] == b[1..][..i - 1];
    }
    if i: nat :| i <= |a[1..]| && i < |b[1..]| && a[1..][..i] == b[1..][..i] && (i == |a[1..]| || a[1..][i] < b[1..][i]) {
      assert a[..i + 1] == b[..i + 1];
    }
  }

  lemma {:induction false} LessTransitive(a: seq<byte>, b: seq<byte>, c: seq<byte>)
    requires Less(a, b) && Less(b, c)
    ensures Less(a, c)
  {
    if a != [] && a[0] == b[0] == c[0] { LessTransitive(a[1..], b[1..], c[1..]); }
  }

  lemma {:induction false} LessTotal(a: seq<byte>, b: seq<byte>)
    ensures !(Less(a, b) && a == b) && (a == b || Less(a, b) || Less(b, a))
  {
    if a != [] && b != [] && a[0] == b[0] {
      LessTotal(a[1..], b[1..]);
      assert a == [a[0]] + a[1..] && b == [b[0]] + b[1..];
    }
  }

  ghost predicate Ascending(items: seq<Item>) {
    forall i, j | 0 <= i < j < |items| :: Less(items[i].key, items[j].key)
  }

  ghost predicate DistinctKeys(items: seq<Item>) {
    forall i, j | 0 <= i < j < |items| :: items[i].key != items[j].key
  }

  lemma AscendingDistinct(items: seq<Item>)
    requires Ascending(items)
    ensures DistinctKeys(items)
  {
    forall i, j | 0 <= i < j < |items| ensures items[i].key != items[j].key { LessTotal(items[i].key, items[j].key); }
  }

  /** ITEM_MAP_FIND */
  function FindItem(items: seq<Item>, key: seq<byte>): (r: Option<Item>)
    ensures r.Some? ==> r.value in items && r.value.key == key
    ensures r.None? ==> forall x | x in items :: x.key != key
  {
    if items == [] then None else if items[0].key == key then Some(items[0]) else FindItem(items[1..], key)
  }

  /** Erase the item with the same key, if any, and insert. */
  function Insert(items: seq<Item>, item: Item): seq<Item> {
    if items == [] then [item]
    else if items[0].key == item.key then [item] + items[1..]
    else if Less(item.key, items[0].key) then [item] + items
    else [items[0]] + Insert(items[1..], item)
  }

  lemma {:induction false} InsertKeepsOrder(items: seq<Item>, item: Item)
    requires Ascending(items)
    ensures Ascending(Insert(items, item))
    ensures forall x :: x in Insert(items, item) <==> x == item || (x in items && x.key != item.key)
  {
    if items != [] {
      var first, rest := items[0], items[1..];
      assert items == [first] + rest;
      forall x | x in rest ensures Less(first.key, x.key) && first.key != x.key {
        var i :| 0 <= i < |rest| && rest[i] == x;
        assert items[i + 1] == x;
        LessTotal(first.key, x.key);
      }
      LessTotal(first.key, item.key);
      if first.key == item.key {
        ConsAscending(item, rest);
      } else if Less(item.key, first.key) {
        forall x | x in items ensures Less(item.key, x.key) && item.key != x.key {
          if x != first { LessTransitive(item.key, first.key, x.key); }
          LessTotal(item.key, x.key);
        }
        ConsAscending(item, items);
      } else {
        InsertKeepsOrder(rest, item);
        ConsAscending(first, Insert(rest, item));
      }
    }
  }

  lemma ConsAscending(first: Item, rest: seq<Item>)
    requires Ascending(rest) && forall x | x in rest :: Less(first.key, x.key)
    ensures Ascending([first] + rest)
  {
    var all := [first] + rest;
    forall i, j | 0 <= i < j < |all| ensures Less(all[i].key, all[j].key) {
      assert all[j] == rest[j - 1] && rest[j - 1] in rest;
      if i > 0 { assert all[i] == rest[i - 1]; }
    }
  }

  // ----- cells on file

  function CellBytes(item: Item): (bs: seq<byte>)
    ensures |bs| >= ITEM_SIZE && bs[..ITEM_SIZE] == Serialize(item)
  {
    Serialize(item) + if item.Sized() then item.data else []
  }

  ghost predicate ItemFits(item: Item) {
    match item
    case Visual(key, value) => VisualFits(key, value)
    case Black(key, len, data) =>
      && |key| < ITEM_SIZE && BlackFits(key, len) && -WORD <= 2 * len < WORD
      && if len == FEB31 then data == [] else len == |data| > 0
  }

  function CellsOf(items: seq<Item>): (ps: seq<seq<byte>>)
    ensures |ps| == |items|
  {
    seq(|items|, i requires 0 <= i < |items| => CellBytes(items[i]))
  }

  /** What the items look like on file. */
  function Printed(items: seq<Item>): seq<byte> {
    Flatten(CellsOf(items))
  }

  lemma PrintedAppend(items: seq<Item>, item: Item)
    ensures Printed(items + [item]) == Printed(items) + CellBytes(item)
  {
    assert CellsOf(items + [item]) == CellsOf(items) + [CellBytes(item)];
    FlattenAppend(CellsOf(items), CellBytes(item));
  }

  /** What AppendItem can print: a name inside the cell, and as many bytes as the length says. */
  ghost predicate Printable(item: Item) {
    item.Black? ==> |item.key| < ITEM_SIZE && (item.Sized() ==> item.len == |item.data|)
  }

  ghost predicate AllFit(items: seq<Item>) {
    forall x | x in items :: ItemFits(x)
  }

  /** A scan goes no further than cell `i`: it is open-ended, or the next one starts at the offset taken for "open-ended". */
  ghost predicate Stops(cells: seq<Item>, i: nat)
    requires i < |cells|
  {
    cells[i].Open() || Start(CellsOf(cells), i + 1) == FEB31
  }

  /** How many cells a scan sees, from cell `i` on. */
  ghost function Reached(cells: seq<Item>, i: nat): (n: nat)
    requires i <= |cells|
    ensures i <= n <= |cells|
    decreases |cells| - i
  {
    if i == |cells| then i else if Stops(cells, i) then i + 1 else Reached(cells, i + 1)
  }

  /** No scan goes beyond the last cell, whatever lies there. */
  ghost predicate EndsScan(cells: seq<Item>) { cells != [] && Stops(cells, |cells| - 1) }

  /** The file holds these cells, and behind a last one that ends every scan whatever its owner has put there. */
  ghost predicate OnFile(file: seq<byte>, cells: seq<Item>, tail: seq<byte>) {
    && AllFit(cells) && DistinctKeys(cells) && file == Printed(cells) + tail
    && (tail != [] ==> EndsScan(cells))
  }

  /** Scans see every cell. */
  ghost predicate AllSeen(cells: seq<Item>) {
    forall i | 0 <= i < |cells| - 1 :: !Stops(cells, i)
  }

  lemma {:induction false} ReachedAll(cells: seq<Item>, i: nat)
    requires i <= |cells|
    ensures Reached(cells, i) == |cells| <==> forall j | i <= j < |cells| - 1 :: !Stops(cells, j)
    decreases |cells| - i
  {
    hide Stops;
    if i < |cells| && !Stops(cells, i) { ReachedAll(cells, i + 1); }
  }

  lemma {:induction false} ReachedSpan(cells: seq<Item>, i: nat)
    requires i <= |cells|
    ensures forall j | i <= j < Reached(cells, i) - 1 :: !Stops(cells, j)
    ensures i < |cells| ==> Reached(cells, i) > i
    ensures Reached(cells, i) < |cells| ==> Stops(cells, Reached(cells, i) - 1)
    decreases |cells| - i
  {
    hide Stops;
    if i < |cells| && !Stops(cells, i) { ReachedSpan(cells, i + 1); }
  }

  lemma {:induction false} FlattenJoin(a: seq<seq<byte>>, b: seq<seq<byte>>)
    ensures Flatten(a + b) == Flatten(a) + Flatten(b)
  {
    if b == [] {
      assert a + b == a;
    } else {
      var n := |b| - 1;
      FlattenJoin(a, b[..n]);
      assert (a + b)[..|a + b| - 1] == a + b[..n];
    }
  }

  lemma StopsInPrefix(cells: seq<Item>, n: nat, i: nat)
    requires i < n <= |cells|
    ensures Stops(cells[..n], i) <==> Stops(cells, i)
  {
    assert CellsOf(cells[..n]) == CellsOf(cells)[..n];
    StartOfPrefix(CellsOf(cells), n, i + 1);
  }

  /** Cells no scan reaches may be counted as what lies behind the layout: every layout has a part that is seen whole. */
  lemma SeenPrefix(file: seq<byte>, cells: seq<Item>, tail: seq<byte>)
    requires OnFile(file, cells, tail)
    ensures var n := Reached(cells, 0);
      OnFile(file, cells[..n], Printed(cells[n..]) + tail) && AllSeen(cells[..n])
  {
    hide Stops, ItemFits, Flatten;
    var n := Reached(cells, 0);
    ReachedSpan(cells, 0);
    forall i | 0 <= i < n ensures Stops(cells[..n], i) <==> Stops(cells, i) { StopsInPrefix(cells, n, i); }
    assert cells == cells[..n] + cells[n..] && CellsOf(cells) == CellsOf(cells[..n]) + CellsOf(cells[n..]);
    FlattenJoin(CellsOf(cells[..n]), CellsOf(cells[n..]));
    if n == |cells| { assert cells[..n] == cells && CellsOf(cells[n..]) == []; NothingFlat(); }
  }

  lemma NothingFlat()
    ensures Flatten([]) == []
  {
  }

  /** NextOffset: past the cell and its bytes; an open-ended item has no next. */
  function NextOffset(h: Header, off: int): int {
    var next := off + ITEM_SIZE + if h.BlackHeader? then h.len else 0;
    if h.BlackHeader? && h.len == FEB31 then FEB31 else next
  }

  predicate SizedAt(file: seq<byte>, off: nat, data: seq<byte>) {
    off + |data| <= |file| && file[off..off + |data|] == data
  }

  /** What a reader finds at cell `i`, and where it goes next. */
  lemma ReadCell(file: seq<byte>, cells: seq<Item>, tail: seq<byte>, i: nat)
    requires OnFile(file, cells, tail) && i < |cells|
    ensures var off, item := Start(CellsOf(cells), i), cells[i];
      && off + ITEM_SIZE <= |file| && Parse(file[off..off + ITEM_SIZE]) == HeaderOf(item)
      && (item.Sized() ==> item.len == |item.data| > 0 && SizedAt(file, off + ITEM_SIZE, item.data))
      && NextOffset(HeaderOf(item), off) == if item.Open() then FEB31 else Start(CellsOf(cells), i + 1)
  {
    hide Serialize, Parse, Flatten, BlackFits, VisualFits, Start, CellsOf;
    var item := cells[i];
    var bs := CellBytes(item);
    CellPlace(file, cells, tail, i);
    ItemParses(item);
    PartOf(file, Start(CellsOf(cells), i), bs, 0, ITEM_SIZE);
    PartOf(file, Start(CellsOf(cells), i), bs, ITEM_SIZE, |bs|);
  }

  lemma CellPlace(file: seq<byte>, cells: seq<Item>, tail: seq<byte>, i: nat)
    requires OnFile(file, cells, tail) && i < |cells|
    ensures ItemFits(cells[i])
    ensures var off, bs := Start(CellsOf(cells), i), CellBytes(cells[i]);
      off + |bs| <= |file| && file[off..off + |bs|] == bs && Start(CellsOf(cells), i + 1) == off + |bs|
  {
    hide Serialize, Flatten, ItemFits;
    assert cells[i] in cells;
    PartAt(CellsOf(cells), i);
  }

  lemma ItemParses(item: Item)
    requires ItemFits(item)
    ensures Parse(Serialize(item)) == HeaderOf(item)
  {
    match item
    case Visual(key, value) => VisualRoundTrip(key, value);
    case Black(key, len, data) => BlackRoundTrip(key, len, data);
  }

  /** After the last cell there is nothing to read unless it ends the scan. */
  lemma LayoutEnd(file: seq<byte>, cells: seq<Item>, tail: seq<byte>)
    requires OnFile(file, cells, tail)
    ensures Start(CellsOf(cells), |cells|) == |Printed(cells)| <= |file|
    ensures !EndsScan(cells) ==> Start(CellsOf(cells), |cells|) == |file|
  {
    FlattenLength(CellsOf(cells));
  }

  // ----- the order of a first Solid

  function Rank(item: Item): nat { if item.Visual? then 0 else if item.Sized() then 1 else 2 }

  function Select(items: seq<Item>, rank: nat): seq<Item> {
    if items == [] then []
    else
      var last := items[|items| - 1];
      Select(items[..|items| - 1], rank) + if Rank(last) == rank then [last] else []
  }

  /** Visual items first, then sized black ones, then open-ended ones, each in map order. */
  function Ordered(items: seq<Item>): seq<Item> {
    Select(items, 0) + Select(items, 1) + Select(items, 2)
  }

  lemma {:induction false} SelectMembers(items: seq<Item>, rank: nat)
    ensures forall x :: x in Select(items, rank) <==> x in items && Rank(x) == rank
  {
    if items != [] {
      var n := |items| - 1;
      SelectMembers(items[..n], rank);
      assert items == items[..n] + [items[n]];
    }
  }

  lemma {:induction false} SelectDistinct(items: seq<Item>, rank: nat)
    requires DistinctKeys(items)
    ensures DistinctKeys(Select(items, rank))
  {
    if items != [] {
      var n := |items| - 1;
      var front, s := items[..n], Select(items[..n], rank);
      SelectDistinct(front, rank);
      SelectMembers(front, rank);
      forall i | 0 <= i < |s| ensures s[i].key != items[n].key {
        assert s[i] in front;
        var j :| 0 <= j < |front| && front[j] == s[i];
      }
    }
  }

  lemma {:induction false} SelectAscending(items: seq<Item>, rank: nat)
    requires Ascending(items)
    ensures Ascending(Select(items, rank))
  {
    if items != [] {
      var n := |items| - 1;
      var front, s := items[..n], Select(items[..n], rank);
      SelectAscending(front, rank);
      SelectMembers(front, rank);
      forall i | 0 <= i < |s| ensures Less(s[i].key, items[n].key) {
        assert s[i] in front;
        var j :| 0 <= j < |front| && front[j] == s[i];
      }
    }
  }

  lemma GroupAt(items: seq<Item>, i: nat)
    requires i < |Ordered(items)|
    ensures var a, b := |Select(items, 0)|, |Select(items, 1)|;
      var x := Ordered(items)[i];
      && |Ordered(items)| == a + b + |Select(items, 2)|
      && (x.Visual? <==> i < a) && (x.Open() <==> i >= a + b)
      && x == if i < a then Select(items, 0)[i] else if i < a + b then Select(items, 1)[i - a] else Select(items, 2)[i - a - b]
  {
    SelectMembers(items, 0);
    SelectMembers(items, 1);
    SelectMembers(items, 2);
    var a, b := |Select(items, 0)|, |Select(items, 1)|;
    var x := Ordered(items)[i];
    assert x in Select(items, if i < a then 0 else if i < a + b then 1 else 2);
  }

  /** A first Solid prints visual items before sized ones and those before open-ended ones, each kind in map order. */
  lemma OrderedGroups(items: seq<Item>, i: nat, j: nat)
    requires Ascending(items) && i < j < |Ordered(items)|
    ensures var x, y := Ordered(items)[i], Ordered(items)[j];
      && (y.Visual? ==> x.Visual?) && (x.Open() ==> y.Open())
      && (x.Visual? == y.Visual? && x.Open() == y.Open() ==> Less(x.key, y.key))
  {
    hide Select, Ordered, Less;
    GroupAt(items, i);
    GroupAt(items, j);
    SelectAscending(items, 0);
    SelectAscending(items, 1);
    SelectAscending(items, 2);
    var a, b := |Select(items, 0)|, |Select(items, 1)|;
    if j < a {
      assert Less(Select(items, 0)[i].key, Select(items, 0)[j].key);
    } else if a <= i && j < a + b {
      assert Less(Select(items, 1)[i - a].key, Select(items, 1)[j - a].key);
    } else if a + b <= i {
      assert Less(Select(items, 2)[i - a - b].key, Select(items, 2)[j - a - b].key);
    }
  }

  lemma OrderedMembers(items: seq<Item>)
    ensures forall x :: x in Ordered(items) <==> x in items
  {
    SelectMembers(items, 0);
    SelectMembers(items, 1);
    SelectMembers(items, 2);
  }

  lemma SameKeySameItem(items: seq<Item>, x: Item, y: Item)
    requires DistinctKeys(items) && x in items && y in items && x.key == y.key
    ensures x == y
  {
  }

  lemma OrderedDistinct(items: seq<Item>)
    requires DistinctKeys(items)
    ensures DistinctKeys(Ordered(items))
  {
    var a, b, c := Select(items, 0), Select(items, 1), Select(items, 2);
    SelectDistinct(items, 0);
    SelectDistinct(items, 1);
    SelectDistinct(items, 2);
    SelectMembers(items, 0);
    SelectMembers(items, 1);
    SelectMembers(items, 2);
    JoinDistinct(items, a, b);
    JoinDistinct(items, a + b, c);
  }

  lemma JoinDistinct(items: seq<Item>, a: seq<Item>, b: seq<Item>)
    requires DistinctKeys(items) && DistinctKeys(a) && DistinctKeys(b)
    requires (forall x | x in a :: x in items && x !in b) && (forall x | x in b :: x in items)
    ensures DistinctKeys(a + b)
  {
    forall i, j | 0 <= i < |a| && 0 <= j < |b| ensures a[i].key != b[j].key {
      assert a[i] in a && b[j] in b;
      if a[i].key == b[j].key { SameKeySameItem(items, a[i], b[j]); }
    }
  }

  /** In the order of a first Solid the open-ended items come last. */
  lemma OrderedOpen(items: seq<Item>, i: nat)
    requires i < |Ordered(items)|
    ensures Ordered(items)[i].Open() <==> i >= |Select(items, 0)| + |Select(items, 1)|
  {
    SelectMembers(items, 0);
    SelectMembers(items, 1);
    SelectMembers(items, 2);
    var m, x := |Select(items, 0)| + |Select(items, 1)|, Ordered(items)[i];
    if i < m {
      assert x in Select(items, 0) || x in Select(items, 1);
    } else {
      assert x == Select(items, 2)[i - m] && x in Select(items, 2);
    }
  }

  /** The order of a first Solid can be scanned whole exactly when one item at most is open-ended and no offset clashes. */
  lemma OrderedSeen(items: seq<Item>)
    ensures AllSeen(Ordered(items)) <==>
      && |Select(items, 2)| <= 1
      && forall i | 0 < i < |Ordered(items)| :: Start(CellsOf(Ordered(items)), i) != 10001806
  {
    hide Select, Start, CellsOf, Item.Open;
    var cells := Ordered(items);
    var m := |Select(items, 0)| + |Select(items, 1)|;
    assert |cells| == m + |Select(items, 2)|;
    forall i | 0 <= i < |cells| ensures cells[i].Open() <==> i >= m { OrderedOpen(items, i); }
    assert |Select(items, 2)| >= 2 ==> Stops(cells, m);
    if AllSeen(cells) {
      forall i | 0 < i < |cells| ensures Start(CellsOf(cells), i) != FEB31 { assert !Stops(cells, i - 1); }
    } else {
      var i :| 0 <= i < |cells| - 1 && Stops(cells, i);
      assert cells[i].Open() || Start(CellsOf(Ordered(items)), i + 1) == FEB31;
    }
  }

  lemma {:induction false} OrderedLength(items: seq<Item>)
    ensures |Ordered(items)| == |items|
  {
    if items != [] { OrderedLength(items[..|items| - 1]); }
  }

  // ----- writing items back into their cells

  ghost predicate SameShape(a: Item, b: Item) {
    (a.Visual? && b.Visual?) || (a.Black? && b.Black? && a.len == b.len)
  }

  /** The cells with every item written back: a cell whose key is in the map takes the map's item. */
  function Rewritten(cells: seq<Item>, items: seq<Item>): (r: seq<Item>)
    ensures |r| == |cells|
    ensures forall i | 0 <= i < |cells| :: r[i].key == cells[i].key
  {
    seq(|cells|, i requires 0 <= i < |cells| =>
      match FindItem(items, cells[i].key) case Some(x) => x case None => cells[i])
  }

  /** Items that may be written back into these cells. */
  ghost predicate Replaces(items: seq<Item>, cells: seq<Item>) {
    forall x, i | x in items && 0 <= i < |cells| && cells[i].key == x.key :: SameShape(x, cells[i]) && ItemFits(x)
  }

  /** Writing back moves nothing: every cell keeps its offset, still reads back, and scans go as far as before. */
  lemma RewrittenLayout(cells: seq<Item>, items: seq<Item>)
    requires AllFit(cells) && DistinctKeys(cells) && Replaces(items, cells)
    ensures AllFit(Rewritten(cells, items)) && DistinctKeys(Rewritten(cells, items))
    ensures forall i | 0 <= i <= |cells| :: Start(CellsOf(Rewritten(cells, items)), i) == Start(CellsOf(cells), i)
    ensures EndsScan(Rewritten(cells, items)) <==> EndsScan(cells)
    ensures AllSeen(Rewritten(cells, items)) <==> AllSeen(cells)
  {
    hide ItemFits, Serialize, Stops, Start;
    var r := Rewritten(cells, items);
    forall i | 0 <= i < |cells|
      ensures ItemFits(r[i]) && SameShape(r[i], cells[i]) && |CellBytes(r[i])| == |CellBytes(cells[i])|
    {
      assert cells[i] in cells;
      SameShapeSameSize(r[i], cells[i]);
    }
    forall i | 0 <= i <= |cells| ensures Start(CellsOf(r), i) == Start(CellsOf(cells), i) {
      StartsAlike(CellsOf(r), CellsOf(cells), i);
    }
    forall i | 0 <= i < |cells| ensures Stops(r, i) <==> Stops(cells, i) { SameStop(r, cells, i); }
  }

  lemma SameStop(a: seq<Item>, b: seq<Item>, i: nat)
    requires i < |a| == |b| && SameShape(a[i], b[i]) && Start(CellsOf(a), i + 1) == Start(CellsOf(b), i + 1)
    ensures Stops(a, i) <==> Stops(b, i)
  {
  }

  lemma SameShapeSameSize(a: Item, b: Item)
    requires ItemFits(a) && ItemFits(b) && SameShape(a, b)
    ensures |CellBytes(a)| == |CellBytes(b)|
  {
  }

  /** With the same keys on both sides, the cells then hold exactly the items of the map. */
  lemma RewrittenMembers(cells: seq<Item>, items: seq<Item>)
    requires DistinctKeys(cells) && DistinctKeys(items)
    requires forall x | x in items :: exists i :: 0 <= i < |cells| && cells[i].key == x.key
    requires forall i | 0 <= i < |cells| :: FindItem(items, cells[i].key).Some?
    ensures forall x :: x in Rewritten(cells, items) <==> x in items
  {
    var r := Rewritten(cells, items);
    forall x | x in items ensures x in r {
      var i :| 0 <= i < |cells| && cells[i].key == x.key;
      SameKeySameItem(items, x, r[i]);
    }
  }

  lemma {:induction false} FindInLonger(items: seq<Item>, x: Item, key: seq<byte>)
    ensures FindItem(items + [x], key) ==
      match FindItem(items, key) case Some(y) => Some(y) case None => if x.key == key then Some(x) else None
  {
    if items != [] {
      FindInLonger(items[1..], x, key);
      assert (items + [x])[1..] == items[1..] + [x];
    }
  }

  /** Writing back one more item of the map. */
  lemma RewriteStep(cells: seq<Item>, items: seq<Item>, n: nat)
    requires DistinctKeys(items) && n < |items|
    ensures Rewritten(Rewritten(cells, items[..n]), [items[n]]) == Rewritten(cells, items[..n + 1])
  {
    assert items[..n + 1] == items[..n] + [items[n]];
    forall i | 0 <= i < |cells|
      ensures Rewritten(Rewritten(cells, items[..n]), [items[n]])[i] == Rewritten(cells, items[..n + 1])[i]
    {
      FindInLonger(items[..n], items[n], cells[i].key);
      assert forall j | 0 <= j < n :: items[..n][j].key != items[n].key;
    }
  }

  /** What may replace the old cells may replace the rewritten ones. */
  lemma ReplacesRewritten(cells: seq<Item>, items: seq<Item>, n: nat)
    requires Replaces(items, cells) && n < |items|
    ensures Replaces([items[n]], Rewritten(cells, items[..n])) && Replaces(items[..n], cells)
  {
    assert forall x | x in items[..n] :: x in items;
  }

  /** Overwriting the cell of an item in place. */
  lemma OverwriteCell(file: seq<byte>, cells: seq<Item>, tail: seq<byte>, at: nat, item: Item)
    requires OnFile(file, cells, tail) && at < |cells| && cells[at].key == item.key
    requires SameShape(item, cells[at]) && ItemFits(item)
    ensures OnFile(WriteAt(file, Start(CellsOf(cells), at), CellBytes(item)), Rewritten(cells, [item]), tail)
  {
    hide WriteAt, Serialize, Flatten, Stops, VisualFits, BlackFits;
    assert cells[at] in cells;
    assert Replaces([item], cells) by {
      forall i | 0 <= i < |cells| && cells[i].key == item.key ensures i == at {}
    }
    RewrittenLayout(cells, [item]);
    assert Rewritten(cells, [item]) == cells[at := item];
    assert CellsOf(cells[at := item]) == CellsOf(cells)[at := CellBytes(item)];
    OverwritePart(CellsOf(cells), at, CellBytes(item), tail);
  }

  // ----- settings

  type Setting = (text, text)

  /** The value a key was last set to. */
  function LastSet(sets: seq<Setting>, key: seq<byte>): Option<text> {
    if sets == [] then None
    else
      var last := sets[|sets| - 1];
      if last.0 == key then Some(last.1) else LastSet(sets[..|sets| - 1], key)
  }

  /** The cells with every setting of one of their keys applied, the last one winning. */
  function AfterSets(cells: seq<Item>, sets: seq<Setting>): (r: seq<Item>)
    ensures |r| == |cells|
    ensures forall i | 0 <= i < |cells| :: r[i].key == cells[i].key
  {
    seq(|cells|, i requires 0 <= i < |cells| =>
      match LastSet(sets, cells[i].key) case Some(v) => Visual(cells[i].key, v) case None => cells[i])
  }

  /** A setting of a key that has a cell is one of a visual item, to a value that fits. */
  ghost predicate Settable(cells: seq<Item>, sets: seq<Setting>) {
    forall i, j | 0 <= i < |cells| && 0 <= j < |sets| && cells[i].key == sets[j].0 ::
      cells[i].Visual? && VisualFits(sets[j].0, sets[j].1)
  }

  /** Setting `j` is the last one of its key. */
  ghost predicate SetLast(sets: seq<Setting>, j: nat, key: seq<byte>, value: seq<byte>) {
    j < |sets| && sets[j].0 == key && sets[j].1 == value && forall n | j < n < |sets| :: sets[n].0 != key
  }

  lemma {:induction false} LastSetIs(sets: seq<Setting>, key: seq<byte>)
    ensures LastSet(sets, key).Some? ==> exists j: nat :: SetLast(sets, j, key, LastSet(sets, key).value)
    ensures LastSet(sets, key).None? ==> forall j | 0 <= j < |sets| :: sets[j].0 != key
  {
    if sets != [] {
      var n := |sets| - 1;
      if sets[n].0 == key {
        assert SetLast(sets, n, key, LastSet(sets, key).value);
      } else {
        LastSetIs(sets[..n], key);
        forall j: nat, v | SetLast(sets[..n], j, key, v) ensures SetLast(sets, j, key, v) {
          assert forall m | j < m < n :: sets[..n][m] == sets[m];
        }
        forall j | 0 <= j < n ensures sets[..n][j] == sets[j] {}
      }
    }
  }

  /** Settings that may be made may be written back. */
  lemma AfterSetsFits(cells: seq<Item>, sets: seq<Setting>, i: nat)
    requires AllFit(cells) && Settable(cells, sets) && i < |cells|
    ensures SameShape(AfterSets(cells, sets)[i], cells[i]) && ItemFits(AfterSets(cells, sets)[i])
  {
    LastSetIs(sets, cells[i].key);
    assert cells[i] in cells;
  }

  /** One more setting: what Set does to the members of the map. */
  lemma SetStep(cells: seq<Item>, sets: seq<Setting>, n: nat, before: seq<Item>, after: seq<Item>)
    requires DistinctKeys(cells) && n < |sets|
    requires forall x :: x in before <==> x in AfterSets(cells, sets[..n])
    requires var (key, value) := sets[n];
      if FindItem(before, key).Some? then forall x :: x in after <==> x == Visual(key, value) || (x in before && x.key != key)
      else after == before
    ensures forall x :: x in after <==> x in AfterSets(cells, sets[..n + 1])
  {
    var (key, value) := sets[n];
    var was, now := AfterSets(cells, sets[..n]), AfterSets(cells, sets[..n + 1]);
    assert sets[..n + 1][..n] == sets[..n] && sets[..n + 1][n] == sets[n];
    forall i | 0 <= i < |cells| ensures now[i] == if cells[i].key == key then Visual(key, value) else was[i] {}
    forall x ensures x in after <==> x in now {
      if x in now { SetStepAt(cells, was, now, before, after, key, value, x); }
      if x in after && x in before {
        var i :| 0 <= i < |was| && was[i] == x;
        assert now[i] in now;
      } else if x in after {
        var y := FindItem(before, key).value;
        var i :| 0 <= i < |was| && was[i] == y;
        assert now[i] in now;
      }
    }
  }

  lemma SetStepAt(cells: seq<Item>, was: seq<Item>, now: seq<Item>, before: seq<Item>, after: seq<Item>,
                  key: text, value: text, x: Item)
    requires |was| == |now| == |cells| && x in now && forall y :: y in before <==> y in was
    requires forall i | 0 <= i < |cells| ::
      was[i].key == cells[i].key && now[i] == if cells[i].key == key then Visual(key, value) else was[i]
    requires if FindItem(before, key).Some? then forall y :: y in after <==> y == Visual(key, value) || (y in before && y.key != key)
      else after == before
    ensures x in after
  {
    var i :| 0 <= i < |now| && now[i] == x;
    assert was[i] in before;
  }

  /** A map with the items the settings leave can be written back, and then the cells are those. */
  lemma SetsWriteBack(cells: seq<Item>, sets: seq<Setting>, items: seq<Item>)
    requires AllFit(cells) && DistinctKeys(cells) && Settable(cells, sets)
    requires DistinctKeys(items) && forall x :: x in items <==> x in AfterSets(cells, sets)
    ensures Replaces(items, cells) && Rewritten(cells, items) == AfterSets(cells, sets)
    ensures (forall x | x in items :: FindItem(cells, x.key).Some?) && (forall x | x in cells :: FindItem(items, x.key).Some?)
  {
    hide ItemFits, AfterSets;
    var now := AfterSets(cells, sets);
    forall i | 0 <= i < |cells| ensures SameShape(now[i], cells[i]) && ItemFits(now[i]) { AfterSetsFits(cells, sets, i); }
    forall x, i | x in items && 0 <= i < |cells| && cells[i].key == x.key ensures x == now[i] {
      var j :| 0 <= j < |now| && now[j] == x;
    }
    forall i | 0 <= i < |cells| ensures FindItem(items, cells[i].key) == Some(now[i]) {
      assert now[i] in items;
    }
    forall x | x in items ensures FindItem(cells, x.key).Some? {
      var j :| 0 <= j < |now| && now[j] == x;
      assert cells[j] in cells;
    }
  }

  lemma NothingRewritten(cells: seq<Item>, items: seq<Item>)
    requires forall x, i | x in items && 0 <= i < |cells| :: cells[i].key != x.key
    ensures Rewritten(cells, items) == cells
  {
  }

  /** An ascending sequence is determined by its members. */
  lemma {:induction false} SameMembersSameMap(a: seq<Item>, b: seq<Item>)
    requires Ascending(a) && Ascending(b) && forall x :: x in a <==> x in b
    ensures a == b
  {
    assert a != [] ==> a[0] in b;
    assert b != [] ==> b[0] in a;
    if a != [] {
      var i :| 0 <= i < |b| && b[i] == a[0];
      var j :| 0 <= j < |a| && a[j] == b[0];
      if i > 0 && j > 0 {
        LessTransitive(a[0].key, b[0].key, a[0].key);
        LessTotal(a[0].key, a[0].key);
      }
      assert a[0] == b[0];
      forall x ensures x in a[1..] <==> x in b[1..] { NotAgain(a, x); NotAgain(b, x); }
      SameMembersSameMap(a[1..], b[1..]);
      assert a == [a[0]] + a[1..] && b == [b[0]] + b[1..];
    }
  }

  lemma NotAgain(a: seq<Item>, x: Item)
    requires Ascending(a) && a != []
    ensures x in a[1..] <==> x in a && x != a[0]
  {
    assert a == [a[0]] + a[1..];
    if x in a[1..] {
      var i :| 0 <= i < |a[1..]| && a[1..][i] == x;
      assert a[i + 1] == x;
      LessTotal(a[0].key, x.key);
    }
  }
}
