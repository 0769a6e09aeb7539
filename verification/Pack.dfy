/**
 PACK (kvspack.cc): a buffer that starts with its used length and holds tagged values one after
 another, looked up by name from the front.
 */
module Pack {
  import opened Options
  import opened Bytes
  import opened Parts
  import opened Posix

  const PACK_HEAD_SIZE := 4
  const ITEM_HEAD_SIZE := 12

  /** A C string with its NUL, as callers pass it: the length counts the NUL. */
  predicate IsName(s: seq<byte>) { s != [] && s[|s| - 1] == 0 && 0 !in s[..|s| - 1] }

  datatype Item = Item(name: seq<byte>, kind: int, value: seq<byte>)

  function Encode(item: Item): (bs: seq<byte>)
    ensures |bs| == ITEM_HEAD_SIZE + |item.name| + |item.value|
  {
    Le(4, |item.value|) + Le(4, |item.name|) + Le(4, item.kind) + item.name + item.value
  }

  function Encoded(items: seq<Item>): (ps: seq<seq<byte>>)
    ensures |ps| == |items|
  {
    seq(|items|, i requires 0 <= i < |items| => Encode(items[i]))
  }

  predicate ItemOk(item: Item) { IsName(item.name) && -HALF_INT <= item.kind < HALF_INT }

  /** The buffer says how much of it is used, and that much is the items. */
  ghost predicate Holds(bytes: seq<byte>, items: seq<Item>) {
    var used := PACK_HEAD_SIZE + |Flatten(Encoded(items))|;
    && used <= |bytes| < HALF_INT
    && bytes[..PACK_HEAD_SIZE] == Le(4, used)
    && bytes[PACK_HEAD_SIZE..used] == Flatten(Encoded(items))
    && forall i | 0 <= i < |items| :: ItemOk(items[i])
  }

  /** The first item with a name. */
  function FirstNamed(items: seq<Item>, name: seq<byte>): (r: Option<Item>)
    ensures r.Some? ==> r.value in items && r.value.name == name
    ensures r.None? <==> forall x | x in items :: x.name != name
  {
    if items == [] then None else if items[0].name == name then Some(items[0]) else FirstNamed(items[1..], name)
  }

  lemma {:induction false} FirstNamedAt(items: seq<Item>, name: seq<byte>, i: nat)
    requires i < |items| && items[i].name == name && forall j | 0 <= j < i :: items[j].name != name
    ensures FirstNamed(items, name) == Some(items[i])
  {
    if i > 0 { FirstNamedAt(items[1..], name, i - 1); }
  }

  /** strncmp(a, b, n) == 0, for a string that starts at `a`. */
  predicate StrnEqual(a: seq<byte>, b: seq<byte>, n: nat)
    requires n <= |b|
    decreases n
  {
    n == 0 || (a != [] && a[0] == b[0] && (a[0] == 0 || StrnEqual(a[1..], b[1..], n - 1)))
  }

  /** Comparing names this way is equality, whatever follows the stored one. */
  lemma {:induction false} NamesCompare(stored: seq<byte>, rest: seq<byte>, name: seq<byte>)
    requires IsName(stored) && IsName(name)
    ensures StrnEqual(stored + rest, name, |name|) <==> stored == name
  {
    assert (stored + rest)[0] == stored[0];
    if stored[0] == name[0] && stored[0] != 0 {
      NamesCompare(stored[1..], rest, name[1..]);
      assert (stored + rest)[1..] == stored[1..] + rest;
      assert stored == [stored[0]] + stored[1..] && name == [name[0]] + name[1..];
    } else if stored[0] == 0 {
      assert |stored| == 1;
      assert name[0] == 0 ==> |name| == 1;
    }
  }

  /** The fields found at item `i`, and where the next one starts. */
  lemma ItemAt(bytes: seq<byte>, items: seq<Item>, i: nat)
    requires Holds(bytes, items) && i < |items|
    ensures var off, item := PACK_HEAD_SIZE + Start(Encoded(items), i), items[i];
      var next := off + |Encode(item)|;
      && next == PACK_HEAD_SIZE + Start(Encoded(items), i + 1) <= |bytes|
      && next <= PACK_HEAD_SIZE + |Flatten(Encoded(items))|
      && bytes[off..next] == Encode(item)
  {
    var ps := Encoded(items);
    PartAt(ps, i);
    FlattenLength(ps);
    StartsAscend(ps, i + 1, |ps|);
    PartOf(bytes, PACK_HEAD_SIZE, Flatten(ps), Start(ps, i), Start(ps, i + 1));
  }

  lemma HeldItem(bytes: seq<byte>, items: seq<Item>, i: nat)
    requires Holds(bytes, items) && i < |items|
    ensures ItemOk(items[i]) && |bytes| < HALF_INT
  {
  }

  lemma ItemFields(bytes: seq<byte>, off: nat, item: Item)
    requires off + |Encode(item)| <= |bytes| < HALF_INT && bytes[off..off + |Encode(item)|] == Encode(item) && ItemOk(item)
    ensures SignedVal(bytes[off..off + 4]) == |item.value|
    ensures SignedVal(bytes[off + 4..off + 8]) == |item.name|
    ensures SignedVal(bytes[off + 8..off + 12]) == item.kind
    ensures var v := off + 12 + |item.name|;
      && |Encode(item)| == 12 + |item.name| + |item.value|
      && bytes[off + 12..v] == item.name && bytes[v..v + |item.value|] == item.value
      && bytes[off + ITEM_HEAD_SIZE..] == item.name + bytes[v..]
  {
    hide Le, SignedVal, Pow256, Encode;
    var bs, k := Encode(item), ITEM_HEAD_SIZE + |item.name|;
    EncodeParts(item);
    PartOf(bytes, off, bs, 0, 4);
    PartOf(bytes, off, bs, 4, 8);
    PartOf(bytes, off, bs, 8, 12);
    PartOf(bytes, off, bs, ITEM_HEAD_SIZE, k);
    PartOf(bytes, off, bs, k, |bs|);
  }

  lemma EncodeParts(item: Item)
    requires |Encode(item)| < HALF_INT && -HALF_INT <= item.kind < HALF_INT
    ensures var bs, k := Encode(item), ITEM_HEAD_SIZE + |item.name|;
      && SignedVal(bs[0..4]) == |item.value| && SignedVal(bs[4..8]) == |item.name| && SignedVal(bs[8..12]) == item.kind
      && bs[ITEM_HEAD_SIZE..k] == item.name && bs[k..|bs|] == item.value
  {
    hide Le, SignedVal, Pow256;
    var bs := Encode(item);
    Powers();
    SignedValOfLe(4, |item.value|);
    SignedValOfLe(4, |item.name|);
    SignedValOfLe(4, item.kind);
    assert bs[0..4] == Le(4, |item.value|) && bs[4..8] == Le(4, |item.name|) && bs[8..12] == Le(4, item.kind);
  }

  /** Everything Get looks at when it stands at item `i`. */
  lemma ItemHere(bytes: seq<byte>, items: seq<Item>, i: nat, name: seq<byte>)
    requires Holds(bytes, items) && i < |items| && IsName(name)
    ensures var cur, item := PACK_HEAD_SIZE + Start(Encoded(items), i), items[i];
      var v := cur + ITEM_HEAD_SIZE + |item.name|;
      && v + |item.value| == PACK_HEAD_SIZE + Start(Encoded(items), i + 1) <= |bytes|
      && Start(Encoded(items), i + 1) <= |Flatten(Encoded(items))|
      && SignedVal(bytes[cur..cur + 4]) == |item.value|
      && SignedVal(bytes[cur + 4..cur + 8]) == |item.name|
      && SignedVal(bytes[cur + 8..cur + 12]) == item.kind
      && bytes[v..v + |item.value|] == item.value
      && (StrnEqual(bytes[cur + ITEM_HEAD_SIZE..], name, |name|) <==> item.name == name)
  {
    hide Holds, Le, SignedVal, Encode, Encoded, Flatten, Start, StrnEqual, IsName;
    var cur, item := PACK_HEAD_SIZE + Start(Encoded(items), i), items[i];
    HeldItem(bytes, items, i);
    ItemAt(bytes, items, i);
    ItemFields(bytes, cur, item);
    NamesCompare(item.name, bytes[cur + ITEM_HEAD_SIZE + |item.name|..], name);
  }

  /** A scan that has passed `i` items is inside the used part exactly when there is another one. */
  lemma ScanPosition(items: seq<Item>, i: nat)
    requires i <= |items|
    ensures Start(Encoded(items), i) < |Flatten(Encoded(items))| <==> i < |items|
  {
    hide Encode;
    FlattenLength(Encoded(items));
    if i < |items| { StartsAscend(Encoded(items), i + 1, |items|); }
  }

  lemma SameBehindHead(a: seq<byte>, b: seq<byte>, i: nat, j: nat)
    requires |a| == |b| && PACK_HEAD_SIZE <= i <= j <= |a| && a[PACK_HEAD_SIZE..] == b[PACK_HEAD_SIZE..]
    ensures a[i..j] == b[i..j] && a[PACK_HEAD_SIZE..i] == b[PACK_HEAD_SIZE..i]
  {
    forall x | PACK_HEAD_SIZE <= x < |a| ensures a[x] == b[x] {
      assert a[PACK_HEAD_SIZE..][x - PACK_HEAD_SIZE] == b[PACK_HEAD_SIZE..][x - PACK_HEAD_SIZE];
    }
  }

  /** What a Put does to the bytes. */
  lemma PutBytes(before: seq<byte>, after: seq<byte>, items: seq<Item>, item: Item, used: nat)
    requires Holds(before, items) && ItemOk(item) && used == PACK_HEAD_SIZE + |Flatten(Encoded(items))|
    requires used + |Encode(item)| <= |before| == |after|
    requires after[..PACK_HEAD_SIZE] == Le(4, used + |Encode(item)|)
    requires after[PACK_HEAD_SIZE..used] == before[PACK_HEAD_SIZE..used]
    requires after[used..used + |Encode(item)|] == Encode(item)
    ensures Holds(after, items + [item])
  {
    hide Le, Encode, ItemOk;
    var ps := Encoded(items);
    assert Encoded(items + [item]) == ps + [Encode(item)];
    FlattenAppend(ps, Encode(item));
    var end := used + |Encode(item)|;
    assert after[PACK_HEAD_SIZE..end] == after[PACK_HEAD_SIZE..used] + after[used..end];
  }

  lemma EncodedNext(items: seq<Item>, item: Item)
    ensures |Flatten(Encoded(items + [item]))| == |Flatten(Encoded(items))| + |Encode(item)|
  {
    assert Encoded(items + [item]) == Encoded(items) + [Encode(item)];
    FlattenAppend(Encoded(items), Encode(item));
  }

  class Packer {
    const buf: array<byte>
    ghost var items: seq<Item>

    ghost predicate Valid()
      reads this, buf
    {
      Holds(buf[..], items)
    }

    function SendLength(): int
      reads buf
      requires buf.Length >= PACK_HEAD_SIZE
    {
      SignedVal(buf[..PACK_HEAD_SIZE])
    }

    lemma LengthIsUsed()
      requires Valid()
      ensures PACK_HEAD_SIZE <= buf.Length && SendLength() == PACK_HEAD_SIZE + |Flatten(Encoded(items))|
    {
      Powers();
      SignedValOfLe(4, PACK_HEAD_SIZE + |Flatten(Encoded(items))|);
      assert buf[..PACK_HEAD_SIZE] == buf[..][..PACK_HEAD_SIZE];
    }

    /** Init: an empty pack in a buffer. */
    constructor Init(buf: array<byte>)
      requires PACK_HEAD_SIZE <= buf.Length < HALF_INT
      modifies buf
      ensures Valid() && items == [] && this.buf == buf && SendLength() == 4
    {
      this.buf := buf;
      items := [];
      new;
      CopyInto(buf, 0, Le(4, PACK_HEAD_SIZE));
      assert buf[..][..PACK_HEAD_SIZE] == Le(4, PACK_HEAD_SIZE);
      LengthIsUsed();
    }

    /** Load: a pack somebody else has filled. */
    constructor Load(buf: array<byte>, ghost held: seq<Item>)
      requires Holds(buf[..], held)
      ensures Valid() && items == held && this.buf == buf
    {
      this.buf := buf;
      items := held;
    }

    /** Put: head, name and value behind the used part, which grows by as much. */
    method Put(name: seq<byte>, kind: int, value: seq<byte>)
      requires Valid() && ItemOk(Item(name, kind, value))
      requires SendLength() + ITEM_HEAD_SIZE + |name| + |value| <= buf.Length
      modifies buf, this`items
      ensures Valid() && items == old(items) + [Item(name, kind, value)]
      ensures SendLength() == old(SendLength()) + ITEM_HEAD_SIZE + |name| + |value|
    {
      hide Holds, Le, ItemOk, SignedVal, Encode, Encoded, Flatten;
      LengthIsUsed();
      ghost var item, before := Item(name, kind, value), buf[..];
      var used := SendLength();
      var p := CopyItem(used, name, kind, value);
      ghost var filled := buf[..];
      CopyInto(buf, 0, Le(4, p));
      ghost var after := buf[..];
      assert after[PACK_HEAD_SIZE..] == filled[PACK_HEAD_SIZE..];
      SameBehindHead(filled, after, used, p);
      PutBytes(before, after, items, item, used);
      EncodedNext(items, item);
      items := items + [item];
      LengthIsUsed();
    }

    method CopyItem(used: nat, name: seq<byte>, kind: int, value: seq<byte>) returns (p: nat)
      requires PACK_HEAD_SIZE <= used && used + ITEM_HEAD_SIZE + |name| + |value| <= buf.Length
      modifies buf
      ensures p == used + ITEM_HEAD_SIZE + |name| + |value|
      ensures buf[used..p] == Encode(Item(name, kind, value))
      ensures buf[PACK_HEAD_SIZE..used] == old(buf[PACK_HEAD_SIZE..used])
    {
      hide Le;
      var head := Le(4, |value|) + Le(4, |name|) + Le(4, kind);
      p := used;
      CopyInto(buf, p, head);
      p := p + ITEM_HEAD_SIZE;
      assert buf[used..p] == head;
      CopyInto(buf, p, name);
      p := p + |name|;
      assert buf[used..p] == head + name;
      CopyInto(buf, p, value);
      p := p + |value|;
      assert buf[used..p] == head + name + value;
    }

    /** Get: the type and the place of the first value under a name; `stop` is where the scan stands then. */
    method Get(name: seq<byte>) returns (found: bool, kind: int, at: nat, len: nat, ghost stop: nat)
      requires Valid() && IsName(name)
      ensures found <==> FirstNamed(items, name).Some?
      ensures if found then stop < SendLength() else stop == SendLength()
      ensures found ==> at + len <= buf.Length && kind == FirstNamed(items, name).value.kind
      ensures found ==> buf[at..at + len] == FirstNamed(items, name).value.value
    {
      hide Holds, Le, SignedVal, IsName, Encode, Encoded, Flatten, Start, StrnEqual;
      LengthIsUsed();
      ghost var bytes := buf[..];
      var cur := PACK_HEAD_SIZE;
      ghost var i := 0;
      FirstStart(Encoded(items));
      ScanPosition(items, 0);
      found, kind, at, len, stop := false, 0, 0, 0, cur;
      while cur < SendLength()
        invariant i <= |items| && cur == PACK_HEAD_SIZE + Start(Encoded(items), i)
        invariant forall j | 0 <= j < i :: items[j].name != name
        invariant i < |items| <==> cur < SendLength()
        invariant !found && stop == cur <= SendLength()
        decreases |items| - i
      {
        ItemHere(bytes, items, i, name);
        var valueSize, nameSize := SignedVal(buf[cur..cur + 4]), SignedVal(buf[cur + 4..cur + 8]);
        var stored := buf[cur + ITEM_HEAD_SIZE..];
        assert stored == bytes[cur + ITEM_HEAD_SIZE..];
        if StrnEqual(stored, name, |name|) {
          FirstNamedAt(items, name, i);
          kind := SignedVal(buf[cur + 8..cur + 12]);
          found, at, len := true, cur + ITEM_HEAD_SIZE + nameSize, valueSize;
          return;
        }
        cur, i := cur + ITEM_HEAD_SIZE + nameSize + valueSize, i + 1;
        stop := cur;
        ScanPosition(items, i);
      }
    }
  }
}
