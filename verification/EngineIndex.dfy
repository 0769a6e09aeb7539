/**
 The newer engine's index (index.cc): keys of 8 or 16 bytes to the extent of a record in the log.
 The trees ascend from left to right. A covering insert hangs a fresh leaf over the node it finds.
 */
module EngineIndex {
  import opened Options
  import opened Bytes
  import opened Trees
  import opened Arena
  import opened Tables

  const OFFSET_FEB31: u64 := 10000000 + 1806

  /** A key as the one or two signed words that FillItem copies out of its bytes. */
  datatype Key = Key(k0: int, k1: int)

  datatype Extent = Extent(offset: nat, length: nat)

  type KeyTree = Tree<Key, Extent>
  type KeyPath = Path<Key, Extent>
  type KeyCell = Cell<Key, Extent>

  function KeyOf(bytes: seq<byte>): Key {
    if |bytes| == 16 then Key(SignedVal(bytes[..8]), SignedVal(bytes[8..])) else Key(SignedVal(bytes), 0)
  }

  /** Keys of one length are told apart by their words. */
  lemma KeyOfInjective(a: seq<byte>, b: seq<byte>)
    requires |a| == |b| && (|a| == 8 || |a| == 16) && KeyOf(a) == KeyOf(b)
    ensures a == b
  {
    if |a| == 16 {
      SignedInjective(a[..8], b[..8]);
      SignedInjective(a[8..], b[8..]);
      assert a == a[..8] + a[8..] && b == b[..8] + b[8..];
    } else {
      SignedInjective(a, b);
    }
  }

  lemma SignedInjective(a: seq<byte>, b: seq<byte>)
    requires |a| == |b| && SignedVal(a) == SignedVal(b)
    ensures a == b
  {
    ValInjective(a, b);
  }

  /** The words of a key are its eight-byte halves, lowest byte first, as signed numbers. */
  lemma KeyWords(key: seq<byte>)
    requires |key| == 8 || |key| == 16
    ensures var k := KeyOf(key);
      && -WORD <= 2 * k.k0 < WORD && -WORD <= 2 * k.k1 < WORD
      && (if |key| == 16 then key == Le(8, k.k0) + Le(8, k.k1) else key == Le(8, k.k0) && k.k1 == 0)
  {
    hide Le, Pow256, SignedVal;
    Powers();
    LeOfSignedVal(key[..8]);
    if |key| == 16 {
      LeOfSignedVal(key[8..]);
      assert key == key[..8] + key[8..];
    } else {
      assert key[..8] == key;
    }
  }

  /** BSTNodeCmp(item, node) < 0 goes left. */
  predicate KeyBefore(a: Key, b: Key) { a.k0 < b.k0 || (a.k0 == b.k0 && a.k1 < b.k1) }

  /** C's `%` takes the sign of its left operand. */
  function CRemainder(a: int, n: int): int
    requires n > 0
  {
    if a >= 0 then a % n else -((-a) % n)
  }

  /** The slot of a key in a table of `n` heads, when it has one. */
  function KeySlot(k: Key, n: nat): nat {
    if n == 0 then 0 else k.k0 % n
  }

  lemma SlotInRange(k: Key, n: nat)
    requires n > 0
    ensures KeySlot(k, n) < n
  {
  }

  /** A key that GetHTId sends into the table. */
  predicate InTable(k: Key, n: nat) { n > 0 && (k.k0 >= 0 || k.k0 % n == 0) }

  /** GetHTId stays inside the table exactly for keys whose first word is not negative or divides evenly. */
  lemma SlotInTable(k: Key, n: nat)
    requires n > 0
    ensures InTable(k, n) <==> 0 <= CRemainder(k.k0, n) < n
    ensures InTable(k, n) ==> CRemainder(k.k0, n) == KeySlot(k, n)
  {
    var q, low := k.k0 / n, k.k0 % n;
    if k.k0 < 0 { NegatedRemainder(k.k0, n); }
  }

  lemma NegatedRemainder(a: int, n: int)
    requires n > 0
    ensures (-a) % n == if a % n == 0 then 0 else n - a % n
  {
    var q, low := a / n, a % n;
    assert a == q * n + low;
    if low == 0 {
      QuotientIs(-a, n, -q, 0);
    } else {
      QuotientIs(-a, n, -q - 1, n - low);
    }
  }

  /** What C's `%` leaves: less than the divisor, of the sign of the left operand, and apart by a multiple. */
  lemma CRemainderMeans(a: int, n: int)
    requires n > 0
    ensures var r := CRemainder(a, n);
      && -n < r < n && (r > 0 ==> a > 0) && (r < 0 ==> a < 0)
      && exists q: int :: a == q * n + r
  {
    if a >= 0 {
      assert a == (a / n) * n + CRemainder(a, n);
    } else {
      var q := (-a) / n;
      assert a == (-q) * n + CRemainder(a, n);
    }
  }

  /** To the left of a node are the keys with a smaller first word, or the same and a smaller second one. */
  ghost predicate Ascending(t: KeyTree) {
    match t
    case Empty => true
    case Node(l, _, key, _, r) =>
      && Ascending(l) && Ascending(r)
      && (forall x: Key :: Has(l, x) ==> x.k0 < key.k0 || (x.k0 == key.k0 && x.k1 < key.k1))
      && (forall x: Key :: Has(r, x) ==> x.k0 > key.k0 || (x.k0 == key.k0 && x.k1 > key.k1))
  }

  lemma {:induction false} SortedAscends(t: KeyTree)
    requires Sorted(KeyBefore, t)
    ensures Ascending(t)
  {
    match t
    case Empty =>
    case Node(l, _, key, _, r) =>
      SortedAscends(l);
      SortedAscends(r);
      forall x: Key ensures Has(l, x) ==> x.k0 < key.k0 || (x.k0 == key.k0 && x.k1 < key.k1) {
        assert Has(l, x) ==> KeyBefore(x, key);
      }
      forall x: Key ensures Has(r, x) ==> x.k0 > key.k0 || (x.k0 == key.k0 && x.k1 > key.k1) {
        assert Has(r, x) ==> KeyBefore(key, x);
      }
  }

  // ----- the loop of BSTDelete for a node with two children

  /** Where nearest_id stands after `n` rounds that step to the left; nothing once a round has read outside the array. */
  function Rounds(pool: seq<KeyCell>, from: nat, n: nat): Option<nat>
    decreases n
  {
    if n == 0 then Some(from) else if from < |pool| then Rounds(pool, pool[from].left, n - 1) else None
  }

  function LeftDepth(t: KeyTree): nat { if t.Empty? then 0 else 1 + LeftDepth(t.left) }

  lemma {:induction false} RoundsRunOut(pool: seq<KeyCell>, from: nat, t: KeyTree)
    requires |pool| <= OFFSET_FEB31 && Linked(pool, OFFSET_FEB31, from, t)
    ensures Rounds(pool, from, LeftDepth(t)) == Some(OFFSET_FEB31) && Rounds(pool, from, LeftDepth(t) + 1) == None
    ensures forall n: nat | n < LeftDepth(t) :: Rounds(pool, from, n).Some? && Rounds(pool, from, n).value < |pool|
    decreases t
  {
    if t.Node? {
      RoundsRunOut(pool, pool[from].left, t.left);
      forall n: nat | n < LeftDepth(t) ensures Rounds(pool, from, n).Some? && Rounds(pool, from, n).value < |pool| {
        if n > 0 { assert Rounds(pool, from, n) == Rounds(pool, pool[from].left, n - 1); }
      }
    }
  }

  /**
   The guard of that loop looks at the deleted node, which the loop does not write. With two children
   it therefore holds in every round: the loop passes the successor, which is one round before the
   end of the left spine, and goes on until it reads outside the node array.
   */
  lemma TwoChildLoopOverruns(pool: seq<KeyCell>, s: KeyTree)
    requires |pool| <= OFFSET_FEB31 && s.Node? && Linked(pool, OFFSET_FEB31, s.id, s)
    requires s.left.Node? && s.right.Node?
    ensures s.id < |pool| && pool[s.id].left != OFFSET_FEB31
    ensures var last := LeftDepth(s.right) - 1;
      && last >= 0 && Leftmost(Top, s.right).1.Node?
      && Rounds(pool, pool[s.id].right, last) == Some(Leftmost(Top, s.right).1.id)
      && Rounds(pool, pool[s.id].right, last + 2) == None
  {
    RoundsRunOut(pool, pool[s.id].right, s.right);
    SuccessorRound(pool, pool[s.id].right, Top, s.right);
  }

  lemma {:induction false} SuccessorRound(pool: seq<KeyCell>, from: nat, p: KeyPath, t: KeyTree)
    requires t.Node? && Linked(pool, OFFSET_FEB31, from, t)
    ensures Leftmost(p, t).1.Node? && Rounds(pool, from, LeftDepth(t) - 1) == Some(Leftmost(p, t).1.id)
    decreases t
  {
    if t.left.Node? { SuccessorRound(pool, pool[from].left, InLeft(p, t.id, t.key, t.val, t.right), t.left); }
  }

  class Index {
    const keyLen: nat
    const item: array<KeyCell>
    const hashHead: array<u64>
    var itemHorizon: nat
    var freeSlots: seq<nat> // the LIFO stack of FREE_SLOT, whose bodies are not part of the repository
    ghost var trees: seq<KeyTree>
    ghost var contents: map<Key, Extent>
    ghost var leaked: multiset<nat> // cells a covering insert has dropped

    ghost predicate Sized()
      reads this
    {
      && (keyLen == 8 || keyLen == 16)
      && 0 < hashHead.Length < WORD
      && itemHorizon <= item.Length <= OFFSET_FEB31
    }

    ghost predicate Valid()
      reads this, hashHead, item
    {
      && Sized()
      && Table(KeyBefore, KeySlot, OFFSET_FEB31, hashHead[..], item[..], trees, contents,
               multiset(freeSlots) + leaked, itemHorizon)
    }

    /** Born, with the node array and head count given. */
    constructor Born(keyLen: nat, itemNum: nat, headSize: nat)
      requires (keyLen == 8 || keyLen == 16) && itemNum <= OFFSET_FEB31 && 0 < headSize < WORD
      ensures Valid() && contents == map[] && this.keyLen == keyLen && item.Length == itemNum
      ensures itemHorizon == 0 && freeSlots == [] && leaked == multiset{}
      ensures |trees| == hashHead.Length == headSize
      ensures forall b | 0 <= b < headSize :: trees[b] == Empty && hashHead[b] == 10001806
      ensures fresh(hashHead) && fresh(item)
    {
      this.keyLen := keyLen;
      item := new KeyCell[itemNum](_ => Cell(Key(0, 0), Extent(0, 0), 0, 0));
      hashHead := new u64[headSize](_ => OFFSET_FEB31);
      itemHorizon, freeSlots := 0, [];
      trees, contents, leaked := seq(headSize, _ => Empty), map[], multiset{};
      new;
      EmptyTable(KeyBefore, KeySlot, trees);
    }

    /** A walk for the key has come to `id` through `link`, with the path `p` behind it and the subtree `sub` ahead. */
    ghost predicate WalkedTo(key: Key, id: u64, link: Link, p: KeyPath, sub: KeyTree)
      reads this`trees, hashHead, item
    {
      var b := KeySlot(key, |trees|);
      && b < |trees| == hashHead.Length
      && (p, sub) == Walk(KeyBefore, Top, trees[b], key) && link == LinkOf(p, Head(b))
      && LinkedPath(item[..], OFFSET_FEB31, hashHead[b], p, id)
      && Linked(item[..], OFFSET_FEB31, id, sub)
    }

    /** The table once the key is gone and its cell belongs to nobody. */
    ghost predicate Dropped(key: Key, id: u64)
      reads this, hashHead, item
    {
      var b := KeySlot(key, |trees|);
      && b < |trees|
      && Table(KeyBefore, KeySlot, OFFSET_FEB31, hashHead[..], item[..],
               trees[b := Remove(KeyBefore, trees[b], key)], contents - {key},
               (multiset(freeSlots) + leaked) + multiset{id}, itemHorizon)
    }

    lemma TableParts()
      requires Valid()
      ensures itemHorizon <= item.Length <= OFFSET_FEB31 && 0 < |trees| == hashHead.Length
      ensures AllLinked(hashHead[..], item[..], OFFSET_FEB31, trees)
      ensures Represents(KeyBefore, KeySlot, trees, contents) && NoRepeats(Forest(trees))
      ensures Forest(trees) + (multiset(freeSlots) + leaked) == UpTo(itemHorizon)
    {
      hide Represents, Linked, Forest, UpTo, NoRepeats;
      OwnedOnce(Forest(trees), multiset(freeSlots) + leaked, itemHorizon);
    }

    /** The walk of BSTSearchId, BSTInsert and BSTDelete, and the link it ends in. */
    method FindLink(key: Key) returns (id: u64, link: Link, ghost p: KeyPath, ghost s: KeyTree)
      requires Valid() && InTable(key, hashHead.Length)
      ensures WalkedTo(key, id, link, p, s)
      ensures s.Node? <==> id != OFFSET_FEB31
      ensures s.Node? ==> s.id == id < item.Length
      ensures key in contents <==> id != OFFSET_FEB31
      ensures key in contents ==> item[id].val == contents[key]
    {
      SlotInTable(key, hashHead.Length);
      var b := CRemainder(key.k0, hashHead.Length);
      link, id, p, s := Head(b), hashHead[b], Top, trees[b];
      WalkStops(KeyBefore, Top, trees[b], key);
      assert Find(KeyBefore, trees[KeySlot(key, |trees|)], key) == Lookup(contents, key);
      while id != OFFSET_FEB31
        invariant Walk(KeyBefore, p, s, key) == Walk(KeyBefore, Top, trees[b], key)
        invariant LinkedPath(item[..], OFFSET_FEB31, hashHead[b], p, id)
        invariant Linked(item[..], OFFSET_FEB31, id, s)
        invariant link == LinkOf(p, Head(b))
        decreases s
      {
        var node := item[id];
        if key == node.key {
          return;
        } else if KeyBefore(key, node.key) {
          link := LeftOf(id);
          p, s := InLeft(p, id, s.key, s.val, s.right), s.left;
          id := node.left;
        } else {
          link := RightOf(id);
          p, s := InRight(p, s.left, id, s.key, s.val), s.right;
          id := node.right;
        }
      }
    }

    /** Search */
    method Search(key: seq<byte>) returns (s: Status, at: Extent)
      requires Valid() && (|key| == keyLen ==> InTable(KeyOf(key), hashHead.Length))
      ensures s == if |key| != keyLen then InvalidParam else if KeyOf(key) in contents then Ok else NotExist
      ensures s == Ok ==> at == contents[KeyOf(key)]
    {
      at := Extent(0, 0);
      if |key| != keyLen {
        return InvalidParam, at;
      }
      var id, link, p, sub := FindLink(KeyOf(key));
      if id == OFFSET_FEB31 {
        return NotExist, at;
      }
      s, at := Ok, item[id].val;
    }

    method WriteLink(link: Link, to: u64)
      requires if link.Head? then link.slot < hashHead.Length else link.id < item.Length
      modifies hashHead, item
      ensures item[..] == Store(old(item[..]), link, to)
      ensures hashHead[..] == StoreHead(old(hashHead[..]), link, to)
    {
      match link
      case Head(slot) => hashHead[slot] := to;
      case LeftOf(id) => item[id] := item[id].(left := to);
      case RightOf(id) => item[id] := item[id].(right := to);
    }

    /** PopFreeNode when a node is left. */
    method PopFreeNode() returns (id: u64)
      requires Sized() && (freeSlots == [] ==> itemHorizon < item.Length)
      requires Forest(trees) + (multiset(freeSlots) + leaked) == UpTo(itemHorizon)
      modifies this`itemHorizon, this`freeSlots
      ensures Sized() && id < itemHorizon && id !in Forest(trees)
      ensures Forest(trees) + multiset{id} + (multiset(freeSlots) + leaked) == UpTo(itemHorizon)
      ensures itemHorizon + |old(freeSlots)| == old(itemHorizon) + |freeSlots| + 1
      ensures if old(freeSlots) == [] then id == old(itemHorizon) && freeSlots == []
              else old(freeSlots) == freeSlots + [id] && itemHorizon == old(itemHorizon)
    {
      hide Forest, UpTo;
      ghost var live, before := Forest(trees), freeSlots;
      if freeSlots == [] {
        TakeFresh(live, multiset(freeSlots) + leaked, itemHorizon);
        id := itemHorizon;
        itemHorizon := itemHorizon + 1;
      } else {
        TopIsSmall(live, freeSlots, leaked, itemHorizon);
        id := freeSlots[|freeSlots| - 1];
        freeSlots := freeSlots[..|freeSlots| - 1];
        assert before == freeSlots + [id];
        TakeSlot(live, before, freeSlots, leaked, id, itemHorizon);
      }
      assert Forest(trees) == live;
    }

    /**
     Insert. A key of the wrong length or, without `cover`, a bound key changes nothing. Otherwise
     the key is bound; the keys below a node that is covered are forgotten and all cells of the
     covered subtree are leaked.
     */
    method Insert(cover: bool, key: seq<byte>, at: Extent) returns (s: Status)
      requires Valid() && (|key| == keyLen ==> InTable(KeyOf(key), hashHead.Length))
      requires |key| == keyLen && (cover || KeyOf(key) !in contents) && freeSlots == [] ==> itemHorizon < item.Length
      modifies this`itemHorizon, this`freeSlots, this`trees, this`contents, this`leaked, hashHead, item
      ensures Valid()
      ensures var k := KeyOf(key);
        && s == (if |key| != keyLen then InvalidParam else if !cover && k in old(contents) then Exist else Ok)
        && |trees| == |old(trees)| > 0
        && (s == Ok ==>
              var t := old(trees)[KeySlot(k, |old(trees)|)];
              && contents == old(contents)[k := at] - Below(KeyBefore, t, k)
              && leaked == old(leaked) + Ids(At(KeyBefore, t, k))
              && exists id: nat :: trees == old(trees)[KeySlot(k, |old(trees)|) := Put(KeyBefore, t, id, k, at)])
      ensures s != Ok ==> unchanged(this) && unchanged(hashHead) && unchanged(item)
      ensures itemHorizon + |old(freeSlots)| <= old(itemHorizon) + |freeSlots| + 1
      ensures old(freeSlots) == [] ==> freeSlots == []
    {
      hide Table, WalkedTo, Represents, AllLinked, Linked, LinkedPath, Forest, UpTo, Walk, Put;
      hide Below, At, Ids, KeyOf, NoRepeats, InTable, KeySlot;
      TableParts();
      SlotInRange(KeyOf(key), |trees|);
      if |key| != keyLen {
        return InvalidParam;
      }
      var k := KeyOf(key);
      var id, link, p, sub := FindLink(k);
      if id != OFFSET_FEB31 && !cover {
        return Exist;
      }
      ghost var t, rest := trees[KeySlot(k, |trees|)], leaked;
      var newId := PopFreeNode();
      Attach(k, at, newId, id, link, p, sub);
      trees := trees[KeySlot(k, |trees|) := Put(KeyBefore, t, newId, k, at)];
      contents := contents[k := at] - Below(KeyBefore, t, k);
      leaked := rest + Ids(At(KeyBefore, t, k));
      assert multiset(freeSlots) + leaked == (multiset(freeSlots) + rest) + Ids(At(KeyBefore, t, k));
      s := Ok;
    }

    /** The last step of BSTInsert: fill the cell and store its id where the walk ended. */
    method Attach(k: Key, at: Extent, newId: u64, id: u64, link: Link, ghost p: KeyPath, ghost sub: KeyTree)
      requires WalkedTo(k, id, link, p, sub)
      requires newId < itemHorizon <= item.Length <= OFFSET_FEB31 && newId !in Forest(trees)
      requires AllLinked(hashHead[..], item[..], OFFSET_FEB31, trees)
      requires Represents(KeyBefore, KeySlot, trees, contents) && NoRepeats(Forest(trees))
      requires Forest(trees) + multiset{newId} + (multiset(freeSlots) + leaked) == UpTo(itemHorizon)
      modifies hashHead, item
      ensures var b := KeySlot(k, |trees|);
        && b < |trees|
        && Table(KeyBefore, KeySlot, OFFSET_FEB31, hashHead[..], item[..],
                 trees[b := Put(KeyBefore, trees[b], newId, k, at)], contents[k := at] - Below(KeyBefore, trees[b], k),
                 (multiset(freeSlots) + leaked) + Ids(At(KeyBefore, trees[b], k)), itemHorizon)
    {
      hide Table, Represents, AllLinked, Linked, LinkedPath, Forest, UpTo, Walk, Put, Below, At, Ids, NoRepeats;
      ghost var heads, pool := hashHead[..], item[..];
      TablePut(KeyBefore, KeySlot, OFFSET_FEB31, heads, pool, trees, contents, multiset(freeSlots) + leaked, itemHorizon,
               k, at, newId, id);
      item[newId] := Cell(k, at, OFFSET_FEB31, OFFSET_FEB31);
      assert item[..] == pool[newId := item[newId]] && hashHead[..] == heads;
      WriteLink(link, newId);
    }

    /** Binding an absent key forgets nothing and leaks nothing. */
    lemma NothingBelow(k: Key)
      requires Valid() && k !in contents
      ensures |trees| > 0
      ensures var t := trees[KeySlot(k, |trees|)];
        Below(KeyBefore, t, k) == {} && Ids(At(KeyBefore, t, k)) == multiset{}
    {
      AbsentKey(KeyBefore, KeySlot, trees, contents, k);
    }

    /** A covering insert never forgets the key it binds. */
    lemma KeyNotBelow(k: Key)
      requires Valid()
      ensures |trees| > 0 && k !in Below(KeyBefore, trees[KeySlot(k, |trees|)], k)
    {
      var b := KeySlot(k, |trees|);
      assert GoodSlot(KeyBefore, KeySlot, |trees|, b, trees[b]);
      if k in Below(KeyBefore, trees[b], k) { BelowIsBound(KeyBefore, trees[b], k, k); }
    }

    /** A walk ends at a node exactly for bound keys. */
    lemma BoundNode(k: Key)
      requires Valid()
      ensures |trees| > 0 && (At(KeyBefore, trees[KeySlot(k, |trees|)], k).Node? <==> k in contents)
    {
      var b := KeySlot(k, |trees|);
      WalkStops(KeyBefore, Top, trees[b], k);
      assert Find(KeyBefore, trees[b], k) == Lookup(contents, k);
    }

    /** Bucket `b` is an ascending tree of exactly the bound keys whose first word leaves C's remainder `b`. */
    lemma Placed(b: nat)
      requires Valid() && b < hashHead.Length && forall x | x in contents :: InTable(x, hashHead.Length)
      ensures |trees| == hashHead.Length && Ascending(trees[b])
      ensures forall x: Key :: Has(trees[b], x) <==> x in contents && CRemainder(x.k0, hashHead.Length) == b
    {
      hide CRemainder;
      assert GoodSlot(KeyBefore, KeySlot, |trees|, b, trees[b]);
      SortedAscends(trees[b]);
      forall x: Key ensures Has(trees[b], x) <==> x in contents && CRemainder(x.k0, hashHead.Length) == b {
        SlotKeysBound(KeyBefore, KeySlot, trees, contents, b, x);
        if x in contents { SlotInTable(x, hashHead.Length); }
      }
    }

    lemma SomeSlots()
      requires Valid()
      ensures |trees| == hashHead.Length > 0
    {
    }

    /** PushFreeNode: the cell's key is overwritten so that a reload can tell it from a live one. */
    method PushFreeNode(id: u64)
      requires id < item.Length
      modifies this`freeSlots, item
      ensures freeSlots == old(freeSlots) + [id]
      ensures item[..] == old(item[..])[id := item[id]]
      ensures item[id] == old(item[id]).(key := Key(10001806, if keyLen == 16 then 10001806 else 0))
    {
      item[id] := item[id].(key := Key(OFFSET_FEB31, if keyLen == 16 then OFFSET_FEB31 else 0));
      freeSlots := freeSlots + [id];
    }

    /** Del of a key whose node has at most one child. */
    method Del(key: seq<byte>) returns (s: Status)
      requires Valid() && (|key| == keyLen ==> InTable(KeyOf(key), hashHead.Length))
      requires |key| == keyLen ==>
        var n := At(KeyBefore, trees[KeySlot(KeyOf(key), |trees|)], KeyOf(key));
        n.Node? ==> n.left.Empty? || n.right.Empty?
      modifies this`freeSlots, this`trees, this`contents, hashHead, item
      ensures Valid()
      ensures s == if |key| != keyLen then InvalidParam else if KeyOf(key) in old(contents) then Ok else NotExist
      ensures contents == if s == Ok then old(contents) - {KeyOf(key)} else old(contents)
      ensures s != Ok ==> unchanged(this) && unchanged(hashHead) && unchanged(item)
      ensures s == Ok ==> |freeSlots| == |old(freeSlots)| + 1
      ensures |trees| == |old(trees)| > 0
      ensures s == Ok ==>
        var b := KeySlot(KeyOf(key), |trees|);
        trees == old(trees)[b := Remove(KeyBefore, old(trees)[b], KeyOf(key))]
    {
      hide Table, Represents, AllLinked, Linked, LinkedPath, Forest, UpTo, Walk, Remove, KeyOf, InTable;
      TableParts();
      if |key| != keyLen {
        return InvalidParam;
      }
      var k := KeyOf(key);
      var id, link, p, sub := FindLink(k);
      if id == OFFSET_FEB31 {
        return NotExist;
      }
      ghost var b := KeySlot(k, |trees|);
      WalkedSubtree(k, id, link, p, sub);
      Unlink(k, id, link, p, sub);
      ghost var heads, pool, free := hashHead[..], item[..], freeSlots;
      PushFreeNode(id);
      assert hashHead[..] == heads;
      trees := trees[b := Remove(KeyBefore, trees[b], k)];
      contents := contents - {k};
      assert multiset(freeSlots) + leaked == (multiset(free) + leaked) + multiset{id};
      TableScribble(KeyBefore, KeySlot, OFFSET_FEB31, heads, pool, trees, contents, multiset(freeSlots) + leaked,
                    itemHorizon, id, item[id]);
      s := Ok;
    }

    lemma WalkedSubtree(k: Key, id: u64, link: Link, p: KeyPath, sub: KeyTree)
      requires WalkedTo(k, id, link, p, sub)
      ensures sub == At(KeyBefore, trees[KeySlot(k, |trees|)], k)
    {
    }

    /** The leaf and one-child shapes of BSTDelete. */
    method Unlink(k: Key, id: u64, link: Link, ghost p: KeyPath, ghost s: KeyTree)
      requires Valid() && k in contents && id != OFFSET_FEB31 && WalkedTo(k, id, link, p, s)
      requires s.Node? ==> s.left.Empty? || s.right.Empty?
      modifies hashHead, item
      ensures id < item.Length && Dropped(k, id)
    {
      hide Table, Represents, AllLinked, Linked, LinkedPath, Forest, UpTo, Walk, Remove;
      RootCell(item[..], OFFSET_FEB31, id, s);
      var left, right := item[id].left, item[id].right;
      TableBypass(KeyBefore, KeySlot, OFFSET_FEB31, hashHead[..], item[..], trees, contents,
                  multiset(freeSlots) + leaked, itemHorizon, k, p, s);
      if left == OFFSET_FEB31 && right == OFFSET_FEB31 {
        WriteLink(link, OFFSET_FEB31);
      } else if left != OFFSET_FEB31 {
        WriteLink(link, left);
      } else {
        WriteLink(link, right);
      }
    }

    lemma CountNodes()
      requires Valid()
      ensures |contents| + |freeSlots| + |leaked| == itemHorizon <= item.Length
    {
      TableCount(KeyBefore, KeySlot, OFFSET_FEB31, hashHead[..], item[..], trees, contents,
                 multiset(freeSlots) + leaked, itemHorizon);
      assert |multiset(freeSlots) + leaked| == |freeSlots| + |leaked|;
    }
  }

  // ----- three inserts that make a node with two children

  /** The key with this word, eight bytes long. */
  function Bytes8(n: nat): (key: seq<byte>)
    ensures |key| == 8
  {
    Le(8, n)
  }

  lemma SmallKey(n: nat)
    requires n < 256
    ensures KeyOf(Bytes8(n)) == Key(n, 0) && InTable(Key(n, 0), 1) && KeySlot(Key(n, 0), 1) == 0
  {
    hide Le, SignedVal, Pow256;
    Powers();
    SignedValOfLe(8, n);
  }

  /** The tree of the keys 2, 1 and 3, put in that order: 2 has both children. */
  ghost predicate IsFork(t: KeyTree) {
    && t.Node? && t.key == Key(2, 0)
    && t.left.Node? && t.left.left.Empty? && t.left.right.Empty? && t.left.key == Key(1, 0)
    && t.right.Node? && t.right.left.Empty? && t.right.right.Empty? && t.right.key == Key(3, 0)
  }

  lemma PutLeft(t: KeyTree, id: nat, k: Key, at: Extent)
    requires t.Node? && t.left.Empty? && KeyBefore(k, t.key)
    ensures Put(KeyBefore, t, id, k, at) == Node(Leaf(id, k, at), t.id, t.key, t.val, t.right)
  {
    var p: KeyPath := InLeft(Top, t.id, t.key, t.val, t.right);
    assert Walk(KeyBefore, Top, t, k) == (p, Empty);
    assert Plug(p, Leaf(id, k, at)) == Plug(Top, Node(Leaf(id, k, at), t.id, t.key, t.val, t.right));
  }

  lemma PutRight(t: KeyTree, id: nat, k: Key, at: Extent)
    requires t.Node? && t.right.Empty? && KeyBefore(t.key, k)
    ensures Put(KeyBefore, t, id, k, at) == Node(t.left, t.id, t.key, t.val, Leaf(id, k, at))
  {
    var p: KeyPath := InRight(Top, t.left, t.id, t.key, t.val);
    assert Walk(KeyBefore, Top, t, k) == (p, Empty);
    assert Plug(p, Leaf(id, k, at)) == Plug(Top, Node(t.left, t.id, t.key, t.val, Leaf(id, k, at)));
  }

  lemma ForkOfPuts(i: nat, j: nat, n: nat, at: Extent)
    ensures IsFork(Put(KeyBefore, Put(KeyBefore, Put(KeyBefore, Empty, i, Key(2, 0), at), j, Key(1, 0), at), n, Key(3, 0), at))
  {
    var root: KeyTree := Node(Empty, i, Key(2, 0), at, Empty);
    assert Put(KeyBefore, Empty, i, Key(2, 0), at) == root;
    PutLeft(root, j, Key(1, 0), at);
    PutRight(Node(Leaf(j, Key(1, 0), at), i, Key(2, 0), at, Empty), n, Key(3, 0), at);
  }

  /** An index in which Del would meet a node with two children, and a covering put a node that is no leaf. */
  method MakeFork() returns (index: Index)
    ensures fresh(index) && fresh(index.hashHead) && fresh(index.item)
    ensures index.Valid() && index.keyLen == 8 && index.hashHead.Length == |index.trees| == 1
    ensures IsFork(index.trees[0]) && index.contents.Keys == {Key(1, 0), Key(2, 0), Key(3, 0)}
    ensures index.freeSlots == [] && index.leaked == multiset{} && index.itemHorizon < index.item.Length
    ensures index.trees[0].Node? && index.trees[0].id < index.item.Length
    ensures Rounds(index.item[..], index.item[index.trees[0].id].right, 2) == None
  {
    hide Index.Valid, Put, Below, IsFork, KeyOf, Bytes8, Ids, At, Rounds;
    var at := Extent(0, 0);
    index := new Index.Born(8, 4, 1);
    SmallKey(2);
    SmallKey(1);
    SmallKey(3);
    index.NothingBelow(Key(2, 0));
    var s := index.Insert(false, Bytes8(2), at);
    ghost var i: nat :| index.trees == [Put(KeyBefore, Empty, i, Key(2, 0), at)];
    index.NothingBelow(Key(1, 0));
    s := index.Insert(false, Bytes8(1), at);
    ghost var j: nat :| index.trees == [Put(KeyBefore, Put(KeyBefore, Empty, i, Key(2, 0), at), j, Key(1, 0), at)];
    index.NothingBelow(Key(3, 0));
    s := index.Insert(false, Bytes8(3), at);
    ghost var n: nat :|
      index.trees == [Put(KeyBefore, Put(KeyBefore, Put(KeyBefore, Empty, i, Key(2, 0), at), j, Key(1, 0), at), n, Key(3, 0), at)];
    ForkOfPuts(i, j, n, at);
    ForkOverruns(index);
  }

  lemma ForkOverruns(index: Index)
    requires index.Valid() && index.hashHead.Length == |index.trees| == 1 && IsFork(index.trees[0])
    ensures index.trees[0].Node? && index.trees[0].id < index.item.Length
    ensures Rounds(index.item[..], index.item[index.trees[0].id].right, 2) == None
  {
    var t := index.trees[0];
    assert Linked(index.item[..], OFFSET_FEB31, index.hashHead[..][0], t);
    TwoChildLoopOverruns(index.item[..], t);
    assert LeftDepth(t.right) == 1 + LeftDepth(t.right.left);
  }

  lemma LoneLeaf(t: KeyTree)
    requires t.Node? && t.left.Empty? && t.right.Empty?
    ensures KeySet(t) == {t.key} && Ids(t) == multiset{t.id}
  {
    assert KeySet(t.left) == {} && KeySet(t.right) == {};
  }

  lemma ForkAt(t: KeyTree)
    requires IsFork(t)
    ensures At(KeyBefore, t, Key(2, 0)) == t && Below(KeyBefore, t, Key(2, 0)) == {Key(1, 0), Key(3, 0)}
    ensures |Ids(t)| == 3
  {
    LoneLeaf(t.left);
    LoneLeaf(t.right);
    assert Ids(t) == multiset{t.id} + multiset{t.left.id} + multiset{t.right.id};
  }

  /** Covering 2 in that index forgets 1 and 3, and the three old cells belong to nobody. */
  method CoverFork() returns (index: Index)
    ensures index.Valid() && index.contents.Keys == {Key(2, 0)} && |index.leaked| == 3 && index.freeSlots == []
  {
    hide Index.Valid, Put, Below, IsFork, KeyOf, Bytes8, Ids, At;
    index := MakeFork();
    SmallKey(2);
    ForkAt(index.trees[0]);
    ghost var covered := Ids(index.trees[0]);
    var s := index.Insert(true, Bytes8(2), Extent(0, 0));
    assert index.leaked == covered;
  }
}
