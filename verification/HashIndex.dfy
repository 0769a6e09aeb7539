/**
 The older engine's index (bak/index.c): key signs to value offsets, kept as a hash table of binary
 search trees whose nodes are cells of a fixed pool. Freed cells go onto a stack and are handed out
 again before the pool's horizon moves.
 */
module HashIndex {
  import opened Options
  import opened Bytes
  import opened Trees
  import opened Arena
  import opened Tables
  import opened IndexImage

  const INDEX_NODE_NOT_EXIST: u64 := 123456789
  const HASH_HEAD_NUM := 1024
  const FREE_NODE_POOL_SIZE := 1024 * 1024

  type SignTree = Tree<u64, u64>
  type SignPath = Path<u64, u64>

  /** _is_hash_same(node, wanted) < 0 goes left, so greater signs are to the left of smaller ones. */
  predicate SignBefore(a: u64, b: u64) { b < a }

  /** _get_hashhead_id */
  function SignSlot(keySign: u64, n: nat): nat {
    if n == 0 then 0 else keySign % n
  }

  /** Every sign to the left of a node is greater than the node's, every sign to the right smaller. */
  ghost predicate Descending(t: SignTree) {
    match t
    case Empty => true
    case Node(l, _, key, _, r) =>
      && Descending(l) && Descending(r)
      && (forall x: u64 :: Has(l, x) ==> x > key) && (forall x: u64 :: Has(r, x) ==> x < key)
  }

  lemma {:induction false} SortedDescends(t: SignTree)
    requires Sorted(SignBefore, t)
    ensures Descending(t)
  {
    match t
    case Empty =>
    case Node(l, _, key, _, r) =>
      SortedDescends(l);
      SortedDescends(r);
      forall x: u64 ensures Has(l, x) ==> x > key { assert Has(l, x) ==> SignBefore(x, key); }
      forall x: u64 ensures Has(r, x) ==> x < key { assert Has(r, x) ==> SignBefore(key, x); }
  }

  /** An image whose heads and pool spell out trees that represent `m`. */
  ghost predicate GoodImage(i: Image, ts: seq<SignTree>, stack: seq<nat>, m: map<u64, u64>) {
    && 0 < |i.heads| < WORD && |i.free| < WORD && |i.pool| <= INDEX_NODE_NOT_EXIST
    && i.horizon <= |i.pool| && i.freeCount < |i.free|
    && |stack| == i.freeCount && (forall j | 0 <= j < |stack| :: stack[j] == i.free[j + 1])
    && Table(SignBefore, SignSlot, INDEX_NODE_NOT_EXIST, i.heads, i.pool, ts, m, multiset(stack), i.horizon)
  }

  /** A file idx_load can be given: it starts with a good image. */
  ghost predicate HoldsIndex(file: seq<byte>, i: Image, ts: seq<SignTree>, stack: seq<nat>, m: map<u64, u64>) {
    i.Fits() && Encode(i) <= file && GoodImage(i, ts, stack, m)
  }

  class Index {
    var file: seq<byte>
    var isChange: bool
    const hashHead: array<u64>
    const nodePool: array<SignCell>
    var nodePoolHorizon: nat
    const freeNodePool: array<u64>
    var freeNodeCount: nat
    var timestamp: u64
    ghost var trees: seq<SignTree>
    ghost var stack: seq<nat>
    ghost var contents: map<u64, u64>

    ghost predicate Sized()
      reads this
    {
      && hashHead != freeNodePool
      && 0 < hashHead.Length < WORD && freeNodePool.Length < WORD
      && nodePool.Length <= INDEX_NODE_NOT_EXIST
      && nodePoolHorizon <= nodePool.Length && freeNodeCount < freeNodePool.Length
    }

    function Snapshot(): (i: Image)
      reads this, hashHead, nodePool, freeNodePool
      requires Sized()
      ensures i.Fits()
    {
      Image(nodePoolHorizon, freeNodeCount, timestamp, nodePool[..], hashHead[..], freeNodePool[..])
    }

    /** The freed ids lie in slots 1 to freeNodeCount of the free pool, the last one freed on top. */
    ghost predicate Stacked()
      reads this, freeNodePool
      requires freeNodeCount < freeNodePool.Length
    {
      |stack| == freeNodeCount && forall i | 0 <= i < |stack| :: stack[i] == freeNodePool[i + 1]
    }

    /**
     The heads and the pool spell out one sorted tree per slot, the trees represent `contents`, and
     the ids below the horizon are exactly the cells of the trees and the stacked free ids, each once.
     */
    ghost predicate Valid()
      reads this, hashHead, nodePool, freeNodePool
    {
      && Sized()
      && Stacked()
      && Table(SignBefore, SignSlot, INDEX_NODE_NOT_EXIST, hashHead[..], nodePool[..], trees, contents,
               multiset(stack), nodePoolHorizon)
      && (!isChange ==> Encode(Snapshot()) <= file)
    }

    /** idx_create on a file that may already hold something. */
    constructor Create(existing: seq<byte>, keyNumQuotas: nat, timestamp: u64)
      requires keyNumQuotas <= INDEX_NODE_NOT_EXIST
      ensures Valid() && fresh(hashHead) && fresh(nodePool) && fresh(freeNodePool)
      ensures contents == map[] && nodePool.Length == keyNumQuotas && freeNodePool.Length == FREE_NODE_POOL_SIZE
      ensures hashHead.Length == |trees| == 1024 && freeNodePool.Length == 1048576
      ensures forall b | 0 <= b < hashHead.Length :: hashHead[b] == 123456789
      ensures nodePoolHorizon == freeNodeCount == 0 && !isChange && this.timestamp == timestamp
    {
      file := existing;
      isChange := false;
      hashHead := new u64[HASH_HEAD_NUM](_ => INDEX_NODE_NOT_EXIST);
      nodePool := new SignCell[keyNumQuotas];
      freeNodePool := new u64[FREE_NODE_POOL_SIZE];
      freeNodeCount, nodePoolHorizon := 0, 0;
      this.timestamp := timestamp;
      trees, stack, contents := seq(HASH_HEAD_NUM, _ => Empty), [], map[];
      new;
      EmptyTable(SignBefore, SignSlot, trees);
      Sync();
    }

    /** idx_sync */
    method Sync()
      requires Sized()
      modifies this`file, this`isChange
      ensures Snapshot() == old(Snapshot()) && !isChange
      ensures file == WriteAt(old(file), 0, Encode(Snapshot())) && Encode(Snapshot()) <= file
    {
      var data := Encode(Snapshot());
      file := WriteAt(file, 0, data);
      isChange := false;
      WriteAtStart(old(file), data);
      assert Snapshot() == old(Snapshot());
    }

    /** A walk for the sign has come to cell `id` through `link`, with the path `p` behind it and the subtree `s` ahead. */
    ghost predicate WalkedTo(keySign: u64, id: u64, link: Link, p: SignPath, s: SignTree)
      reads this`trees, hashHead, nodePool
    {
      var b := SignSlot(keySign, |trees|);
      && b < |trees| == hashHead.Length
      && (p, s) == Walk(SignBefore, Top, trees[b], keySign) && link == LinkOf(p, Head(b))
      && LinkedPath(nodePool[..], INDEX_NODE_NOT_EXIST, hashHead[b], p, id)
      && Linked(nodePool[..], INDEX_NODE_NOT_EXIST, id, s)
    }

    /** The walk that idx_search, idx_insert and idx_delete start with, and the link it ends in. */
    method FindLink(keySign: u64) returns (id: u64, link: Link, ghost p: SignPath, ghost s: SignTree)
      requires Valid()
      ensures WalkedTo(keySign, id, link, p, s)
      ensures keySign in contents <==> id != INDEX_NODE_NOT_EXIST
      ensures keySign in contents ==> id < nodePool.Length && nodePool[id].val == contents[keySign]
    {
      var b := SignSlot(keySign, hashHead.Length);
      link, id, p, s := Head(b), hashHead[b], Top, trees[b];
      WalkStops(SignBefore, Top, trees[b], keySign);
      assert Find(SignBefore, trees[SignSlot(keySign, |trees|)], keySign) == Lookup(contents, keySign);
      while id != INDEX_NODE_NOT_EXIST
        invariant Walk(SignBefore, p, s, keySign) == Walk(SignBefore, Top, trees[b], keySign)
        invariant LinkedPath(nodePool[..], INDEX_NODE_NOT_EXIST, hashHead[b], p, id)
        invariant Linked(nodePool[..], INDEX_NODE_NOT_EXIST, id, s)
        invariant link == LinkOf(p, Head(b))
        decreases s
      {
        var node := nodePool[id];
        if node.key == keySign {
          return;
        } else if node.key < keySign {
          link := LeftOf(id);
          p, s := InLeft(p, id, s.key, s.val, s.right), s.left;
          id := node.left;
        } else {
          link := RightOf(id);
          p, s := InRight(p, s.left, id, s.key, s.val), s.right;
          id := node.right;
        }
      }
    }

    /** idx_search: the bound offset, or nothing when the sign is not bound. */
    method Search(keySign: u64) returns (found: Option<u64>)
      requires Valid()
      ensures found == if keySign in contents then Some(contents[keySign]) else None
    {
      var id, link, p, s := FindLink(keySign);
      if id == INDEX_NODE_NOT_EXIST {
        found := None;
      } else {
        found := Some(nodePool[id].val);
      }
    }

    /** Write through a link: a head slot or one child field of a cell. */
    method WriteLink(link: Link, to: u64)
      requires if link.Head? then link.slot < hashHead.Length else link.id < nodePool.Length
      modifies hashHead, nodePool
      ensures nodePool[..] == Store(old(nodePool[..]), link, to)
      ensures hashHead[..] == StoreHead(old(hashHead[..]), link, to)
    {
      match link
      case Head(slot) => hashHead[slot] := to;
      case LeftOf(id) => nodePool[id] := nodePool[id].(left := to);
      case RightOf(id) => nodePool[id] := nodePool[id].(right := to);
    }

    /** _get_free_idx_node: the top of the stack, or the next cell never used. */
    method GetFreeNode() returns (id: u64)
      requires Sized() && Stacked()
      requires freeNodeCount == 0 ==> nodePoolHorizon < nodePool.Length
      requires Forest(trees) + multiset(stack) == UpTo(nodePoolHorizon)
      modifies this`nodePoolHorizon, this`freeNodeCount, this`stack
      ensures Sized() && Stacked()
      ensures id < nodePoolHorizon && id !in Forest(trees)
      ensures Forest(trees) + multiset{id} + multiset(stack) == UpTo(nodePoolHorizon)
      ensures if old(freeNodeCount) == 0 then nodePoolHorizon == old(nodePoolHorizon) + 1 && freeNodeCount == 0
              else nodePoolHorizon == old(nodePoolHorizon) && freeNodeCount == old(freeNodeCount) - 1
      ensures if old(freeNodeCount) == 0 then id == old(nodePoolHorizon) && stack == old(stack)
              else old(stack) == stack + [id]
    {
      hide Forest, UpTo;
      ghost var live, before := Forest(trees), stack;
      if freeNodeCount == 0 {
        TakeFresh(live, multiset(stack), nodePoolHorizon);
        id := nodePoolHorizon;
        nodePoolHorizon := nodePoolHorizon + 1;
      } else {
        id := freeNodePool[freeNodeCount];
        freeNodeCount := freeNodeCount - 1;
        stack := stack[..freeNodeCount];
        assert before == stack + [id];
        TakeFreed(live, before, stack, id, nodePoolHorizon);
      }
    }

    /** idx_insert: bind an absent sign; a bound one changes nothing. */
    method Insert(keySign: u64, valueOffset: u64, timestamp: u64) returns (ok: bool)
      requires Valid()
      requires keySign !in contents && freeNodeCount == 0 ==> nodePoolHorizon < nodePool.Length
      modifies this`isChange, this`nodePoolHorizon, this`freeNodeCount, this`timestamp,
               this`trees, this`stack, this`contents, hashHead, nodePool
      ensures Valid()
      ensures ok == (keySign !in old(contents))
      ensures contents == if ok then old(contents)[keySign := valueOffset] else old(contents)
      ensures ok ==> this.timestamp == timestamp && isChange
      ensures ok ==> nodePoolHorizon == if old(freeNodeCount) == 0 then old(nodePoolHorizon) + 1 else old(nodePoolHorizon)
      ensures !ok ==> unchanged(this) && unchanged(hashHead) && unchanged(nodePool)
      ensures |trees| == |old(trees)|
      ensures forall b | 0 <= b < |trees| && b != SignSlot(keySign, |trees|) :: trees[b] == old(trees)[b]
    {
      hide Table, WalkedTo, Represents, AllLinked, Linked, LinkedPath, Forest, UpTo, Walk, Put, NoRepeats;
      var id, link, p, s := FindLink(keySign);
      ghost var b := SignSlot(keySign, |trees|);
      if id != INDEX_NODE_NOT_EXIST {
        return false;
      }
      TableParts();
      var newId := GetFreeNode();
      Attach(keySign, valueOffset, newId, id, link, p, s);
      this.timestamp := timestamp;
      isChange := true;
      trees := trees[b := Put(SignBefore, trees[b], newId, keySign, valueOffset)];
      contents := contents[keySign := valueOffset];
      ok := true;
    }

    /** The last step of idx_insert: fill the cell and store its id where the walk ended. */
    method Attach(keySign: u64, valueOffset: u64, newId: u64, id: u64, link: Link, ghost p: SignPath, ghost s: SignTree)
      requires WalkedTo(keySign, id, link, p, s) && keySign !in contents
      requires newId < nodePoolHorizon <= nodePool.Length <= INDEX_NODE_NOT_EXIST && newId !in Forest(trees)
      requires AllLinked(hashHead[..], nodePool[..], INDEX_NODE_NOT_EXIST, trees)
      requires Represents(SignBefore, SignSlot, trees, contents) && NoRepeats(Forest(trees))
      requires Forest(trees) + multiset{newId} + multiset(stack) == UpTo(nodePoolHorizon)
      modifies hashHead, nodePool
      ensures var b := SignSlot(keySign, |trees|);
        && b < |trees|
        && Table(SignBefore, SignSlot, INDEX_NODE_NOT_EXIST, hashHead[..], nodePool[..],
                 trees[b := Put(SignBefore, trees[b], newId, keySign, valueOffset)], contents[keySign := valueOffset],
                 multiset(stack), nodePoolHorizon)
    {
      hide Table, Represents, AllLinked, Linked, LinkedPath, Forest, UpTo, Walk, Put, NoRepeats;
      ghost var heads, pool := hashHead[..], nodePool[..];
      TableAdd(SignBefore, SignSlot, INDEX_NODE_NOT_EXIST, heads, pool, trees, contents,
               multiset(stack), nodePoolHorizon, keySign, valueOffset, newId, id);
      nodePool[newId] := Cell(keySign, valueOffset, INDEX_NODE_NOT_EXIST, INDEX_NODE_NOT_EXIST);
      assert nodePool[..] == pool[newId := nodePool[newId]] && hashHead[..] == heads;
      WriteLink(link, newId);
    }

    lemma TableParts()
      requires Valid()
      ensures nodePoolHorizon <= nodePool.Length <= INDEX_NODE_NOT_EXIST && 0 < |trees| == hashHead.Length
      ensures AllLinked(hashHead[..], nodePool[..], INDEX_NODE_NOT_EXIST, trees)
      ensures Represents(SignBefore, SignSlot, trees, contents) && NoRepeats(Forest(trees))
      ensures Forest(trees) + multiset(stack) == UpTo(nodePoolHorizon)
    {
      hide Represents, Linked, Forest, UpTo, NoRepeats;
      OwnedOnce(Forest(trees), multiset(stack), nodePoolHorizon);
    }

    /** From the right child of `id` down left links to its successor, and the link that leads there. */
    method FindNearest(id: u64, ghost s: SignTree) returns (nearestId: u64, link: Link)
      requires s.Node? && s.right.Node? && Linked(nodePool[..], INDEX_NODE_NOT_EXIST, id, s)
      ensures nearestId < nodePool.Length && nodePool[nearestId].left == INDEX_NODE_NOT_EXIST
      ensures var (q, near) := Leftmost(Top, s.right);
        && s.right == Plug(q, near) && near.Node? && near.left.Empty?
        && near.id == nearestId && link == LinkOf(q, RightOf(id))
        && LinkedPath(nodePool[..], INDEX_NODE_NOT_EXIST, nodePool[id].right, q, nearestId)
        && Linked(nodePool[..], INDEX_NODE_NOT_EXIST, nearestId, near)
    {
      ghost var q: SignPath, near: SignTree;
      link, nearestId, q, near := RightOf(id), nodePool[id].right, Top, s.right;
      while nodePool[nearestId].left != INDEX_NODE_NOT_EXIST
        invariant near.Node? && Leftmost(Top, s.right) == Leftmost(q, near) && s.right == Plug(q, near)
        invariant LinkedPath(nodePool[..], INDEX_NODE_NOT_EXIST, nodePool[id].right, q, nearestId)
        invariant Linked(nodePool[..], INDEX_NODE_NOT_EXIST, nearestId, near)
        invariant link == LinkOf(q, RightOf(id))
        decreases near
      {
        link := LeftOf(nearestId);
        q, near := InLeft(q, near.id, near.key, near.val, near.right), near.left;
        nearestId := nodePool[nearestId].left;
      }
    }

    /** _put_free_idx_node */
    method PutFreeNode(id: u64)
      requires hashHead != freeNodePool
      requires freeNodeCount + 1 < freeNodePool.Length && Stacked()
      modifies this`freeNodeCount, this`stack, freeNodePool
      ensures freeNodeCount == old(freeNodeCount) + 1 < freeNodePool.Length
      ensures Stacked() && stack == old(stack) + [id]
    {
      freeNodeCount := freeNodeCount + 1;
      freeNodePool[freeNodeCount] := id;
      stack := stack + [id];
    }

    /** The table once the sign is gone and its cell belongs to nobody. */
    ghost predicate Dropped(keySign: u64, id: u64)
      reads this, hashHead, nodePool
    {
      var b := SignSlot(keySign, |trees|);
      && b < |trees|
      && Table(SignBefore, SignSlot, INDEX_NODE_NOT_EXIST, hashHead[..], nodePool[..],
               trees[b := Remove(SignBefore, trees[b], keySign)], contents - {keySign},
               multiset(stack) + multiset{id}, nodePoolHorizon)
    }

    /** The four shapes of idx_delete: the node `id` the walk stopped at leaves its tree. */
    method Unlink(keySign: u64, id: u64, link: Link, ghost p: SignPath, ghost s: SignTree)
      requires Valid() && keySign in contents && id != INDEX_NODE_NOT_EXIST && WalkedTo(keySign, id, link, p, s)
      modifies hashHead, nodePool
      ensures Dropped(keySign, id)
    {
      hide Table, Represents, AllLinked, Linked, LinkedPath, Forest, UpTo, Walk, Remove;
      RootCell(nodePool[..], INDEX_NODE_NOT_EXIST, id, s);
      var left, right := nodePool[id].left, nodePool[id].right;
      if left != INDEX_NODE_NOT_EXIST && right != INDEX_NODE_NOT_EXIST {
        Splice(keySign, id, link, p, s);
      } else {
        TableBypass(SignBefore, SignSlot, INDEX_NODE_NOT_EXIST, hashHead[..], nodePool[..], trees, contents,
                    multiset(stack), nodePoolHorizon, keySign, p, s);
        if left == INDEX_NODE_NOT_EXIST && right == INDEX_NODE_NOT_EXIST {
          WriteLink(link, INDEX_NODE_NOT_EXIST);
        } else if left != INDEX_NODE_NOT_EXIST {
          WriteLink(link, left);
        } else {
          WriteLink(link, right);
        }
      }
    }

    /** The shape with two children: the successor is unhooked, adopts both children and takes the node's place. */
    method Splice(keySign: u64, id: u64, link: Link, ghost p: SignPath, ghost s: SignTree)
      requires Valid() && keySign in contents && id != INDEX_NODE_NOT_EXIST && WalkedTo(keySign, id, link, p, s)
      requires s.Node? && s.left.Node? && s.right.Node? && id < nodePool.Length
      modifies hashHead, nodePool
      ensures Dropped(keySign, id)
    {
      hide Represents, AllLinked, LinkedPath, Forest, UpTo, Walk, Remove, Leftmost, AdoptChildren, Plug;
      ghost var heads, pool := hashHead[..], nodePool[..];
      var nearestId, nearestLink := FindNearest(id, s);
      ghost var (q, near) := Leftmost(Top, s.right);
      TableSplice(SignBefore, SignSlot, INDEX_NODE_NOT_EXIST, heads, pool, trees, contents, multiset(stack), nodePoolHorizon,
                  keySign, p, s, q, near);
      WriteLink(nearestLink, nodePool[nearestId].right);
      AdoptChildrenOf(nearestId, id);
      WriteLink(link, nearestId);
    }

    method AdoptChildrenOf(nearestId: u64, id: u64)
      requires id < nodePool.Length && nearestId < nodePool.Length
      modifies nodePool
      ensures nodePool[..] == AdoptChildren(old(nodePool[..]), id, nearestId)
    {
      nodePool[nearestId] := nodePool[nearestId].(left := nodePool[id].left);
      nodePool[nearestId] := nodePool[nearestId].(right := nodePool[id].right);
    }

    /** idx_delete: unbind a bound sign, whatever the shape of its node, and report its offset. */
    method Delete(keySign: u64, timestamp: u64) returns (found: Option<u64>)
      requires Valid()
      requires keySign in contents ==> freeNodeCount + 1 < freeNodePool.Length
      modifies this`isChange, this`freeNodeCount, this`timestamp, this`trees, this`stack, this`contents,
               hashHead, nodePool, freeNodePool
      ensures Valid()
      ensures found == if keySign in old(contents) then Some(old(contents)[keySign]) else None
      ensures contents == old(contents) - {keySign}
      ensures found.Some? ==> this.timestamp == timestamp && isChange && freeNodeCount == old(freeNodeCount) + 1
      ensures found.None? ==> unchanged(this) && unchanged(hashHead) && unchanged(nodePool) && unchanged(freeNodePool)
      ensures |trees| == |old(trees)|
      ensures forall b | 0 <= b < |trees| && b != SignSlot(keySign, |trees|) :: trees[b] == old(trees)[b]
    {
      hide Table, Represents, AllLinked, Linked, LinkedPath, Forest, UpTo, Walk, Remove;
      var id, link, p, s := FindLink(keySign);
      ghost var b := SignSlot(keySign, |trees|);
      if id == INDEX_NODE_NOT_EXIST {
        return None;
      }
      found := Some(nodePool[id].val);
      Unlink(keySign, id, link, p, s);
      ghost var heads, pool, rest := hashHead[..], nodePool[..], multiset(stack);
      PutFreeNode(id);
      assert hashHead[..] == heads && nodePool[..] == pool;
      assert multiset(stack) == rest + multiset{id};
      this.timestamp := timestamp;
      isChange := true;
      trees := trees[b := Remove(SignBefore, trees[b], keySign)];
      contents := contents - {keySign};
    }

    /** idx_exit: the file is brought up to date when it has to be, and then holds this index. */
    method Exit() returns (saved: seq<byte>)
      requires Valid()
      modifies this`file, this`isChange
      ensures Valid() && !isChange && saved == file && Snapshot() == old(Snapshot())
      ensures HoldsIndex(saved, old(Snapshot()), trees, stack, contents)
    {
      hide Represents, AllLinked, Forest, UpTo, Encode;
      if isChange {
        Sync();
      }
      saved := file;
    }

    /** idx_load on a file that holds an index: the same heads, pool, free stack, horizon and map. */
    constructor Load(saved: seq<byte>, ghost i: Image, ghost ts: seq<SignTree>, ghost freed: seq<nat>, ghost m: map<u64, u64>)
      requires HoldsIndex(saved, i, ts, freed, m)
      ensures Valid() && fresh(hashHead) && fresh(nodePool) && fresh(freeNodePool)
      ensures Snapshot() == i && contents == m && trees == ts && stack == freed && !isChange && file == saved
    {
      hide Represents, AllLinked, Forest, UpTo, Encode, Decode;
      ImageRoundTrip(i, saved);
      var head := Decode(saved);
      file := saved;
      isChange := false;
      hashHead := new u64[|head.heads|](j requires 0 <= j < |head.heads| => head.heads[j]);
      nodePool := new SignCell[|head.pool|](j requires 0 <= j < |head.pool| => head.pool[j]);
      freeNodePool := new u64[|head.free|](j requires 0 <= j < |head.free| => head.free[j]);
      freeNodeCount, nodePoolHorizon, timestamp := head.freeCount, head.horizon, head.timestamp;
      trees, stack, contents := ts, freed, m;
      new;
      assert hashHead[..] == i.heads && nodePool[..] == i.pool && freeNodePool[..] == i.free;
    }

    /**
     No id is shared, lost or free while in use: an id below the horizon is a cell of exactly one tree,
     once, or lies in exactly one used slot of the free pool; an id above it is in neither.
     */
    lemma NodesPartition(x: nat)
      requires Valid()
      ensures x < nodePoolHorizon <==>
        (exists b :: 0 <= b < |trees| && x in Ids(trees[b])) || x in freeNodePool[1..freeNodeCount + 1]
      ensures forall b, c | 0 <= b < |trees| && 0 <= c < |trees| && b != c && x in Ids(trees[b]) :: x !in Ids(trees[c])
      ensures forall b | 0 <= b < |trees| && x in Ids(trees[b]) ::
        Ids(trees[b])[x] == 1 && x !in freeNodePool[1..freeNodeCount + 1]
      ensures forall i, j | 1 <= i < j <= freeNodeCount :: freeNodePool[i] != freeNodePool[j]
    {
      hide Represents, AllLinked, Linked, UpTo, Ids, Forest;
      assert multiset(stack) + multiset{} == multiset(stack);
      OneOwner(trees, stack, multiset{}, nodePoolHorizon, x);
      if x in Forest(trees) { ForestCovers(trees, x); }
      assert freeNodePool[1..freeNodeCount + 1] == stack;
      forall i, j | 1 <= i < j <= freeNodeCount ensures freeNodePool[i] != freeNodePool[j] {
        assert stack[i - 1] != stack[j - 1];
      }
    }

    /** Bucket `b` is a descending tree of exactly the bound signs that leave remainder `b`. */
    lemma Placed(b: nat)
      requires Valid() && b < hashHead.Length
      ensures |trees| == hashHead.Length && Descending(trees[b])
      ensures forall x: u64 :: Has(trees[b], x) <==> x in contents && x % hashHead.Length == b
    {
      assert GoodSlot(SignBefore, SignSlot, |trees|, b, trees[b]);
      SortedDescends(trees[b]);
      forall x: u64 ensures Has(trees[b], x) <==> x in contents && x % hashHead.Length == b {
        SlotKeysBound(SignBefore, SignSlot, trees, contents, b, x);
      }
    }

    lemma CountNodes()
      requires Valid()
      ensures |contents| + freeNodeCount == nodePoolHorizon <= nodePool.Length <= INDEX_NODE_NOT_EXIST
    {
      TableCount(SignBefore, SignSlot, INDEX_NODE_NOT_EXIST, hashHead[..], nodePool[..], trees, contents,
                 multiset(stack), nodePoolHorizon);
      assert |multiset(stack)| == |stack|;
    }
  }
}
