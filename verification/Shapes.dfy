/**
 The shape of a search tree: its keys and where they sit, without cells and values. Which way a walk
 turns depends on the shape alone, so inserts and deletes act on shapes as they act on trees.
 */
module Shapes {
  import opened Trees

  type Shape<K> = Tree<K, ()>

  function Erase<K, V>(t: Tree<K, V>): Shape<K> {
    match t
    case Empty => Empty
    case Node(l, _, k, _, r) => Node(Erase(l), 0, k, (), Erase(r))
  }

  function ErasePath<K, V>(p: Path<K, V>): Path<K, ()> {
    match p
    case Top => Top
    case InLeft(up, _, k, _, r) => InLeft(ErasePath(up), 0, k, (), Erase(r))
    case InRight(up, l, _, k, _) => InRight(ErasePath(up), Erase(l), 0, k, ())
  }

  function EraseAll<K, V>(ts: seq<Tree<K, V>>): (r: seq<Shape<K>>)
    ensures |r| == |ts|
  {
    seq(|ts|, i requires 0 <= i < |ts| => Erase(ts[i]))
  }

  lemma {:induction false} ErasePlug<K, V>(p: Path<K, V>, t: Tree<K, V>)
    ensures Erase(Plug(p, t)) == Plug(ErasePath(p), Erase(t))
    decreases p
  {
    match p
    case Top =>
    case InLeft(up, id, k, v, r) => ErasePlug(up, Node(t, id, k, v, r));
    case InRight(up, l, id, k, v) => ErasePlug(up, Node(l, id, k, v, t));
  }

  lemma {:induction false} EraseWalk<K, V>(before: (K, K) -> bool, p: Path<K, V>, t: Tree<K, V>, k: K)
    ensures var (q, s) := Walk(before, p, t, k);
      Walk(before, ErasePath(p), Erase(t), k) == (ErasePath(q), Erase(s))
    decreases t
  {
    match t
    case Empty =>
    case Node(l, id, key, v, r) =>
      if k != key {
        if before(k, key) {
          EraseWalk(before, InLeft(p, id, key, v, r), l, k);
        } else {
          EraseWalk(before, InRight(p, l, id, key, v), r, k);
        }
      }
  }

  lemma {:induction false} EraseLeftmost<K, V>(p: Path<K, V>, t: Tree<K, V>)
    requires t.Node?
    ensures var (q, m) := Leftmost(p, t);
      m.Node? && Leftmost(ErasePath(p), Erase(t)) == (ErasePath(q), Erase(m))
    decreases t
  {
    if t.left.Node? { EraseLeftmost(InLeft(p, t.id, t.key, t.val, t.right), t.left); }
  }

  lemma EraseJoin<K, V>(l: Tree<K, V>, r: Tree<K, V>)
    ensures Erase(Join(l, r)) == Join(Erase(l), Erase(r))
  {
    if l.Node? && r.Node? {
      EraseLeftmost(Top, r);
      var (p, m) := Leftmost(Top, r);
      ErasePlug(p, m.right);
    }
  }

  /** What a walk for `k` stops at, and what an insert leaves, by shape. */
  lemma ErasePut<K, V>(before: (K, K) -> bool, t: Tree<K, V>, id: nat, k: K, v: V)
    ensures At(before, Erase(t), k) == Erase(At(before, t, k))
    ensures Erase(Put(before, t, id, k, v)) == Put(before, Erase(t), 0, k, ())
  {
    EraseWalk(before, Top, t, k);
    ErasePlug(Walk(before, Top, t, k).0, Leaf(id, k, v));
  }

  /** What a delete leaves, by shape. */
  lemma EraseRemove<K, V>(before: (K, K) -> bool, t: Tree<K, V>, k: K)
    ensures Erase(Remove(before, t, k)) == Remove(before, Erase(t), k)
  {
    EraseWalk(before, Top, t, k);
    var (p, s) := Walk(before, Top, t, k);
    if s.Node? {
      EraseJoin(s.left, s.right);
      ErasePlug(p, Join(s.left, s.right));
    }
  }
}
