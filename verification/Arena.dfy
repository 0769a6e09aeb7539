/**
 Trees laid out in a flat array of cells.

 A cell holds a key, a value and the ids of its two children; a table of heads holds the root ids.
 `Linked` says that an array and a root id spell out a given tree. Both engines change a tree by
 remembering the link that led to the current node (a head slot, or one child field of a cell) and
 writing a new id through it; `Store` is that write, and the lemmas here say what it does to every
 tree of the table.
 */
module Arena {
  import opened Bytes
  import opened Trees

  datatype Cell<K, V> = Cell(key: K, val: V, left: u64, right: u64)

  ghost predicate Linked<K, V>(pool: seq<Cell<K, V>>, nil: u64, root: nat, t: Tree<K, V>)
    decreases t
  {
    match t
    case Empty => root == nil
    case Node(l, id, k, v, r) =>
      && root == id && id < |pool| && id != nil
      && pool[id].key == k && pool[id].val == v
      && Linked(pool, nil, pool[id].left, l) && Linked(pool, nil, pool[id].right, r)
  }

  /** The cell of a root shows which children there are. */
  lemma RootCell<K, V>(pool: seq<Cell<K, V>>, nil: u64, root: nat, t: Tree<K, V>)
    requires Linked(pool, nil, root, t) && root != nil
    ensures t.Node? && t.id == root < |pool|
    ensures (t.left.Empty? <==> pool[root].left == nil) && (t.right.Empty? <==> pool[root].right == nil)
  {
  }

  /** The cells of a path, from a root link that holds `root` down to a link that holds `hole`. */
  ghost predicate LinkedPath<K, V>(pool: seq<Cell<K, V>>, nil: u64, root: nat, p: Path<K, V>, hole: nat)
    decreases p
  {
    match p
    case Top => root == hole
    case InLeft(up, id, k, v, r) =>
      && id < |pool| && id != nil && pool[id].key == k && pool[id].val == v
      && pool[id].left == hole && Linked(pool, nil, pool[id].right, r)
      && LinkedPath(pool, nil, root, up, id)
    case InRight(up, l, id, k, v) =>
      && id < |pool| && id != nil && pool[id].key == k && pool[id].val == v
      && Linked(pool, nil, pool[id].left, l) && pool[id].right == hole
      && LinkedPath(pool, nil, root, up, id)
  }

  lemma {:induction false} LinkedPlug<K, V>(pool: seq<Cell<K, V>>, nil: u64, root: nat, p: Path<K, V>, hole: nat, t: Tree<K, V>)
    requires LinkedPath(pool, nil, root, p, hole) && Linked(pool, nil, hole, t)
    ensures Linked(pool, nil, root, Plug(p, t))
    decreases p
  {
    match p
    case Top =>
    case InLeft(up, id, k, v, r) => LinkedPlug(pool, nil, root, up, id, Node(t, id, k, v, r));
    case InRight(up, l, id, k, v) => LinkedPlug(pool, nil, root, up, id, Node(l, id, k, v, t));
  }

  // ----- a write to a cell a tree does not own

  lemma {:induction false} LinkedFrame<K, V>(pool: seq<Cell<K, V>>, nil: u64, root: nat, t: Tree<K, V>, x: nat, c: Cell<K, V>)
    requires Linked(pool, nil, root, t) && x < |pool| && x !in Ids(t)
    ensures Linked(pool[x := c], nil, root, t)
    decreases t
  {
    match t
    case Empty =>
    case Node(l, id, _, _, r) =>
      LinkedFrame(pool, nil, pool[id].left, l, x, c);
      LinkedFrame(pool, nil, pool[id].right, r, x, c);
  }

  lemma {:induction false} PathFrame<K, V>(pool: seq<Cell<K, V>>, nil: u64, root: nat, p: Path<K, V>, hole: nat, x: nat, c: Cell<K, V>)
    requires LinkedPath(pool, nil, root, p, hole) && x < |pool| && x !in PathIds(p)
    ensures LinkedPath(pool[x := c], nil, root, p, hole)
    decreases p
  {
    match p
    case Top =>
    case InLeft(up, id, _, _, r) =>
      LinkedFrame(pool, nil, pool[id].right, r, x, c);
      PathFrame(pool, nil, root, up, id, x, c);
    case InRight(up, l, id, _, _) =>
      LinkedFrame(pool, nil, pool[id].left, l, x, c);
      PathFrame(pool, nil, root, up, id, x, c);
  }

  // ----- a write through the link that led here

  datatype Link = Head(slot: nat) | LeftOf(id: nat) | RightOf(id: nat)

  /** The link a path ends in; `top` is the link it starts from. */
  function LinkOf<K, V>(p: Path<K, V>, top: Link): Link {
    match p
    case Top => top
    case InLeft(_, id, _, _, _) => LeftOf(id)
    case InRight(_, _, id, _, _) => RightOf(id)
  }

  function Store<K, V>(pool: seq<Cell<K, V>>, link: Link, to: u64): (r: seq<Cell<K, V>>)
    requires link.Head? || link.id < |pool|
    ensures |r| == |pool|
    ensures !link.Head? ==> r == pool[link.id := r[link.id]]
  {
    match link
    case Head(_) => pool
    case LeftOf(id) => pool[id := pool[id].(left := to)]
    case RightOf(id) => pool[id := pool[id].(right := to)]
  }

  function StoreHead(heads: seq<u64>, link: Link, to: u64): (r: seq<u64>)
    requires link.Head? ==> link.slot < |heads|
    ensures |r| == |heads|
  {
    if link.Head? then heads[link.slot := to] else heads
  }

  ghost predicate NoRepeats(b: multiset<nat>) { forall x :: b[x] <= 1 }

  /** The path survives a write through its last link, which now holds the new id. */
  lemma StorePath<K, V>(pool: seq<Cell<K, V>>, nil: u64, root: nat, p: Path<K, V>, hole: nat, to: u64)
    requires LinkedPath(pool, nil, root, p, hole) && p != Top && NoRepeats(PathIds(p))
    ensures var link := LinkOf(p, Head(0));
      && link.id in PathIds(p) && link.id < |pool| && LinkedPath(Store(pool, link, to), nil, root, p, to)
  {
    match p
    case InLeft(up, id, _, _, r) =>
      assert PathIds(p)[id] <= 1;
      LinkedFrame(pool, nil, pool[id].right, r, id, pool[id].(left := to));
      PathFrame(pool, nil, root, up, id, id, pool[id].(left := to));
    case InRight(up, l, id, _, _) =>
      assert PathIds(p)[id] <= 1;
      LinkedFrame(pool, nil, pool[id].left, l, id, pool[id].(right := to));
      PathFrame(pool, nil, root, up, id, id, pool[id].(right := to));
  }

  // ----- all trees of a table

  function Forest<K, V>(ts: seq<Tree<K, V>>): multiset<nat> {
    if ts == [] then multiset{} else Forest(ts[..|ts| - 1]) + Ids(ts[|ts| - 1])
  }

  lemma ForestLast<K, V>(ts: seq<Tree<K, V>>)
    requires ts != []
    ensures Forest(ts) == Forest(ts[..|ts| - 1]) + Ids(ts[|ts| - 1])
  {
  }

  lemma UpdatePrefix<T>(ts: seq<T>, b: nat, t: T)
    requires b < |ts|
    ensures var n := |ts| - 1;
      ts[b := t][..n] == (if b == n then ts[..n] else ts[..n][b := t]) && ts[b := t][n] == if b == n then t else ts[n]
  {
  }

  lemma SwapLast(a: multiset<nat>, b: multiset<nat>, c: multiset<nat>)
    ensures (a + c) + b == (a + b) + c
  {
  }

  lemma {:induction false} ForestUpdate<K, V>(ts: seq<Tree<K, V>>, b: nat, t: Tree<K, V>)
    requires b < |ts|
    ensures Forest(ts[b := t]) + Ids(ts[b]) == Forest(ts) + Ids(t)
  {
    var n := |ts| - 1;
    var us := ts[b := t];
    hide Ids, Forest;
    ForestLast(ts);
    ForestLast(us);
    UpdatePrefix(ts, b, t);
    if b == n {
      SwapLast(Forest(ts[..n]), Ids(ts[n]), Ids(t));
    } else {
      ForestUpdate(ts[..n], b, t);
      AddBoth(Forest(us[..n]), Ids(ts[b]), Forest(ts[..n]), Ids(t), Ids(ts[n]));
    }
  }

  lemma AddBoth(a: multiset<nat>, b: multiset<nat>, c: multiset<nat>, d: multiset<nat>, e: multiset<nat>)
    requires a + b == c + d
    ensures (a + e) + b == (c + e) + d
  {
    assert (a + e) + b == (a + b) + e;
    assert (c + e) + d == (c + d) + e;
  }

  lemma {:induction false} ForestHolds<K, V>(ts: seq<Tree<K, V>>, b: nat)
    requires b < |ts|
    ensures Ids(ts[b]) <= Forest(ts)
  {
    var n := |ts| - 1;
    if b < n { ForestHolds(ts[..n], b); }
  }

  lemma {:induction false} ForestCovers<K, V>(ts: seq<Tree<K, V>>, x: nat)
    requires x in Forest(ts)
    ensures exists b :: 0 <= b < |ts| && x in Ids(ts[b])
  {
    var n := |ts| - 1;
    if x !in Ids(ts[n]) {
      ForestCovers(ts[..n], x);
      var b :| 0 <= b < n && x in Ids(ts[..n][b]);
      assert x in Ids(ts[b]);
    }
  }

  /** Two trees of a table with no repeated id share no cell. */
  lemma ForestDisjoint<K, V>(ts: seq<Tree<K, V>>, b: nat, c: nat)
    requires b < |ts| && c < |ts| && b != c
    ensures Ids(ts[b]) + Ids(ts[c]) <= Forest(ts)
  {
    ForestUpdate(ts, b, Empty);
    ForestHolds(ts[b := Empty], c);
    var rest := Forest(ts[b := Empty]);
    assert rest + Ids(ts[b]) == Forest(ts);
    assert Ids(ts[c]) <= rest;
  }

  /** Each id below `n`, once. */
  function UpTo(n: nat): multiset<nat> {
    if n == 0 then multiset{} else UpTo(n - 1) + multiset{n - 1}
  }

  lemma {:induction false} UpToCount(n: nat, x: nat)
    ensures UpTo(n)[x] == (if x < n then 1 else 0) && |UpTo(n)| == n
  {
    if n > 0 { UpToCount(n - 1, x); }
  }

  ghost predicate AllLinked<K, V>(heads: seq<u64>, pool: seq<Cell<K, V>>, nil: u64, ts: seq<Tree<K, V>>) {
    |ts| == |heads| && forall b | 0 <= b < |ts| :: Linked(pool, nil, heads[b], ts[b])
  }

  /** A write to a cell that belongs to no tree but possibly the one in slot `b`. */
  lemma OthersFrame<K, V>(heads: seq<u64>, pool: seq<Cell<K, V>>, nil: u64, ts: seq<Tree<K, V>>, b: nat, x: nat, c: Cell<K, V>)
    requires |ts| == |heads| && b < |ts| && x < |pool|
    requires forall i | 0 <= i < |ts| && i != b :: Linked(pool, nil, heads[i], ts[i]) && x !in Ids(ts[i])
    ensures forall i | 0 <= i < |ts| && i != b :: Linked(pool[x := c], nil, heads[i], ts[i])
  {
    forall i | 0 <= i < |ts| && i != b ensures Linked(pool[x := c], nil, heads[i], ts[i]) {
      LinkedFrame(pool, nil, heads[i], ts[i], x, c);
    }
  }

  /** Ids that may be written while working on slot `b`: they belong to no other tree. */
  ghost predicate Private<K, V>(ts: seq<Tree<K, V>>, b: nat, m: multiset<nat>) {
    forall i, x | 0 <= i < |ts| && i != b && x in m :: x !in Ids(ts[i])
  }

  lemma NotShared(a: multiset<nat>, b: multiset<nat>)
    requires NoRepeats(a + b)
    ensures NoRepeats(a) && forall x :: x in a ==> x !in b
  {
    forall x ensures a[x] + b[x] <= 1 { assert (a + b)[x] <= 1; }
  }

  /** What a store through the last link of a path does to the slot the path starts from. */
  lemma StoreSlot<K, V>(pool: seq<Cell<K, V>>, nil: u64, root: nat, p: Path<K, V>, hole: nat, to: u64, t: Tree<K, V>)
    requires LinkedPath(pool, nil, root, p, hole) && Linked(pool, nil, to, t)
    requires p != Top && NoRepeats(PathIds(p) + Ids(t))
    ensures var link := LinkOf(p, Head(0));
      && link.id in PathIds(p) && link.id < |pool| && Linked(Store(pool, link, to), nil, root, Plug(p, t))
  {
    hide LinkedPath, Linked, PathIds, Ids, Plug, NoRepeats;
    var link := LinkOf(p, Head(0));
    NotShared(PathIds(p), Ids(t));
    StorePath(pool, nil, root, p, hole, to);
    var pool' := Store(pool, link, to);
    LinkedFrame(pool, nil, to, t, link.id, pool'[link.id]);
    LinkedPlug(pool', nil, root, p, to, t);
  }

  /**
   The last step of every insert and delete: write the id of a finished subtree through the link
   the walk ended in. Slot `b` then holds the plugged tree and no other slot changes.
   */
  lemma StoreReplaces<K, V>(heads: seq<u64>, pool: seq<Cell<K, V>>, nil: u64, ts: seq<Tree<K, V>>, b: nat,
                            p: Path<K, V>, hole: nat, to: u64, t: Tree<K, V>)
    requires |ts| == |heads| && b < |ts|
    requires forall i | 0 <= i < |ts| && i != b :: Linked(pool, nil, heads[i], ts[i])
    requires LinkedPath(pool, nil, heads[b], p, hole) && Linked(pool, nil, to, t)
    requires NoRepeats(PathIds(p) + Ids(t)) && Private(ts, b, PathIds(p))
    ensures var link := LinkOf(p, Head(b));
      && (link.Head? || link.id < |pool|)
      && AllLinked(StoreHead(heads, link, to), Store(pool, link, to), nil, ts[b := Plug(p, t)])
  {
    hide Linked, LinkedPath, PathIds, Ids, NoRepeats;
    if p != Top {
      StoreSlot(pool, nil, heads[b], p, hole, to, t);
      var link := LinkOf(p, Head(b));
      OthersFrame(heads, pool, nil, ts, b, link.id, Store(pool, link, to)[link.id]);
    }
  }

  lemma SmallerBag(common: multiset<nat>, small: multiset<nat>, large: multiset<nat>)
    requires small <= large && NoRepeats(common + large)
    ensures NoRepeats(common + small) && NoRepeats(small)
  {
    forall x ensures (common + small)[x] <= 1 && small[x] <= 1 { assert (common + large)[x] <= 1; }
  }

  lemma PathIsPrivate<K, V>(ts: seq<Tree<K, V>>, b: nat, p: Path<K, V>, s: Tree<K, V>)
    requires b < |ts| && ts[b] == Plug(p, s) && NoRepeats(Forest(ts))
    ensures NoRepeats(PathIds(p) + Ids(s)) && Ids(ts[b]) == PathIds(p) + Ids(s)
    ensures Private(ts, b, PathIds(p)) && Private(ts, b, Ids(s))
  {
    hide Forest, Plug, Ids, PathIds;
    PlugIds(p, s);
    ForestHolds(ts, b);
    assert multiset{} + Forest(ts) == Forest(ts);
    SmallerBag(multiset{}, PathIds(p) + Ids(s), Forest(ts));
    assert forall x :: x in PathIds(p) || x in Ids(s) ==> x in Ids(ts[b]);
    forall i, x | 0 <= i < |ts| && i != b && x in Ids(ts[b]) ensures x !in Ids(ts[i]) {
      ForestDisjoint(ts, b, i);
      assert (Ids(ts[b]) + Ids(ts[i]))[x] <= Forest(ts)[x] <= 1;
    }
  }

  lemma FreshId<K, V>(ts: seq<Tree<K, V>>, id: nat)
    requires id !in Forest(ts)
    ensures forall i | 0 <= i < |ts| :: id !in Ids(ts[i])
  {
    forall i | 0 <= i < |ts| ensures id !in Ids(ts[i]) { ForestHolds(ts, i); }
  }

  lemma LeafCell<K, V>(pool: seq<Cell<K, V>>, nil: u64, id: nat, k: K, v: V)
    requires id < |pool| && id != nil
    ensures Linked(pool[id := Cell(k, v, nil, nil)], nil, id, Leaf(id, k, v)) && Ids(Leaf(id, k, v)) == multiset{id}
  {
  }

  lemma OneMore(a: multiset<nat>, b: multiset<nat>, id: nat)
    requires NoRepeats(a + b) && id !in a
    ensures NoRepeats(a + multiset{id})
  {
    NotShared(a, b);
  }

  /** An insert: fill a cell no tree uses, then store its id where the walk ended. */
  lemma AttachLeaf<K, V>(heads: seq<u64>, pool: seq<Cell<K, V>>, nil: u64, ts: seq<Tree<K, V>>, b: nat,
                         p: Path<K, V>, s: Tree<K, V>, hole: nat, id: u64, k: K, v: V)
    requires AllLinked(heads, pool, nil, ts) && b < |ts| && ts[b] == Plug(p, s)
    requires LinkedPath(pool, nil, heads[b], p, hole)
    requires NoRepeats(Forest(ts)) && id !in Forest(ts) && id < |pool| && id != nil
    ensures var pool' := pool[id := Cell(k, v, nil, nil)];
      var link := LinkOf(p, Head(b));
      && (link.Head? || link.id < |pool|)
      && AllLinked(StoreHead(heads, link, id), Store(pool', link, id), nil, ts[b := Plug(p, Leaf(id, k, v))])
  {
    hide Forest, Plug, PathIds, Ids, LinkedPath, Linked, LinkOf, Store, NoRepeats, Private, Leaf;
    PathIsPrivate(ts, b, p, s);
    FreshId(ts, id);
    var cell := Cell(k, v, nil, nil);
    OthersFrame(heads, pool, nil, ts, b, id, cell);
    assert id !in PathIds(p);
    PathFrame(pool, nil, heads[b], p, hole, id, cell);
    var t := Leaf(id, k, v);
    LeafCell(pool, nil, id, k, v);
    OneMore(PathIds(p), Ids(s), id);
    StoreReplaces(heads, pool[id := cell], nil, ts, b, p, hole, id, t);
  }

  /** A delete of a node with at most one child: store the child, if any, where the walk ended. */
  lemma BypassNode<K, V>(heads: seq<u64>, pool: seq<Cell<K, V>>, nil: u64, ts: seq<Tree<K, V>>, b: nat,
                         p: Path<K, V>, s: Tree<K, V>)
    requires AllLinked(heads, pool, nil, ts) && b < |ts| && ts[b] == Plug(p, s) && NoRepeats(Forest(ts))
    requires s.Node? && (s.left.Empty? || s.right.Empty?)
    requires LinkedPath(pool, nil, heads[b], p, s.id) && Linked(pool, nil, s.id, s)
    ensures var to := if s.left.Empty? then pool[s.id].right else pool[s.id].left;
      var link := LinkOf(p, Head(b));
      && (link.Head? || link.id < |pool|)
      && AllLinked(StoreHead(heads, link, to), Store(pool, link, to), nil, ts[b := Plug(p, Join(s.left, s.right))])
  {
    hide Forest, Plug, PathIds, LinkedPath, LinkOf, Store, NoRepeats, Private;
    PathIsPrivate(ts, b, p, s);
    var to := if s.left.Empty? then pool[s.id].right else pool[s.id].left;
    var j := Join(s.left, s.right);
    SmallerBag(PathIds(p), Ids(j), Ids(s));
    StoreReplaces(heads, pool, nil, ts, b, p, s.id, to, j);
  }

  // ----- a delete of a node with two children

  /** The three writes that put the successor `m`, found below the right child of `id`, in the place of `id`. */
  function UnhookSuccessor<K, V>(pool: seq<Cell<K, V>>, id: nat, q: Path<K, V>, m: nat): (r: seq<Cell<K, V>>)
    requires id < |pool| && m < |pool| && (q == Top || LinkOf(q, RightOf(id)).id < |pool|)
    ensures |r| == |pool| && r == pool[LinkOf(q, RightOf(id)).id := r[LinkOf(q, RightOf(id)).id]]
  {
    Store(pool, LinkOf(q, RightOf(id)), pool[m].right)
  }

  function AdoptChildren<K, V>(pool: seq<Cell<K, V>>, id: nat, m: nat): (r: seq<Cell<K, V>>)
    requires id < |pool| && m < |pool|
    ensures |r| == |pool| && r == pool[m := r[m]]
  {
    pool[m := pool[m].(left := pool[id].left, right := pool[id].right)]
  }

  /** The cells involved, spelled out: `q` leads from the right child of `s` down to its successor `m`. */
  ghost predicate Apart<K, V>(s: Tree<K, V>, q: Path<K, V>, m: Tree<K, V>) {
    && s.Node? && m.Node? && m.left.Empty? && s.left.Node? && s.right == Plug(q, m)
    && s.id != m.id
    && s.id !in Ids(s.left) && s.id !in PathIds(q) && s.id !in Ids(m.right)
    && m.id !in Ids(s.left) && m.id !in PathIds(q) && m.id !in Ids(m.right)
    && (forall x :: x in PathIds(q) ==> x !in Ids(s.left))
    && NoRepeats(PathIds(q) + Ids(m.right))
  }

  lemma NodesApart<K, V>(s: Tree<K, V>, q: Path<K, V>, m: Tree<K, V>)
    requires s.Node? && m.Node? && m.left.Empty? && s.left.Node? && s.right == Plug(q, m) && NoRepeats(Ids(s))
    ensures Apart(s, q, m)
  {
    hide Plug, PathIds, NoRepeats;
    PlugIds(q, m);
    NodeIds(s);
    NodeIds(m);
    FiveApart(s.id, Ids(s.left), PathIds(q), m.id, Ids(m.right));
  }

  lemma NodeIds<K, V>(t: Tree<K, V>)
    requires t.Node?
    ensures Ids(t) == multiset{t.id} + Ids(t.left) + Ids(t.right)
    ensures t.left.Empty? ==> Ids(t) == multiset{t.id} + Ids(t.right)
  {
  }

  /** Five bags that share nothing when taken together. */
  lemma FiveApart(i: nat, l: multiset<nat>, q: multiset<nat>, j: nat, r: multiset<nat>)
    requires NoRepeats(multiset{i} + l + (q + (multiset{j} + r)))
    ensures i != j && i !in l && i !in q && i !in r && j !in l && j !in q && j !in r
    ensures (forall x :: x in q ==> x !in l) && NoRepeats(q + r)
  {
    forall x ensures (if x == i then 1 else 0) + l[x] + q[x] + (if x == j then 1 else 0) + r[x] <= 1 {
      assert (multiset{i} + l + (q + (multiset{j} + r)))[x] <= 1;
    }
  }

  /** Unhooking the successor leaves the right subtree without it; the left subtree stays. */
  lemma Unhooked<K, V>(pool: seq<Cell<K, V>>, nil: u64, s: Tree<K, V>, q: Path<K, V>, m: Tree<K, V>)
    requires Apart(s, q, m) && Linked(pool, nil, s.id, s) && Linked(pool, nil, m.id, m)
    requires LinkedPath(pool, nil, pool[s.id].right, q, m.id)
    ensures q == Top || (LinkOf(q, RightOf(s.id)).id in PathIds(q) && LinkOf(q, RightOf(s.id)).id < |pool|)
    ensures var pool1 := UnhookSuccessor(pool, s.id, q, m.id);
      && Linked(pool1, nil, pool1[s.id].right, Plug(q, m.right))
      && Linked(pool1, nil, pool1[s.id].left, s.left)
      && pool1[m.id] == pool[m.id]
  {
    hide Ids, PathIds;
    if q == Top {
      var c := pool[s.id].(right := pool[m.id].right);
      LinkedFrame(pool, nil, pool[m.id].right, m.right, s.id, c);
      LinkedFrame(pool, nil, pool[s.id].left, s.left, s.id, c);
    } else {
      StoreSlot(pool, nil, pool[s.id].right, q, m.id, pool[m.id].right, m.right);
      var link := LinkOf(q, RightOf(s.id));
      var pool1 := UnhookSuccessor(pool, s.id, q, m.id);
      LinkedFrame(pool, nil, pool[s.id].left, s.left, link.id, pool1[link.id]);
    }
  }

  /** After the successor has adopted both children of `s`, its cell roots what Join describes. */
  lemma Adopted<K, V>(pool: seq<Cell<K, V>>, nil: u64, s: Tree<K, V>, q: Path<K, V>, m: Tree<K, V>)
    requires Apart(s, q, m) && Linked(pool, nil, s.id, s) && Linked(pool, nil, m.id, m)
    requires LinkedPath(pool, nil, pool[s.id].right, q, m.id)
    ensures q == Top || LinkOf(q, RightOf(s.id)).id < |pool|
    ensures var pool2 := AdoptChildren(UnhookSuccessor(pool, s.id, q, m.id), s.id, m.id);
      Linked(pool2, nil, m.id, Node(s.left, m.id, m.key, m.val, Plug(q, m.right)))
  {
    Unhooked(pool, nil, s, q, m);
    var pool1 := UnhookSuccessor(pool, s.id, q, m.id);
    var c := AdoptChildren(pool1, s.id, m.id)[m.id];
    PlugIds(q, m.right);
    LinkedFrame(pool1, nil, pool1[s.id].right, Plug(q, m.right), m.id, c);
    LinkedFrame(pool1, nil, pool1[s.id].left, s.left, m.id, c);
  }

  /** A write to a cell of the subtree below a path touches neither the path nor another tree. */
  lemma PrivateWrite<K, V>(heads: seq<u64>, pool: seq<Cell<K, V>>, nil: u64, ts: seq<Tree<K, V>>, b: nat,
                           p: Path<K, V>, s: Tree<K, V>, hole: nat, x: nat, pool': seq<Cell<K, V>>)
    requires |ts| == |heads| && b < |ts| && x < |pool| && x in Ids(s)
    requires |pool'| == |pool| && pool' == pool[x := pool'[x]]
    requires forall i | 0 <= i < |ts| && i != b :: Linked(pool, nil, heads[i], ts[i])
    requires LinkedPath(pool, nil, heads[b], p, hole)
    requires Private(ts, b, Ids(s)) && NoRepeats(PathIds(p) + Ids(s))
    ensures LinkedPath(pool', nil, heads[b], p, hole)
    ensures forall i | 0 <= i < |ts| && i != b :: Linked(pool', nil, heads[i], ts[i])
  {
    assert (PathIds(p) + Ids(s))[x] <= 1;
    PathFrame(pool, nil, heads[b], p, hole, x, pool'[x]);
    OthersFrame(heads, pool, nil, ts, b, x, pool'[x]);
  }

  /** A delete of a node with two children keeps every slot spelled out. */
  lemma SpliceSuccessor<K, V>(heads: seq<u64>, pool: seq<Cell<K, V>>, nil: u64, ts: seq<Tree<K, V>>, b: nat,
                              p: Path<K, V>, s: Tree<K, V>, q: Path<K, V>, m: Tree<K, V>)
    requires AllLinked(heads, pool, nil, ts) && b < |ts| && ts[b] == Plug(p, s) && NoRepeats(Forest(ts))
    requires s.Node? && s.left.Node? && s.right.Node? && m.Node? && m.left.Empty? && s.id < |pool|
    requires LinkedPath(pool, nil, heads[b], p, s.id) && Linked(pool, nil, s.id, s)
    requires Leftmost(Top, s.right) == (q, m) && s.right == Plug(q, m) && m.id < |pool| && m.id < WORD
    requires LinkedPath(pool, nil, pool[s.id].right, q, m.id) && Linked(pool, nil, m.id, m)
    ensures q == Top || LinkOf(q, RightOf(s.id)).id < |pool|
    ensures var pool2 := AdoptChildren(UnhookSuccessor(pool, s.id, q, m.id), s.id, m.id);
      var link := LinkOf(p, Head(b));
      && (link.Head? || link.id < |pool|)
      && AllLinked(StoreHead(heads, link, m.id), Store(pool2, link, m.id), nil, ts[b := Plug(p, Join(s.left, s.right))])
  {
    hide UnhookSuccessor, AdoptChildren, Forest, PathIds, Ids, LinkedPath, Linked, Store, Leftmost, NoRepeats, Private, Apart, Plug;
    PathIsPrivate(ts, b, p, s);
    SpliceIds(p, s, q, m);
    NodesApart(s, q, m);
    Unhooked(pool, nil, s, q, m);
    Adopted(pool, nil, s, q, m);
    var pool1 := UnhookSuccessor(pool, s.id, q, m.id);
    var pool2 := AdoptChildren(pool1, s.id, m.id);
    PrivateWrite(heads, pool, nil, ts, b, p, s, s.id, LinkOf(q, RightOf(s.id)).id, pool1);
    PrivateWrite(heads, pool1, nil, ts, b, p, s, s.id, m.id, pool2);
    StoreReplaces(heads, pool2, nil, ts, b, p, s.id, m.id, Join(s.left, s.right));
  }

  lemma SwapOut(i: nat, l: multiset<nat>, q: multiset<nat>, j: nat, r: multiset<nat>)
    ensures multiset{i} + l + (q + (multiset{j} + r)) == (multiset{j} + l + (q + r)) + multiset{i}
  {
  }

  lemma SpliceIds<K, V>(p: Path<K, V>, s: Tree<K, V>, q: Path<K, V>, m: Tree<K, V>)
    requires s.Node? && s.left.Node? && s.right.Node? && m.Node? && m.left.Empty?
    requires Leftmost(Top, s.right) == (q, m) && s.right == Plug(q, m)
    requires NoRepeats(PathIds(p) + Ids(s))
    ensures NoRepeats(PathIds(p) + Ids(Join(s.left, s.right))) && NoRepeats(Ids(s))
    ensures s.id in Ids(s) && m.id in Ids(s) && forall x :: x in PathIds(q) ==> x in Ids(s)
  {
    hide Plug, PathIds, Leftmost, NoRepeats, Ids;
    PlugIds(q, m);
    PlugIds(q, m.right);
    var j := Join(s.left, s.right);
    NodeIds(s);
    NodeIds(m);
    NodeIds(j);
    SwapOut(s.id, Ids(s.left), PathIds(q), m.id, Ids(m.right));
    SmallerBag(PathIds(p), Ids(j), Ids(s));
    SmallerBag(PathIds(p), Ids(s), Ids(s));
  }
}
