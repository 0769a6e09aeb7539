/**
 The binary search trees that both engines keep inside a flat node array, as values.

 A `Tree` records for every node the id of the array cell that holds it. The order is a parameter:
 the older engine sends a wanted key to the left of every smaller node (its trees descend from left
 to right), the newer engine does the opposite. `before(a, b)` says that `a` belongs to the left
 of `b`.
 */
module Trees {
  import opened Options

  datatype Tree<K, V> = Empty | Node(left: Tree<K, V>, id: nat, key: K, val: V, right: Tree<K, V>)

  /** A tree with one subtree cut out: what a walk from the root has passed on its way down. */
  datatype Path<K, V> =
    | Top
    | InLeft(up: Path<K, V>, id: nat, key: K, val: V, right: Tree<K, V>)
    | InRight(up: Path<K, V>, left: Tree<K, V>, id: nat, key: K, val: V)

  function Plug<K, V>(p: Path<K, V>, t: Tree<K, V>): Tree<K, V> {
    match p
    case Top => t
    case InLeft(up, id, k, v, r) => Plug(up, Node(t, id, k, v, r))
    case InRight(up, l, id, k, v) => Plug(up, Node(l, id, k, v, t))
  }

  // ----- the cells a tree occupies

  function Ids<K, V>(t: Tree<K, V>): multiset<nat> {
    match t
    case Empty => multiset{}
    case Node(l, id, _, _, r) => multiset{id} + Ids(l) + Ids(r)
  }

  function PathIds<K, V>(p: Path<K, V>): multiset<nat> {
    match p
    case Top => multiset{}
    case InLeft(up, id, _, _, r) => PathIds(up) + multiset{id} + Ids(r)
    case InRight(up, l, id, _, _) => PathIds(up) + multiset{id} + Ids(l)
  }

  lemma {:induction false} PlugIds<K, V>(p: Path<K, V>, t: Tree<K, V>)
    ensures Ids(Plug(p, t)) == PathIds(p) + Ids(t)
  {
    match p
    case Top =>
    case InLeft(up, id, k, v, r) =>
      PlugIds(up, Node(t, id, k, v, r));
      Regroup(PathIds(up), multiset{id}, Ids(t), Ids(r));
    case InRight(up, l, id, k, v) =>
      PlugIds(up, Node(l, id, k, v, t));
      Regroup(PathIds(up), multiset{id}, Ids(l), Ids(t));
  }

  lemma Regroup(a: multiset<nat>, b: multiset<nat>, c: multiset<nat>, d: multiset<nat>)
    ensures a + (b + c + d) == a + b + d + c == a + b + c + d
  {
  }

  // ----- order

  ghost predicate StrictOrder<K(!new)>(before: (K, K) -> bool) {
    && (forall a :: !before(a, a))
    && (forall a, b :: a != b ==> before(a, b) || before(b, a))
    && (forall a, b, c :: before(a, b) && before(b, c) ==> before(a, c))
  }

  /** The bindings in a tree, wherever they sit. */
  ghost function Pairs<K, V>(t: Tree<K, V>): iset<(K, V)> {
    match t
    case Empty => iset{}
    case Node(l, _, k, v, r) => Pairs(l) + iset{(k, v)} + Pairs(r)
  }

  ghost predicate Has<K, V>(t: Tree<K, V>, k: K) {
    match t
    case Empty => false
    case Node(l, _, key, _, r) => k == key || Has(l, k) || Has(r, k)
  }

  ghost predicate Sorted<K(!new), V>(before: (K, K) -> bool, t: Tree<K, V>) {
    match t
    case Empty => true
    case Node(l, _, k, _, r) =>
      && Sorted(before, l) && Sorted(before, r)
      && (forall x :: Has(l, x) ==> before(x, k))
      && (forall x :: Has(r, x) ==> before(k, x))
  }

  function Find<K(==), V>(before: (K, K) -> bool, t: Tree<K, V>, k: K): Option<V> {
    match t
    case Empty => None
    case Node(l, _, key, v, r) =>
      if k == key then Some(v) else if before(k, key) then Find(before, l, k) else Find(before, r, k)
  }

  /** On a sorted tree the search sees every binding and invents none. */
  lemma {:induction false} FindIsMembership<K(!new), V>(before: (K, K) -> bool, t: Tree<K, V>, k: K, v: V)
    requires StrictOrder(before) && Sorted(before, t)
    ensures Find(before, t, k) == Some(v) <==> (k, v) in Pairs(t)
    ensures Find(before, t, k).Some? <==> Has(t, k)
  {
    match t
    case Empty =>
    case Node(l, _, _, _, r) =>
      FindIsMembership(before, l, k, v);
      FindIsMembership(before, r, k, v);
      PairsHave(l, k, v);
      PairsHave(r, k, v);
  }

  lemma {:induction false} FindHas<K(!new), V>(before: (K, K) -> bool, t: Tree<K, V>, k: K)
    requires StrictOrder(before) && Sorted(before, t)
    ensures Find(before, t, k).Some? <==> Has(t, k)
  {
    match t
    case Empty =>
    case Node(l, _, _, _, r) => FindHas(before, l, k); FindHas(before, r, k);
  }

  lemma {:induction false} PairsHave<K, V>(t: Tree<K, V>, k: K, v: V)
    ensures (k, v) in Pairs(t) ==> Has(t, k)
  {
    match t
    case Empty =>
    case Node(l, _, _, _, r) => PairsHave(l, k, v); PairsHave(r, k, v);
  }

  // ----- the walk every operation starts with

  /** Where a walk for `k` stops: at a node with that key, or at the empty link where it belongs. */
  function Walk<K(==), V>(before: (K, K) -> bool, p: Path<K, V>, t: Tree<K, V>, k: K): (Path<K, V>, Tree<K, V>)
    decreases t
  {
    match t
    case Empty => (p, t)
    case Node(l, id, key, v, r) =>
      if k == key then (p, t)
      else if before(k, key) then Walk(before, InLeft(p, id, key, v, r), l, k)
      else Walk(before, InRight(p, l, id, key, v), r, k)
  }

  /** Every turn of the path is the turn a walk for `k` takes. */
  ghost predicate Leads<K, V>(before: (K, K) -> bool, p: Path<K, V>, k: K) {
    match p
    case Top => true
    case InLeft(up, _, key, _, _) => k != key && before(k, key) && Leads(before, up, k)
    case InRight(up, _, _, key, _) => k != key && !before(k, key) && Leads(before, up, k)
  }

  lemma {:induction false} WalkStops<K, V>(before: (K, K) -> bool, p: Path<K, V>, t: Tree<K, V>, k: K)
    requires Leads(before, p, k)
    ensures var (q, s) := Walk(before, p, t, k);
      && Plug(q, s) == Plug(p, t) && Leads(before, q, k)
      && (s.Node? ==> s.key == k)
      && (Find(before, t, k) == if s.Node? then Some(s.val) else None)
    decreases t
  {
    match t
    case Empty =>
    case Node(l, id, key, v, r) =>
      if k != key {
        if before(k, key) {
          WalkStops(before, InLeft(p, id, key, v, r), l, k);
        } else {
          WalkStops(before, InRight(p, l, id, key, v), r, k);
        }
      }
  }

  // ----- replacing the subtree where a walk stopped

  /** Nothing but `k` changes for a search when the replacement answers alike for every other key. */
  lemma {:induction false} FindThroughPlug<K(!new), V>(before: (K, K) -> bool, p: Path<K, V>, s: Tree<K, V>, s': Tree<K, V>, k: K)
    requires Leads(before, p, k)
    requires forall x :: x != k ==> Find(before, s, x) == Find(before, s', x)
    ensures forall x :: x != k ==> Find(before, Plug(p, s), x) == Find(before, Plug(p, s'), x)
    ensures Find(before, Plug(p, s'), k) == Find(before, s', k)
    decreases p
  {
    match p
    case Top =>
    case InLeft(up, id, key, v, r) =>
      FindThroughPlug(before, up, Node(s, id, key, v, r), Node(s', id, key, v, r), k);
    case InRight(up, l, id, key, v) =>
      FindThroughPlug(before, up, Node(l, id, key, v, s), Node(l, id, key, v, s'), k);
  }

  lemma {:induction false} SortedBelow<K(!new), V>(before: (K, K) -> bool, p: Path<K, V>, t: Tree<K, V>)
    requires Sorted(before, Plug(p, t))
    ensures Sorted(before, t)
    decreases p
  {
    match p
    case Top =>
    case InLeft(up, id, k, v, r) => SortedBelow(before, up, Node(t, id, k, v, r));
    case InRight(up, l, id, k, v) => SortedBelow(before, up, Node(l, id, k, v, t));
  }

  lemma {:induction false} SortedThroughPlug<K(!new), V>(before: (K, K) -> bool, p: Path<K, V>, s: Tree<K, V>, s': Tree<K, V>, k: K)
    requires StrictOrder(before) && Leads(before, p, k)
    requires Sorted(before, Plug(p, s)) && Sorted(before, s')
    requires forall x :: Has(s', x) ==> Has(s, x) || x == k
    ensures Sorted(before, Plug(p, s'))
    ensures forall x :: Has(Plug(p, s'), x) ==> Has(Plug(p, s), x) || x == k
    decreases p
  {
    match p
    case Top =>
    case InLeft(up, id, key, v, r) =>
      SortedBelow(before, up, Node(s, id, key, v, r));
      SortedThroughPlug(before, up, Node(s, id, key, v, r), Node(s', id, key, v, r), k);
    case InRight(up, l, id, key, v) =>
      SortedBelow(before, up, Node(l, id, key, v, s));
      SortedThroughPlug(before, up, Node(l, id, key, v, s), Node(l, id, key, v, s'), k);
  }

  // ----- removing a node

  /** The path from the root of a tree to its leftmost node, and the subtree rooted there. */
  function Leftmost<K, V>(p: Path<K, V>, t: Tree<K, V>): (Path<K, V>, Tree<K, V>)
    requires t.Node?
    decreases t
  {
    if t.left.Empty? then (p, t) else Leftmost(InLeft(p, t.id, t.key, t.val, t.right), t.left)
  }

  /** What takes the place of a node with children `l` and `r`. */
  function Join<K, V>(l: Tree<K, V>, r: Tree<K, V>): Tree<K, V> {
    if l.Empty? then r
    else if r.Empty? then l
    else
      var (p, m) := Leftmost(Top, r);
      if m.Node? then Node(l, m.id, m.key, m.val, Plug(p, m.right)) else l
  }

  /** The leftmost node is where a walk for its key stops, and everything else lies to its right. */
  lemma {:induction false} LeftmostIsFirst<K(!new), V>(before: (K, K) -> bool, p: Path<K, V>, t: Tree<K, V>)
    requires StrictOrder(before) && t.Node?
    requires Sorted(before, Plug(p, t))
    requires forall x :: Has(t, x) ==> Leads(before, p, x)
    ensures var (q, m) := Leftmost(p, t);
      && m.Node? && m.left.Empty? && Plug(q, m) == Plug(p, t)
      && Leads(before, q, m.key) && Has(t, m.key)
      && (forall x :: Has(t, x) ==> x == m.key || before(m.key, x))
    decreases t
  {
    SortedBelow(before, p, t);
    if t.left.Node? {
      LeftmostIsFirst(before, InLeft(p, t.id, t.key, t.val, t.right), t.left);
      var m := Leftmost(p, t).1;
      forall x | Has(t, x) ensures x == m.key || before(m.key, x) {
        assert before(m.key, t.key);
        assert Has(t.right, x) ==> before(t.key, x);
      }
    }
  }

  lemma {:induction false} FindNeedsHas<K(!new), V>(before: (K, K) -> bool, t: Tree<K, V>, k: K)
    requires !Has(t, k)
    ensures Find(before, t, k) == None
  {
    match t
    case Empty =>
    case Node(l, _, _, _, r) => FindNeedsHas(before, l, k); FindNeedsHas(before, r, k);
  }

  /** A node without a left child may be replaced by its right child: only its own key is lost. */
  lemma DropFirst<K(!new), V>(before: (K, K) -> bool, m: Tree<K, V>, x: K)
    requires StrictOrder(before) && m.Node? && m.left.Empty? && Sorted(before, m)
    ensures !Has(m.right, m.key) && Find(before, m.right, m.key) == None
    ensures x != m.key ==> Find(before, m, x) == Find(before, m.right, x)
  {
    assert !before(m.key, m.key);
    FindNeedsHas(before, m.right, m.key);
    if x != m.key && before(x, m.key) {
      assert !before(x, x);
      assert !Has(m.right, x);
      FindNeedsHas(before, m.right, x);
    }
  }

  lemma DropFirstIds<K, V>(p: Path<K, V>, m: Tree<K, V>)
    requires m.Node? && m.left.Empty?
    ensures Ids(Plug(p, m)) == Ids(Plug(p, m.right)) + multiset{m.id}
  {
    PlugIds(p, m);
    PlugIds(p, m.right);
  }

  lemma PlugTop<K, V>(t: Tree<K, V>)
    ensures Plug(Top, t) == t
  {
  }

  /** Taking the successor out of the right subtree keeps it sorted and loses only the successor. */
  lemma WithoutLeftmost<K(!new), V>(before: (K, K) -> bool, t: Tree<K, V>)
    requires StrictOrder(before) && t.Node? && Sorted(before, t)
    ensures var (p, m) := Leftmost(Top, t);
      && m.Node? && m.left.Empty? && Plug(p, m) == t
      && Find(before, t, m.key) == Some(m.val) && Has(t, m.key)
      && Sorted(before, Plug(p, m.right))
      && Ids(t) == Ids(Plug(p, m.right)) + multiset{m.id}
      && (forall x :: Has(Plug(p, m.right), x) ==> Has(t, x) && before(m.key, x))
      && (forall x :: x != m.key ==> Find(before, Plug(p, m.right), x) == Find(before, t, x))
      && (forall x :: Has(t, x) ==> x == m.key || before(m.key, x))
  {
    hide Leftmost, Plug, Ids, Sorted;
    var (p, m) := Leftmost(Top, t);
    assert Plug(Top, t) == t by { PlugTop(t); }
    LeftmostIsFirst(before, Top, t);
    SortedBelow(before, p, m);
    forall x ensures x != m.key ==> Find(before, m, x) == Find(before, m.right, x) { DropFirst(before, m, x); }
    FindThroughPlug(before, p, m, m, m.key);
    FindThroughPlug(before, p, m, m.right, m.key);
    DropFirstIds(p, m);
    WithoutLeftmostKeys(before, t, p, m);
  }

  lemma WithoutLeftmostKeys<K(!new), V>(before: (K, K) -> bool, t: Tree<K, V>, p: Path<K, V>, m: Tree<K, V>)
    requires StrictOrder(before) && m.Node? && m.left.Empty? && t == Plug(p, m)
    requires Sorted(before, t) && Sorted(before, m) && Leads(before, p, m.key)
    requires forall x :: Has(t, x) ==> x == m.key || before(m.key, x)
    ensures Sorted(before, Plug(p, m.right))
    ensures forall x :: Has(Plug(p, m.right), x) ==> Has(t, x) && before(m.key, x)
    ensures Has(t, m.key)
  {
    forall x ensures x != m.key ==> Find(before, m, x) == Find(before, m.right, x) { DropFirst(before, m, x); }
    DropFirst(before, m, m.key);
    FindThroughPlug(before, p, m, m.right, m.key);
    FindThroughPlug(before, p, m, m, m.key);
    FindIsMembership(before, t, m.key, m.val);
    SortedThroughPlug(before, p, m, m.right, m.key);
    FindIsMembership(before, Plug(p, m.right), m.key, m.val);
  }

  /** Join removes exactly one node: its id leaves the tree, its key is gone, all other keys answer as before. */
  lemma JoinRemoves<K(!new), V>(before: (K, K) -> bool, t: Tree<K, V>)
    requires StrictOrder(before) && t.Node? && Sorted(before, t)
    ensures var j := Join(t.left, t.right);
      && Sorted(before, j)
      && Ids(t) == Ids(j) + multiset{t.id}
      && Find(before, j, t.key) == None
      && (forall x :: x != t.key ==> Find(before, j, x) == Find(before, t, x))
      && (forall x :: Has(j, x) ==> Has(t, x))
  {
    if t.left.Node? && t.right.Node? {
      WithoutLeftmost(before, t.right);
      var m := Leftmost(Top, t.right).1;
      assert forall x :: Has(t.left, x) ==> before(x, t.key) && before(t.key, m.key);
    }
    forall x ensures Find(before, Join(t.left, t.right), x) == if x == t.key then None else Find(before, t, x) {
      JoinedSearch(before, t, x);
    }
  }

  /** Which node takes the place: an only child, or the first of the right subtree, with the left subtree as it was. */
  lemma JoinTakes<K(!new), V>(before: (K, K) -> bool, t: Tree<K, V>)
    requires StrictOrder(before) && t.Node? && Sorted(before, t)
    ensures var j := Join(t.left, t.right);
      && (t.left.Empty? ==> j == t.right) && (t.right.Empty? ==> j == t.left)
      && (t.left.Node? && t.right.Node? ==>
            && j.Node? && j.left == t.left && Has(t.right, j.key)
            && forall x :: Has(t.right, x) ==> x == j.key || before(j.key, x))
  {
    if t.left.Node? && t.right.Node? { WithoutLeftmost(before, t.right); }
  }

  lemma JoinedSearch<K(!new), V>(before: (K, K) -> bool, t: Tree<K, V>, x: K)
    requires StrictOrder(before) && t.Node? && Sorted(before, t)
    ensures Find(before, Join(t.left, t.right), x) == if x == t.key then None else Find(before, t, x)
  {
    if !Has(t.left, x) { FindNeedsHas(before, t.left, x); }
    if !Has(t.right, x) { FindNeedsHas(before, t.right, x); }
    if t.left.Node? && t.right.Node? {
      WithoutLeftmost(before, t.right);
      var m := Leftmost(Top, t.right).1;
      assert before(t.key, m.key);
      if before(x, t.key) {
        assert before(x, m.key);
      }
    }
  }

  // ----- the operations as replacements

  function Leaf<K, V>(id: nat, k: K, v: V): Tree<K, V> { Node(Empty, id, k, v, Empty) }

  /** The subtree a walk for `k` stops at. */
  function At<K(==), V>(before: (K, K) -> bool, t: Tree<K, V>, k: K): Tree<K, V> {
    Walk(before, Top, t, k).1
  }

  /** Hang a fresh leaf where the walk for `k` stops, dropping whatever was there. */
  function Put<K(==), V>(before: (K, K) -> bool, t: Tree<K, V>, id: nat, k: K, v: V): Tree<K, V> {
    Plug(Walk(before, Top, t, k).0, Leaf(id, k, v))
  }

  function Remove<K(==), V>(before: (K, K) -> bool, t: Tree<K, V>, k: K): Tree<K, V> {
    var (p, s) := Walk(before, Top, t, k);
    if s.Empty? then t else Plug(p, Join(s.left, s.right))
  }

  /** Put binds `k`, keeps the order, and gives up exactly the cells of the subtree it replaced. */
  lemma PutBinds<K(!new), V>(before: (K, K) -> bool, t: Tree<K, V>, id: nat, k: K, v: V)
    requires StrictOrder(before) && Sorted(before, t)
    ensures var t' := Put(before, t, id, k, v);
      && Sorted(before, t')
      && (forall x :: Has(t', x) ==> Has(t, x) || x == k)
      && Ids(t') + Ids(At(before, t, k)) == Ids(t) + multiset{id}
      && Find(before, t', k) == Some(v)
  {
    var (p, s) := Walk(before, Top, t, k);
    WalkStops(before, Top, t, k);
    assert t == Plug(p, s) && Leads(before, p, k);
    PutAtPath(before, p, s, id, k, v);
  }

  lemma LeafHolds<K(!new), V>(before: (K, K) -> bool, id: nat, k: K, v: V)
    ensures Sorted(before, Leaf(id, k, v)) && Ids(Leaf(id, k, v)) == multiset{id}
    ensures forall x :: Has(Leaf(id, k, v), x) <==> x == k
  {
  }

  lemma PutAtPath<K(!new), V>(before: (K, K) -> bool, p: Path<K, V>, s: Tree<K, V>, id: nat, k: K, v: V)
    requires StrictOrder(before) && Sorted(before, Plug(p, s)) && Leads(before, p, k)
    ensures var t' := Plug(p, Leaf(id, k, v));
      && Sorted(before, t')
      && (forall x :: Has(t', x) ==> Has(Plug(p, s), x) || x == k)
      && Ids(t') + Ids(s) == Ids(Plug(p, s)) + multiset{id}
      && Find(before, t', k) == Some(v)
  {
    var leaf := Leaf(id, k, v);
    hide Plug, Has, Sorted, Leads, Ids;
    LeafHolds(before, id, k, v);
    SortedThroughPlug(before, p, s, leaf, k);
    PlugIds(p, s);
    PlugIds(p, leaf);
    FindBelow(before, p, leaf, k);
  }

  /** Put leaves every other key alone exactly when the walk stopped at an empty link or at a leaf. */
  lemma PutKeepsOthers<K(!new), V>(before: (K, K) -> bool, t: Tree<K, V>, id: nat, k: K, v: V)
    requires StrictOrder(before) && Sorted(before, t)
    ensures (forall x :: x != k ==> Find(before, Put(before, t, id, k, v), x) == Find(before, t, x))
      <==> (At(before, t, k).Node? ==> At(before, t, k).left.Empty? && At(before, t, k).right.Empty?)
  {
    var (p, s) := Walk(before, Top, t, k);
    WalkStops(before, Top, t, k);
    assert t == Plug(p, s) && Leads(before, p, k);
    var leaf := Leaf(id, k, v);
    if s.Empty? || (s.left.Empty? && s.right.Empty?) {
      FindThroughPlug(before, p, s, leaf, k);
    } else {
      SortedBelow(before, p, s);
      var x := LosesChild(before, p, s, id, v);
    }
  }

  /** Replacing a node that has a child by a leaf forgets the child. */
  lemma LosesChild<K(!new), V>(before: (K, K) -> bool, p: Path<K, V>, s: Tree<K, V>, id: nat, v: V) returns (x: K)
    requires StrictOrder(before) && Sorted(before, Plug(p, s)) && Sorted(before, s)
    requires s.Node? && (s.left.Node? || s.right.Node?)
    ensures x != s.key && Find(before, Plug(p, Leaf(id, s.key, v)), x) != Find(before, Plug(p, s), x)
  {
    var child := if s.left.Node? then s.left else s.right;
    x := child.key;
    assert Has(child, x);
    assert !before(s.key, s.key);
    HasLeads(before, p, s, x);
    FindBelow(before, p, s, x);
    FindBelow(before, p, Leaf(id, s.key, v), x);
    FindIsMembership(before, s, x, child.val);
  }

  lemma {:induction false} HasLeads<K(!new), V>(before: (K, K) -> bool, p: Path<K, V>, s: Tree<K, V>, x: K)
    requires StrictOrder(before) && Sorted(before, Plug(p, s)) && Has(s, x)
    ensures Leads(before, p, x)
    decreases p
  {
    match p
    case Top =>
    case InLeft(up, id, key, v, r) =>
      HasLeads(before, up, Node(s, id, key, v, r), x);
      SortedBelow(before, up, Node(s, id, key, v, r));
    case InRight(up, l, id, key, v) =>
      HasLeads(before, up, Node(l, id, key, v, s), x);
      SortedBelow(before, up, Node(l, id, key, v, s));
      assert before(x, key) ==> before(x, x);
  }

  /** A walk for `x` passes through the same path when that path leads to `x` as well. */
  lemma {:induction false} FindBelow<K(!new), V>(before: (K, K) -> bool, p: Path<K, V>, s: Tree<K, V>, x: K)
    requires Leads(before, p, x)
    ensures Find(before, Plug(p, s), x) == Find(before, s, x)
    decreases p
  {
    match p
    case Top =>
    case InLeft(up, id, key, v, r) => FindBelow(before, up, Node(s, id, key, v, r), x);
    case InRight(up, l, id, key, v) => FindBelow(before, up, Node(l, id, key, v, s), x);
  }

  // ----- covering: Put at a bound key

  function KeySet<K(==), V>(t: Tree<K, V>): set<K> {
    match t
    case Empty => {}
    case Node(l, _, k, _, r) => KeySet(l) + {k} + KeySet(r)
  }

  /** The keys a Put at `k` forgets: those below the node it covers. */
  function Below<K(==), V>(before: (K, K) -> bool, t: Tree<K, V>, k: K): set<K> {
    var s := At(before, t, k);
    if s.Node? then KeySet(s.left) + KeySet(s.right) else {}
  }

  lemma {:induction false} KeySetHas<K(!new), V>(t: Tree<K, V>, x: K)
    ensures x in KeySet(t) <==> Has(t, x)
  {
    match t
    case Empty =>
    case Node(l, _, _, _, r) => KeySetHas(l, x); KeySetHas(r, x);
  }

  /** A sorted tree holds as many keys as it occupies cells. */
  lemma {:induction false} KeySetSize<K(!new), V>(before: (K, K) -> bool, t: Tree<K, V>)
    requires StrictOrder(before) && Sorted(before, t)
    ensures |KeySet(t)| == |Ids(t)|
  {
    match t
    case Empty =>
    case Node(l, _, k, _, r) =>
      KeySetSize(before, l);
      KeySetSize(before, r);
      forall x ensures x in KeySet(l) ==> x != k && x !in KeySet(r) {
        KeySetHas(l, x);
        KeySetHas(r, x);
        assert !before(x, x);
        assert Has(l, x) && Has(r, x) ==> before(x, k) && before(k, x);
      }
      KeySetHas(r, k);
      assert !before(k, k);
      assert |KeySet(l) + {k} + KeySet(r)| == |KeySet(l)| + 1 + |KeySet(r)|;
  }

  /** A walk that leaves the path before its end does not see what hangs there. */
  lemma {:induction false} FindElsewhere<K(!new), V>(before: (K, K) -> bool, p: Path<K, V>, s: Tree<K, V>, s': Tree<K, V>, x: K)
    requires !Leads(before, p, x)
    ensures Find(before, Plug(p, s), x) == Find(before, Plug(p, s'), x)
    decreases p
  {
    match p
    case InLeft(up, id, key, v, r) =>
      var t, t' := Node(s, id, key, v, r), Node(s', id, key, v, r);
      if Leads(before, up, x) {
        FindBelow(before, up, t, x);
        FindBelow(before, up, t', x);
      } else {
        FindElsewhere(before, up, t, t', x);
      }
    case InRight(up, l, id, key, v) =>
      var t, t' := Node(l, id, key, v, s), Node(l, id, key, v, s');
      if Leads(before, up, x) {
        FindBelow(before, up, t, x);
        FindBelow(before, up, t', x);
      } else {
        FindElsewhere(before, up, t, t', x);
      }
  }

  /** Put binds `k`, forgets exactly the keys below the node it covers, and leaves all others alone. */
  lemma PutForgets<K(!new), V>(before: (K, K) -> bool, t: Tree<K, V>, id: nat, k: K, v: V, x: K)
    requires StrictOrder(before) && Sorted(before, t)
    ensures Find(before, Put(before, t, id, k, v), x)
      == if x == k then Some(v) else if x in Below(before, t, k) then None else Find(before, t, x)
  {
    var (p, s) := Walk(before, Top, t, k);
    WalkStops(before, Top, t, k);
    SortedBelow(before, p, s);
    var leaf := Leaf(id, k, v);
    if x == k {
      FindBelow(before, p, leaf, k);
    } else if !Leads(before, p, x) {
      FindElsewhere(before, p, s, leaf, x);
      if Has(s, x) { HasLeads(before, p, s, x); }
      NotBelow(s, k, x);
    } else {
      FindBelow(before, p, s, x);
      FindBelow(before, p, leaf, x);
      if !Has(s, x) { FindNeedsHas(before, s, x); }
      NotBelow(s, k, x);
    }
  }

  lemma BelowIsBound<K(!new), V>(before: (K, K) -> bool, t: Tree<K, V>, k: K, x: K)
    requires StrictOrder(before) && Sorted(before, t) && x in Below(before, t, k)
    ensures Has(t, x) && x != k
  {
    var (p, s) := Walk(before, Top, t, k);
    WalkStops(before, Top, t, k);
    SortedBelow(before, p, s);
    KeySetHas(s.left, x);
    KeySetHas(s.right, x);
    assert !before(k, k);
    HasInPlug(p, s, x);
  }

  lemma {:induction false} HasInPlug<K(!new), V>(p: Path<K, V>, s: Tree<K, V>, x: K)
    requires Has(s, x)
    ensures Has(Plug(p, s), x)
    decreases p
  {
    match p
    case Top =>
    case InLeft(up, id, k, v, r) => HasInPlug(up, Node(s, id, k, v, r), x);
    case InRight(up, l, id, k, v) => HasInPlug(up, Node(l, id, k, v, s), x);
  }

  /** The cells Put gives up hold `k`, when it was bound, and the keys it forgets. */
  lemma CoveredSize<K(!new), V>(before: (K, K) -> bool, t: Tree<K, V>, k: K)
    requires StrictOrder(before) && Sorted(before, t)
    ensures |Ids(At(before, t, k))| == if Has(t, k) then |Below(before, t, k)| + 1 else 0
    ensures !Has(t, k) ==> Below(before, t, k) == {}
  {
    hide Walk, Plug, Sorted, Find, Has, Ids, KeySet;
    var (p, s) := Walk(before, Top, t, k);
    PlugTop(t);
    WalkStops(before, Top, t, k);
    SortedBelow(before, p, s);
    FindHas(before, t, k);
    NodeSize(before, s);
  }

  /** A sorted node occupies one cell more than there are keys below it. */
  lemma NodeSize<K(!new), V>(before: (K, K) -> bool, s: Tree<K, V>)
    requires StrictOrder(before) && Sorted(before, s)
    ensures |Ids(s)| == if s.Node? then |KeySet(s.left) + KeySet(s.right)| + 1 else 0
  {
    if s.Node? {
      KeySetSize(before, s);
      KeySetHas(s.left, s.key);
      KeySetHas(s.right, s.key);
      var below := KeySet(s.left) + KeySet(s.right);
      assert KeySet(s) == below + {s.key} && s.key !in below;
    }
  }

  lemma NotBelow<K(!new), V>(s: Tree<K, V>, k: K, x: K)
    requires s.Node? ==> s.key == k
    requires x != k
    ensures s.Node? ==> (x in KeySet(s.left) + KeySet(s.right) <==> Has(s, x))
    ensures s.Empty? ==> !Has(s, x)
  {
    if s.Node? {
      KeySetHas(s.left, x);
      KeySetHas(s.right, x);
    }
  }

  /** Remove takes out exactly the one node with key `k`. */
  lemma RemoveUnbinds<K(!new), V>(before: (K, K) -> bool, t: Tree<K, V>, k: K)
    requires StrictOrder(before) && Sorted(before, t) && At(before, t, k).Node?
    ensures var t' := Remove(before, t, k);
      && Sorted(before, t')
      && (forall x :: Has(t', x) ==> Has(t, x))
      && Ids(t) == Ids(t') + multiset{At(before, t, k).id}
      && (forall x :: Find(before, t', x) == if x == k then None else Find(before, t, x))
  {
    var (p, s) := Walk(before, Top, t, k);
    WalkStops(before, Top, t, k);
    SortedBelow(before, p, s);
    JoinRemoves(before, s);
    var j := Join(s.left, s.right);
    FindThroughPlug(before, p, s, j, k);
    SortedThroughPlug(before, p, s, j, k);
    if Has(Plug(p, j), k) { FindIsMembership(before, Plug(p, j), k, s.val); }
    if !Has(t, k) { FindNeedsHas(before, t, k); }
    PlugIds(p, s);
    PlugIds(p, j);
  }
}
