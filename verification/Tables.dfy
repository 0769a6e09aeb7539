/**
 A hash table of search trees as a map: what the trees of all slots answer, taken together.

 `slot(k, n)` is the slot of key `k` in a table of `n` slots, `before` the order inside a slot.
 `Represents` is the meaning of a table; the lemmas say what inserting into, removing from and
 covering in one slot does to that meaning and to the cells in use.
 */
module Tables {
  import opened Options
  import opened Bytes
  import opened Trees
  import opened Arena

  function Lookup<K, V>(m: map<K, V>, k: K): Option<V> {
    if k in m then Some(m[k]) else None
  }

  ghost predicate Slots<K(!new)>(slot: (K, nat) -> nat) {
    forall k, n: nat :: n > 0 ==> slot(k, n) < n
  }

  /** Slot `b` is a sorted tree that holds keys of slot `b` only. */
  ghost predicate GoodSlot<K(!new), V>(before: (K, K) -> bool, slot: (K, nat) -> nat, n: nat, b: nat, t: Tree<K, V>) {
    Sorted(before, t) && forall k :: Has(t, k) ==> slot(k, n) == b
  }

  ghost predicate AllGood<K(!new), V>(before: (K, K) -> bool, slot: (K, nat) -> nat, ts: seq<Tree<K, V>>) {
    forall b | 0 <= b < |ts| :: GoodSlot(before, slot, |ts|, b, ts[b])
  }

  /** A search in the slot of a key finds the value the map gives it, or nothing. */
  ghost predicate Answers<K(!new), V>(before: (K, K) -> bool, slot: (K, nat) -> nat, ts: seq<Tree<K, V>>, m: map<K, V>)
    requires |ts| > 0 && Slots(slot)
  {
    forall k :: Find(before, ts[slot(k, |ts|)], k) == Lookup(m, k)
  }

  ghost predicate Represents<K(!new), V>(before: (K, K) -> bool, slot: (K, nat) -> nat, ts: seq<Tree<K, V>>, m: map<K, V>) {
    && |ts| > 0 && StrictOrder(before) && Slots(slot)
    && AllGood(before, slot, ts)
    && Answers(before, slot, ts, m)
    && |m| == |Forest(ts)|
  }

  /** Replacing the tree of one slot: only lookups of keys of that slot may change. */
  lemma SlotUpdate<K(!new), V>(before: (K, K) -> bool, slot: (K, nat) -> nat, ts: seq<Tree<K, V>>, m: map<K, V>,
                               b: nat, t: Tree<K, V>, m': map<K, V>)
    requires Represents(before, slot, ts, m) && b < |ts|
    requires GoodSlot(before, slot, |ts|, b, t)
    requires forall x :: slot(x, |ts|) == b ==> Find(before, t, x) == Lookup(m', x)
    requires forall x :: slot(x, |ts|) != b ==> Lookup(m', x) == Lookup(m, x)
    requires |m'| == |Forest(ts[b := t])|
    ensures Represents(before, slot, ts[b := t], m')
  {
    var ts' := ts[b := t];
    forall x ensures Find(before, ts'[slot(x, |ts'|)], x) == Lookup(m', x) {
      assert Find(before, ts[slot(x, |ts|)], x) == Lookup(m, x);
    }
  }

  lemma SlotKeysBound<K(!new), V>(before: (K, K) -> bool, slot: (K, nat) -> nat, ts: seq<Tree<K, V>>, m: map<K, V>, b: nat, x: K)
    requires Represents(before, slot, ts, m) && b < |ts|
    ensures Has(ts[b], x) <==> x in m && slot(x, |ts|) == b
  {
    assert GoodSlot(before, slot, |ts|, b, ts[b]);
    assert Find(before, ts[slot(x, |ts|)], x) == Lookup(m, x);
    FindHas(before, ts[b], x);
  }

  lemma ForestTrade<K, V>(ts: seq<Tree<K, V>>, b: nat, t': Tree<K, V>, gone: multiset<nat>, come: multiset<nat>)
    requires b < |ts| && Ids(t') + gone == Ids(ts[b]) + come
    ensures Forest(ts[b := t']) + gone == Forest(ts) + come
  {
    ForestUpdate(ts, b, t');
    Trade(Forest(ts[b := t']), Ids(ts[b]), Forest(ts), Ids(t'), gone, come);
  }

  lemma Trade(f': multiset<nat>, o: multiset<nat>, f: multiset<nat>, n: multiset<nat>, gone: multiset<nat>, come: multiset<nat>)
    requires f' + o == f + n && n + gone == o + come
    ensures f' + gone == f + come
  {
    assert (f' + gone) + (o + n) == (f' + o) + (n + gone) == (f + n) + (o + come) == (f + come) + (o + n);
    assert f' + gone == ((f' + gone) + (o + n)) - (o + n);
    assert f + come == ((f + come) + (o + n)) - (o + n);
  }

  lemma SizeAfterPut<K(!new), V>(before: (K, K) -> bool, m: map<K, V>, t: Tree<K, V>, k: K, v: V)
    requires StrictOrder(before) && Sorted(before, t)
    requires forall x :: Has(t, x) ==> x in m
    requires k in m ==> Has(t, k)
    ensures |m[k := v] - Below(before, t, k)| + |Ids(At(before, t, k))| == |m| + 1
  {
    hide Sorted, Below, At, Ids;
    CoveredSize(before, t, k);
    var gone := Below(before, t, k);
    forall x | x in gone ensures x in m && x != k { BelowIsBound(before, t, k, x); }
    var m' := m[k := v] - gone;
    assert m'.Keys == m.Keys + {k} - gone;
    assert |m'| == |m'.Keys| && |m| == |m.Keys|;
  }

  lemma PutAnswers<K(!new), V>(before: (K, K) -> bool, slot: (K, nat) -> nat, ts: seq<Tree<K, V>>, m: map<K, V>,
                               id: nat, k: K, v: V, x: K)
    requires Represents(before, slot, ts, m)
    ensures var b := slot(k, |ts|);
      var m' := m[k := v] - Below(before, ts[b], k);
      if slot(x, |ts|) == b then Find(before, Put(before, ts[b], id, k, v), x) == Lookup(m', x)
      else Lookup(m', x) == Lookup(m, x)
  {
    hide Walk, Put, Below, Sorted, At, Forest;
    var t := ts[slot(k, |ts|)];
    assert GoodSlot(before, slot, |ts|, slot(k, |ts|), t);
    PutForgets(before, t, id, k, v, x);
    if x in Below(before, t, k) {
      BelowIsBound(before, t, k, x);
    }
    assert Find(before, ts[slot(x, |ts|)], x) == Lookup(m, x);
  }

  lemma PutGoodSlot<K(!new), V>(before: (K, K) -> bool, slot: (K, nat) -> nat, n: nat, t: Tree<K, V>, id: nat, k: K, v: V)
    requires StrictOrder(before) && GoodSlot(before, slot, n, slot(k, n), t)
    ensures GoodSlot(before, slot, n, slot(k, n), Put(before, t, id, k, v))
    ensures Ids(Put(before, t, id, k, v)) + Ids(At(before, t, k)) == Ids(t) + multiset{id}
  {
    PutBinds(before, t, id, k, v);
  }

  /** Putting a key takes one new cell, binds it, forgets the keys below it, and gives up the cells it covers. */
  lemma PutChanges<K(!new), V>(before: (K, K) -> bool, slot: (K, nat) -> nat, ts: seq<Tree<K, V>>, m: map<K, V>,
                               id: nat, k: K, v: V)
    requires Represents(before, slot, ts, m)
    ensures var b := slot(k, |ts|);
      var ts' := ts[b := Put(before, ts[b], id, k, v)];
      && Represents(before, slot, ts', m[k := v] - Below(before, ts[b], k))
      && Forest(ts') + Ids(At(before, ts[b], k)) == Forest(ts) + multiset{id}
  {
    hide Walk, Put, Below, Sorted, At, Forest, Answers, GoodSlot, Ids;
    var b := slot(k, |ts|);
    var t, t' := ts[b], Put(before, ts[b], id, k, v);
    var m' := m[k := v] - Below(before, t, k);
    PutGoodSlot(before, slot, |ts|, t, id, k, v);
    ForestTrade(ts, b, t', Ids(At(before, t, k)), multiset{id});
    PutSize(before, slot, ts, m, k, v);
    forall x ensures if slot(x, |ts|) == b then Find(before, t', x) == Lookup(m', x) else Lookup(m', x) == Lookup(m, x) {
      PutAnswers(before, slot, ts, m, id, k, v, x);
    }
    assert |Forest(ts[b := t']) + Ids(At(before, t, k))| == |Forest(ts) + multiset{id}|;
    SlotUpdate(before, slot, ts, m, b, t', m');
  }

  lemma PutSize<K(!new), V>(before: (K, K) -> bool, slot: (K, nat) -> nat, ts: seq<Tree<K, V>>, m: map<K, V>, k: K, v: V)
    requires Represents(before, slot, ts, m)
    ensures var t := ts[slot(k, |ts|)];
      |m[k := v] - Below(before, t, k)| + |Ids(At(before, t, k))| == |m| + 1
  {
    var b := slot(k, |ts|);
    assert GoodSlot(before, slot, |ts|, b, ts[b]);
    forall x ensures Has(ts[b], x) <==> x in m && slot(x, |ts|) == b { SlotKeysBound(before, slot, ts, m, b, x); }
    SizeAfterPut(before, m, ts[b], k, v);
  }

  /** Removing a bound key frees its cell and removes exactly one binding. */
  lemma RemoveDrops<K(!new), V>(before: (K, K) -> bool, slot: (K, nat) -> nat, ts: seq<Tree<K, V>>, m: map<K, V>, k: K)
    requires Represents(before, slot, ts, m) && k in m
    ensures var b := slot(k, |ts|);
      var ts' := ts[b := Remove(before, ts[b], k)];
      && At(before, ts[b], k).Node? && At(before, ts[b], k).val == m[k]
      && Represents(before, slot, ts', m - {k})
      && Forest(ts) == Forest(ts') + multiset{At(before, ts[b], k).id}
  {
    hide Walk, Sorted, At, Forest, Ids, Remove;
    var b := slot(k, |ts|);
    var t, t' := ts[b], Remove(before, ts[b], k);
    assert Find(before, t, k) == Lookup(m, k);
    assert GoodSlot(before, slot, |ts|, b, t);
    BoundNode(before, t, k);
    RemoveUnbinds(before, t, k);
    var freed := multiset{At(before, t, k).id};
    ForestTrade(ts, b, t', freed, multiset{});
    var m' := m - {k};
    assert m'.Keys == m.Keys - {k};
    assert |m'| == |m'.Keys| && |m| == |m.Keys|;
    forall x ensures if slot(x, |ts|) == b then Find(before, t', x) == Lookup(m', x) else Lookup(m', x) == Lookup(m, x) {
      assert Find(before, ts[slot(x, |ts|)], x) == Lookup(m, x);
    }
    assert Forest(ts) == Forest(ts[b := t']) + freed;
    SlotUpdate(before, slot, ts, m, b, t', m');
  }

  lemma BoundNode<K(!new), V>(before: (K, K) -> bool, t: Tree<K, V>, k: K)
    requires Find(before, t, k).Some?
    ensures At(before, t, k).Node? && Find(before, t, k) == Some(At(before, t, k).val)
  {
    WalkStops(before, Top, t, k);
  }

  /** A table of empty trees represents the empty map and uses no cell. */
  lemma EmptyTable<K(!new), V>(before: (K, K) -> bool, slot: (K, nat) -> nat, ts: seq<Tree<K, V>>)
    requires |ts| > 0 && StrictOrder(before) && Slots(slot)
    requires forall b | 0 <= b < |ts| :: ts[b] == Empty
    ensures Represents(before, slot, ts, map[]) && Forest(ts) == multiset{}
  {
    EmptyForest(ts);
    forall k ensures Find(before, ts[slot(k, |ts|)], k) == None { assert ts[slot(k, |ts|)] == Empty; }
  }

  lemma {:induction false} EmptyForest<K, V>(ts: seq<Tree<K, V>>)
    requires forall b | 0 <= b < |ts| :: ts[b] == Empty
    ensures Forest(ts) == multiset{}
  {
    if ts != [] { EmptyForest(ts[..|ts| - 1]); }
  }

  // ----- node conservation

  lemma OwnedOnce(live: multiset<nat>, rest: multiset<nat>, horizon: nat)
    requires live + rest == UpTo(horizon)
    ensures NoRepeats(live) && NoRepeats(rest)
  {
    forall x ensures live[x] <= 1 && rest[x] <= 1 {
      UpToCount(horizon, x);
      assert (live + rest)[x] <= 1;
    }
  }

  /** The next cell never used belongs to nobody. */
  lemma TakeFresh(live: multiset<nat>, rest: multiset<nat>, horizon: nat)
    requires live + rest == UpTo(horizon)
    ensures horizon !in live && live + multiset{horizon} + rest == UpTo(horizon + 1)
  {
    UpToCount(horizon, horizon);
    assert (live + rest)[horizon] == 0;
    assert live + multiset{horizon} + rest == (live + rest) + multiset{horizon};
  }

  /** The top of the stack belongs to no tree; `leaked` cells stay where they are. */
  lemma TakeSlot(live: multiset<nat>, stack: seq<nat>, rest: seq<nat>, leaked: multiset<nat>, id: nat, horizon: nat)
    requires live + (multiset(stack) + leaked) == UpTo(horizon) && stack == rest + [id]
    ensures id < horizon && id !in live && live + multiset{id} + (multiset(rest) + leaked) == UpTo(horizon)
  {
    assert multiset(stack) == multiset(rest) + multiset{id};
    UpToCount(horizon, id);
    assert (live + (multiset(stack) + leaked))[id] == UpTo(horizon)[id] <= 1;
    assert live + multiset{id} + (multiset(rest) + leaked) == live + (multiset(stack) + leaked);
  }

  lemma TakeFreed(live: multiset<nat>, stack: seq<nat>, rest: seq<nat>, id: nat, horizon: nat)
    requires live + multiset(stack) == UpTo(horizon) && stack == rest + [id]
    ensures id < horizon && id !in live && live + multiset{id} + multiset(rest) == UpTo(horizon)
  {
    assert multiset(stack) + multiset{} == multiset(stack) && multiset(rest) + multiset{} == multiset(rest);
    TakeSlot(live, stack, rest, multiset{}, id, horizon);
  }

  lemma TopIsSmall(live: multiset<nat>, stack: seq<nat>, leaked: multiset<nat>, horizon: nat)
    requires live + (multiset(stack) + leaked) == UpTo(horizon) && stack != []
    ensures stack[|stack| - 1] < horizon
  {
    var n := |stack| - 1;
    assert stack == stack[..n] + [stack[n]];
    TakeSlot(live, stack, stack[..n], leaked, stack[n], horizon);
  }

  /**
   Node conservation, spelled out: when the cells of the trees, the freed cells and the leaked ones
   add up to 0..horizon - 1, every id below the horizon has exactly one owner, no id is stacked
   twice, and no two slots share a node.
   */
  lemma OneOwner<K, V>(ts: seq<Tree<K, V>>, free: seq<nat>, leaked: multiset<nat>, horizon: nat, x: nat)
    requires Forest(ts) + (multiset(free) + leaked) == UpTo(horizon)
    ensures Forest(ts)[x] + multiset(free)[x] + leaked[x] == if x < horizon then 1 else 0
    ensures forall i, j | 0 <= i < j < |free| :: free[i] != free[j]
    ensures forall b, c | 0 <= b < |ts| && 0 <= c < |ts| && b != c && x in Ids(ts[b]) :: x !in Ids(ts[c])
    ensures forall b | 0 <= b < |ts| && x in Ids(ts[b]) :: Ids(ts[b])[x] == 1 && x in Forest(ts) && x !in free
  {
    UpToCount(horizon, x);
    assert (Forest(ts) + (multiset(free) + leaked))[x] == UpTo(horizon)[x];
    OwnedOnce(Forest(ts), multiset(free) + leaked, horizon);
    forall i, j | 0 <= i < j < |free| ensures free[i] != free[j] {
      StackedOnce(free, i, j, multiset(free) + leaked);
    }
    forall b, c | 0 <= b < |ts| && 0 <= c < |ts| && b != c && x in Ids(ts[b])
      ensures x !in Ids(ts[c])
    {
      ForestDisjoint(ts, b, c);
      assert (Ids(ts[b]) + Ids(ts[c]))[x] <= Forest(ts)[x];
    }
    forall b | 0 <= b < |ts| && x in Ids(ts[b]) ensures Ids(ts[b])[x] == 1 && x in Forest(ts) && x !in free {
      ForestHolds(ts, b);
      assert Ids(ts[b])[x] <= Forest(ts)[x];
      assert x in free ==> multiset(free)[x] > 0;
    }
  }

  lemma StackedOnce(free: seq<nat>, i: nat, j: nat, all: multiset<nat>)
    requires i < j < |free| && multiset(free) <= all && NoRepeats(all)
    ensures free[i] != free[j]
  {
    var x := free[j];
    assert free == free[..j] + free[j..] && free[j..] == [x] + free[j + 1..];
    assert multiset(free) == multiset(free[..j]) + (multiset{x} + multiset(free[j + 1..]));
    assert multiset(free)[x] <= all[x] <= 1;
    assert free[..j][i] == free[i];
    assert free[i] in multiset(free[..j]);
  }

  // ----- the writes of a whole operation

  /** Heads and pool spell out trees that represent `m`, and `rest` is everything below the horizon they do not use. */
  ghost predicate Table<K(!new), V>(before: (K, K) -> bool, slot: (K, nat) -> nat, nil: u64,
                                    heads: seq<u64>, pool: seq<Cell<K, V>>, ts: seq<Tree<K, V>>, m: map<K, V>,
                                    rest: multiset<nat>, horizon: nat)
  {
    && horizon <= |pool| <= nil
    && AllLinked(heads, pool, nil, ts)
    && Represents(before, slot, ts, m)
    && Forest(ts) + rest == UpTo(horizon)
  }

  /**
   Filling cell `id` and storing it through the link of the walk binds `k`. What the walk had found
   there is given up: its cells join the unused ones and the keys below it are forgotten.
   */
  lemma TablePut<K(!new), V>(before: (K, K) -> bool, slot: (K, nat) -> nat, nil: u64,
                             heads: seq<u64>, pool: seq<Cell<K, V>>, ts: seq<Tree<K, V>>, m: map<K, V>,
                             rest: multiset<nat>, horizon: nat,
                             k: K, v: V, id: u64, hole: nat)
    requires horizon <= |pool| <= nil && id < horizon && id !in Forest(ts)
    requires AllLinked(heads, pool, nil, ts) && Represents(before, slot, ts, m)
    requires NoRepeats(Forest(ts)) && Forest(ts) + multiset{id} + rest == UpTo(horizon)
    requires var b := slot(k, |ts|);
      LinkedPath(pool, nil, heads[b], Walk(before, Top, ts[b], k).0, hole)
    ensures var b := slot(k, |ts|);
      var link := LinkOf(Walk(before, Top, ts[b], k).0, Head(b));
      && (link.Head? || link.id < |pool|)
      && Table(before, slot, nil, StoreHead(heads, link, id), Store(pool[id := Cell(k, v, nil, nil)], link, id),
               ts[b := Put(before, ts[b], id, k, v)], m[k := v] - Below(before, ts[b], k),
               rest + Ids(At(before, ts[b], k)), horizon)
  {
    hide Forest, Linked, LinkedPath, UpTo, Below, Ids, AllGood, Answers, StrictOrder;
    var b := slot(k, |ts|);
    var (p, s) := Walk(before, Top, ts[b], k);
    WalkStops(before, Top, ts[b], k);
    AttachLeaf(heads, pool, nil, ts, b, p, s, hole, id, k, v);
    PutChanges(before, slot, ts, m, id, k, v);
    GiveUp(Forest(ts[b := Put(before, ts[b], id, k, v)]), Ids(s), Forest(ts) + multiset{id}, rest, UpTo(horizon));
  }

  lemma GiveUp(live': multiset<nat>, gone: multiset<nat>, live: multiset<nat>, rest: multiset<nat>, all: multiset<nat>)
    requires live' + gone == live && live + rest == all
    ensures live' + (rest + gone) == all
  {
    assert live' + (rest + gone) == (live' + gone) + rest;
  }

  /** Binding an absent key gives nothing up and forgets nothing. */
  lemma AbsentKey<K(!new), V>(before: (K, K) -> bool, slot: (K, nat) -> nat, ts: seq<Tree<K, V>>, m: map<K, V>, k: K)
    requires Represents(before, slot, ts, m) && k !in m
    ensures Below(before, ts[slot(k, |ts|)], k) == {} && Ids(At(before, ts[slot(k, |ts|)], k)) == multiset{}
  {
    var b := slot(k, |ts|);
    assert GoodSlot(before, slot, |ts|, b, ts[b]);
    SlotKeysBound(before, slot, ts, m, b, k);
    CoveredSize(before, ts[b], k);
  }

  /** TablePut for an absent key: one binding more, nothing given up. */
  lemma TableAdd<K(!new), V>(before: (K, K) -> bool, slot: (K, nat) -> nat, nil: u64,
                             heads: seq<u64>, pool: seq<Cell<K, V>>, ts: seq<Tree<K, V>>, m: map<K, V>,
                             rest: multiset<nat>, horizon: nat,
                             k: K, v: V, id: u64, hole: nat)
    requires horizon <= |pool| <= nil && id < horizon && id !in Forest(ts) && k !in m
    requires AllLinked(heads, pool, nil, ts) && Represents(before, slot, ts, m)
    requires NoRepeats(Forest(ts)) && Forest(ts) + multiset{id} + rest == UpTo(horizon)
    requires var b := slot(k, |ts|);
      LinkedPath(pool, nil, heads[b], Walk(before, Top, ts[b], k).0, hole)
    ensures var b := slot(k, |ts|);
      var link := LinkOf(Walk(before, Top, ts[b], k).0, Head(b));
      && (link.Head? || link.id < |pool|)
      && Table(before, slot, nil, StoreHead(heads, link, id), Store(pool[id := Cell(k, v, nil, nil)], link, id),
               ts[b := Put(before, ts[b], id, k, v)], m[k := v], rest, horizon)
  {
    hide Table, Linked, LinkedPath, Forest, UpTo, Put, Below, Ids, At, NoRepeats, Answers, AllGood, StrictOrder, Store;
    TablePut(before, slot, nil, heads, pool, ts, m, rest, horizon, k, v, id, hole);
    AbsentKey(before, slot, ts, m, k);
    assert m[k := v] - {} == m[k := v] && rest + multiset{} == rest;
  }

  /** Storing the only child, or nothing, through the link of the walk removes a bound key and frees its cell. */
  lemma TableBypass<K(!new), V>(before: (K, K) -> bool, slot: (K, nat) -> nat, nil: u64,
                                heads: seq<u64>, pool: seq<Cell<K, V>>, ts: seq<Tree<K, V>>, m: map<K, V>,
                                rest: multiset<nat>, horizon: nat, k: K, p: Path<K, V>, s: Tree<K, V>)
    requires Table(before, slot, nil, heads, pool, ts, m, rest, horizon) && k in m
    requires (p, s) == Walk(before, Top, ts[slot(k, |ts|)], k)
    requires s.Node? && (s.left.Empty? || s.right.Empty?)
    requires LinkedPath(pool, nil, heads[slot(k, |ts|)], p, s.id) && Linked(pool, nil, s.id, s)
    ensures var b := slot(k, |ts|);
      var link := LinkOf(p, Head(b));
      var to := if s.left.Empty? then pool[s.id].right else pool[s.id].left;
      && (link.Head? || link.id < |pool|)
      && Table(before, slot, nil, StoreHead(heads, link, to), Store(pool, link, to),
               ts[b := Remove(before, ts[b], k)], m - {k}, rest + multiset{s.id}, horizon)
  {
    hide Forest, Linked, LinkedPath, UpTo;
    var b := slot(k, |ts|);
    WalkStops(before, Top, ts[b], k);
    OwnedOnce(Forest(ts), rest, horizon);
    BypassNode(heads, pool, nil, ts, b, p, s);
    RemoveDrops(before, slot, ts, m, k);
    GiveUp(Forest(ts[b := Remove(before, ts[b], k)]), multiset{s.id}, Forest(ts), rest, UpTo(horizon));
  }

  /** The four writes of a delete with two children remove a bound key and free its cell. */
  lemma TableSplice<K(!new), V>(before: (K, K) -> bool, slot: (K, nat) -> nat, nil: u64,
                                heads: seq<u64>, pool: seq<Cell<K, V>>, ts: seq<Tree<K, V>>, m: map<K, V>,
                                rest: multiset<nat>, horizon: nat, k: K,
                                p: Path<K, V>, s: Tree<K, V>, q: Path<K, V>, near: Tree<K, V>)
    requires Table(before, slot, nil, heads, pool, ts, m, rest, horizon) && k in m
    requires (p, s) == Walk(before, Top, ts[slot(k, |ts|)], k)
    requires s.Node? && s.left.Node? && s.right.Node? && s.id < |pool|
    requires LinkedPath(pool, nil, heads[slot(k, |ts|)], p, s.id) && Linked(pool, nil, s.id, s)
    requires Leftmost(Top, s.right) == (q, near) && s.right == Plug(q, near)
    requires near.Node? && near.left.Empty? && near.id < |pool| && near.id < WORD
    requires LinkedPath(pool, nil, pool[s.id].right, q, near.id) && Linked(pool, nil, near.id, near)
    ensures q == Top || LinkOf(q, RightOf(s.id)).id < |pool|
    ensures var b := slot(k, |ts|);
      var link := LinkOf(p, Head(b));
      var pool' := AdoptChildren(UnhookSuccessor(pool, s.id, q, near.id), s.id, near.id);
      && (link.Head? || link.id < |pool|)
      && Table(before, slot, nil, StoreHead(heads, link, near.id), Store(pool', link, near.id),
               ts[b := Remove(before, ts[b], k)], m - {k}, rest + multiset{s.id}, horizon)
  {
    hide Forest, Linked, LinkedPath, UpTo, AdoptChildren, UnhookSuccessor, Leftmost;
    var b := slot(k, |ts|);
    WalkStops(before, Top, ts[b], k);
    OwnedOnce(Forest(ts), rest, horizon);
    SpliceSuccessor(heads, pool, nil, ts, b, p, s, q, near);
    RemoveDrops(before, slot, ts, m, k);
    GiveUp(Forest(ts[b := Remove(before, ts[b], k)]), multiset{s.id}, Forest(ts), rest, UpTo(horizon));
  }

  /** Every id below the horizon is either the cell of one binding or unused. */
  lemma TableCount<K(!new), V>(before: (K, K) -> bool, slot: (K, nat) -> nat, nil: u64,
                               heads: seq<u64>, pool: seq<Cell<K, V>>, ts: seq<Tree<K, V>>, m: map<K, V>,
                               rest: multiset<nat>, horizon: nat)
    requires Table(before, slot, nil, heads, pool, ts, m, rest, horizon)
    ensures |m| + |rest| == horizon <= |pool|
  {
    UpToCount(horizon, 0);
    assert |Forest(ts) + rest| == |Forest(ts)| + |rest|;
  }

  /** A write to a cell nobody links to. */
  lemma TableScribble<K(!new), V>(before: (K, K) -> bool, slot: (K, nat) -> nat, nil: u64,
                                  heads: seq<u64>, pool: seq<Cell<K, V>>, ts: seq<Tree<K, V>>, m: map<K, V>,
                                  rest: multiset<nat>, horizon: nat, x: nat, c: Cell<K, V>)
    requires Table(before, slot, nil, heads, pool, ts, m, rest, horizon) && x in rest && x < |pool|
    ensures Table(before, slot, nil, heads, pool[x := c], ts, m, rest, horizon)
  {
    UpToCount(horizon, x);
    assert (Forest(ts) + rest)[x] <= 1;
    FreshId(ts, x);
    forall b | 0 <= b < |ts| ensures Linked(pool[x := c], nil, heads[b], ts[b]) {
      LinkedFrame(pool, nil, heads[b], ts[b], x, c);
    }
  }
}
