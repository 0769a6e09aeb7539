/**
 Whole runs of the newer engine: puts that do not cover, gets, and deletes of keys whose node has at
 most one child, against a plain map from keys to values.
 */
module EngineRun {
  import opened Options
  import opened Bytes
  import opened Posix
  import opened Trees
  import opened Shapes
  import opened Space
  import opened EngineIndex
  import opened EngineLog
  import opened Engine

  datatype Op = PutOp(key: seq<byte>, value: seq<byte>) | GetOp(key: seq<byte>) | DeleteOp(key: seq<byte>)

  /** The status of a call, and the value a successful get has found. */
  datatype Answer = Answer(status: Status, value: seq<byte>)

  type Values = map<Key, seq<byte>>

  /** One call on the plain map. */
  function Apply(keyLen: nat, m: Values, op: Op): (Values, Answer) {
    var k := KeyOf(op.key);
    if |op.key| != keyLen then (m, Answer(InvalidParam, []))
    else
      match op
      case PutOp(_, value) => if k in m then (m, Answer(Exist, [])) else (m[k := value], Answer(Ok, []))
      case GetOp(_) => (m, if k in m then Answer(Ok, m[k]) else Answer(NotExist, []))
      case DeleteOp(_) => (m - {k}, Answer(if k in m then Ok else NotExist, []))
  }

  function Run(keyLen: nat, ops: seq<Op>): Values {
    if ops == [] then map[] else Apply(keyLen, Run(keyLen, ops[..|ops| - 1]), ops[|ops| - 1]).0
  }

  /** The answer call `i` of a run gets. */
  function AnswerAt(keyLen: nat, ops: seq<Op>, i: nat): Answer
    requires i < |ops|
  {
    Apply(keyLen, Run(keyLen, ops[..i]), ops[i]).1
  }

  /** Call `i` was a successful put of `value` under `k`, and no later call deletes that key. */
  ghost predicate PutStands(keyLen: nat, ops: seq<Op>, i: nat, k: Key, value: seq<byte>) {
    && i < |ops| && ops[i].PutOp? && |ops[i].key| == keyLen && KeyOf(ops[i].key) == k && ops[i].value == value
    && AnswerAt(keyLen, ops, i).status == Ok
    && forall j | i < j < |ops| && ops[j].DeleteOp? && |ops[j].key| == keyLen :: KeyOf(ops[j].key) != k
  }

  lemma PutStandsPrefix(keyLen: nat, ops: seq<Op>, i: nat, k: Key, value: seq<byte>)
    requires ops != [] && i < |ops| - 1
    ensures var last := ops[|ops| - 1];
      PutStands(keyLen, ops, i, k, value) <==>
        && PutStands(keyLen, ops[..|ops| - 1], i, k, value)
        && !(last.DeleteOp? && |last.key| == keyLen && KeyOf(last.key) == k)
  {
    var front := ops[..|ops| - 1];
    assert front[..i] == ops[..i];
    assert forall j | i < j < |front| :: front[j] == ops[j];
  }

  /** After any run a key has a value exactly when a successful put of that value still stands. */
  lemma {:induction false} LastPutWins(keyLen: nat, ops: seq<Op>, k: Key, value: seq<byte>)
    ensures k in Run(keyLen, ops) && Run(keyLen, ops)[k] == value
      <==> exists i: nat :: PutStands(keyLen, ops, i, k, value)
  {
    hide KeyOf;
    if ops == [] {
      return;
    }
    var n := |ops| - 1;
    var front, last := ops[..n], ops[n];
    LastPutWins(keyLen, front, k, value);
    if k in Run(keyLen, ops) && Run(keyLen, ops)[k] == value {
      if last.PutOp? && |last.key| == keyLen && KeyOf(last.key) == k && k !in Run(keyLen, front) {
        assert PutStands(keyLen, ops, n, k, value);
      } else {
        var i: nat :| PutStands(keyLen, front, i, k, value);
        PutStandsPrefix(keyLen, ops, i, k, value);
        assert PutStands(keyLen, ops, i, k, value);
      }
    }
    if exists i: nat :: PutStands(keyLen, ops, i, k, value) {
      var i: nat :| PutStands(keyLen, ops, i, k, value);
      if i < n {
        PutStandsPrefix(keyLen, ops, i, k, value);
      }
    }
  }

  /** Some put of the key stands. */
  ghost predicate Stands(keyLen: nat, ops: seq<Op>, k: Key) {
    exists i: nat, v: seq<byte> :: PutStands(keyLen, ops, i, k, v)
  }

  lemma BoundWhenPutStands(keyLen: nat, ops: seq<Op>, k: Key)
    ensures k in Run(keyLen, ops) <==> Stands(keyLen, ops, k)
  {
    hide PutStands, Run;
    var m := Run(keyLen, ops);
    if k in m { LastPutWins(keyLen, ops, k, m[k]); }
    forall i: nat, v | PutStands(keyLen, ops, i, k, v) ensures k in m { LastPutWins(keyLen, ops, k, v); }
  }

  /** A get finds exactly the value of the put that stands, and nothing when none does. */
  lemma GetAnswers(keyLen: nat, ops: seq<Op>, i: nat, value: seq<byte>)
    requires i < |ops| && ops[i].GetOp? && |ops[i].key| == keyLen
    ensures AnswerAt(keyLen, ops, i) == Answer(Ok, value)
      <==> exists j: nat :: PutStands(keyLen, ops[..i], j, KeyOf(ops[i].key), value)
    ensures AnswerAt(keyLen, ops, i).status == (if Stands(keyLen, ops[..i], KeyOf(ops[i].key)) then Ok else NotExist)
  {
    hide KeyOf;
    LastPutWins(keyLen, ops[..i], KeyOf(ops[i].key), value);
    BoundWhenPutStands(keyLen, ops[..i], KeyOf(ops[i].key));
  }

  /** What every call answers: refused for its key's length, or by whether a put of the key stands. */
  lemma StatusAnswers(keyLen: nat, ops: seq<Op>, i: nat)
    requires i < |ops|
    ensures var stands := Stands(keyLen, ops[..i], KeyOf(ops[i].key));
      AnswerAt(keyLen, ops, i).status ==
        if |ops[i].key| != keyLen then InvalidParam
        else if ops[i].PutOp? then (if stands then Exist else Ok)
        else (if stands then Ok else NotExist)
  {
    hide KeyOf;
    BoundWhenPutStands(keyLen, ops[..i], KeyOf(ops[i].key));
  }

  /** What one call does to the shapes of the trees. */
  function Reshape(keyLen: nat, m: Values, shapes: seq<Shape<Key>>, op: Op): (r: seq<Shape<Key>>)
    ensures |r| == |shapes|
  {
    var k := KeyOf(op.key);
    var b := KeySlot(k, |shapes|);
    if |op.key| != keyLen || b >= |shapes| then shapes
    else if op.PutOp? && k !in m then shapes[b := Trees.Put(KeyBefore, shapes[b], 0, k, ())]
    else if op.DeleteOp? && k in m then shapes[b := Trees.Remove(KeyBefore, shapes[b], k)]
    else shapes
  }

  /** The shapes a run leaves behind in a table of `heads` slots. */
  function ShapesAfter(keyLen: nat, heads: nat, ops: seq<Op>): (r: seq<Shape<Key>>)
    ensures |r| == heads
  {
    if ops == [] then seq(heads, _ => Empty)
    else
      var front := ops[..|ops| - 1];
      Reshape(keyLen, Run(keyLen, front), ShapesAfter(keyLen, heads, front), ops[|ops| - 1])
  }

  predicate OneChildAtMost<V>(t: Tree<Key, V>) { t.Node? ==> t.left.Empty? || t.right.Empty? }

  /**
   What a call may assume. A key of the right length has a slot; a put that goes ahead has a node and a
   record that fits the buffer; a delete that goes ahead meets a node with at most one child.
   */
  ghost predicate Allowed(keyLen: nat, m: Values, shapes: seq<Shape<Key>>, itemNum: nat, op: Op) {
    var k := KeyOf(op.key);
    var b := KeySlot(k, |shapes|);
    |op.key| == keyLen ==>
      && InTable(k, |shapes|) && b < |shapes|
      && (op.PutOp? && k !in m ==> |m| < itemNum && CalLength(keyLen, |op.value|) <= SPACE_BUFFER_SIZE)
      && (op.DeleteOp? && k in m ==> OneChildAtMost(At(KeyBefore, shapes[b], k)))
  }

  ghost predicate RunAllowed(keyLen: nat, heads: nat, itemNum: nat, ops: seq<Op>) {
    forall i | 0 <= i < |ops| ::
      Allowed(keyLen, Run(keyLen, ops[..i]), ShapesAfter(keyLen, heads, ops[..i]), itemNum, ops[i])
  }

  lemma RunStep(keyLen: nat, heads: nat, itemNum: nat, ops: seq<Op>, i: nat)
    requires RunAllowed(keyLen, heads, itemNum, ops) && i < |ops|
    ensures var m, shapes := Run(keyLen, ops[..i]), ShapesAfter(keyLen, heads, ops[..i]);
      && Allowed(keyLen, m, shapes, itemNum, ops[i])
      && Apply(keyLen, m, ops[i]) == (Run(keyLen, ops[..i + 1]), AnswerAt(keyLen, ops, i))
      && ShapesAfter(keyLen, heads, ops[..i + 1]) == Reshape(keyLen, m, shapes, ops[i])
  {
    hide Apply, Reshape, Allowed;
    assert ops[..i + 1][..i] == ops[..i] && ops[..i + 1][i] == ops[i];
  }

  lemma EmptyRun(keyLen: nat, heads: nat, ops: seq<Op>)
    ensures Run(keyLen, ops[..0]) == map[] && ShapesAfter(keyLen, heads, ops[..0]) == seq(heads, _ => Empty)
  {
    assert ops[..0] == [];
  }

  /** Every node an engine has used is bound or free. */
  lemma NodesLeft(engine: HashEngine)
    requires engine.Valid() && engine.index.leaked == multiset{}
    requires |engine.Contents()| < engine.index.item.Length
    ensures engine.index.freeSlots == [] ==> engine.index.itemHorizon < engine.index.item.Length
  {
    engine.index.CountNodes();
    SameKeys(engine);
  }

  lemma SameKeys(engine: HashEngine)
    requires engine.Valid()
    ensures engine.Contents().Keys == engine.index.contents.Keys && |engine.Contents()| == |engine.index.contents|
  {
    forall k ensures k in engine.index.contents <==> k in engine.Contents() {
      ModelKeys(engine.index.contents, engine.start, engine.entries, engine.live, k);
    }
    assert |engine.Contents()| == |engine.Contents().Keys| && |engine.index.contents| == |engine.index.contents.Keys|;
  }

  lemma SomeSlots(engine: HashEngine)
    requires engine.Valid()
    ensures |engine.index.trees| == engine.index.hashHead.Length > 0
  {
    engine.index.SomeSlots();
  }

  lemma BoundNode(engine: HashEngine, k: Key)
    requires engine.Valid()
    ensures |engine.index.trees| > 0
    ensures At(KeyBefore, engine.index.trees[KeySlot(k, |engine.index.trees|)], k).Node? <==> k in engine.index.contents
  {
    engine.index.BoundNode(k);
  }

  lemma ShapesPut(before: seq<KeyTree>, after: seq<KeyTree>, k: Key)
    requires exists n: nat, at: Extent :: PutInSlot(before, after, k, n, at)
    ensures |after| == |before| && KeySlot(k, |before|) < |before|
    ensures EraseAll(after) == EraseAll(before)[KeySlot(k, |before|) :=
              Trees.Put(KeyBefore, EraseAll(before)[KeySlot(k, |before|)], 0, k, ())]
  {
    var n: nat, at: Extent :| PutInSlot(before, after, k, n, at);
    ErasePut(KeyBefore, before[KeySlot(k, |before|)], n, k, at);
  }

  lemma ShapesRemove(before: seq<KeyTree>, after: seq<KeyTree>, k: Key)
    requires RemovedFromSlot(before, after, k)
    ensures |after| == |before| && KeySlot(k, |before|) < |before|
    ensures EraseAll(after) == EraseAll(before)[KeySlot(k, |before|) :=
              Trees.Remove(KeyBefore, EraseAll(before)[KeySlot(k, |before|)], k)]
  {
    EraseRemove(KeyBefore, before[KeySlot(k, |before|)], k);
  }

  lemma ShapeAt(trees: seq<KeyTree>, k: Key)
    requires KeySlot(k, |trees|) < |trees|
    ensures OneChildAtMost(At(KeyBefore, EraseAll(trees)[KeySlot(k, |trees|)], k))
      <==> OneChildAtMost(At(KeyBefore, trees[KeySlot(k, |trees|)], k))
    ensures At(KeyBefore, EraseAll(trees)[KeySlot(k, |trees|)], k).Node? <==> At(KeyBefore, trees[KeySlot(k, |trees|)], k).Node?
  {
    EraseWalk(KeyBefore, Top, trees[KeySlot(k, |trees|)], k);
  }

  /** One call that is allowed is one step of the plain map and of the shapes. */
  method Call(engine: HashEngine, op: Op) returns (a: Answer)
    requires engine.Valid() && engine.index.leaked == multiset{}
    requires Allowed(engine.index.keyLen, engine.Contents(), EraseAll(engine.index.trees), engine.index.item.Length, op)
    modifies engine`entries, engine`live, engine.index, engine.index.hashHead, engine.index.item,
             engine.space`lastOffset, engine.space.fd, engine.space.buffer
    ensures engine.Valid() && engine.index.leaked == multiset{}
    ensures (engine.Contents(), a) == Apply(engine.index.keyLen, old(engine.Contents()), op)
    ensures EraseAll(engine.index.trees)
      == Reshape(engine.index.keyLen, old(engine.Contents()), old(EraseAll(engine.index.trees)), op)
    ensures old(engine.space.fd.bytes) <= engine.space.fd.bytes
  {
    hide HashEngine.Valid, Model, KeyOf, InTable, Trees.Put, Trees.Remove, At, KeySlot, Below, EraseAll;
    hide PutInSlot, RemovedFromSlot;
    SomeSlots(engine);
    ghost var k, trees := KeyOf(op.key), engine.index.trees;
    SameKeys(engine);
    match op {
      case PutOp(key, value) =>
        if k !in engine.Contents() && |key| == engine.index.keyLen { NodesLeft(engine); }
        var s := engine.Put(false, key, value);
        a := Answer(s, []);
        if s == Ok { ShapesPut(trees, engine.index.trees, k); }
      case GetOp(key) =>
        var s, value := engine.Get(false, key);
        a := Answer(s, if s == Ok then value else []);
      case DeleteOp(key) =>
        if |key| == engine.index.keyLen {
          ShapeAt(trees, k);
          BoundNode(engine, k);
        }
        assert k !in engine.Contents() ==> engine.Contents() - {k} == engine.Contents();
        var s := engine.Delete(key);
        a := Answer(s, []);
        if s == Ok { ShapesRemove(trees, engine.index.trees, k); }
    }
  }

  /**
   Every allowed run on a new engine gives the answers the plain map gives, leaves the engine standing
   for that map, and leaves every bound key a record of its own in the log.
   */
  method Replay(prefix: seq<byte>, keyLen: nat, itemNum: nat, heads: nat, id: int, ops: seq<Op>)
    returns (engine: HashEngine, answers: seq<Answer>)
    requires (keyLen == 8 || keyLen == 16) && itemNum <= OFFSET_FEB31 && 0 < heads < WORD && |prefix| < HALF_INT
    requires RunAllowed(keyLen, heads, itemNum, ops)
    ensures fresh(engine) && engine.Valid() && engine.Contents() == Run(keyLen, ops)
    ensures |answers| == |ops| && forall i | 0 <= i < |ops| :: answers[i] == AnswerAt(keyLen, ops, i)
    ensures prefix <= engine.space.fd.bytes
    ensures ExtentsApart(engine.index.contents, |prefix|, |engine.space.fd.bytes|)
  {
    hide HashEngine.Valid, Index.Valid, Model, Run, AnswerAt, ShapesAfter, Allowed, Apply, Reshape, RunAllowed, ExtentsApart;
    var index := new Index.Born(keyLen, itemNum, heads);
    var fd := new File(prefix);
    var space := new Log(fd, keyLen);
    engine := new HashEngine(index, space, id);
    answers := [];
    EmptyRun(keyLen, heads, ops);
    EmptyShapes(index.trees);
    for i := 0 to |ops|
      invariant engine.Valid() && engine.index == index && engine.space == space && index.leaked == multiset{}
      invariant engine.Contents() == Run(keyLen, ops[..i]) && engine.start == |prefix| && prefix <= fd.bytes
      invariant EraseAll(index.trees) == ShapesAfter(keyLen, heads, ops[..i])
      invariant |answers| == i && forall j | 0 <= j < i :: answers[j] == AnswerAt(keyLen, ops, j)
    {
      RunStep(keyLen, heads, itemNum, ops, i);
      var a := Call(engine, ops[i]);
      answers := answers + [a];
    }
    assert ops[..|ops|] == ops;
    engine.Disjoint();
  }

  lemma EmptyShapes(trees: seq<KeyTree>)
    requires forall b | 0 <= b < |trees| :: trees[b] == Empty
    ensures EraseAll(trees) == seq(|trees|, _ => Empty)
  {
  }
}
