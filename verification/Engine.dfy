/**
 The newer engine (engine.cc and arrange.cc): Put, Get and Delete over index and log, and the scan
 that copies the live records into a new log and index.
 */
module Engine {
  import opened Options
  import opened Bytes
  import opened Trees
  import opened Parts
  import opened Posix
  import opened Space
  import opened EngineIndex
  import opened EngineLog
  import ConfigItem
  import opened Layout
  import Configure

  /** What a put does to the trees. */
  ghost predicate PutInSlot(before: seq<KeyTree>, after: seq<KeyTree>, k: Key, n: nat, at: Extent) {
    var b := KeySlot(k, |before|);
    b < |before| && after == before[b := Trees.Put(KeyBefore, before[b], n, k, at)]
  }

  ghost predicate RemovedFromSlot(before: seq<KeyTree>, after: seq<KeyTree>, k: Key) {
    var b := KeySlot(k, |before|);
    b < |before| && after == before[b := Trees.Remove(KeyBefore, before[b], k)]
  }

  class HashEngine {
    const index: Index
    const space: Log
    var id: int
    ghost const start: nat // where the records begin, after the configuration items of the file
    ghost var entries: seq<Entry>
    ghost var live: Live

    /** The file ends in an unbroken log, and every index entry delimits one intact record with its key. */
    ghost predicate Valid()
      reads this, index, index.hashHead, index.item, space, space.fd
    {
      && index.Valid() && space.Valid() && space.itemHeadLength == HeadLength(index.keyLen)
      && space.lastOffset == |space.fd.bytes|
      && IsLog(space.fd.bytes, start, index.keyLen, entries)
      && Points(index.contents, start, entries, live)
      && AllInTable(entries, index.hashHead.Length)
    }

    ghost function Contents(): map<Key, seq<byte>>
      reads this
    {
      Model(entries, live)
    }

    /** Create: a new index over a new data file, which ends in its configuration items. */
    constructor (index: Index, space: Log, id: int)
      requires index.Valid() && index.contents == map[]
      requires space.Valid() && space.itemHeadLength == HeadLength(index.keyLen) && space.lastOffset == |space.fd.bytes|
      ensures Valid() && Contents() == map[] && entries == [] && start == space.lastOffset
      ensures this.index == index && this.space == space && this.id == id
    {
      this.index, this.space, this.id := index, space, id;
      start, entries, live := space.lastOffset, [], map[];
    }

    /** Take over an index and a log that agree. */
    constructor Over(index: Index, space: Log, id: int, ghost start: nat, ghost es: seq<Entry>, ghost live: Live)
      requires index.Valid()
      requires space.Valid() && space.itemHeadLength == HeadLength(index.keyLen) && space.lastOffset == |space.fd.bytes|
      requires IsLog(space.fd.bytes, start, index.keyLen, es) && Points(index.contents, start, es, live)
      requires AllInTable(es, index.hashHead.Length)
      ensures Valid() && Contents() == Model(es, live) && entries == es && this.live == live && this.start == start
      ensures this.index == index && this.space == space && this.id == id
    {
      hide Index.Valid, IsLog, Points, AllInTable, Model;
      this.index, this.space, this.id := index, space, id;
      this.start, entries, this.live := start, es, live;
    }

    lemma Disjoint()
      requires Valid()
      ensures ExtentsApart(index.contents, start, |space.fd.bytes|)
    {
      hide IsLog, Points, Index.Valid;
      AllApart(space.fd.bytes, index.contents, start, index.keyLen, entries, live);
    }

    /**
     Put. On success the key has the value; only the keys below a covered index node are lost. A
     refused put changes nothing.
     */
    method Put(cover: bool, key: seq<byte>, value: seq<byte>) returns (s: Status)
      requires Valid() && (|key| == index.keyLen ==> InTable(KeyOf(key), index.hashHead.Length))
      requires |key| == index.keyLen && (cover || KeyOf(key) !in index.contents) ==>
        && CalLength(|key|, |value|) <= SPACE_BUFFER_SIZE
        && (index.freeSlots == [] ==> index.itemHorizon < index.item.Length)
      modifies this`entries, this`live, index, index.hashHead, index.item, space`lastOffset, space.fd, space.buffer
      ensures Valid()
      ensures s == if |key| != index.keyLen then InvalidParam
                   else if !cover && KeyOf(key) in old(index.contents) then Exist else Ok
      ensures s != Ok ==> Contents() == old(Contents()) && space.fd.bytes == old(space.fd.bytes) && unchanged(index)
      ensures |old(index.trees)| > 0
      ensures s == Ok ==>
        var k := KeyOf(key);
        && Contents() == old(Contents())[k := value] - Below(KeyBefore, old(index.trees)[KeySlot(k, |old(index.trees)|)], k)
        && entries == old(entries) + [Entry(id, key, value)]
        && space.fd.bytes == old(space.fd.bytes) + Encode(Entry(id, key, value))
        && exists n: nat, at: Extent :: PutInSlot(old(index.trees), index.trees, k, n, at)
      ensures s == Ok && KeyOf(key) !in old(index.contents) ==>
        Contents() == old(Contents())[KeyOf(key) := value] && index.leaked == old(index.leaked)
    {
      hide IsLog, Points, Below, Index.Valid, Encode, Model, KeyOf, InTable, AllInTable, GoodEntry, WriteAt, Trees.Put;
      index.SomeSlots();
      var off := space.GetSpace();
      var len := CalLength(|key|, |value|);
      ghost var k, e := KeyOf(key), Entry(id, key, value);
      ghost var gone := Below(KeyBefore, index.trees[KeySlot(k, |index.trees|)], k);
      ghost var file, contents := space.fd.bytes, index.contents;
      if k !in contents { index.NothingBelow(k); }
      index.KeyNotBelow(k);
      s := index.Insert(cover, key, Extent(off, len));
      if s != Ok {
        return;
      }
      FitsEntry(index.keyLen, e);
      space.Write(off, id, key, value);
      OneMoreInTable(entries, e, index.hashHead.Length);
      AppendEntry(file, start, index.keyLen, entries, e);
      PointsAfterPut(contents, file, start, index.keyLen, entries, live, e, gone);
      ghost var n: nat :| index.trees == old(index.trees)[KeySlot(k, |old(index.trees)|) :=
        Trees.Put(KeyBefore, old(index.trees)[KeySlot(k, |old(index.trees)|)], n, k, Extent(off, len))];
      assert PutInSlot(old(index.trees), index.trees, k, n, Extent(off, len));
      assert multiset{} + index.leaked == index.leaked;
      live := live[k := |entries|] - gone;
      entries := entries + [e];
    }

    /** Get, which may only check that the key exists. */
    method Get(onlyCheck: bool, key: seq<byte>) returns (s: Status, value: seq<byte>)
      requires Valid() && (|key| == index.keyLen ==> InTable(KeyOf(key), index.hashHead.Length))
      modifies space.buffer
      ensures s == if |key| != index.keyLen then InvalidParam else if KeyOf(key) in Contents() then Ok else NotExist
      ensures s == Ok && !onlyCheck ==> value == Contents()[KeyOf(key)]
    {
      hide IsLog, Points, Index.Valid, KeyOf, Model, InTable;
      value := [];
      var at;
      s, at := index.Search(key);
      ModelKeys(index.contents, start, entries, live, KeyOf(key));
      if s != Ok || onlyCheck {
        return;
      }
      ValueAt(index.contents, space.fd.bytes, start, index.keyLen, entries, live, KeyOf(key));
      s, value := space.ReadValue(at.offset, at.length);
    }

    /** Delete of a key whose index node has at most one child: the log keeps its bytes. */
    method Delete(key: seq<byte>) returns (s: Status)
      requires Valid() && (|key| == index.keyLen ==> InTable(KeyOf(key), index.hashHead.Length))
      requires |index.trees| > 0
      requires |key| == index.keyLen ==>
        var n := At(KeyBefore, index.trees[KeySlot(KeyOf(key), |index.trees|)], KeyOf(key));
        n.Node? ==> n.left.Empty? || n.right.Empty?
      modifies this`live, index, index.hashHead, index.item
      ensures Valid()
      ensures s == if |key| != index.keyLen then InvalidParam else if KeyOf(key) in old(Contents()) then Ok else NotExist
      ensures Contents() == if s == Ok then old(Contents()) - {KeyOf(key)} else old(Contents())
      ensures |index.trees| == |old(index.trees)| && index.leaked == old(index.leaked)
      ensures if s == Ok then RemovedFromSlot(old(index.trees), index.trees, KeyOf(key)) else index.trees == old(index.trees)
    {
      hide IsLog, Index.Valid, Encode, KeyOf, ExtentOf, InTable;
      ModelKeys(index.contents, start, entries, live, KeyOf(key));
      s := index.Del(key);
      if s == Ok {
        live := live - {KeyOf(key)};
      }
    }

    /** The data file's part of Close: its configuration items are written back in place under the log. */
    method CloseData(conf: Configure.Configuration, ghost cells: seq<ConfigItem.Item>) returns (s: Status)
      requires Valid() && conf.Valid() && !conf.blank && conf.fd == space.fd && conf.itemBuffer != space.buffer
      requires OnFile(space.fd.bytes, cells, Flatten(Encoded(entries))) && AllSeen(cells) && start == |Printed(cells)|
      requires Replaces(conf.items, cells) && forall x | x in conf.items :: FindItem(cells, x.key).Some?
      modifies conf`needSolid, conf.itemBuffer, space.fd
      ensures s == Ok && Valid() && Contents() == old(Contents())
      ensures space.fd.bytes[start..] == old(space.fd.bytes)[start..]
      ensures OnFile(space.fd.bytes, Rewritten(cells, conf.items), Flatten(Encoded(entries)))
    {
      hide Flatten, Encoded, IsLog, Points, Index.Valid, Replaces, AllSeen, Rewritten, Printed, FindItem;
      ghost var log, before := Flatten(Encoded(entries)), space.fd.bytes;
      KeptInPlace(before, cells, conf.items, log);
      ghost var n;
      s, n := conf.SolidInPlace(cells, log);
      assert conf.items[..|conf.items|] == conf.items;
      LogKept(before, space.fd.bytes, start, index.keyLen, entries);
    }
  }

  lemma FitsEntry(keyLen: nat, e: Entry)
    requires |e.key| == keyLen && CalLength(keyLen, |e.value|) <= SPACE_BUFFER_SIZE
    ensures GoodEntry(keyLen, e)
  {
  }

  lemma KeptInPlace(file: seq<byte>, cells: seq<ConfigItem.Item>, items: seq<ConfigItem.Item>, tail: seq<byte>)
    requires OnFile(file, cells, tail) && Replaces(items, cells)
    ensures |Printed(Rewritten(cells, items))| == |Printed(cells)|
    ensures file[|Printed(cells)|..] == tail
  {
    RewrittenLayout(cells, items);
    FlattenLength(CellsOf(cells));
    FlattenLength(CellsOf(Rewritten(cells, items)));
  }

  lemma LogKept(file: seq<byte>, file': seq<byte>, start: nat, keyLen: nat, es: seq<Entry>)
    requires IsLog(file, start, keyLen, es) && |file'| == |file| && file'[start..] == file[start..]
    ensures IsLog(file', start, keyLen, es)
  {
  }

  /**
   An empty index and a log that holds no record yet, with nodes, heads, file and buffer of their own and
   as many nodes and heads as the base.
   */
  ghost predicate FreshDestination(baseIndex: Index, baseSpace: Log, destIndex: Index, destSpace: Log, start: nat)
    reads destIndex, destIndex.hashHead, destIndex.item, destSpace, destSpace.fd
  {
    && destIndex.Valid() && destIndex.keyLen == baseIndex.keyLen
    && destSpace.Valid() && destSpace.itemHeadLength == HeadLength(baseIndex.keyLen)
    && destIndex.contents == map[] && destIndex.itemHorizon == 0 && destIndex.freeSlots == []
    && destIndex.item.Length == baseIndex.item.Length && destIndex.hashHead.Length == baseIndex.hashHead.Length
    && destSpace.lastOffset == |destSpace.fd.bytes| == start
    && baseIndex != destIndex && baseIndex.item != destIndex.item && baseIndex.hashHead != destIndex.hashHead
    && baseSpace != destSpace && baseSpace.fd != destSpace.fd && baseSpace.buffer != destSpace.buffer
  }

  /**
   What index_off and index_len hold after a failed search at an offset is never the extent of the record
   there. The source leaves both unset; were they to hold it, a dead record would be carried over.
   */
  ghost predicate NeverMisled(unset: nat -> Extent, start: nat, es: seq<Entry>, live: Live) {
    forall i | 0 <= i < |es| && KeyOf(es[i].key) !in live ::
      unset(ExtentOf(start, es, i).offset) != ExtentOf(start, es, i)
  }

  lemma NotMisled(unset: nat -> Extent, start: nat, es: seq<Entry>, live: Live, i: nat)
    requires NeverMisled(unset, start, es, live) && i < |es| && KeyOf(es[i].key) !in live
    ensures unset(ExtentOf(start, es, i).offset) != ExtentOf(start, es, i)
  {
  }

  /** What the scan answers: its status is that of the last thing it did. */
  function ScanStatus(es: seq<Entry>, live: Live): Status {
    if es != [] && KeyOf(es[|es| - 1].key) !in live then NotExist else Ok
  }

  /**
   ArrangeScan: read the base log record by record and carry over those the base index points at.
   The destination ends up with the live records only, in order, and stands for the same map; its
   status is Ok exactly when the log is empty or the key of its last record is still bound.
   */
  method ArrangeScan(baseIndex: Index, baseSpace: Log, destIndex: Index, destSpace: Log, keyLen: nat, unset: nat -> Extent,
                     ghost start: nat, ghost es: seq<Entry>, ghost live: Live)
    returns (s: Status)
    requires baseIndex.Valid() && baseIndex.keyLen == keyLen
    requires baseSpace.Valid() && baseSpace.itemHeadLength == HeadLength(keyLen)
    requires baseSpace.lastOffset == |baseSpace.fd.bytes| && IsLog(baseSpace.fd.bytes, start, keyLen, es)
    requires Points(baseIndex.contents, start, es, live) && AllInTable(es, baseIndex.hashHead.Length)
    requires NeverMisled(unset, start, es, live)
    requires FreshDestination(baseIndex, baseSpace, destIndex, destSpace, start)
    modifies baseSpace.buffer, destIndex, destIndex.hashHead, destIndex.item,
             destSpace`lastOffset, destSpace.fd, destSpace.buffer
    ensures destIndex.Valid() && destSpace.lastOffset == |destSpace.fd.bytes|
    ensures var out, outLive := Survivors(es, live, |es|), Moved(es, live, |es|);
      && IsLog(destSpace.fd.bytes, start, keyLen, out)
      && destSpace.fd.bytes[..start] == old(destSpace.fd.bytes)
      && Points(destIndex.contents, start, out, outLive)
      && Model(out, outLive) == Model(es, live)
      && (forall j | 0 <= j < |out| :: Alive(out, outLive, j))
      && |destSpace.fd.bytes| == start + LiveBytes(es, live, |es|)
    ensures destIndex.leaked == multiset{}
    ensures s == Ok || s == NotExist
    ensures s == Ok <==> es == [] || KeyOf(es[|es| - 1].key) in baseIndex.contents
    ensures s == ScanStatus(es, live)
  {
    hide IsLog, Points, Index.Valid, KeyOf, Model, Alive, Survivors, Moved, Encode, EntryAt, ExtentOf, Below, Start, Encoded;
    hide InTable, NeverMisled;
    var baseOff := destSpace.GetSpace();
    var newId := 0;
    s := Ok;
    ghost var i := 0;
    ghost var file, dest0 := baseSpace.fd.bytes, destSpace.fd.bytes;
    ScanBegins(dest0, start, keyLen, es, live);
    destIndex.CountNodes();
    while baseOff < baseSpace.GetSpace()
      invariant i <= |es| && baseOff == start + Start(Encoded(es), i)
      invariant baseSpace.fd.bytes == file
      invariant destIndex.Valid() && destIndex.freeSlots == [] && destIndex.leaked == multiset{}
      invariant newId == |Survivors(es, live, i)|
      invariant destSpace.lastOffset == |destSpace.fd.bytes|
      invariant IsLog(destSpace.fd.bytes, start, keyLen, Survivors(es, live, i))
      invariant Points(destIndex.contents, start, Survivors(es, live, i), Moved(es, live, i))
      invariant dest0 <= destSpace.fd.bytes
      invariant s == ScanStatus(es[..i], live)
      decreases |es| - i
    {
      ScanPosition(file, start, keyLen, es, i);
      AliveByExtent(baseIndex.contents, start, es, live, i);
      KeysOfLive(baseIndex.contents, start, es, live, KeyOf(es[i].key));
      if KeyOf(es[i].key) !in live { NotMisled(unset, start, es, live, i); }
      assert es[..i + 1][i] == es[i];
      var key, value, kvLength;
      s, key, value, kvLength := baseSpace.ReadEntry(baseOff, keyLen, es[i]);
      var at;
      s, at := baseIndex.Search(key);
      if s != Ok { at := unset(baseOff); }
      if at.offset != baseOff || at.length != kvLength {
        MovedSkip(baseIndex.contents, start, es, live, i);
        baseOff, i := baseOff + kvLength, i + 1;
        continue;
      }
      baseIndex.CountNodes();
      s := CopyRecord(destIndex, destSpace, newId, key, value, kvLength, baseIndex.contents, start, es, live, i);
      newId := newId + 1;
      baseOff, i := baseOff + kvLength, i + 1;
    }
    ScanPosition(file, start, keyLen, es, i);
    assert es[..i] == es;
    SameModel(baseIndex.contents, start, es, live);
    SurvivorBytes(es, live, |es|);
    forall j | 0 <= j < |Survivors(es, live, |es|)|
      ensures Alive(Survivors(es, live, |es|), Moved(es, live, |es|), j) {
      SurvivorsAreLive(es, live, |es|, j);
    }
    LogLength(destSpace.fd.bytes, start, keyLen, Survivors(es, live, |es|));
    if es != [] { KeysOfLive(baseIndex.contents, start, es, live, KeyOf(es[|es| - 1].key)); }
  }

  /** The part of the scan that carries one live record over: insert with cover, then write at the end. */
  method CopyRecord(destIndex: Index, destSpace: Log, newId: int, key: seq<byte>, value: seq<byte>, kvLength: nat,
                    ghost contents: map<Key, Extent>, ghost start: nat, ghost es: seq<Entry>, ghost live: Live, ghost i: nat)
    returns (s: Status)
    requires Points(contents, start, es, live) && i < |es| && Alive(es, live, i) && GoodEntry(destIndex.keyLen, es[i])
    requires key == es[i].key && value == es[i].value && kvLength == CalLength(|key|, |value|)
    requires newId == |Survivors(es, live, i)|
    requires destIndex.Valid() && destIndex.freeSlots == [] && destIndex.leaked == multiset{}
    requires |contents| <= destIndex.item.Length && InTable(KeyOf(key), destIndex.hashHead.Length)
    requires destSpace.Valid() && destSpace.lastOffset == |destSpace.fd.bytes|
    requires IsLog(destSpace.fd.bytes, start, destIndex.keyLen, Survivors(es, live, i))
    requires Points(destIndex.contents, start, Survivors(es, live, i), Moved(es, live, i))
    modifies destIndex, destIndex.hashHead, destIndex.item, destSpace`lastOffset, destSpace.fd, destSpace.buffer
    ensures s == Ok
    ensures destIndex.Valid() && destIndex.freeSlots == [] && destIndex.leaked == multiset{}
    ensures |Survivors(es, live, i + 1)| == newId + 1
    ensures destSpace.lastOffset == |destSpace.fd.bytes| && old(destSpace.fd.bytes) <= destSpace.fd.bytes
    ensures IsLog(destSpace.fd.bytes, start, destIndex.keyLen, Survivors(es, live, i + 1))
    ensures Points(destIndex.contents, start, Survivors(es, live, i + 1), Moved(es, live, i + 1))
  {
    hide IsLog, Points, Index.Valid, KeyOf, Alive, Survivors, Moved, Encode, Below, InTable;
    var destOff := destSpace.GetSpace();
    ghost var k, dest, file := KeyOf(key), destIndex.contents, destSpace.fd.bytes;
    CopyStep(contents, start, es, live, i, destIndex.keyLen, file, dest);
    destIndex.NothingBelow(k);
    destIndex.CountNodes();
    s := destIndex.Insert(true, key, Extent(destOff, kvLength)); // neither covers nor runs out of nodes
    assert destIndex.contents == dest[k := Extent(destOff, kvLength)];
    destSpace.Write(destOff, newId, key, value);
  }

  lemma ScanBegins(file: seq<byte>, start: nat, keyLen: nat, es: seq<Entry>, live: Live)
    requires |file| == start
    ensures Survivors(es, live, 0) == [] && Moved(es, live, 0) == map[] && Start(Encoded(es), 0) == 0
    ensures IsLog(file, start, keyLen, []) && Points(map[], start, [], map[])
  {
  }

  lemma LogLength(file: seq<byte>, start: nat, keyLen: nat, es: seq<Entry>)
    requires IsLog(file, start, keyLen, es)
    ensures |file| == start + |Flatten(Encoded(es))|
  {
  }

  /** The scan over a whole engine: destination index and log are an engine again, for the same map. */
  method Compact(engine: HashEngine, destIndex: Index, destSpace: Log, unset: nat -> Extent) returns (s: Status, next: HashEngine)
    requires engine.Valid() && FreshDestination(engine.index, engine.space, destIndex, destSpace, engine.start)
    requires NeverMisled(unset, engine.start, engine.entries, engine.live)
    modifies engine.space.buffer, destIndex, destIndex.hashHead, destIndex.item,
             destSpace`lastOffset, destSpace.fd, destSpace.buffer
    ensures s == Ok || s == NotExist
    ensures s == Ok <==>
      engine.entries == [] || KeyOf(engine.entries[|engine.entries| - 1].key) in engine.index.contents
    ensures fresh(next) && next.index == destIndex && next.space == destSpace
    ensures next.Valid() && next.Contents() == engine.Contents() && next.start == engine.start
    ensures forall j | 0 <= j < |next.entries| :: Alive(next.entries, next.live, j)
    ensures |destSpace.fd.bytes| == engine.start + LiveBytes(engine.entries, engine.live, |engine.entries|)
    ensures engine.Valid() && engine.Contents() == old(engine.Contents())
  {
    hide IsLog, Points, Index.Valid, Model, Alive, Survivors, Moved, LiveBytes, ScanStatus, NeverMisled;
    ghost var start, es, live := engine.start, engine.entries, engine.live;
    s := ArrangeScan(engine.index, engine.space, destIndex, destSpace, engine.index.keyLen, unset, start, es, live);
    ghost var out, outLive := Survivors(es, live, |es|), Moved(es, live, |es|);
    SurvivorsInTable(es, live, |es|, destIndex.hashHead.Length);
    next := new HashEngine.Over(destIndex, destSpace, engine.id, start, out, outLive);
  }

  // ----- a log whose last record's key is no longer bound

  /** One put and its delete, then the scan: the copy is complete and the status says that it is not. */
  method DeleteThenCompact(key: seq<byte>) returns (s: Status, next: HashEngine)
    requires |key| == 8
    ensures s == NotExist && next.Valid() && next.Contents() == map[] && next.entries == []
  {
    hide HashEngine.Valid, FreshDestination, Model, KeyOf, Trees.Put, At, NeverMisled, LiveBytes, Alive, InTable;
    var engine := NewEngine();
    OneHead(KeyOf(key));
    s := engine.Put(false, key, []);
    OneLeaf(engine.index.trees, KeyOf(key));
    s := engine.Delete(key);
    SameBound(engine, KeyOf(key));
    var dest := NewEngine();
    NewIsFresh(engine, dest);
    ZeroIsNoExtent(engine.start, engine.entries, engine.live);
    s, next := Compact(engine, dest.index, dest.space, Zero);
    NothingAlive(next);
  }

  /** An engine for 8-byte keys with one node and one head, over an empty file. */
  method NewEngine() returns (engine: HashEngine)
    ensures engine.Valid() && engine.Contents() == map[] && engine.entries == [] && engine.start == 0
    ensures fresh(engine) && fresh(engine.index) && fresh(engine.space) && fresh(engine.space.fd) && fresh(engine.space.buffer)
    ensures fresh(engine.index.hashHead) && fresh(engine.index.item)
    ensures engine.index.keyLen == 8 && engine.index.item.Length == 1 && engine.index.hashHead.Length == 1
    ensures engine.index.itemHorizon == 0 && engine.index.freeSlots == [] && engine.index.trees == [Empty]
    ensures engine.index.contents == map[] && engine.space.fd.bytes == []
  {
    hide IsLog, Points, Index.Valid, Model;
    var index := new Index.Born(8, 1, 1);
    var fd := new File([]);
    var space := new Log(fd, 8);
    engine := new HashEngine(index, space, 0);
  }

  function Zero(off: nat): Extent { Extent(0, 0) }

  lemma ZeroIsNoExtent(start: nat, es: seq<Entry>, live: Live)
    ensures NeverMisled(Zero, start, es, live)
  {
  }

  lemma OneHead(k: Key)
    ensures InTable(k, 1) && KeySlot(k, 1) == 0
  {
  }

  lemma OneLeaf(trees: seq<KeyTree>, k: Key)
    requires exists n: nat, at: Extent :: PutInSlot([Empty], trees, k, n, at)
    ensures |trees| == 1 && At(KeyBefore, trees[0], k).Node?
    ensures At(KeyBefore, trees[0], k).left.Empty? && At(KeyBefore, trees[0], k).right.Empty?
  {
    var n: nat, at: Extent :| PutInSlot([Empty], trees, k, n, at);
    assert trees[0] == Leaf(n, k, at);
  }

  /** One put and the scan: the copy is complete and the status says so. */
  method PutThenCompact(key: seq<byte>, value: seq<byte>) returns (s: Status, next: HashEngine)
    requires |key| == 8 && CalLength(8, |value|) <= SPACE_BUFFER_SIZE
    ensures s == Ok && next.Valid() && next.Contents() == map[KeyOf(key) := value]
  {
    hide HashEngine.Valid, FreshDestination, Model, KeyOf, Trees.Put, At, NeverMisled, LiveBytes, Alive, InTable;
    var engine := NewEngine();
    OneHead(KeyOf(key));
    s := engine.Put(false, key, value);
    SameBound(engine, KeyOf(key));
    var dest := NewEngine();
    NewIsFresh(engine, dest);
    ZeroIsNoExtent(engine.start, engine.entries, engine.live);
    s, next := Compact(engine, dest.index, dest.space, Zero);
  }

  lemma NewIsFresh(engine: HashEngine, dest: HashEngine)
    requires dest.Valid() && dest.start == |dest.space.fd.bytes| == engine.start && engine.Valid()
    requires dest.index.contents == map[] && dest.index.itemHorizon == 0 && dest.index.freeSlots == []
    requires dest.index.keyLen == engine.index.keyLen && dest.index.item.Length == engine.index.item.Length
    requires dest.index.hashHead.Length == engine.index.hashHead.Length
    requires engine.index != dest.index && engine.index.item != dest.index.item && engine.index.hashHead != dest.index.hashHead
    requires engine.space != dest.space && engine.space.fd != dest.space.fd && engine.space.buffer != dest.space.buffer
    ensures FreshDestination(engine.index, engine.space, dest.index, dest.space, engine.start)
  {
    hide Index.Valid, IsLog, Points, AllInTable;
  }

  lemma SameBound(engine: HashEngine, k: Key)
    requires engine.Valid()
    ensures k in engine.index.contents <==> k in engine.Contents()
  {
    ModelKeys(engine.index.contents, engine.start, engine.entries, engine.live, k);
  }

  lemma NothingAlive(engine: HashEngine)
    requires engine.Valid() && engine.Contents() == map[]
    requires forall j | 0 <= j < |engine.entries| :: Alive(engine.entries, engine.live, j)
    ensures engine.entries == []
  {
    hide Points, Model, IsLog;
    assert engine.entries != [] ==> Alive(engine.entries, engine.live, 0);
    forall k ensures k !in engine.live { NotLive(engine, k); }
  }

  lemma NotLive(engine: HashEngine, k: Key)
    requires engine.Valid() && engine.Contents() == map[]
    ensures k !in engine.live
  {
    ModelKeys(engine.index.contents, engine.start, engine.entries, engine.live, k);
    KeysOfLive(engine.index.contents, engine.start, engine.entries, engine.live, k);
  }
}
