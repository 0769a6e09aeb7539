/**
 The older engine's API (bak/kvs_api.c): kv_put, kv_get and kv_delete over the index and the data
 file. Keys are known to the store by their sign only; the sign function is a parameter.
 */
module KeyValueStore {
  import opened Options
  import opened Bytes
  import opened IndexImage
  import opened Tables
  import opened HashIndex
  import opened DataLog

  type Sign = seq<byte> -> u64

  // ----- what the store means

  datatype Op = PutOp(key: seq<byte>, value: seq<byte>) | GetOp(key: seq<byte>) | DeleteOp(key: seq<byte>)

  datatype Answer = Done(ok: bool) | Got(pair: Option<(seq<byte>, seq<byte>)>)

  /** The plain map the store refines, and the counter behind _kv_consequence_id. */
  datatype Spec = Spec(model: map<u64, Record>, clock: nat)

  function Tick(clock: nat): u64 { if clock + 1 < WORD then clock + 1 else 0 }

  function PairOf(m: map<u64, Record>, s: u64): Option<(seq<byte>, seq<byte>)> {
    if s in m then Some((m[s].key, m[s].value)) else None
  }

  /** One call on the plain map: a put of a bound sign and a delete of an unbound one fail. */
  function Apply(sign: Sign, st: Spec, op: Op): (Spec, Answer) {
    match op
    case GetOp(key) => (st, Got(PairOf(st.model, sign(key))))
    case PutOp(key, value) =>
      var r := Record(Tick(st.clock), key, value);
      if sign(key) in st.model then (Spec(st.model, r.timestamp), Done(false))
      else (Spec(st.model[sign(key) := r], r.timestamp), Done(true))
    case DeleteOp(key) =>
      (Spec(st.model - {sign(key)}, Tick(st.clock)), Done(sign(key) in st.model))
  }

  function Max(a: nat, b: nat): nat { if a < b then b else a }

  function Run(sign: Sign, clock: nat, ops: seq<Op>): Spec {
    if ops == [] then Spec(map[], clock) else Apply(sign, Run(sign, clock, ops[..|ops| - 1]), ops[|ops| - 1]).0
  }

  /** The answer call `i` of a run gets. */
  function AnswerAt(sign: Sign, clock: nat, ops: seq<Op>, i: nat): Answer
    requires i < |ops|
  {
    Apply(sign, Run(sign, clock, ops[..i]), ops[i]).1
  }

  /** Call `i` was a successful put of `key` and `value`, and no later call deletes their sign. */
  ghost predicate PutStands(sign: Sign, clock: nat, ops: seq<Op>, i: nat, key: seq<byte>, value: seq<byte>) {
    && i < |ops| && ops[i] == PutOp(key, value) && AnswerAt(sign, clock, ops, i) == Done(true)
    && forall j | i < j < |ops| && ops[j].DeleteOp? :: sign(ops[j].key) != sign(key)
  }

  lemma PutStandsPrefix(sign: Sign, clock: nat, ops: seq<Op>, i: nat, key: seq<byte>, value: seq<byte>)
    requires ops != [] && i < |ops| - 1
    ensures var last := ops[|ops| - 1];
      PutStands(sign, clock, ops, i, key, value) <==>
        PutStands(sign, clock, ops[..|ops| - 1], i, key, value) && !(last.DeleteOp? && sign(last.key) == sign(key))
  {
    var front := ops[..|ops| - 1];
    assert front[..i] == ops[..i];
    assert forall j | i < j < |front| :: front[j] == ops[j];
  }

  /** After any run, a sign is bound to a pair exactly when a successful put of that pair still stands. */
  lemma {:induction false} LastPutWins(sign: Sign, clock: nat, ops: seq<Op>, key: seq<byte>, value: seq<byte>)
    ensures PairOf(Run(sign, clock, ops).model, sign(key)) == Some((key, value))
      <==> exists i: nat :: PutStands(sign, clock, ops, i, key, value)
  {
    if ops == [] {
      return;
    }
    var n := |ops| - 1;
    var front, last := ops[..n], ops[n];
    LastPutWins(sign, clock, front, key, value);
    var s := sign(key);
    var bound := PairOf(Run(sign, clock, ops).model, s) == Some((key, value));
    if bound {
      if last.PutOp? && s !in Run(sign, clock, front).model {
        assert PutStands(sign, clock, ops, n, key, value);
      } else {
        var i: nat :| PutStands(sign, clock, front, i, key, value);
        PutStandsPrefix(sign, clock, ops, i, key, value);
        assert PutStands(sign, clock, ops, i, key, value);
      }
    }
    if exists i: nat :: PutStands(sign, clock, ops, i, key, value) {
      var i: nat :| PutStands(sign, clock, ops, i, key, value);
      if i < n {
        PutStandsPrefix(sign, clock, ops, i, key, value);
      }
    }
  }

  /** Some put of the sign stands. */
  ghost predicate Stands(sign: Sign, clock: nat, ops: seq<Op>, s: u64) {
    exists j: nat, k: seq<byte>, v: seq<byte> :: sign(k) == s && PutStands(sign, clock, ops, j, k, v)
  }

  lemma {:induction false} BoundKeyHasSign(sign: Sign, clock: nat, ops: seq<Op>, s: u64)
    ensures var m := Run(sign, clock, ops).model;
      s in m ==> sign(m[s].key) == s
  {
    if ops != [] { BoundKeyHasSign(sign, clock, ops[..|ops| - 1], s); }
  }

  /** A sign is bound exactly when some put of it stands. */
  lemma BoundWhenPutStands(sign: Sign, clock: nat, ops: seq<Op>, s: u64)
    ensures s in Run(sign, clock, ops).model <==> Stands(sign, clock, ops, s)
  {
    hide PutStands, Run;
    var m := Run(sign, clock, ops).model;
    if s in m {
      BoundKeyHasSign(sign, clock, ops, s);
      LastPutWins(sign, clock, ops, m[s].key, m[s].value);
    }
    forall j: nat, k, v | sign(k) == s && PutStands(sign, clock, ops, j, k, v) ensures s in m {
      LastPutWins(sign, clock, ops, k, v);
    }
  }

  /** A get answers with the pair of the put that stands for its sign, and with nothing exactly when none does. */
  lemma GetAnswers(sign: Sign, clock: nat, ops: seq<Op>, i: nat, k: seq<byte>, v: seq<byte>)
    requires i < |ops| && ops[i].GetOp? && sign(k) == sign(ops[i].key)
    ensures AnswerAt(sign, clock, ops, i) == Got(Some((k, v)))
      <==> exists j: nat :: PutStands(sign, clock, ops[..i], j, k, v)
    ensures AnswerAt(sign, clock, ops, i) == Got(None) <==> !Stands(sign, clock, ops[..i], sign(ops[i].key))
  {
    LastPutWins(sign, clock, ops[..i], k, v);
    BoundWhenPutStands(sign, clock, ops[..i], sign(k));
  }

  /** A put succeeds exactly when no put of its sign stands, a delete exactly when one does. */
  lemma PutAndDeleteAnswers(sign: Sign, clock: nat, ops: seq<Op>, i: nat)
    requires i < |ops| && !ops[i].GetOp?
    ensures AnswerAt(sign, clock, ops, i)
      == Done(ops[i].DeleteOp? <==> Stands(sign, clock, ops[..i], sign(ops[i].key)))
  {
    BoundWhenPutStands(sign, clock, ops[..i], sign(ops[i].key));
  }

  // ----- index and log together

  /** The record of sign `s` lies intact at offset `o`, inside the log. */
  ghost predicate Placed(sign: Sign, file: seq<byte>, end: nat, s: u64, o: nat, r: Record) {
    && HEAD_SIZE <= o && o + r.Size() <= end && !SeekFails(o) && RecordAt(file, o, r) && sign(r.key) == s
  }

  /** Every bound sign's offset holds the intact record the model gives it. */
  ghost predicate Coherent(sign: Sign, offsets: map<u64, u64>, file: seq<byte>, end: nat, model: map<u64, Record>) {
    && offsets.Keys == model.Keys
    && forall s | s in model :: Placed(sign, file, end, s, offsets[s], model[s])
  }

  /** What the index binds and what the model binds is the same. */
  lemma CoherentKeys(sign: Sign, offsets: map<u64, u64>, file: seq<byte>, end: nat, model: map<u64, Record>)
    ensures Coherent(sign, offsets, file, end, model) ==> offsets.Keys == model.Keys && |offsets| == |model|
  {
    SameSize(offsets, offsets.Keys);
    SameSize(model, model.Keys);
  }

  lemma PlacedInLongerLog(sign: Sign, file: seq<byte>, end: nat, s: u64, o: nat, r: Record, file': seq<byte>, end': nat)
    requires Placed(sign, file, end, s, o, r)
    requires HEAD_SIZE <= end <= |file| && end <= end' && end <= |file'| && file'[HEAD_SIZE..end] == file[HEAD_SIZE..end]
    ensures Placed(sign, file', end', s, o, r)
  {
    var e, log := EncodeRecord(r), file[HEAD_SIZE..end];
    var i, j := o - HEAD_SIZE, o + r.Size() - HEAD_SIZE;
    PartOf(file, HEAD_SIZE, log, i, j);
    PartOf(file', HEAD_SIZE, log, i, j);
  }

  lemma CoherentInLongerLog(sign: Sign, offsets: map<u64, u64>, file: seq<byte>, end: nat, model: map<u64, Record>,
                            file': seq<byte>, end': nat)
    requires Coherent(sign, offsets, file, end, model)
    requires HEAD_SIZE <= end <= |file| && end <= end' && end <= |file'| && file'[HEAD_SIZE..end] == file[HEAD_SIZE..end]
    ensures Coherent(sign, offsets, file', end', model)
  {
    hide Placed;
    forall s | s in model ensures Placed(sign, file', end', s, offsets[s], model[s]) {
      PlacedInLongerLog(sign, file, end, s, offsets[s], model[s], file', end');
    }
  }

  lemma PlacedAtEnd(sign: Sign, file: seq<byte>, end: nat, s: u64, r: Record)
    requires HEAD_SIZE <= end && RecordAt(file, end, r) && !SeekFails(end) && s == sign(r.key)
    ensures Placed(sign, file, end + r.Size(), s, end, r)
  {
  }

  /** One more binding to a record placed in the same log. */
  lemma CoherentAdd(sign: Sign, offsets: map<u64, u64>, file: seq<byte>, end: nat, model: map<u64, Record>,
                    s: u64, o: u64, r: Record)
    requires Coherent(sign, offsets, file, end, model) && s !in model && Placed(sign, file, end, s, o, r)
    ensures Coherent(sign, offsets[s := o], file, end, model[s := r]) && |model[s := r]| == |model| + 1
  {
    hide Placed;
    SameSize(model[s := r], model.Keys + {s});
    SameSize(model, model.Keys);
  }

  lemma CoherentPut(sign: Sign, offsets: map<u64, u64>, file: seq<byte>, end: u64, model: map<u64, Record>,
                    file': seq<byte>, s: u64, r: Record)
    requires Coherent(sign, offsets, file, end, model) && s !in model && s == sign(r.key)
    requires HEAD_SIZE <= end <= |file| && file[..end] <= file' && RecordAt(file', end, r) && !SeekFails(end)
    ensures Coherent(sign, offsets[s := end], file', end + r.Size(), model[s := r])
    ensures |model[s := r]| == |model| + 1
  {
    hide Placed, RecordAt, Coherent;
    PlacedAtEnd(sign, file', end, s, r);
    assert file'[HEAD_SIZE..end] == file'[..end][HEAD_SIZE..] && file[HEAD_SIZE..end] == file[..end][HEAD_SIZE..];
    CoherentInLongerLog(sign, offsets, file, end, model, file', end + r.Size());
    CoherentAdd(sign, offsets, file', end + r.Size(), model, s, end, r);
  }

  lemma CoherentDelete(sign: Sign, offsets: map<u64, u64>, file: seq<byte>, end: nat, model: map<u64, Record>, s: u64)
    requires Coherent(sign, offsets, file, end, model) && s in model
    ensures Coherent(sign, offsets - {s}, file, end, model - {s})
    ensures |model - {s}| == |model| - 1
  {
    hide Placed;
    SameSize(model - {s}, model.Keys - {s});
    SameSize(model, model.Keys);
  }

  lemma SameSize<V>(m: map<u64, V>, keys: set<u64>)
    requires m.Keys == keys
    ensures |m| == |keys|
  {
  }

  /** Two saved files that belong together. */
  ghost predicate HoldStore(sign: Sign, idxFile: seq<byte>, dataFile: seq<byte>,
                            i: Image, ts: seq<SignTree>, freed: seq<nat>, offsets: map<u64, u64>,
                            records: seq<Record>, model: map<u64, Record>)
  {
    && HoldsIndex(idxFile, i, ts, freed, offsets)
    && var end := HeadAppendOffset(dataFile);
    && HEAD_SIZE <= end <= |dataFile| && dataFile[HEAD_SIZE..end] == EncodeLog(records)
    && (forall j | 0 <= j < |records| :: records[j].Fits())
    && Coherent(sign, offsets, dataFile, end, model)
    && WordFrom(dataFile, 8) == |model|
  }

  /** Behind an offset that can be sought there is room for a record before the offsets run out. */
  lemma SeekableStaysSmall(off: nat, r: Record)
    requires !SeekFails(off) && |r.key| < HALF_INT && |r.value| < HALF_INT
    ensures off + r.Size() < WORD
  {
  }

  class Kvs {
    const sign: Sign
    const idx: Index
    const data: Data
    var clock: nat // the static counter of _kv_consequence_id
    ghost var model: map<u64, Record>

    /** Index and log are sound, agree on every bound sign, and the log's count is the number of bindings. */
    ghost predicate Valid()
      reads this, idx, idx.hashHead, idx.nodePool, idx.freeNodePool, data
    {
      && idx.Valid() && data.Valid()
      && Coherent(sign, idx.contents, data.file, data.appendOffset, model)
      && data.kvCount == |model| && clock < WORD && data.appendOffset < WORD
    }

    /** No timestamp lies ahead of the counter. */
    predicate Stamped()
      reads this`clock, idx`timestamp, data`timestamp
    {
      idx.timestamp <= clock && data.timestamp <= clock
    }

    ghost function Abstract(): Spec
      reads this
    {
      Spec(model, clock)
    }

    /** kv_open with CREATE. */
    constructor Create(idxFile: seq<byte>, dataFile: seq<byte>, keyNum: nat, sign: Sign, clock: nat)
      requires keyNum <= INDEX_NODE_NOT_EXIST && clock + 1 < WORD
      ensures Valid() && Stamped() && Abstract() == Spec(map[], clock + 1) && this.sign == sign
      ensures idx.nodePool.Length == keyNum && idx.freeNodePool.Length == FREE_NODE_POOL_SIZE && data.appendOffset == HEAD_SIZE
      ensures idx.nodePoolHorizon == 0
      ensures fresh(idx) && fresh(data) && fresh(idx.hashHead) && fresh(idx.nodePool) && fresh(idx.freeNodePool)
    {
      var index := new Index.Create(idxFile, keyNum, clock + 1);
      var log := new Data.Create(dataFile);
      idx, data := index, log;
      this.sign, this.clock, model := sign, clock + 1, map[];
    }

    /** _kv_consequence_id */
    method NextId() returns (id: u64)
      modifies this`clock
      ensures id == Tick(old(clock)) && clock == id
    {
      id := Tick(clock);
      clock := id;
    }

    /**
     kv_put. A bound sign is refused and nothing changes. An absent one is bound in the index first;
     the store stays coherent exactly when the data file can then seek to the end of the log.
     */
    method Put(key: seq<byte>, value: seq<byte>) returns (ok: bool)
      requires Valid() && |key| < HALF_INT && |value| < HALF_INT
      requires clock + 1 < WORD
      requires sign(key) !in model ==> |model| < idx.nodePool.Length
      modifies this, idx, idx.hashHead, idx.nodePool, data
      ensures ok == (sign(key) !in old(model) && !SeekFails(old(data.appendOffset)))
      ensures Valid() <==> sign(key) in old(model) || !SeekFails(old(data.appendOffset))
      ensures model == (if ok then old(model)[sign(key) := Record(clock, key, value)] else old(model))
      ensures clock == old(clock) + 1
      ensures Valid() ==> (Abstract(), Done(ok)) == Apply(sign, old(Abstract()), PutOp(key, value))
      ensures sign(key) !in old(model) ==> idx.contents == old(idx.contents)[sign(key) := old(data.appendOffset)]
      ensures ok ==> idx.timestamp == data.timestamp == clock > old(clock)
      ensures old(Stamped()) ==> Stamped()
      ensures ok && old(Stamped()) ==> idx.timestamp > old(idx.timestamp) && data.timestamp > old(data.timestamp)
      ensures ok ==> data.appendOffset == old(data.appendOffset) + ITEM_HEAD_SIZE + |key| + |value|
      ensures Valid() ==> idx.nodePoolHorizon == Max(old(idx.nodePoolHorizon), |model|)
      ensures ok ==> data.records == old(data.records) + [Record(clock, key, value)]
      ensures !ok ==> unchanged(data)
      ensures old(data.file)[..old(data.appendOffset)] <= data.file
    {
      hide Index.Valid, Coherent, EncodeLog, RecordAt, SeekFails;
      var timestamp := NextId();
      var valueOffset := data.GetLocation();
      var s := sign(key);
      ghost var end, file, offsets, m := data.appendOffset, data.file, idx.contents, model;
      idx.CountNodes();
      CoherentKeys(sign, offsets, file, end, m);
      var inserted := idx.Insert(s, valueOffset, timestamp);
      if !inserted {
        return false;
      }
      ghost var r := Record(timestamp, key, value);
      ok := data.Insert(valueOffset, Record(timestamp, key, value));
      if ok {
        CoherentPut(sign, offsets, file, end, m, data.file, s, r);
        SeekableStaysSmall(end, r);
        model := model[s := r];
      } else {
        CoherentKeys(sign, idx.contents, file, end, m);
        assert s in idx.contents && s !in m;
      }
    }

    /** kv_get: the stored key and value of the bound sign, or nothing. */
    method Get(key: seq<byte>) returns (pair: Option<(seq<byte>, seq<byte>)>)
      requires Valid()
      ensures pair == if sign(key) in model then Some((model[sign(key)].key, model[sign(key)].value)) else None
      ensures (Abstract(), Got(pair)) == Apply(sign, Abstract(), GetOp(key))
    {
      var s := sign(key);
      var found := idx.Search(s);
      match found
      case None => pair := None;
      case Some(valueOffset) =>
        RecordRoundTrip(data.file, valueOffset, model[s]);
        pair := data.Get(valueOffset);
    }

    /** kv_delete: unbind a bound sign; the log keeps its bytes. */
    method Delete(key: seq<byte>) returns (ok: bool)
      requires Valid() && clock + 1 < WORD
      requires sign(key) in model ==> idx.freeNodeCount + 1 < idx.freeNodePool.Length
      modifies this, idx, idx.hashHead, idx.nodePool, idx.freeNodePool, data`kvCount, data`timestamp
      ensures Valid() && (Abstract(), Done(ok)) == Apply(sign, old(Abstract()), DeleteOp(key))
      ensures ok == (sign(key) in old(model)) && model == old(model) - {sign(key)} && clock == old(clock) + 1
      ensures idx.nodePoolHorizon == old(idx.nodePoolHorizon)
      ensures ok ==> idx.timestamp == data.timestamp == clock > old(clock)
      ensures old(Stamped()) ==> Stamped()
      ensures ok && old(Stamped()) ==> idx.timestamp > old(idx.timestamp) && data.timestamp > old(data.timestamp)
    {
      hide Index.Valid, Data.Valid, Coherent;
      var timestamp := NextId();
      ok := Unbind(sign(key), timestamp);
    }

    /** The rest of kv_delete: the node leaves the index, and then the counters of the data file follow. */
    method Unbind(s: u64, timestamp: u64) returns (ok: bool)
      requires Valid() && (s in model ==> idx.freeNodeCount + 1 < idx.freeNodePool.Length)
      modifies this`model, idx, idx.hashHead, idx.nodePool, idx.freeNodePool, data`kvCount, data`timestamp
      ensures Valid() && model == old(model) - {s} && ok == (s in old(model))
      ensures idx.nodePoolHorizon == old(idx.nodePoolHorizon)
      ensures idx.timestamp == (if ok then timestamp else old(idx.timestamp))
      ensures data.timestamp == (if ok then timestamp else old(data.timestamp))
    {
      hide Index.Valid, Data.Valid, Coherent, SeekFails;
      ghost var offsets, m := idx.contents, model;
      CoherentKeys(sign, offsets, data.file, data.appendOffset, m);
      var found := idx.Delete(s, timestamp);
      if found.None? {
        assert m - {s} == m && offsets - {s} == offsets;
        return false;
      }
      CoherentDelete(sign, offsets, data.file, data.appendOffset, m, s);
      data.Delete(timestamp);
      model := model - {s};
      ok := true;
    }

    lemma CountIsSize()
      requires Valid()
      ensures data.kvCount == |model|
    {
    }

    /** The nodes ever used that are not bound are on the free stack. */
    lemma FreeIsRest()
      requires Valid()
      ensures idx.freeNodeCount == idx.nodePoolHorizon - |model| && |model| <= idx.nodePoolHorizon <= idx.nodePool.Length
    {
      idx.CountNodes();
      CoherentKeys(sign, idx.contents, data.file, data.appendOffset, model);
    }

    /** With fewer cells than free slots, as kv_open's quota normally has it, a delete never lacks room. */
    lemma RoomToDelete(key: seq<byte>)
      requires Valid() && sign(key) in model && idx.nodePool.Length < idx.freeNodePool.Length
      ensures idx.freeNodeCount + 1 < idx.freeNodePool.Length
    {
      FreeIsRest();
      assert model != map[];
    }

    /** idx_exit and data_exit: the two files hold this store when append_offset fits the header's int. */
    method Exit() returns (idxFile: seq<byte>, dataFile: seq<byte>)
      requires Valid()
      modifies idx`file, idx`isChange, data`file
      ensures Valid() && model == old(model)
      ensures data.appendOffset < HALF_INT ==>
        HoldStore(sign, idxFile, dataFile, idx.Snapshot(), idx.trees, idx.stack, idx.contents, data.records, model)
      ensures HeadAppendOffset(dataFile) == data.appendOffset
        <==> data.appendOffset < HALF_INT || data.appendOffset >= WORD - HALF_INT
    {
      hide Table, Coherent, EncodeLog, EncodeHead, HoldsIndex, SignedVal;
      ghost var before, end := data.file, data.appendOffset;
      idxFile := idx.Exit();
      dataFile := data.Exit();
      assert dataFile[HEAD_SIZE..end] == dataFile[HEAD_SIZE..][..end - HEAD_SIZE];
      assert before[HEAD_SIZE..end] == before[HEAD_SIZE..][..end - HEAD_SIZE];
      CoherentInLongerLog(sign, idx.contents, before, end, model, dataFile, end);
      HeadRoundTrip(data.kvCount, data.appendOffset, data.timestamp, dataFile);
    }

    /**
     kv_open with LOAD on two files that hold a store: the same map, index, log and counts. The counter
     behind the timestamps is not saved; timestamps go on growing exactly when it has reached the saved ones.
     */
    constructor Load(idxFile: seq<byte>, dataFile: seq<byte>, sign: Sign, clock: nat,
                     ghost i: Image, ghost ts: seq<SignTree>, ghost freed: seq<nat>, ghost offsets: map<u64, u64>,
                     ghost records: seq<Record>, ghost m: map<u64, Record>)
      requires HoldStore(sign, idxFile, dataFile, i, ts, freed, offsets, records, m)
      requires clock < WORD
      ensures Valid() && Abstract() == Spec(m, clock) && this.sign == sign
      ensures Stamped() <==> i.timestamp <= clock && WordFrom(dataFile, 24) <= clock
      ensures idx.Snapshot() == i && idx.contents == offsets && data.records == records
    {
      hide Index.Valid, Coherent, HoldsIndex, EncodeLog, HeadAppendOffset, WordFrom;
      var index := new Index.Load(idxFile, i, ts, freed, offsets);
      var log := new Data.Load(dataFile, records);
      idx, data := index, log;
      this.sign, this.clock, model := sign, clock, m;
    }
  }

  // ----- whole runs of the store

  /** Where the log ends after a run: every successful put has added its record. */
  function LogEnd(sign: Sign, clock: nat, ops: seq<Op>): nat {
    if ops == [] then HEAD_SIZE
    else
      var front, last := ops[..|ops| - 1], ops[|ops| - 1];
      LogEnd(sign, clock, front) +
      if last.PutOp? && sign(last.key) !in Run(sign, clock, front).model then ITEM_HEAD_SIZE + |last.key| + |last.value| else 0
  }

  /** The most bindings a run has had at one time: as many nodes have ever been used. */
  function Peak(sign: Sign, clock: nat, ops: seq<Op>): nat {
    if ops == [] then 0 else Max(Peak(sign, clock, ops[..|ops| - 1]), |Run(sign, clock, ops).model|)
  }

  /**
   A put of an absent sign needs a node and an offset the data file can seek to, a delete of a bound one
   a free slot for its node; any other call needs nothing.
   */
  ghost predicate RoomAt(sign: Sign, clock: nat, ops: seq<Op>, i: nat, keyNum: nat)
    requires i < |ops|
  {
    var st, op := Run(sign, clock, ops[..i]), ops[i];
    && (op.PutOp? && sign(op.key) !in st.model ==> |st.model| < keyNum && !SeekFails(LogEnd(sign, clock, ops[..i])))
    && (op.DeleteOp? && sign(op.key) in st.model ==>
          Peak(sign, clock, ops[..i]) - |st.model| + 1 < FREE_NODE_POOL_SIZE)
  }

  /** A run there is room for; lengths are C ints, and there are no more ids than the counter has. */
  ghost predicate WithinCapacity(sign: Sign, clock: nat, ops: seq<Op>, keyNum: nat) {
    && keyNum <= INDEX_NODE_NOT_EXIST && clock + |ops| < WORD
    && (forall i | 0 <= i < |ops| && ops[i].PutOp? :: |ops[i].key| < HALF_INT && |ops[i].value| < HALF_INT)
    && forall i | 0 <= i < |ops| :: RoomAt(sign, clock, ops, i, keyNum)
  }

  /** Each call takes at most one id. */
  lemma {:induction false} RunClock(sign: Sign, clock: nat, ops: seq<Op>)
    requires clock + |ops| < WORD
    ensures Run(sign, clock, ops).clock <= clock + |ops|
  {
    if ops != [] { RunClock(sign, clock, ops[..|ops| - 1]); }
  }

  /** One call of any kind, within capacity, is one step of the plain map. */
  method Call(store: Kvs, op: Op) returns (answer: Answer)
    requires store.Valid() && store.clock + 1 < WORD
    requires op.PutOp? ==> |op.key| < HALF_INT && |op.value| < HALF_INT
    requires op.PutOp? && store.sign(op.key) !in store.model ==>
      |store.model| < store.idx.nodePool.Length && !SeekFails(store.data.appendOffset)
    requires op.DeleteOp? && store.sign(op.key) in store.model ==>
      store.idx.nodePoolHorizon - |store.model| + 1 < store.idx.freeNodePool.Length
    modifies store, store.idx, store.idx.hashHead, store.idx.nodePool, store.idx.freeNodePool, store.data
    ensures store.Valid() && (store.Abstract(), answer) == Apply(store.sign, old(store.Abstract()), op)
    ensures old(store.Stamped()) ==> store.Stamped()
    ensures store.idx.nodePoolHorizon == Max(old(store.idx.nodePoolHorizon), |store.model|)
    ensures store.data.appendOffset == old(store.data.appendOffset) +
      if op.PutOp? && answer == Done(true) then ITEM_HEAD_SIZE + |op.key| + |op.value| else 0
  {
    hide Index.Valid, Coherent, Data.Valid, SeekFails;
    store.FreeIsRest();
    match op {
      case PutOp(key, value) =>
        var ok := store.Put(key, value);
        answer := Done(ok);
      case GetOp(key) =>
        var pair := store.Get(key);
        answer := Got(pair);
      case DeleteOp(key) =>
        var ok := store.Delete(key);
        answer := Done(ok);
    }
    store.FreeIsRest();
  }

  /** Call `i` of a run that fits: what it may assume of its arguments, and what it adds to the run. */
  lemma RunStep(sign: Sign, clock: nat, ops: seq<Op>, i: nat, keyNum: nat, st: Spec)
    requires WithinCapacity(sign, clock, ops, keyNum) && i < |ops| && st == Run(sign, clock, ops[..i])
    ensures st.clock + 1 < WORD
    ensures ops[i].PutOp? ==> |ops[i].key| < HALF_INT && |ops[i].value| < HALF_INT
    ensures RoomAt(sign, clock, ops, i, keyNum)
    ensures Peak(sign, clock, ops[..i + 1]) == Max(Peak(sign, clock, ops[..i]), |Run(sign, clock, ops[..i + 1]).model|)
    ensures Apply(sign, st, ops[i]) == (Run(sign, clock, ops[..i + 1]), AnswerAt(sign, clock, ops, i))
    ensures LogEnd(sign, clock, ops[..i + 1]) == LogEnd(sign, clock, ops[..i]) +
      if ops[i].PutOp? && AnswerAt(sign, clock, ops, i) == Done(true) then ITEM_HEAD_SIZE + |ops[i].key| + |ops[i].value| else 0
  {
    assert ops[..i + 1][..i] == ops[..i] && ops[..i + 1][i] == ops[i];
    RunClock(sign, clock, ops[..i]);
    assert RoomAt(sign, clock, ops, i, keyNum);
  }

  lemma EmptyRun(sign: Sign, clock: nat, ops: seq<Op>, keyNum: nat)
    requires WithinCapacity(sign, clock, ops, keyNum)
    ensures Run(sign, clock, ops[..0]) == Spec(map[], clock) && LogEnd(sign, clock, ops[..0]) == HEAD_SIZE
    ensures keyNum <= INDEX_NODE_NOT_EXIST && Peak(sign, clock, ops[..0]) == 0
  {
    assert ops[..0] == [];
  }

  /**
   Every run of puts, gets and deletes on a freshly created store gives the answers the plain map
   gives and leaves the store standing for that map.
   */
  method Replay(sign: Sign, clock: nat, ops: seq<Op>, keyNum: nat) returns (store: Kvs, answers: seq<Answer>)
    requires clock + 1 < WORD && WithinCapacity(sign, clock + 1, ops, keyNum)
    ensures fresh(store) && fresh(store.idx) && fresh(store.data) && fresh(store.idx.hashHead) && fresh(store.idx.nodePool)
    ensures store.sign == sign && store.idx.nodePool.Length == keyNum
    ensures store.Valid() && store.Stamped() && store.Abstract() == Run(sign, clock + 1, ops)
    ensures |answers| == |ops| && forall i | 0 <= i < |ops| :: answers[i] == AnswerAt(sign, clock + 1, ops, i)
    ensures store.data.appendOffset == LogEnd(sign, clock + 1, ops)
    ensures store.data.kvCount == |Run(sign, clock + 1, ops).model|
  {
    hide Kvs.Valid, Kvs.Stamped, SeekFails, Apply, Run, LogEnd, Peak, WithinCapacity, AnswerAt;
    EmptyRun(sign, clock + 1, ops, keyNum);
    store := new Kvs.Create([], [], keyNum, sign, clock);
    answers := [];
    for i := 0 to |ops|
      invariant store.Valid() && store.Stamped() && store.sign == sign && store.Abstract() == Run(sign, clock + 1, ops[..i])
      invariant store.idx.nodePool.Length == keyNum && store.idx.freeNodePool.Length == FREE_NODE_POOL_SIZE
      invariant fresh(store) && fresh(store.idx) && fresh(store.data)
      invariant fresh(store.idx.hashHead) && fresh(store.idx.nodePool) && fresh(store.idx.freeNodePool)
      invariant store.data.appendOffset == LogEnd(sign, clock + 1, ops[..i])
      invariant store.idx.nodePoolHorizon == Peak(sign, clock + 1, ops[..i])
      invariant |answers| == i && forall j | 0 <= j < i :: answers[j] == AnswerAt(sign, clock + 1, ops, j)
    {
      RunStep(sign, clock + 1, ops, i, keyNum, store.Abstract());
      var answer := Call(store, ops[i]);
      answers := answers + [answer];
    }
    assert ops[..|ops|] == ops;
    store.CountIsSize();
  }

  // ----- a run that breaks the store

  /** One put of the longest value a C int can count. */
  function LongPut(key: seq<byte>): seq<Op> { [PutOp(key, seq(HALF_INT - 1, _ => 0))] }

  lemma LongPutFits(sign: Sign, clock: nat, key: seq<byte>)
    requires clock + 1 < WORD && |key| < HALF_INT - 55
    ensures WithinCapacity(sign, clock, LongPut(key), 2)
    ensures SeekFails(LogEnd(sign, clock, LongPut(key)))
    ensures Run(sign, clock, LongPut(key)).model.Keys == {sign(key)}
  {
    var ops := LongPut(key);
    assert ops[..0] == [];
  }

  /** A fresh store, that put, and a put of any other sign: the index binds the sign, the log has no record of it. */
  method BreakStore(sign: Sign, clock: nat, key: seq<byte>, other: seq<byte>) returns (store: Kvs)
    requires clock + 3 < WORD && |key| < HALF_INT - 55 && |other| < HALF_INT && sign(other) != sign(key)
    ensures fresh(store) && !store.Valid()
    ensures sign(other) in store.idx.contents && sign(other) !in store.model
  {
    hide Kvs.Valid, SeekFails, Run, LogEnd, Peak, WithinCapacity, AnswerAt, LongPut;
    LongPutFits(sign, clock + 1, key);
    RunClock(sign, clock + 1, LongPut(key));
    LongPutLength(key);
    var answers;
    store, answers := Replay(sign, clock, LongPut(key), 2);
    store.FreeIsRest();
    assert |store.model| == |store.model.Keys|;
    var ok := store.Put(other, []);
  }

  lemma LongPutLength(key: seq<byte>)
    ensures |LongPut(key)| == 1
  {
  }
}
