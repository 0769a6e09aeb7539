/**
 The older engine's data file (bak/data.c): a 32-byte header, then records appended one after
 another, each a head of three words (timestamp, key length, value length), the key and the value.
 */
module DataLog {
  import opened Options
  import opened Bytes

  const HEAD_SIZE := 32
  const ITEM_HEAD_SIZE := 24

  datatype Record = Record(timestamp: u64, key: seq<byte>, value: seq<byte>)
  {
    predicate Fits() { |key| < WORD && |value| < WORD }
    function Size(): nat { ITEM_HEAD_SIZE + |key| + |value| }
  }

  function EncodeRecord(r: Record): (bs: seq<byte>)
    ensures |bs| == r.Size()
  {
    Le(8, r.timestamp) + Le(8, |r.key|) + Le(8, |r.value|) + r.key + r.value
  }

  function EncodeLog(rs: seq<Record>): seq<byte> {
    if rs == [] then [] else EncodeLog(rs[..|rs| - 1]) + EncodeRecord(rs[|rs| - 1])
  }

  /**
   lseek's result goes through an `int`, so an offset whose bit 31 is set looks like a failure; one of
   2^63 and more is a negative offset and is one.
   */
  predicate SeekFails(off: nat) { off % (2 * HALF_INT) >= HALF_INT || 2 * off >= WORD }

  /** lseek takes a signed 64-bit offset and fails on a negative one; its result is then tested as an `int`. */
  lemma SeekResult(off: u64)
    ensures SeekFails(off) <==> SignedVal(Le(8, off)) < 0 || SignedVal(Le(4, off)) < 0
  {
    hide Le, Val, Pow256;
    Powers();
    ValOfLe(8, off);
    var q, low := off / (2 * HALF_INT), off % (2 * HALF_INT);
    assert off == low + q * Pow256(4);
    LeWraps(4, low, q);
    ValOfLe(4, low);
  }

  // ----- reading

  function WordFrom(bs: seq<byte>, off: nat): u64
    requires off + 8 <= |bs|
  {
    Powers();
    Val(bs[off..off + 8])
  }

  /** What data_get reads at an offset: the key and the value the head there announces. */
  function ReadRecord(file: seq<byte>, off: nat): (seq<byte>, seq<byte>)
    requires off + ITEM_HEAD_SIZE <= |file|
  {
    var key := ReadAt(file, off + ITEM_HEAD_SIZE, WordFrom(file, off + 8));
    (key, ReadAt(file, off + ITEM_HEAD_SIZE + |key|, WordFrom(file, off + 16)))
  }

  predicate RecordAt(file: seq<byte>, off: nat, r: Record) {
    r.Fits() && off + r.Size() <= |file| && file[off..off + r.Size()] == EncodeRecord(r)
  }

  lemma HeadWords(file: seq<byte>, off: nat, r: Record)
    requires RecordAt(file, off, r)
    ensures r.Size() == 24 + |r.key| + |r.value|
    ensures WordFrom(file, off) == r.timestamp && WordFrom(file, off + 8) == |r.key| && WordFrom(file, off + 16) == |r.value|
  {
    var e := EncodeRecord(r);
    PartOf(file, off, e, 0, 8);
    PartOf(file, off, e, 8, 16);
    PartOf(file, off, e, 16, 24);
    assert e[0..8] == Le(8, r.timestamp) && e[8..16] == Le(8, |r.key|) && e[16..24] == Le(8, |r.value|);
    WordRoundTrip(r.timestamp);
    WordRoundTrip(|r.key|);
    WordRoundTrip(|r.value|);
  }

  /** An intact record reads back as its key and value. */
  lemma RecordRoundTrip(file: seq<byte>, off: nat, r: Record)
    requires RecordAt(file, off, r)
    ensures ReadRecord(file, off) == (r.key, r.value)
  {
    HeadWords(file, off, r);
    var e, k := EncodeRecord(r), ITEM_HEAD_SIZE + |r.key|;
    PartOf(file, off, e, ITEM_HEAD_SIZE, k);
    PartOf(file, off, e, k, r.Size());
    assert e[ITEM_HEAD_SIZE..k] == r.key && e[k..r.Size()] == r.value;
  }

  /** Read a whole log front to back; fails on bytes that are not a gap-free run of records. */
  function ParseLog(bs: seq<byte>): Option<seq<Record>>
    decreases |bs|
  {
    if bs == [] then Some([])
    else if |bs| < ITEM_HEAD_SIZE then None
    else
      var k, v := WordFrom(bs, 8), WordFrom(bs, 16);
      var end := ITEM_HEAD_SIZE + k + v;
      if end > |bs| then None
      else
        var r := Record(WordFrom(bs, 0), bs[ITEM_HEAD_SIZE..ITEM_HEAD_SIZE + k], bs[ITEM_HEAD_SIZE + k..end]);
        match ParseLog(bs[end..])
        case None => None
        case Some(rs) => Some([r] + rs)
  }

  lemma {:induction false} LogFromFront(rs: seq<Record>)
    requires rs != []
    ensures EncodeLog(rs) == EncodeRecord(rs[0]) + EncodeLog(rs[1..])
  {
    var n := |rs| - 1;
    if n > 0 {
      LogFromFront(rs[..n]);
      assert rs[..n][1..] == rs[1..][..n - 1];
      assert rs[1..][n - 1] == rs[n];
    }
  }

  lemma ParseStep(r: Record, rest: seq<byte>)
    requires r.Fits()
    ensures ParseLog(EncodeRecord(r) + rest) == match ParseLog(rest) case None => None case Some(rs) => Some([r] + rs)
  {
    hide EncodeRecord, WordFrom, RecordAt;
    var e, end, k := EncodeRecord(r), r.Size(), ITEM_HEAD_SIZE + |r.key|;
    var bs := e + rest;
    assert bs[..end] == e && bs[end..] == rest && bs[0..end] == e;
    FrontRecord(bs, r);
    HeadWords(bs, 0, r);
    PartOf(bs, 0, e, ITEM_HEAD_SIZE, k);
    PartOf(bs, 0, e, k, end);
    RecordParts(r);
  }

  lemma FrontRecord(bs: seq<byte>, r: Record)
    requires r.Fits() && r.Size() <= |bs| && bs[0..r.Size()] == EncodeRecord(r)
    ensures RecordAt(bs, 0, r)
  {
  }

  lemma RecordParts(r: Record)
    ensures var e, k := EncodeRecord(r), ITEM_HEAD_SIZE + |r.key|;
      e[ITEM_HEAD_SIZE..k] == r.key && e[k..r.Size()] == r.value
  {
  }

  lemma EmptyLog()
    ensures EncodeLog([]) == [] && ParseLog([]) == Some([])
  {
  }

  /** Every log parses back to exactly the records that were appended to it. */
  lemma {:induction false} LogRoundTrip(rs: seq<Record>)
    requires forall i | 0 <= i < |rs| :: rs[i].Fits()
    ensures ParseLog(EncodeLog(rs)) == Some(rs)
  {
    hide EncodeLog, ParseLog, EncodeRecord;
    EmptyLog();
    if rs != [] {
      LogFromFront(rs);
      ParseStep(rs[0], EncodeLog(rs[1..]));
      LogRoundTrip(rs[1..]);
      assert rs == [rs[0]] + rs[1..];
    }
  }

  // ----- the header

  /** _datahead_fetch and the write of the struct; append_offset is an `int` there. */
  function EncodeHead(kvCount: u64, appendOffset: nat, timestamp: u64): (bs: seq<byte>)
    ensures |bs| == HEAD_SIZE
  {
    Le(4, 1806) + Le(4, 0) + Le(8, kvCount) + Le(4, appendOffset) + Le(4, 0) + Le(8, timestamp)
  }

  /** An `int` of the header becomes an unsigned 64-bit field: negative values wrap. */
  function IntToU64(v: int): u64
    requires -WORD <= v < WORD
  {
    if v < 0 then v + WORD else v
  }

  function HeadAppendOffset(file: seq<byte>): u64 {
    if |file| < HEAD_SIZE then 0 else (Powers(); IntToU64(SignedVal(file[16..20])))
  }

  /** What is left of an unsigned 64-bit field that went through an `int` of the file. */
  lemma IntField(a: u64)
    ensures var v := SignedVal(Le(4, a));
      -HALF_INT <= v < HALF_INT && (IntToU64(v) == a <==> a < HALF_INT || a >= WORD - HALF_INT)
  {
    hide Le, Val, Pow256;
    Powers();
    var q, low := a / (2 * HALF_INT), a % (2 * HALF_INT);
    assert a == low + q * Pow256(4);
    LeWraps(4, low, q);
    ValOfLe(4, low);
  }

  /**
   Saving and loading the header restores the counters, and restores append_offset exactly when it
   survives the 32-bit field of the header.
   */
  lemma HeadRoundTrip(kvCount: u64, appendOffset: u64, timestamp: u64, file: seq<byte>)
    requires EncodeHead(kvCount, appendOffset, timestamp) <= file
    ensures WordFrom(file, 8) == kvCount && WordFrom(file, 24) == timestamp
    ensures HeadAppendOffset(file) == IntToU64(SignedVal(Le(4, appendOffset)))
    ensures HeadAppendOffset(file) == appendOffset <==> appendOffset < HALF_INT || appendOffset >= WORD - HALF_INT
  {
    hide Le, SignedVal, Val, Pow256;
    var e := EncodeHead(kvCount, appendOffset, timestamp);
    PartOf(file, 0, e, 8, 16);
    PartOf(file, 0, e, 24, 32);
    PartOf(file, 0, e, 16, 20);
    assert e[8..16] == Le(8, kvCount) && e[24..32] == Le(8, timestamp) && e[16..20] == Le(4, appendOffset);
    WordRoundTrip(kvCount);
    WordRoundTrip(timestamp);
    IntField(appendOffset);
  }

  /** The header starts with the magic number and version 0. */
  lemma HeadMagic(kvCount: u64, appendOffset: nat, timestamp: u64, file: seq<byte>)
    requires EncodeHead(kvCount, appendOffset, timestamp) <= file
    ensures HEAD_SIZE == 32 && SignedVal(file[0..4]) == 1806 && SignedVal(file[4..8]) == 0
  {
    hide Le, SignedVal, Pow256;
    var e := EncodeHead(kvCount, appendOffset, timestamp);
    PartOf(file, 0, e, 0, 4);
    PartOf(file, 0, e, 4, 8);
    Powers();
    SignedValOfLe(4, 1806);
    SignedValOfLe(4, 0);
    assert e[0..4] == Le(4, 1806) && e[4..8] == Le(4, 0);
  }

  class Data {
    var file: seq<byte>
    var appendOffset: nat
    var kvCount: u64
    var timestamp: u64
    ghost var records: seq<Record>

    /** The file is the header, the records appended so far without a gap, and perhaps stale bytes. */
    ghost predicate Valid()
      reads this
    {
      && HEAD_SIZE <= appendOffset <= |file|
      && file[HEAD_SIZE..appendOffset] == EncodeLog(records)
      && forall i | 0 <= i < |records| :: records[i].Fits()
    }

    /** data_create on a file that may already hold something. */
    constructor Create(existing: seq<byte>)
      ensures Valid() && records == [] && appendOffset == HEAD_SIZE && kvCount == 0 && timestamp == 0
      ensures EncodeHead(0, HEAD_SIZE, 0) <= file && file[HEAD_SIZE..] == if |existing| > HEAD_SIZE then existing[HEAD_SIZE..] else []
    {
      file := existing;
      hide Le, WriteAt, EncodeLog;
      appendOffset, kvCount, timestamp, records := HEAD_SIZE, 0, 0, [];
      new;
      EmptyLog();
      WriteAtStart(file, EncodeHead(kvCount, appendOffset, timestamp));
      HeadSync();
    }

    /** data_load */
    constructor Load(saved: seq<byte>, ghost rs: seq<Record>)
      requires HEAD_SIZE <= HeadAppendOffset(saved) <= |saved|
      requires saved[HEAD_SIZE..HeadAppendOffset(saved)] == EncodeLog(rs) && forall i | 0 <= i < |rs| :: rs[i].Fits()
      ensures Valid() && records == rs && file == saved && appendOffset == HeadAppendOffset(saved)
      ensures kvCount == WordFrom(saved, 8) && timestamp == WordFrom(saved, 24)
    {
      file := saved;
      appendOffset, kvCount, timestamp := HeadAppendOffset(saved), WordFrom(saved, 8), WordFrom(saved, 24);
      records := rs;
    }

    /** data_head_sync: only the header's bytes change. */
    method HeadSync()
      modifies this`file
      ensures file == WriteAt(old(file), 0, EncodeHead(kvCount, appendOffset, timestamp))
      ensures |file| >= |old(file)| && |file| >= HEAD_SIZE
      ensures |old(file)| >= HEAD_SIZE ==> file[HEAD_SIZE..] == old(file)[HEAD_SIZE..]
    {
      file := WriteAt(file, 0, EncodeHead(kvCount, appendOffset, timestamp));
    }

    /** data_exit */
    method Exit() returns (saved: seq<byte>)
      requires Valid()
      modifies this`file
      ensures Valid() && saved == file && |file| == |old(file)|
      ensures EncodeHead(kvCount, appendOffset, timestamp) <= saved && saved[HEAD_SIZE..] == old(file)[HEAD_SIZE..]
    {
      HeadSync();
      saved := file;
      assert file[HEAD_SIZE..appendOffset] == file[HEAD_SIZE..][..appendOffset - HEAD_SIZE];
    }

    /** data_get_location */
    function GetLocation(): nat
      reads this
    {
      appendOffset
    }

    /** data_insert: three consecutive writes at the given offset; the counters move on. */
    method Insert(valueOffset: nat, r: Record) returns (ok: bool)
      requires r.Fits()
      modifies this
      ensures ok == !SeekFails(valueOffset)
      ensures !ok ==> unchanged(this)
      ensures ok ==> file == WriteAt(old(file), valueOffset, EncodeRecord(r))
      ensures ok ==> appendOffset == old(appendOffset) + r.Size() && timestamp == r.timestamp
      ensures ok ==> kvCount == (old(kvCount) + 1) % WORD && records == old(records) + [r]
      ensures old(Valid()) && ok && valueOffset == old(appendOffset) ==>
                Valid() && RecordAt(file, valueOffset, r) && old(file)[..valueOffset] <= file
    {
      hide EncodeLog, WriteAt, Le;
      if SeekFails(valueOffset) {
        return false;
      }
      var head := Le(8, r.timestamp) + Le(8, |r.key|) + Le(8, |r.value|);
      file := WriteAt(file, valueOffset, head);
      file := WriteAt(file, valueOffset + |head|, r.key);
      file := WriteAt(file, valueOffset + |head| + |r.key|, r.value);
      WriteWrite(old(file), valueOffset, head, r.key);
      WriteWrite(old(file), valueOffset, head + r.key, r.value);
      appendOffset := appendOffset + r.Size();
      kvCount := (kvCount + 1) % WORD;
      timestamp := r.timestamp;
      records := records + [r];
      ok := true;
      if old(Valid()) && valueOffset == old(appendOffset) {
        AppendKeepsLog(old(file), valueOffset, old(records), r);
      }
    }

    /** data_get at an offset with a full head: the key and value announced there. */
    method Get(valueOffset: nat) returns (pair: Option<(seq<byte>, seq<byte>)>)
      requires !SeekFails(valueOffset) ==> valueOffset + ITEM_HEAD_SIZE <= |file|
      ensures pair == if SeekFails(valueOffset) then None else Some(ReadRecord(file, valueOffset))
    {
      if SeekFails(valueOffset) {
        return None;
      }
      var keyLen, valueLen := WordFrom(file, valueOffset + 8), WordFrom(file, valueOffset + 16);
      var key := ReadAt(file, valueOffset + ITEM_HEAD_SIZE, keyLen);
      var value := ReadAt(file, valueOffset + ITEM_HEAD_SIZE + |key|, valueLen);
      pair := Some((key, value));
    }

    /** data_delete */
    method Delete(timestamp: u64)
      modifies this`kvCount, this`timestamp
      ensures kvCount == (old(kvCount) - 1) % WORD && this.timestamp == timestamp
      ensures old(Valid()) ==> Valid()
    {
      kvCount := (kvCount - 1) % WORD;
      this.timestamp := timestamp;
    }
  }

  /** Appending a record extends the log and leaves every earlier byte alone. */
  lemma AppendKeepsLog(file: seq<byte>, end: nat, rs: seq<Record>, r: Record)
    requires HEAD_SIZE <= end <= |file| && file[HEAD_SIZE..end] == EncodeLog(rs) && r.Fits()
    ensures var file' := WriteAt(file, end, EncodeRecord(r));
      && end + r.Size() <= |file'| && RecordAt(file', end, r)
      && file'[..end] == file[..end]
      && file'[HEAD_SIZE..end + r.Size()] == EncodeLog(rs + [r])
  {
    var e := EncodeRecord(r);
    var file' := WriteAt(file, end, e);
    assert file'[..end] == file[..end];
    assert file'[end..end + |e|] == e;
    assert (rs + [r])[..|rs|] == rs;
    assert file'[HEAD_SIZE..end + |e|] == file'[..end][HEAD_SIZE..] + file'[end..end + |e|];
    assert file[..end][HEAD_SIZE..] == file[HEAD_SIZE..end];
  }
}
