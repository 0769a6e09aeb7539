/**
 The newer engine's record log (space.cc): each record is an id word, a key of 8 or 16 bytes, a value
 size word and the value. Writes and reads go through one fixed buffer.
 */
module Space {
  import opened Options
  import opened Bytes
  import opened Posix

  const SPACE_BUFFER_SIZE := 10 * 1024

  datatype Entry = Entry(id: int, key: seq<byte>, value: seq<byte>)

  /** CalHeadLength */
  function HeadLength(keyLen: nat): nat { 8 + keyLen + 8 }

  /** CalLength */
  function CalLength(keyLen: nat, valueSize: nat): nat { HeadLength(keyLen) + valueSize }

  function Encode(e: Entry): (bs: seq<byte>)
    ensures |bs| == CalLength(|e.key|, |e.value|)
  {
    Le(8, e.id) + e.key + Le(8, |e.value|) + e.value
  }

  predicate EntryAt(file: seq<byte>, off: nat, e: Entry) {
    off + |Encode(e)| <= |file| && file[off..off + |Encode(e)|] == Encode(e)
  }

  /** A record is the id, the key, the value size and the value, each word eight bytes. */
  lemma EntryParts(e: Entry)
    requires |e.value| < SPACE_BUFFER_SIZE
    ensures var bs := Encode(e);
      var k := |e.key|;
      && |bs| == 16 + k + |e.value| && HeadLength(k) == 16 + k && CalLength(k, |e.value|) == |bs|
      && (-WORD <= 2 * e.id < WORD ==> SignedVal(bs[..8]) == e.id)
      && bs[8..8 + k] == e.key
      && SignedVal(bs[8 + k..16 + k]) == |e.value|
      && bs[16 + k..] == e.value
  {
    hide Le, Pow256, SignedVal;
    var bs, k := Encode(e), |e.key|;
    assert bs[..8] == Le(8, e.id);
    assert bs[8 + k..16 + k] == Le(8, |e.value|);
    Powers();
    SignedValOfLe(8, |e.value|);
    if -WORD <= 2 * e.id < WORD { SignedValOfLe(8, e.id); }
  }

  class Log {
    const fd: File
    var lastOffset: int
    const itemHeadLength: nat
    const buffer: array<byte>

    ghost predicate Valid()
      reads this
    {
      buffer.Length == SPACE_BUFFER_SIZE && (itemHeadLength == HeadLength(8) || itemHeadLength == HeadLength(16))
    }

    /** Load and Born: the log goes on where the file ends, as far as an `int` can say where that is. */
    constructor (fd: File, keyLen: nat)
      requires keyLen == 8 || keyLen == 16
      ensures Valid() && this.fd == fd && lastOffset == fd.Last() && itemHeadLength == HeadLength(keyLen)
      ensures fresh(buffer) && buffer.Length == 10240
    {
      this.fd := fd;
      lastOffset := fd.Last();
      itemHeadLength := HeadLength(keyLen);
      buffer := new byte[SPACE_BUFFER_SIZE];
    }

    /** GetSpace */
    function GetSpace(): int
      reads this
    {
      lastOffset
    }

    /** Write: four copies into the buffer, one write, and the end of the log moves on. */
    method Write(off: nat, id: int, key: seq<byte>, value: seq<byte>)
      requires Valid() && CalLength(|key|, |value|) <= SPACE_BUFFER_SIZE
      modifies fd, buffer, this`lastOffset
      ensures fd.bytes == WriteAt(old(fd.bytes), off, Encode(Entry(id, key, value)))
      ensures lastOffset == old(lastOffset) + CalLength(|key|, |value|)
    {
      hide Le, WriteAt;
      var len := 0;
      CopyInto(buffer, len, Le(8, id));
      len := len + 8;
      assert buffer[..len] == Le(8, id);
      CopyInto(buffer, len, key);
      len := len + |key|;
      assert buffer[..len] == Le(8, id) + key;
      CopyInto(buffer, len, Le(8, |value|));
      len := len + 8;
      assert buffer[..len] == Le(8, id) + key + Le(8, |value|);
      CopyInto(buffer, len, value);
      len := len + |value|;
      assert buffer[..len] == Encode(Entry(id, key, value));
      fd.Write(off, buffer[..len]);
      lastOffset := lastOffset + len;
    }

    /**
     Read of a known extent: what follows the head is the value. Of an extent that is only partly inside
     the file the missing bytes are whatever the buffer held.
     */
    method ReadValue(off: nat, length: nat) returns (s: Status, value: seq<byte>)
      requires Valid() && itemHeadLength <= length <= SPACE_BUFFER_SIZE
      modifies buffer
      ensures s == if off < |fd.bytes| then Ok else EndOfFile
      ensures s == Ok ==>
        var got := ReadAt(fd.bytes, off, length);
        value == (got + old(buffer[..])[|got|..])[itemHeadLength..length]
      ensures off + length <= |fd.bytes| ==> value == fd.bytes[off + itemHeadLength..off + length]
    {
      var n;
      s, n := fd.Read(off, buffer, length);
      value := [];
      if s != Ok {
        return;
      }
      value := buffer[itemHeadLength..length];
      assert value == buffer[..][itemHeadLength..length];
      if off + length <= |fd.bytes| {
        assert buffer[..length] == fd.bytes[off..off + length];
        assert value == buffer[..length][itemHeadLength..];
      }
    }

    /** The scanning Read: at the start of a record its key, value and total length; at the end of the file nothing. */
    method ReadEntry(off: nat, keyLen: nat, ghost e: Entry) returns (s: Status, key: seq<byte>, value: seq<byte>, total: nat)
      requires Valid() && (keyLen == 8 || keyLen == 16) && itemHeadLength == HeadLength(keyLen)
      requires off < |fd.bytes| ==>
        EntryAt(fd.bytes, off, e) && |e.key| == keyLen && CalLength(keyLen, |e.value|) <= SPACE_BUFFER_SIZE
      modifies buffer
      ensures s == if off < |fd.bytes| then Ok else EndOfFile
      ensures s == Ok ==> key == e.key && value == e.value && total == CalLength(keyLen, |e.value|)
    {
      ghost var bs, file := Encode(e), fd.bytes;
      var headLen, n := HeadLength(keyLen), 0;
      s, n := fd.Read(off, buffer, headLen);
      if s != Ok {
        return s, [], [], 0;
      }
      EntryParts(e);
      PartOf(file, off, bs, 0, headLen);
      assert buffer[..headLen] == bs[..headLen];
      key := buffer[8..8 + keyLen];
      assert key == bs[..headLen][8..8 + keyLen];
      var valueSize := SignedVal(buffer[8 + keyLen..headLen]);
      assert buffer[8 + keyLen..headLen] == bs[..headLen][8 + keyLen..];
      assert bs[..headLen][8 + keyLen..] == bs[8 + keyLen..16 + keyLen];
      total := CalLength(keyLen, valueSize);
      s, value := ReadValue(off, total);
      PartOf(file, off, bs, headLen, |bs|);
      assert bs[headLen..|bs|] == bs[headLen..];
    }
  }
}
