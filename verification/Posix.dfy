/** Files of the newer engine (posix.cc): bytes that are read and written at positions. */
module Posix {
  import opened Options
  import opened Bytes

  class File {
    var bytes: seq<byte>

    constructor (existing: seq<byte>)
      ensures bytes == existing
    {
      bytes := existing;
    }

    /** WriteFile: the range holds the data, every other byte of the file is as before, a gap reads zero. */
    method Write(off: nat, data: seq<byte>)
      modifies this
      ensures Written(old(bytes), off, data, bytes)
      ensures bytes == WriteAt(old(bytes), off, data)
    {
      bytes := WriteAt(bytes, off, data);
      WriteAtBytes(old(bytes), off, data, bytes);
    }

    /** GetFileLast: the result of lseek goes through an `int`. */
    function Last(): (off: int)
      reads this
      ensures -HALF_INT <= off < HALF_INT && (|bytes| - off) % (2 * HALF_INT) == 0 && (off == |bytes| <==> |bytes| < HALF_INT)
    {
      var low := |bytes| % (2 * HALF_INT);
      if low < HALF_INT then low else low - 2 * HALF_INT
    }

    /** ReadFile: what there is of the range goes to the front of the buffer; nothing at all means end of file. */
    method Read(off: nat, buf: array<byte>, len: nat) returns (s: Status, n: nat)
      requires len <= buf.Length
      modifies buf
      ensures n == |ReadAt(bytes, off, len)| && s == (if n == 0 then EndOfFile else Ok)
      ensures buf[..] == ReadAt(bytes, off, len) + old(buf[..])[n..]
    {
      var data := ReadAt(bytes, off, len);
      n := |data|;
      CopyInto(buf, 0, data);
      s := if n == 0 then EndOfFile else Ok;
    }
  }

  /** memcpy into a buffer. */
  method CopyInto(buf: array<byte>, at: nat, data: seq<byte>)
    requires at + |data| <= buf.Length
    modifies buf
    ensures buf[..] == old(buf[..at]) + data + old(buf[at + |data|..])
  {
    ghost var before := buf[..];
    for i := 0 to |data|
      invariant forall x | 0 <= x < buf.Length :: buf[x] == if at <= x < at + i then data[x - at] else before[x]
    {
      buf[at + i] := data[i];
    }
  }
}
