/**
 Bytes, and the little-endian fields that both engines put into their files with memcpy, struct
 writes and pointer casts.
 */
module Bytes {

  type byte = x: int | 0 <= x < 256

  function Pow256(n: nat): (p: int)
    ensures p > 0
  {
    if n == 0 then 1 else 256 * Pow256(n - 1)
  }

  const WORD := 0x1_0000_0000_0000_0000 // 2^64
  const HALF_INT := 0x8000_0000         // 2^31

  type u64 = x: int | 0 <= x < WORD

  /** The low `n` bytes of `v`, lowest first; a negative `v` comes out in two's complement. */
  function Le(n: nat, v: int): (bs: seq<byte>)
    ensures |bs| == n
  {
    if n == 0 then [] else [v % 256] + Le(n - 1, v / 256)
  }

  /** Byte `i` of a field is the digit of 256^i. */
  lemma {:induction false} LeByte(n: nat, v: int, i: nat)
    requires i < n
    ensures Le(n, v)[i] == (v / Pow256(i)) % 256
  {
    if i > 0 {
      LeByte(n - 1, v / 256, i - 1);
      DivTwice(v, Pow256(i - 1));
    }
  }

  lemma DivTwice(v: int, p: int)
    requires p > 0
    ensures (v / 256) / p == v / (256 * p)
  {
    var a, b := v / 256, v % 256;
    var c, d := a / p, a % p;
    assert a == c * p + d;
    assert v == 256 * (c * p + d) + b;
    assert 256 * (c * p + d) == c * (256 * p) + 256 * d;
    QuotientIs(v, 256 * p, c, 256 * d + b);
  }

  lemma QuotientIs(v: int, n: int, q: int, low: int)
    requires n > 0 && v == q * n + low && 0 <= low < n
    ensures v / n == q && v % n == low
  {
    var e := v / n - q;
    assert e * n == low - v % n by {
      assert (v / n) * n + v % n == v;
      assert e * n == (v / n) * n - q * n;
    }
    Multiples(e, n);
  }

  lemma Multiples(d: int, n: int)
    requires n > 0
    ensures (d >= 1 ==> d * n >= n) && (d <= -1 ==> d * n <= -n)
  {
  }

  /** The unsigned value of a little-endian field. */
  function Val(bs: seq<byte>): (v: int)
    ensures 0 <= v < Pow256(|bs|)
  {
    if bs == [] then 0 else bs[0] + 256 * Val(bs[1..])
  }

  /** The value of the field when the C type is signed. */
  function SignedVal(bs: seq<byte>): int {
    var v := Val(bs);
    if 2 * v >= Pow256(|bs|) then v - Pow256(|bs|) else v
  }

  lemma {:induction false} ValOfLe(n: nat, v: int)
    requires 0 <= v < Pow256(n)
    ensures Val(Le(n, v)) == v
  {
    if n > 0 {
      ValOfLe(n - 1, v / 256);
      assert Le(n, v)[1..] == Le(n - 1, v / 256);
    }
  }

  lemma {:induction false} LeOfVal(bs: seq<byte>)
    ensures Le(|bs|, Val(bs)) == bs
  {
    if bs != [] {
      LeOfVal(bs[1..]);
      QuotientIs(Val(bs), 256, Val(bs[1..]), bs[0]);
      assert bs == [bs[0]] + bs[1..];
    }
  }

  /** Only `v` modulo 256^n reaches the file. */
  lemma {:induction false} LeWraps(n: nat, v: int, q: int)
    ensures Le(n, v + q * Pow256(n)) == Le(n, v)
  {
    if n > 0 {
      var p := q * Pow256(n - 1);
      assert q * Pow256(n) == 256 * p;
      assert (v + 256 * p) / 256 == v / 256 + p && (v + 256 * p) % 256 == v % 256;
      LeWraps(n - 1, v / 256, q);
    }
  }

  lemma {:induction false} SignedValOfLe(n: nat, v: int)
    requires -Pow256(n) <= 2 * v < Pow256(n)
    ensures SignedVal(Le(n, v)) == v
  {
    if v >= 0 {
      ValOfLe(n, v);
    } else {
      LeWraps(n, v, 1);
      ValOfLe(n, v + Pow256(n));
    }
  }

  lemma Powers()
    ensures Pow256(4) == 2 * HALF_INT && Pow256(8) == WORD
  {
    assert Pow256(2) == 0x1_0000;
    assert Pow256(4) == 256 * 256 * Pow256(2);
    assert Pow256(6) == 256 * 256 * Pow256(4);
    assert Pow256(8) == 256 * 256 * Pow256(6);
  }

  lemma WordRoundTrip(v: u64)
    ensures Val(Le(8, v)) == v
  {
    Powers();
    ValOfLe(8, v);
  }

  /** Two words with the same bytes are the same word. */
  lemma ValInjective(a: seq<byte>, b: seq<byte>)
    requires |a| == |b| && Val(a) == Val(b)
    ensures a == b
  {
    LeOfVal(a);
    LeOfVal(b);
  }

  lemma LeOfSignedVal(bs: seq<byte>)
    ensures Le(|bs|, SignedVal(bs)) == bs
    ensures -Pow256(|bs|) <= 2 * SignedVal(bs) < Pow256(|bs|)
  {
    hide Le, Val, Pow256;
    LeOfVal(bs);
    assert Val(bs) + (-1) * Pow256(|bs|) == Val(bs) - Pow256(|bs|);
    LeWraps(|bs|, Val(bs), -1);
  }

  /** What a positioned write leaves behind; a gap before `off` reads as zero. */
  function WriteAt(file: seq<byte>, off: nat, data: seq<byte>): (r: seq<byte>)
    ensures data != [] ==> |r| == if off + |data| > |file| then off + |data| else |file|
  {
    if data == [] then file
    else if off + |data| <= |file| then file[..off] + data + file[off + |data|..]
    else if off <= |file| then file[..off] + data
    else file + seq(off - |file|, _ => 0) + data
  }

  /** A write seen byte by byte: the range holds the data, bytes outside it are as before, a gap reads zero. */
  ghost predicate Written(before: seq<byte>, off: nat, data: seq<byte>, after: seq<byte>) {
    && |after| == (if data == [] || off + |data| < |before| then |before| else off + |data|)
    && forall i | 0 <= i < |after| ::
      after[i] == if off <= i < off + |data| then data[i - off] else if i < |before| then before[i] else 0
  }

  /** WriteAt is the one file such a write can leave behind. */
  lemma WriteAtBytes(before: seq<byte>, off: nat, data: seq<byte>, after: seq<byte>)
    ensures Written(before, off, data, after) <==> after == WriteAt(before, off, data)
  {
  }

  /** What a positioned read returns: as much of the asked range as the file has. */
  function ReadAt(file: seq<byte>, off: nat, len: nat): (r: seq<byte>)
    ensures |r| == if off >= |file| then 0 else if off + len <= |file| then len else |file| - off
    ensures forall i | 0 <= i < |r| :: r[i] == file[off + i]
    ensures off + len <= |file| ==> r == file[off..off + len]
  {
    if off >= |file| then []
    else if off + len <= |file| then file[off..off + len]
    else file[off..]
  }

  lemma WriteAtStart(file: seq<byte>, data: seq<byte>)
    ensures data <= WriteAt(file, 0, data)
    ensures WriteAt(file, 0, data)[|data|..] == if |file| > |data| then file[|data|..] else []
  {
  }

  /** A part of an entry that sits at `off` in a file. */
  lemma PartOf(file: seq<byte>, off: nat, e: seq<byte>, i: nat, j: nat)
    requires off + |e| <= |file| && file[off..off + |e|] == e && i <= j <= |e|
    ensures file[off + i..off + j] == e[i..j]
  {
    forall x | 0 <= x < j - i ensures file[off + i..off + j][x] == e[i..j][x] {
      assert file[off..off + |e|][i + x] == e[i + x];
    }
  }

  /** Two consecutive writes are one. */
  lemma WriteWrite(file: seq<byte>, off: nat, a: seq<byte>, b: seq<byte>)
    requires a != []
    ensures WriteAt(WriteAt(file, off, a), off + |a|, b) == WriteAt(file, off, a + b)
  {
    hide WriteAt, Written;
    var once := WriteAt(file, off, a);
    WriteAtBytes(file, off, a, once);
    WriteAtBytes(once, off + |a|, b, WriteAt(once, off + |a|, b));
    WrittenTwice(file, off, a, b, once, WriteAt(once, off + |a|, b));
    WriteAtBytes(file, off, a + b, WriteAt(once, off + |a|, b));
  }

  lemma WrittenTwice(file: seq<byte>, off: nat, a: seq<byte>, b: seq<byte>, once: seq<byte>, twice: seq<byte>)
    requires a != [] && Written(file, off, a, once) && Written(once, off + |a|, b, twice)
    ensures Written(file, off, a + b, twice)
  {
  }
}
