/**
 The index file: a header of eight words, then the node pool, the hash heads and the free-node pool,
 each dumped as an array of 64-bit words. The two leading `int`s of the header (magic number and
 version 0) fill the first word; cur_kv_count is always 0.
 */
module IndexImage {
  import opened Bytes
  import opened Arena

  const MAGIC: u64 := 1806
  const HEAD_WORDS := 8

  type SignCell = Cell<u64, u64>

  datatype Image = Image(horizon: u64, freeCount: u64, timestamp: u64,
                         pool: seq<SignCell>, heads: seq<u64>, free: seq<u64>)
  {
    predicate Fits() { |pool| < WORD && |heads| < WORD && |free| < WORD }
  }

  function CellWord(c: SignCell, f: nat): u64 {
    if f == 0 then c.key else if f == 1 then c.val else if f == 2 then c.left else c.right
  }

  function Words(i: Image): seq<u64>
    requires i.Fits()
  {
    [MAGIC, 0, |i.pool|, i.horizon, |i.heads|, |i.free|, i.freeCount, i.timestamp]
    + seq(4 * |i.pool|, j requires 0 <= j < 4 * |i.pool| => CellWord(i.pool[j / 4], j % 4))
    + i.heads + i.free
  }

  function EncodeWords(ws: seq<u64>): (bs: seq<byte>)
    ensures |bs| == 8 * |ws|
  {
    if ws == [] then [] else Le(8, ws[0]) + EncodeWords(ws[1..])
  }

  /** What idx_sync writes from offset 0 on. */
  function Encode(i: Image): seq<byte>
    requires i.Fits()
  {
    EncodeWords(Words(i))
  }

  function WordAt(file: seq<byte>, k: nat): u64 {
    if 8 * k + 8 <= |file| then (Powers(); Val(file[8 * k..8 * k + 8])) else 0
  }

  function WordsAt(file: seq<byte>, k: nat, n: nat): (ws: seq<u64>)
    ensures |ws| == n
  {
    seq<u64>(n, j requires 0 <= j < n => WordAt(file, k + j))
  }

  function CellAt(file: seq<byte>, k: nat): SignCell {
    Cell(WordAt(file, k), WordAt(file, k + 1), WordAt(file, k + 2), WordAt(file, k + 3))
  }

  function CellsAt(file: seq<byte>, k: nat, n: nat): (cs: seq<SignCell>)
    ensures |cs| == n
  {
    seq(n, j requires 0 <= j < n => CellAt(file, k + 4 * j))
  }

  /** What idx_load reads back. */
  function Decode(file: seq<byte>): (i: Image)
    ensures i.Fits()
  {
    var n, h, f := WordAt(file, 2), WordAt(file, 4), WordAt(file, 5);
    Image(WordAt(file, 3), WordAt(file, 6), WordAt(file, 7),
          CellsAt(file, HEAD_WORDS, n),
          WordsAt(file, HEAD_WORDS + 4 * n, h),
          WordsAt(file, HEAD_WORDS + 4 * n + h, f))
  }

  lemma {:induction false} WordOfWords(ws: seq<u64>, file: seq<byte>, k: nat)
    requires EncodeWords(ws) <= file && k < |ws|
    ensures WordAt(file, k) == ws[k]
  {
    if k == 0 {
      WordRoundTrip(ws[0]);
      assert file[0..8] == EncodeWords(ws)[0..8] == Le(8, ws[0]);
    } else {
      assert EncodeWords(ws)[8..] == EncodeWords(ws[1..]);
      WordOfWords(ws[1..], file[8..], k - 1);
      assert file[8..][8 * (k - 1)..8 * k] == file[8 * k..8 * k + 8];
    }
  }

  lemma WordsEqual(ws: seq<u64>, file: seq<byte>, k: nat, n: nat)
    requires k + n <= |ws| && forall x | k <= x < k + n :: WordAt(file, x) == ws[x]
    ensures WordsAt(file, k, n) == ws[k..k + n]
  {
  }

  lemma WordsOfWords(ws: seq<u64>, file: seq<byte>, k: nat, n: nat)
    requires EncodeWords(ws) <= file && k + n <= |ws|
    ensures WordsAt(file, k, n) == ws[k..k + n]
  {
    forall x | k <= x < k + n ensures WordAt(file, x) == ws[x] { WordOfWords(ws, file, x); }
    WordsEqual(ws, file, k, n);
  }

  lemma CellWordPlace(i: Image, j: nat, f: nat)
    requires i.Fits() && j < |i.pool| && f < 4
    ensures HEAD_WORDS + 4 * j + f < |Words(i)| && Words(i)[HEAD_WORDS + 4 * j + f] == CellWord(i.pool[j], f)
  {
    var k := 4 * j + f;
    assert k / 4 == j && k % 4 == f;
  }

  lemma CellWordRoundTrip(i: Image, file: seq<byte>, j: nat, f: nat)
    requires i.Fits() && Encode(i) <= file && j < |i.pool| && f < 4
    ensures WordAt(file, HEAD_WORDS + 4 * j + f) == CellWord(i.pool[j], f)
  {
    hide EncodeWords, WordAt, Words, CellWord;
    CellWordPlace(i, j, f);
    WordOfWords(Words(i), file, HEAD_WORDS + 4 * j + f);
  }

  lemma CellRoundTrip(i: Image, file: seq<byte>, j: nat)
    requires i.Fits() && Encode(i) <= file && j < |i.pool|
    ensures CellAt(file, HEAD_WORDS + 4 * j) == i.pool[j]
  {
    hide Encode, WordAt;
    CellWordRoundTrip(i, file, j, 0);
    CellWordRoundTrip(i, file, j, 1);
    CellWordRoundTrip(i, file, j, 2);
    CellWordRoundTrip(i, file, j, 3);
  }

  lemma CellsEqual(i: Image, file: seq<byte>)
    requires forall j | 0 <= j < |i.pool| :: CellAt(file, HEAD_WORDS + 4 * j) == i.pool[j]
    ensures CellsAt(file, HEAD_WORDS, |i.pool|) == i.pool
  {
  }

  /** Where the parts of an image sit among its words. */
  lemma Sections(i: Image)
    requires i.Fits()
    ensures var ws := Words(i);
      var heads := HEAD_WORDS + 4 * |i.pool|;
      var free := heads + |i.heads|;
      && |ws| == free + |i.free|
      && ws[..HEAD_WORDS] == [MAGIC, 0, |i.pool|, i.horizon, |i.heads|, |i.free|, i.freeCount, i.timestamp]
      && ws[heads..free] == i.heads && ws[free..] == i.free
  {
  }

  /**
   Where everything lies in the file, in 64-bit words: the header, then four words a node (key sign,
   value offset, left id, right id), then the heads, then the free pool.
   */
  lemma ImageLayout(i: Image, file: seq<byte>, j: nat)
    requires i.Fits() && Encode(i) <= file
    ensures |Encode(i)| == 8 * (8 + 4 * |i.pool| + |i.heads| + |i.free|)
    ensures WordAt(file, 0) == 1806 && WordAt(file, 1) == 0 && WordAt(file, 2) == |i.pool| && WordAt(file, 3) == i.horizon
    ensures WordAt(file, 4) == |i.heads| && WordAt(file, 5) == |i.free| && WordAt(file, 6) == i.freeCount
    ensures WordAt(file, 7) == i.timestamp
    ensures j < |i.pool| ==>
      && WordAt(file, 8 + 4 * j) == i.pool[j].key && WordAt(file, 9 + 4 * j) == i.pool[j].val
      && WordAt(file, 10 + 4 * j) == i.pool[j].left && WordAt(file, 11 + 4 * j) == i.pool[j].right
    ensures j < |i.heads| ==> WordAt(file, 8 + 4 * |i.pool| + j) == i.heads[j]
    ensures j < |i.free| ==> WordAt(file, 8 + 4 * |i.pool| + |i.heads| + j) == i.free[j]
  {
    hide EncodeWords, WordAt;
    Sections(i);
    var ws := Words(i);
    HeaderWord(i, file, 0);
    HeaderWord(i, file, 1);
    HeaderWord(i, file, 2);
    HeaderWord(i, file, 3);
    HeaderWord(i, file, 4);
    HeaderWord(i, file, 5);
    HeaderWord(i, file, 6);
    HeaderWord(i, file, 7);
    if j < |i.pool| {
      CellWordRoundTrip(i, file, j, 0);
      CellWordRoundTrip(i, file, j, 1);
      CellWordRoundTrip(i, file, j, 2);
      CellWordRoundTrip(i, file, j, 3);
    }
    TableWords(i, file, j);
  }

  lemma HeaderWord(i: Image, file: seq<byte>, k: nat)
    requires i.Fits() && Encode(i) <= file && k < HEAD_WORDS
    ensures WordAt(file, k)
      == [MAGIC, 0, |i.pool|, i.horizon, |i.heads|, |i.free|, i.freeCount, i.timestamp][k]
  {
    hide EncodeWords, WordAt;
    Sections(i);
    WordOfWords(Words(i), file, k);
    assert Words(i)[k] == Words(i)[..HEAD_WORDS][k];
  }

  lemma TableWords(i: Image, file: seq<byte>, j: nat)
    requires i.Fits() && Encode(i) <= file
    ensures j < |i.heads| ==> WordAt(file, HEAD_WORDS + 4 * |i.pool| + j) == i.heads[j]
    ensures j < |i.free| ==> WordAt(file, HEAD_WORDS + 4 * |i.pool| + |i.heads| + j) == i.free[j]
  {
    hide EncodeWords, WordAt;
    Sections(i);
    var ws := Words(i);
    var heads := HEAD_WORDS + 4 * |i.pool|;
    var free := heads + |i.heads|;
    if j < |i.heads| {
      WordOfWords(ws, file, heads + j);
      assert ws[heads..free][j] == ws[heads + j];
    }
    if j < |i.free| {
      WordOfWords(ws, file, free + j);
      assert ws[free..][j] == ws[free + j];
    }
  }

  /** A file that starts with the image of an index reads back as that index, whatever follows. */
  lemma ImageRoundTrip(i: Image, file: seq<byte>)
    requires i.Fits() && Encode(i) <= file
    ensures Decode(file) == i
  {
    hide EncodeWords, WordAt, WordsAt, CellAt, CellsAt;
    Sections(i);
    var heads := HEAD_WORDS + 4 * |i.pool|;
    var free := heads + |i.heads|;
    WordsOfWords(Words(i), file, 0, HEAD_WORDS);
    WordsOfWords(Words(i), file, heads, |i.heads|);
    WordsOfWords(Words(i), file, free, |i.free|);
    HeaderWords(i, file);
    forall j | 0 <= j < |i.pool| ensures CellAt(file, HEAD_WORDS + 4 * j) == i.pool[j] { CellRoundTrip(i, file, j); }
    CellsEqual(i, file);
  }

  lemma HeaderWords(i: Image, file: seq<byte>)
    requires i.Fits()
    requires WordsAt(file, 0, HEAD_WORDS) == [MAGIC, 0, |i.pool|, i.horizon, |i.heads|, |i.free|, i.freeCount, i.timestamp]
    ensures WordAt(file, 2) == |i.pool| && WordAt(file, 3) == i.horizon && WordAt(file, 4) == |i.heads|
    ensures WordAt(file, 5) == |i.free| && WordAt(file, 6) == i.freeCount && WordAt(file, 7) == i.timestamp
  {
    var ws := WordsAt(file, 0, HEAD_WORDS);
    assert ws[2] == WordAt(file, 2) && ws[3] == WordAt(file, 3) && ws[4] == WordAt(file, 4);
    assert ws[5] == WordAt(file, 5) && ws[6] == WordAt(file, 6) && ws[7] == WordAt(file, 7);
  }
}
