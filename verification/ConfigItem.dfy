/**
 The 32-byte cells of a configuration file (item.h): `key:value\n` for a visual item, a name and a
 length for a black one. What Serialize prints, Parse reads; the lemmas say exactly when it reads
 back the same item.
 */
module ConfigItem {
  import opened Bytes

  const ITEM_SIZE := 32
  const NAME_SIZE := 24
  const COLON: byte := 58
  const NEWLINE: byte := 10
  const FEB31 := 10000000 + 1806 // as a length: open-ended, up to the end of the file

  type text = s: seq<byte> | 0 !in s

  /** A black item has its bytes in memory, unless it is open-ended. */
  datatype Item = Visual(key: text, value: text) | Black(key: text, len: int, data: seq<byte>)
  {
    predicate Open() { Black? && len == FEB31 }
    predicate Sized() { Black? && len != FEB31 }
  }

  /** A string up to its terminating NUL. */
  function CStr(bs: seq<byte>): (s: text)
    ensures |s| <= |bs| && s == bs[..|s|] && (|s| < |bs| ==> bs[|s|] == 0)
  {
    if bs == [] || bs[0] == 0 then [] else [bs[0]] + CStr(bs[1..])
  }

  function Padded(s: seq<byte>, n: nat): (r: seq<byte>)
    requires |s| <= n
    ensures |r| == n
  {
    s + seq(n - |s|, _ => 0)
  }

  /** Serialize. The name of a black item is copied by strcpy, so its callers keep it inside the cell. */
  function Serialize(item: Item): (cell: seq<byte>)
    ensures |cell| == ITEM_SIZE
  {
    match item
    case Visual(key, value) =>
      var line := key + [COLON] + value + [NEWLINE];
      Padded(if |line| < ITEM_SIZE then line else line[..ITEM_SIZE - 1], ITEM_SIZE)
    case Black(key, len, _) =>
      Padded(if |key| < ITEM_SIZE then key else key[..ITEM_SIZE], ITEM_SIZE)[..NAME_SIZE] + Le(8, len)
  }

  function FirstColon(bs: seq<byte>): (i: nat)
    ensures i <= |bs| && COLON !in bs[..i] && (i < |bs| ==> bs[i] == COLON)
  {
    if bs == [] || bs[0] == COLON then 0 else 1 + FirstColon(bs[1..])
  }

  function DropNewline(s: text): text {
    if s != [] && s[|s| - 1] == NEWLINE then s[..|s| - 1] else s
  }

  /** What a cell says: a black item when it has no colon. */
  datatype Header = VisualHeader(key: seq<byte>, value: seq<byte>) | BlackHeader(key: seq<byte>, len: int)

  /** Parse and the buffer constructor. */
  function Parse(cell: seq<byte>): Header
    requires |cell| == ITEM_SIZE
  {
    var i := FirstColon(cell);
    if i == ITEM_SIZE then BlackHeader(CStr(cell), SignedVal(cell[NAME_SIZE..]))
    else VisualHeader(cell[..i], DropNewline(CStr(cell[i + 1..])))
  }

  function HeaderOf(item: Item): Header {
    match item
    case Visual(key, value) => VisualHeader(key, value)
    case Black(key, len, _) => BlackHeader(key, len)
  }

  // ----- cells byte by byte

  /** The line of a visual item, byte by byte: padded with NULs when it fits, cut to 31 bytes and a NUL when not. */
  lemma VisualCell(key: text, value: text)
    ensures var cell := Serialize(Visual(key, value));
      var k, n := |key|, |key| + |value| + 2;
      && (forall i | 0 <= i < 31 ::
            cell[i] == if i < k then key[i] else if i == k then 58
                       else if i < n - 1 then value[i - k - 1] else if i == n - 1 then 10 else 0)
      && cell[31] == 0
  {
  }

  /** The header of a black item: the name padded with NULs to 24 bytes, then the length. */
  lemma BlackCell(key: text, len: int, data: seq<byte>)
    requires |key| < ITEM_SIZE && -WORD <= 2 * len < WORD
    ensures var cell := Serialize(Black(key, len, data));
      && (forall i | 0 <= i < 24 :: cell[i] == if i < |key| then key[i] else 0)
      && SignedVal(cell[24..]) == len
  {
    hide Le, SignedVal;
    Powers();
    SignedValOfLe(8, len);
    assert Serialize(Black(key, len, data))[24..] == Le(8, len);
  }

  /** The text at `at` runs to `end`: the first NUL, or the end of the cell. */
  ghost predicate TextEnds(cell: seq<byte>, at: nat, end: nat) {
    at <= end <= |cell| && 0 !in cell[at..end] && (end < |cell| ==> cell[end] == 0)
  }

  /** The text behind a colon at `k` runs to `end`, and `value` is that text less one newline. */
  ghost predicate ShownUpTo(cell: seq<byte>, k: nat, end: nat, value: seq<byte>) {
    && TextEnds(cell, k + 1, end)
    && value == if end > k + 1 && cell[end - 1] == 10 then cell[k + 1..end - 1] else cell[k + 1..end]
  }

  /**
   What any cell reads as. With a colon it is visual: the key is what precedes the first colon, the value
   the text behind it, less one newline. Without one it is black: the name is the text from the start, the
   length the last eight bytes.
   */
  lemma ParseMeans(cell: seq<byte>)
    requires |cell| == ITEM_SIZE
    ensures Parse(cell).VisualHeader? <==> 58 in cell
    ensures match Parse(cell)
      case VisualHeader(key, value) =>
        && |key| < 32 && key == cell[..|key|] && 58 !in key && cell[|key|] == 58
        && exists end: nat :: ShownUpTo(cell, |key|, end, value)
      case BlackHeader(key, len) =>
        && |key| <= 32 && key == cell[..|key|] && TextEnds(cell, 0, |key|) && len == SignedVal(cell[24..])
  {
    hide SignedVal;
    var i := FirstColon(cell);
    if i < ITEM_SIZE {
      var rest := cell[i + 1..];
      var t := CStr(rest);
      var end := i + 1 + |t|;
      assert cell[i + 1..end] == t;
      assert TextEnds(cell, i + 1, end);
      if t != [] { assert cell[end - 1] == t[|t| - 1] && cell[i + 1..end - 1] == t[..|t| - 1]; }
      assert |cell[..i]| == i;
      assert ShownUpTo(cell, i, end, DropNewline(t));
    } else {
      var t := CStr(cell);
      assert cell[0..|t|] == t;
    }
  }

  // ----- visual cells

  predicate VisualFits(key: text, value: text) {
    && COLON !in key
    && (|key| + |value| + 2 < ITEM_SIZE
        || (|key| + |value| + 2 == ITEM_SIZE && !(value != [] && value[|value| - 1] == NEWLINE)))
  }

  lemma {:induction false} CStrPadded(s: text, rest: seq<byte>)
    requires rest != [] ==> rest[0] == 0
    ensures CStr(s + rest) == s
  {
    if s == [] {
      assert s + rest == rest;
    } else {
      CStrPadded(s[1..], rest);
      assert (s + rest)[1..] == s[1..] + rest;
    }
  }

  lemma {:induction false} FirstColonAfter(s: seq<byte>, rest: seq<byte>)
    requires COLON !in s && (rest != [] ==> rest[0] == COLON)
    ensures FirstColon(s + rest) == |s|
  {
    if s == [] {
      assert s + rest == rest;
    } else {
      FirstColonAfter(s[1..], rest);
      assert (s + rest)[1..] == s[1..] + rest;
    }
  }

  /** A cell whose text after the key is `shown` reads back as that, less one newline. */
  lemma VisualParse(key: text, shown: text, pad: seq<byte>)
    requires COLON !in key && |key| + 1 + |shown| + |pad| == ITEM_SIZE && (pad != [] ==> pad[0] == 0)
    ensures Parse(key + [COLON] + shown + pad) == VisualHeader(key, DropNewline(shown))
  {
    var cell := key + [COLON] + shown + pad;
    FirstColonAfter(key, [COLON] + shown + pad);
    assert cell == key + ([COLON] + shown + pad);
    assert cell == (key + [COLON]) + (shown + pad);
    assert cell[|key + [COLON]|..] == shown + pad;
    CStrPadded(shown, pad);
  }

  /** A visual item reads back exactly when its key has no colon and the line fits, newline or not. */
  lemma VisualRoundTrip(key: text, value: text)
    ensures Parse(Serialize(Visual(key, value))) == VisualHeader(key, value) <==> VisualFits(key, value)
  {
    var n := |key| + |value| + 2;
    var cell := Serialize(Visual(key, value));
    if COLON in key {
      var h := Parse(cell);
      assert h.VisualHeader? ==> COLON !in h.key;
    } else if n < ITEM_SIZE {
      var shown: text := value + [NEWLINE];
      var pad := seq(ITEM_SIZE - n, _ => 0);
      assert cell == key + [COLON] + shown + pad;
      VisualParse(key, shown, pad);
      assert DropNewline(shown) == value;
    } else if n == ITEM_SIZE {
      assert cell == key + [COLON] + value + [0];
      VisualParse(key, value, [0]);
    } else {
      LongLineIsCut(cell, key, value);
    }
  }

  /** Whatever a cell holds, the key and value it parses to leave room for the colon and a NUL. */
  lemma LongLineIsCut(cell: seq<byte>, key: text, value: text)
    requires |cell| == ITEM_SIZE && cell[ITEM_SIZE - 1] == 0 && |key| + |value| + 2 > ITEM_SIZE
    ensures Parse(cell) != VisualHeader(key, value)
  {
    var i := FirstColon(cell);
    if i < ITEM_SIZE {
      var rest := cell[i + 1..];
      assert i != ITEM_SIZE - 1;
      assert rest[|rest| - 1] == 0;
      assert |CStr(rest)| < |rest|;
    }
  }

  // ----- black cells

  predicate BlackFits(key: text, len: int) {
    && COLON !in key && COLON !in Le(8, len)
    && (|key| < NAME_SIZE || key[NAME_SIZE..] == CStr(Le(8, len)))
  }

  /** A black header reads back exactly when neither name nor length holds a colon byte and the name ends before the length. */
  lemma BlackRoundTrip(key: text, len: int, data: seq<byte>)
    requires |key| < ITEM_SIZE && -WORD <= 2 * len < WORD
    ensures Parse(Serialize(Black(key, len, data))) == BlackHeader(key, len) <==> BlackFits(key, len)
  {
    var cell, tail := Serialize(Black(key, len, data)), Le(8, len);
    Powers();
    SignedValOfLe(8, len);
    assert cell[NAME_SIZE..] == tail;
    var i := FirstColon(cell);
    if |key| < NAME_SIZE {
      var pad := seq(NAME_SIZE - |key|, _ => 0);
      assert cell == key + (pad + tail);
      CStrPadded(key, pad + tail);
    } else {
      var name: text := key[..NAME_SIZE];
      assert cell == name + tail;
      CStrJoin(name, tail);
      assert key == name + key[NAME_SIZE..];
      if CStr(cell) == key {
        assert key[NAME_SIZE..] == (name + CStr(tail))[NAME_SIZE..] == CStr(tail);
      }
    }
    if i < ITEM_SIZE {
      assert COLON in cell;
    } else {
      assert COLON !in cell;
    }
  }

  lemma {:induction false} CStrJoin(s: text, rest: seq<byte>)
    ensures CStr(s + rest) == s + CStr(rest)
  {
    if s == [] {
      assert s + rest == rest;
    } else {
      CStrJoin(s[1..], rest);
      assert (s + rest)[1..] == s[1..] + rest;
    }
  }
}
