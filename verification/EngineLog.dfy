/**
 What the newer engine's index and log mean together, and what compaction makes of them.

 A log is a sequence of entries; `live` says for every bound key which entry is its current record.
 */
module EngineLog {
  import opened Bytes
  import opened Parts
  import opened Space
  import opened EngineIndex

  type Live = map<Key, nat>

  function Encoded(es: seq<Entry>): (ps: seq<seq<byte>>)
    ensures |ps| == |es|
  {
    seq(|es|, i requires 0 <= i < |es| => Encode(es[i]))
  }

  /** Where entry `i` of a log that begins at `start` lies. */
  function ExtentOf(start: nat, es: seq<Entry>, i: nat): Extent
    requires i < |es|
  {
    Extent(start + Start(Encoded(es), i), |Encode(es[i])|)
  }

  ghost predicate GoodEntry(keyLen: nat, e: Entry) {
    |e.key| == keyLen && CalLength(keyLen, |e.value|) <= SPACE_BUFFER_SIZE
  }

  /** Every record's key has a slot in a table of `n` heads. */
  ghost predicate AllInTable(es: seq<Entry>, n: nat) {
    forall i | 0 <= i < |es| :: InTable(KeyOf(es[i].key), n)
  }

  lemma OneMoreInTable(es: seq<Entry>, e: Entry, n: nat)
    requires AllInTable(es, n) && InTable(KeyOf(e.key), n)
    ensures AllInTable(es + [e], n)
  {
  }

  /** From `start` on the file is exactly the entries, without a gap. */
  ghost predicate IsLog(file: seq<byte>, start: nat, keyLen: nat, es: seq<Entry>) {
    && start <= |file| && file[start..] == Flatten(Encoded(es))
    && forall i | 0 <= i < |es| :: GoodEntry(keyLen, es[i])
  }

  /** Every index entry delimits one record with its key. */
  ghost predicate Points(contents: map<Key, Extent>, start: nat, es: seq<Entry>, live: Live) {
    && live.Keys == contents.Keys
    && forall k | k in live :: live[k] < |es| && KeyOf(es[live[k]].key) == k && contents[k] == ExtentOf(start, es, live[k])
  }

  /** The map the engine stands for. */
  ghost function Model(es: seq<Entry>, live: Live): map<Key, seq<byte>> {
    map k | k in live && live[k] < |es| :: es[live[k]].value
  }

  lemma EntryInLog(file: seq<byte>, start: nat, keyLen: nat, es: seq<Entry>, i: nat)
    requires IsLog(file, start, keyLen, es) && i < |es|
    ensures EntryAt(file, ExtentOf(start, es, i).offset, es[i])
  {
    var ps, log := Encoded(es), file[start..];
    PartAt(ps, i);
    var o, n := Start(ps, i), |ps[i]|;
    PartOf(file, start, log, o, o + n);
  }

  lemma {:induction false} StartsGrow(es: seq<Entry>, i: nat, j: nat)
    requires i < j <= |es|
    ensures Start(Encoded(es), i) + |Encode(es[i])| <= Start(Encoded(es), j)
  {
    if i < j - 1 { StartsGrow(es, i, j - 1); }
  }

  /** Two keys never share a byte of the log, and every extent ends inside it. */
  lemma ExtentsDisjoint(file: seq<byte>, contents: map<Key, Extent>, start: nat, keyLen: nat, es: seq<Entry>, live: Live,
                        a: Key, b: Key)
    requires IsLog(file, start, keyLen, es) && Points(contents, start, es, live)
    requires a in contents && b in contents && a != b
    ensures var x, y := contents[a], contents[b];
      && (x.offset + x.length <= y.offset || y.offset + y.length <= x.offset)
      && start <= x.offset && x.offset + x.length <= |file|
  {
    hide Encode, Flatten, Start, GoodEntry;
    var i, j := live[a], live[b];
    if i < j { StartsGrow(es, i, j); } else { StartsGrow(es, j, i); }
    EntryInLog(file, start, keyLen, es, i);
  }

  /** No two extents of an index share a byte, and none leaves the file. */
  ghost predicate ExtentsApart(contents: map<Key, Extent>, start: nat, end: nat) {
    && (forall a | a in contents :: start <= contents[a].offset && contents[a].offset + contents[a].length <= end)
    && forall a, b | a in contents && b in contents && a != b ::
      contents[a].offset + contents[a].length <= contents[b].offset || contents[b].offset + contents[b].length <= contents[a].offset
  }

  lemma AllApart(file: seq<byte>, contents: map<Key, Extent>, start: nat, keyLen: nat, es: seq<Entry>, live: Live)
    requires IsLog(file, start, keyLen, es) && Points(contents, start, es, live)
    ensures ExtentsApart(contents, start, |file|)
  {
    hide IsLog, ExtentOf, EntryAt;
    forall a | a in contents ensures start <= contents[a].offset && contents[a].offset + contents[a].length <= |file| {
      ExtentInside(file, contents, start, keyLen, es, live, a);
    }
    forall a, b | a in contents && b in contents && a != b
      ensures contents[a].offset + contents[a].length <= contents[b].offset
        || contents[b].offset + contents[b].length <= contents[a].offset
    {
      ExtentsDisjoint(file, contents, start, keyLen, es, live, a, b);
    }
  }

  lemma ExtentInside(file: seq<byte>, contents: map<Key, Extent>, start: nat, keyLen: nat, es: seq<Entry>, live: Live, a: Key)
    requires IsLog(file, start, keyLen, es) && Points(contents, start, es, live) && a in contents
    ensures start <= contents[a].offset && contents[a].offset + contents[a].length <= |file|
  {
    hide IsLog, Encode, Flatten, Start;
    EntryInLog(file, start, keyLen, es, live[a]);
  }

  lemma EncodedAppend(es: seq<Entry>, e: Entry)
    ensures Encoded(es + [e]) == Encoded(es) + [Encode(e)]
  {
  }

  lemma AppendEntry(file: seq<byte>, start: nat, keyLen: nat, es: seq<Entry>, e: Entry)
    requires IsLog(file, start, keyLen, es) && GoodEntry(keyLen, e)
    ensures var file' := WriteAt(file, |file|, Encode(e));
      && file' == file + Encode(e) && IsLog(file', start, keyLen, es + [e])
    ensures ExtentOf(start, es + [e], |es|) == Extent(|file|, |Encode(e)|)
    ensures forall i | 0 <= i < |es| :: ExtentOf(start, es + [e], i) == ExtentOf(start, es, i)
  {
    hide Encode, Flatten, GoodEntry, Encoded;
    EncodedAppend(es, e);
    FlattenAppend(Encoded(es), Encode(e));
    FlattenLength(Encoded(es));
    assert (file + Encode(e))[start..] == file[start..] + Encode(e);
  }

  /** A record at the end of the log becomes the current record of its key. */
  lemma PointsAfterPut(contents: map<Key, Extent>, file: seq<byte>, start: nat, keyLen: nat, es: seq<Entry>, live: Live,
                       e: Entry, gone: set<Key>)
    requires IsLog(file, start, keyLen, es) && Points(contents, start, es, live) && GoodEntry(keyLen, e)
    requires KeyOf(e.key) !in gone
    ensures var k := KeyOf(e.key);
      var live' := live[k := |es|] - gone;
      && Points(contents[k := Extent(|file|, |Encode(e)|)] - gone, start, es + [e], live')
      && Model(es + [e], live') == Model(es, live)[k := e.value] - gone
  {
    hide ExtentOf, IsLog, GoodEntry, KeyOf, Encode;
    AppendEntry(file, start, keyLen, es, e);
    var k, es' := KeyOf(e.key), es + [e];
    var live' := live[k := |es|] - gone;
    var contents' := contents[k := Extent(|file|, |Encode(e)|)] - gone;
    forall x | x in live'
      ensures live'[x] < |es'| && KeyOf(es'[live'[x]].key) == x && contents'[x] == ExtentOf(start, es', live'[x])
    {
      if x != k { assert es'[live[x]] == es[live[x]]; }
    }
    ModelAfterPut(es, live, e, gone, k);
  }

  lemma ModelAfterPut(es: seq<Entry>, live: Live, e: Entry, gone: set<Key>, k: Key)
    requires k !in gone && forall x | x in live :: live[x] < |es|
    ensures Model(es + [e], live[k := |es|] - gone) == Model(es, live)[k := e.value] - gone
  {
  }

  /** The keys bound in the index are the keys of the model. */
  lemma ModelKeys(contents: map<Key, Extent>, start: nat, es: seq<Entry>, live: Live, k: Key)
    requires Points(contents, start, es, live)
    ensures k in contents <==> k in Model(es, live)
  {
  }

  /** A scan that has passed `i` records stands at the next one, or at the end of the file when there is none. */
  lemma ScanPosition(file: seq<byte>, start: nat, keyLen: nat, es: seq<Entry>, i: nat)
    requires IsLog(file, start, keyLen, es) && i <= |es|
    ensures var off := start + Start(Encoded(es), i);
      && (off < |file| <==> i < |es|)
      && (i < |es| ==>
            && GoodEntry(keyLen, es[i]) && EntryAt(file, off, es[i])
            && start + Start(Encoded(es), i + 1) == off + CalLength(keyLen, |es[i].value|)
            && ExtentOf(start, es, i) == Extent(off, CalLength(keyLen, |es[i].value|)))
  {
    hide Encode, Flatten, EntryAt;
    FlattenLength(Encoded(es));
    if i < |es| {
      EntryInLog(file, start, keyLen, es, i);
      StartsGrow(es, i, |es|);
    }
  }

  /** Behind the head of a bound key's extent the file holds its value. */
  lemma ValueAt(contents: map<Key, Extent>, file: seq<byte>, start: nat, keyLen: nat, es: seq<Entry>, live: Live, k: Key)
    requires IsLog(file, start, keyLen, es) && Points(contents, start, es, live) && k in contents
    ensures k in Model(es, live)
    ensures var x := contents[k];
      var head := HeadLength(keyLen);
      && head <= x.length <= SPACE_BUFFER_SIZE && x.offset + x.length <= |file|
      && file[x.offset + head..x.offset + x.length] == Model(es, live)[k]
  {
    hide IsLog, Encode, Flatten, ExtentOf, Start, Encoded, KeyOf, SignedVal, Le;
    var e, x := es[live[k]], contents[k];
    var bs, head := Encode(e), HeadLength(keyLen);
    ScanPosition(file, start, keyLen, es, live[k]);
    EntryParts(e);
    PartOf(file, x.offset, bs, head, |bs|);
    assert bs[head..|bs|] == bs[head..];
  }

  // ----- compaction

  /** Entry `i` is the current record of its key. */
  predicate Alive(es: seq<Entry>, live: Live, i: nat)
    requires i < |es|
  {
    KeyOf(es[i].key) in live && live[KeyOf(es[i].key)] == i
  }

  /** The live ones of the first `n` entries, in order, with fresh ids. */
  function Survivors(es: seq<Entry>, live: Live, n: nat): (out: seq<Entry>)
    requires n <= |es|
    ensures |out| <= n
  {
    if n == 0 then []
    else
      var out := Survivors(es, live, n - 1);
      if Alive(es, live, n - 1) then out + [Entry(|out|, es[n - 1].key, es[n - 1].value)] else out
  }

  /** Where the current records of the first `n` entries have gone. */
  function Moved(es: seq<Entry>, live: Live, n: nat): Live
    requires n <= |es|
  {
    map k | k in live && live[k] < n :: |Survivors(es, live, live[k])|
  }

  lemma {:induction false} SurvivorsGrow(es: seq<Entry>, live: Live, m: nat, n: nat)
    requires m <= n <= |es|
    ensures Survivors(es, live, m) <= Survivors(es, live, n)
  {
    if m < n { SurvivorsGrow(es, live, m, n - 1); }
  }

  /** A live entry survives, with its key and value, at the place Moved gives it. */
  lemma SurvivorOf(es: seq<Entry>, live: Live, i: nat, n: nat)
    requires i < n <= |es| && Alive(es, live, i)
    ensures var j := |Survivors(es, live, i)|;
      var out := Survivors(es, live, n);
      j < |out| && out[j] == Entry(j, es[i].key, es[i].value)
  {
    SurvivorsGrow(es, live, i + 1, n);
  }

  /** Survivors keep the order they had: live entries before and after one another stay so. */
  lemma SurvivorsInOrder(es: seq<Entry>, live: Live, i: nat, j: nat)
    requires i < j < |es| && Alive(es, live, i) && Alive(es, live, j)
    ensures var out := Survivors(es, live, |es|);
      var a, b := |Survivors(es, live, i)|, |Survivors(es, live, j)|;
      && a < b < |out|
      && out[a] == Entry(a, es[i].key, es[i].value) && out[b] == Entry(b, es[j].key, es[j].value)
  {
    hide Survivors, Alive;
    SurvivorOf(es, live, i, |es|);
    SurvivorOf(es, live, j, |es|);
    SurvivorOf(es, live, i, j);
  }

  /** Nothing else survives. */
  lemma {:induction false} SurvivorComesFrom(es: seq<Entry>, live: Live, n: nat, a: nat) returns (i: nat)
    requires n <= |es| && a < |Survivors(es, live, n)|
    ensures i < n && Alive(es, live, i) && a == |Survivors(es, live, i)|
    ensures Survivors(es, live, n)[a] == Entry(a, es[i].key, es[i].value)
  {
    if a < |Survivors(es, live, n - 1)| {
      i := SurvivorComesFrom(es, live, n - 1, a);
    } else {
      i := n - 1;
    }
  }

  /** Every survivor is the current record of its key in the new log. */
  lemma {:induction false} SurvivorsAreLive(es: seq<Entry>, live: Live, n: nat, j: nat)
    requires n <= |es| && j < |Survivors(es, live, n)|
    ensures Alive(Survivors(es, live, n), Moved(es, live, n), j)
  {
    var out := Survivors(es, live, n - 1);
    if j < |out| {
      SurvivorsAreLive(es, live, n - 1, j);
    }
  }

  lemma {:induction false} SurvivorsInTable(es: seq<Entry>, live: Live, n: nat, heads: nat)
    requires n <= |es| && AllInTable(es, heads)
    ensures AllInTable(Survivors(es, live, n), heads)
  {
    if n > 0 { SurvivorsInTable(es, live, n - 1, heads); }
  }

  /** Compaction keeps the meaning: the survivors stand for the same map. */
  lemma SameModel(contents: map<Key, Extent>, start: nat, es: seq<Entry>, live: Live)
    requires Points(contents, start, es, live)
    ensures Model(Survivors(es, live, |es|), Moved(es, live, |es|)) == Model(es, live)
  {
    forall k | k in live
      ensures var j := Moved(es, live, |es|)[k];
        j < |Survivors(es, live, |es|)| && Survivors(es, live, |es|)[j].value == es[live[k]].value
    {
      SurvivorOf(es, live, live[k], |es|);
    }
  }

  /** The bytes of the live ones among the first `n` entries. */
  function LiveBytes(es: seq<Entry>, live: Live, n: nat): nat
    requires n <= |es|
  {
    if n == 0 then 0 else LiveBytes(es, live, n - 1) + if Alive(es, live, n - 1) then |Encode(es[n - 1])| else 0
  }

  /** The new log is as long as the live records together. */
  lemma {:induction false} SurvivorBytes(es: seq<Entry>, live: Live, n: nat)
    requires n <= |es|
    ensures |Flatten(Encoded(Survivors(es, live, n)))| == LiveBytes(es, live, n)
  {
    if n > 0 {
      SurvivorBytes(es, live, n - 1);
      var out := Survivors(es, live, n - 1);
      if Alive(es, live, n - 1) {
        var e := Entry(|out|, es[n - 1].key, es[n - 1].value);
        EncodedAppend(out, e);
        FlattenAppend(Encoded(out), Encode(e));
      }
    }
  }

  /** The index points at an entry exactly when offset and length match: lengths are positive, so starts differ. */
  lemma AliveByExtent(contents: map<Key, Extent>, start: nat, es: seq<Entry>, live: Live, i: nat)
    requires Points(contents, start, es, live) && i < |es|
    ensures Alive(es, live, i) <==> KeyOf(es[i].key) in contents && contents[KeyOf(es[i].key)] == ExtentOf(start, es, i)
  {
    var k := KeyOf(es[i].key);
    if k in contents && live[k] != i {
      if live[k] < i { StartsGrow(es, live[k], i); } else { StartsGrow(es, i, live[k]); }
    }
  }

  /** Only the key of an entry can have that entry as its current record. */
  lemma OnlyItsKey(contents: map<Key, Extent>, start: nat, es: seq<Entry>, live: Live, i: nat, x: Key)
    requires Points(contents, start, es, live) && i < |es| && x in live && live[x] == i
    ensures x == KeyOf(es[i].key) && Alive(es, live, i)
  {
  }

  /** Scanning past a dead entry moves nothing. */
  lemma MovedSkip(contents: map<Key, Extent>, start: nat, es: seq<Entry>, live: Live, i: nat)
    requires Points(contents, start, es, live) && i < |es| && !Alive(es, live, i)
    ensures Moved(es, live, i + 1) == Moved(es, live, i) && Survivors(es, live, i + 1) == Survivors(es, live, i)
  {
    hide Points, Alive, KeyOf;
    forall x | x in live ensures live[x] != i {
      if live[x] == i { OnlyItsKey(contents, start, es, live, i, x); }
    }
  }

  /** Scanning a live entry adds its key, which no earlier entry had brought over. */
  lemma MovedStep(contents: map<Key, Extent>, start: nat, es: seq<Entry>, live: Live, i: nat)
    requires Points(contents, start, es, live) && i < |es| && Alive(es, live, i)
    ensures var k := KeyOf(es[i].key);
      var out := Survivors(es, live, i);
      && k !in Moved(es, live, i)
      && Moved(es, live, i + 1) == Moved(es, live, i)[k := |out|]
      && Survivors(es, live, i + 1) == out + [Entry(|out|, es[i].key, es[i].value)]
      && |Moved(es, live, i)| < |live|
  {
    hide Points, KeyOf;
    var k := KeyOf(es[i].key);
    var before := Moved(es, live, i);
    forall x | x in live ensures live[x] == i <==> x == k {
      if live[x] == i { OnlyItsKey(contents, start, es, live, i, x); }
    }
    assert before.Keys <= live.Keys - {k};
    SmallerSet(before.Keys, live.Keys - {k});
    assert |before| == |before.Keys| && |live| == |live.Keys|;
  }

  lemma KeysOfLive(contents: map<Key, Extent>, start: nat, es: seq<Entry>, live: Live, k: Key)
    requires Points(contents, start, es, live)
    ensures k in contents <==> k in live
    ensures |contents| == |live|
  {
    assert |contents| == |contents.Keys| && |live| == |live.Keys|;
  }

  /** One live record copied: the destination log and index take it up. */
  lemma CopyStep(contents: map<Key, Extent>, start: nat, es: seq<Entry>, live: Live, i: nat, keyLen: nat,
                 destFile: seq<byte>, dest: map<Key, Extent>)
    requires Points(contents, start, es, live) && i < |es| && Alive(es, live, i) && GoodEntry(keyLen, es[i])
    requires IsLog(destFile, start, keyLen, Survivors(es, live, i))
    requires Points(dest, start, Survivors(es, live, i), Moved(es, live, i))
    ensures var k := KeyOf(es[i].key);
      var e := Entry(|Survivors(es, live, i)|, es[i].key, es[i].value);
      && k !in dest && |dest| < |contents| && |Survivors(es, live, i + 1)| == |Survivors(es, live, i)| + 1
      && IsLog(destFile + Encode(e), start, keyLen, Survivors(es, live, i + 1))
      && WriteAt(destFile, |destFile|, Encode(e)) == destFile + Encode(e)
      && Points(dest[k := Extent(|destFile|, |Encode(e)|)], start, Survivors(es, live, i + 1), Moved(es, live, i + 1))
  {
    hide Points, IsLog, Alive, Survivors, Moved, Encode, KeyOf, ExtentOf;
    var k, out := KeyOf(es[i].key), Survivors(es, live, i);
    var e := Entry(|out|, es[i].key, es[i].value);
    MovedStep(contents, start, es, live, i);
    KeysOfLive(contents, start, es, live, k);
    KeysOfLive(dest, start, out, Moved(es, live, i), k);
    AppendEntry(destFile, start, keyLen, out, e);
    PointsAfterPut(dest, destFile, start, keyLen, out, Moved(es, live, i), e, {});
    assert Moved(es, live, i)[k := |out|] - {} == Moved(es, live, i)[k := |out|];
    assert dest[k := Extent(|destFile|, |Encode(e)|)] - {} == dest[k := Extent(|destFile|, |Encode(e)|)];
  }

  lemma {:induction false} SmallerSet(a: set<Key>, b: set<Key>)
    requires a <= b
    ensures |a| <= |b|
  {
    if a != {} {
      var x :| x in a;
      SmallerSet(a - {x}, b - {x});
    }
  }
}
