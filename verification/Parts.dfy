/** Files built from parts laid end to end: where each part sits, and what overwriting one does. */
module Parts {
  import opened Bytes

  function Flatten(parts: seq<seq<byte>>): seq<byte> {
    if parts == [] then [] else Flatten(parts[..|parts| - 1]) + parts[|parts| - 1]
  }

  /** Where part `i` starts; `Start(parts, |parts|)` is the total length. */
  function Start(parts: seq<seq<byte>>, i: nat): nat
    requires i <= |parts|
  {
    if i == 0 then 0 else Start(parts, i - 1) + |parts[i - 1]|
  }

  lemma FirstStart(parts: seq<seq<byte>>)
    ensures Start(parts, 0) == 0
  {
  }

  lemma {:induction false} StartOfPrefix(parts: seq<seq<byte>>, n: nat, i: nat)
    requires i <= n <= |parts|
    ensures Start(parts[..n], i) == Start(parts, i)
  {
    if i > 0 { StartOfPrefix(parts, n, i - 1); }
  }

  lemma {:induction false} FlattenLength(parts: seq<seq<byte>>)
    ensures |Flatten(parts)| == Start(parts, |parts|)
  {
    if parts != [] {
      var n := |parts| - 1;
      FlattenLength(parts[..n]);
      StartOfPrefix(parts, n, n);
    }
  }

  lemma {:induction false} StartsAscend(parts: seq<seq<byte>>, i: nat, j: nat)
    requires i <= j <= |parts|
    ensures Start(parts, i) <= Start(parts, j)
  {
    if i < j { StartsAscend(parts, i, j - 1); }
  }

  /** Part `i` lies intact between its start and the next. */
  lemma {:induction false} PartAt(parts: seq<seq<byte>>, i: nat)
    requires i < |parts|
    ensures Start(parts, i) + |parts[i]| <= |Flatten(parts)|
    ensures Flatten(parts)[Start(parts, i)..Start(parts, i) + |parts[i]|] == parts[i]
  {
    var n := |parts| - 1;
    FlattenLength(parts[..n]);
    StartOfPrefix(parts, n, i);
    if i < n { PartAt(parts[..n], i); }
  }

  lemma FlattenAppend(parts: seq<seq<byte>>, part: seq<byte>)
    ensures Flatten(parts + [part]) == Flatten(parts) + part
    ensures forall i: nat | i <= |parts| :: Start(parts + [part], i) == Start(parts, i)
  {
    var all := parts + [part];
    assert all[..|parts|] == parts;
    forall i: nat | i <= |parts| ensures Start(all, i) == Start(parts, i) { StartOfPrefix(all, |parts|, i); }
  }

  lemma WriteInside(a: seq<byte>, was: seq<byte>, tail: seq<byte>, part: seq<byte>)
    requires |part| == |was|
    ensures WriteAt(a + was + tail, |a|, part) == a + part + tail
  {
    var file := a + was + tail;
    assert file[..|a|] == a && file[|a| + |part|..] == tail;
    if part == [] { assert file == a + part + tail; }
  }

  /** Overwriting part `i` in place with a part of the same length replaces it and nothing else. */
  lemma {:induction false} OverwritePart(parts: seq<seq<byte>>, i: nat, part: seq<byte>, tail: seq<byte>)
    requires i < |parts| && |part| == |parts[i]|
    ensures WriteAt(Flatten(parts) + tail, Start(parts, i), part) == Flatten(parts[i := part]) + tail
  {
    hide WriteAt;
    var n := |parts| - 1;
    var front := parts[..n];
    StartOfPrefix(parts, n, i);
    if i < n {
      OverwritePart(front, i, part, parts[n] + tail);
      assert parts[i := part][..n] == front[i := part];
      assert Flatten(parts) + tail == Flatten(front) + (parts[n] + tail);
      assert Flatten(parts[i := part]) + tail == Flatten(front[i := part]) + (parts[n] + tail);
    } else {
      FlattenLength(front);
      assert parts[i := part][..n] == front;
      WriteInside(Flatten(front), parts[n], tail, part);
    }
  }

  lemma {:induction false} StartsAlike(a: seq<seq<byte>>, b: seq<seq<byte>>, i: nat)
    requires |a| == |b| && i <= |a| && forall j | 0 <= j < |a| :: |a[j]| == |b[j]|
    ensures Start(a, i) == Start(b, i)
  {
    if i > 0 { StartsAlike(a, b, i - 1); }
  }
}
