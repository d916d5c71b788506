/** Byte sequences held as a list of chunks, and what trimming the front of such a list does in
    queue_buf_trim_head (src/ayla/buffer.c). */
module Chunks {
  import opened Options

  function Flatten(cs: seq<seq<Byte>>): (s: seq<Byte>)
  {
    if cs == [] then [] else cs[0] + Flatten(cs[1..])
  }

  lemma {:induction false} FlattenAppend(a: seq<seq<Byte>>, b: seq<seq<Byte>>)
    ensures Flatten(a + b) == Flatten(a) + Flatten(b)
  {
    if a == [] {
      assert a + b == b;
    } else {
      FlattenAppend(a[1..], b);
      assert (a + b)[1..] == a[1..] + b;
      assert a[0] + (Flatten(a[1..]) + Flatten(b)) == a[0] + Flatten(a[1..]) + Flatten(b);
    }
  }

  lemma ConcatAssoc(a: seq<Byte>, b: seq<Byte>, c: seq<Byte>)
    ensures a + (b + c) == a + b + c
  {
  }

  lemma HeadAndTail(cs: seq<seq<Byte>>, k: nat)
    requires k < |cs|
    ensures cs[k..] == [cs[k]] + cs[k + 1..] && cs[k..][1..] == cs[k + 1..]
    ensures cs[k][0..] == cs[k] && cs[k][..|cs[k]|] == cs[k]
  {
  }

  lemma FlattenEnds(cs: seq<seq<Byte>>)
    ensures Flatten(cs[..0]) == [] && cs[..|cs|] == cs
    ensures |Flatten(cs)| > 0 ==> cs != []
    ensures cs != [] ==> Flatten(cs[..1]) == cs[0]
  {
    assert cs[..0] == [];
    if cs != [] {
      assert cs[..1] == [cs[0]];
      FlattenOne(cs[0]);
    }
  }

  lemma FlattenOne(c: seq<Byte>)
    ensures Flatten([c]) == c
  {
    assert [c][1..] == [];
  }

  lemma FlattenSplit(cs: seq<seq<Byte>>, i: nat)
    requires i <= |cs|
    ensures Flatten(cs) == Flatten(cs[..i]) + Flatten(cs[i..])
  {
    hide Flatten;
    assert cs == cs[..i] + cs[i..];
    FlattenAppend(cs[..i], cs[i..]);
  }

  lemma FlattenPrefix(cs: seq<seq<Byte>>, i: nat)
    requires i < |cs|
    ensures Flatten(cs[..i + 1]) == Flatten(cs[..i]) + cs[i]
  {
    hide Flatten;
    assert cs[..i + 1] == cs[..i] + [cs[i]];
    FlattenAppend(cs[..i], [cs[i]]);
    FlattenOne(cs[i]);
  }

  /** The bytes before, in and after chunk `i`. */
  lemma FlattenAt(cs: seq<seq<Byte>>, i: nat)
    requires i < |cs|
    ensures Flatten(cs) == Flatten(cs[..i]) + cs[i] + Flatten(cs[i + 1..])
    ensures Flatten(cs[..i + 1]) == Flatten(cs[..i]) + cs[i]
  {
    hide Flatten;
    FlattenPrefix(cs, i);
    FlattenSplit(cs, i + 1);
  }

  lemma DropInto(a: seq<Byte>, c: seq<Byte>, r: seq<Byte>, left: nat)
    requires left <= |c|
    ensures (a + c + r)[|a| + left..] == c[left..] + r
  {
  }

  /** The last `n` bytes. */
  function Suffix(s: seq<Byte>, n: nat): seq<Byte>
    requires n <= |s|
  {
    s[|s| - n..]
  }

  // ---------------------------------------------------------------- trimming the front

  /** The first chunk that is not wholly inside the first `cut` bytes. */
  function FirstKept(cs: seq<seq<Byte>>, cut: nat): (k: nat)
    requires cut < |Flatten(cs)|
    ensures k < |cs| && |Flatten(cs[..k])| <= cut < |Flatten(cs[..k])| + |cs[k]|
  {
    if cut < |cs[0]| then 0
    else
      var k := FirstKept(cs[1..], cut - |cs[0]|);
      assert cs[..k + 1] == [cs[0]] + cs[1..][..k];
      k + 1
  }

  lemma {:induction false} FirstKeptIsUnique(cs: seq<seq<Byte>>, cut: nat, k: nat)
    requires cut < |Flatten(cs)| && k < |cs| && |Flatten(cs[..k])| <= cut < |Flatten(cs[..k])| + |cs[k]|
    ensures k == FirstKept(cs, cut)
  {
    var f := FirstKept(cs, cut);
    if f < k {
      FlattenPrefixMonotone(cs, f + 1, k);
      FlattenAt(cs, f);
    } else if k < f {
      FlattenPrefixMonotone(cs, k + 1, f);
      FlattenAt(cs, k);
    }
  }

  lemma FirstKeptZero(cs: seq<seq<Byte>>, cut: nat)
    requires cut < |Flatten(cs)|
    ensures FirstKept(cs, cut) == 0 <==> cut < |cs[0]|
  {
  }

  lemma FlattenPrefixMonotone(cs: seq<seq<Byte>>, i: nat, j: nat)
    requires i <= j <= |cs|
    ensures |Flatten(cs[..i])| <= |Flatten(cs[..j])|
  {
    FlattenSplit(cs[..j], i);
    assert cs[..j][..i] == cs[..i];
  }

  /** The chunks queue_buf_trim_head leaves behind.  `fixedSize` is the capacity of the first
      segment; with pre-allocation a first segment that is trimmed away is kept, and refilled
      from the start of the next remaining one. */
  function TrimmedHead(cs: seq<seq<Byte>>, fixedSize: nat, preAlloc: bool, newLen: nat): seq<seq<Byte>>
    requires 0 < newLen < |Flatten(cs)|
  {
    var cut := |Flatten(cs)| - newLen;
    var k := FirstKept(cs, cut);
    var left := cut - |Flatten(cs[..k])|;
    if !preAlloc || k == 0 then
      [cs[k][left..]] + cs[k + 1..]
    else
      var moved := if |cs[k]| - left > fixedSize then fixedSize else |cs[k]| - left;
      if left + moved == |cs[k]| then [cs[k][..moved]] + cs[k + 1..]
      else [cs[k][..moved], cs[k][left + moved..]] + cs[k + 1..]
  }

  ghost predicate OnBoundary(cs: seq<seq<Byte>>, cut: nat)
  {
    exists k: nat :: k <= |cs| && |Flatten(cs[..k])| == cut
  }

  ghost predicate SameLayout(a: seq<seq<Byte>>, b: seq<seq<Byte>>)
  {
    |a| == |b| && forall i :: 0 <= i < |a| ==> |a[i]| == |b[i]|
  }

  /** The guard a caller can check: pre-allocation is off, the first segment is not trimmed away
      completely, or the cut falls between two segments. */
  ghost predicate SafeCut(cs: seq<seq<Byte>>, preAlloc: bool, cut: nat)
    requires cs != []
  {
    !preAlloc || cut < |cs[0]| || OnBoundary(cs, cut)
  }

  lemma BoundaryIsNothingLeft(cs: seq<seq<Byte>>, cut: nat)
    requires cut < |Flatten(cs)|
    ensures OnBoundary(cs, cut) <==> |Flatten(cs[..FirstKept(cs, cut)])| == cut
  {
    var f := FirstKept(cs, cut);
    if k: nat :| k <= |cs| && |Flatten(cs[..k])| == cut {
      FlattenAt(cs, f);
      if k <= f {
        FlattenPrefixMonotone(cs, k, f);
      } else {
        FlattenPrefixMonotone(cs, f + 1, k);
      }
    }
  }

  /** Where the wanted suffix starts. */
  lemma SuffixFromChunk(cs: seq<seq<Byte>>, newLen: nat, k: nat, left: nat)
    requires newLen <= |Flatten(cs)| && k < |cs| && left <= |cs[k]|
    requires |Flatten(cs)| - newLen == |Flatten(cs[..k])| + left
    ensures Suffix(Flatten(cs), newLen) == cs[k][left..] + Flatten(cs[k + 1..])
  {
    hide Flatten;
    FlattenAt(cs, k);
    DropInto(Flatten(cs[..k]), cs[k], Flatten(cs[k + 1..]), left);
  }

  lemma PlainCutKeepsSuffix(cs: seq<seq<Byte>>, fixedSize: nat, preAlloc: bool, newLen: nat)
    requires 0 < newLen < |Flatten(cs)|
    requires !preAlloc || FirstKept(cs, |Flatten(cs)| - newLen) == 0
    ensures Flatten(TrimmedHead(cs, fixedSize, preAlloc, newLen)) == Suffix(Flatten(cs), newLen)
  {
    hide Flatten, Suffix;
    var cut := |Flatten(cs)| - newLen;
    var k := FirstKept(cs, cut);
    var left := cut - |Flatten(cs[..k])|;
    SuffixFromChunk(cs, newLen, k, left);
    FlattenFirst(cs[k][left..], cs[k + 1..]);
  }

  lemma BoundaryCutKeepsSuffix(cs: seq<seq<Byte>>, fixedSize: nat, newLen: nat)
    requires 0 < newLen < |Flatten(cs)|
    requires var cut := |Flatten(cs)| - newLen;
             FirstKept(cs, cut) > 0 && |Flatten(cs[..FirstKept(cs, cut)])| == cut
    ensures Flatten(TrimmedHead(cs, fixedSize, true, newLen)) == Suffix(Flatten(cs), newLen)
  {
    hide Flatten, Suffix;
    var k := FirstKept(cs, |Flatten(cs)| - newLen);
    var c, rest := cs[k], cs[k + 1..];
    SuffixFromChunk(cs, newLen, k, 0);
    assert c[0..] == c;
    RejoinChunk(c, rest, if |c| > fixedSize then fixedSize else |c|);
  }

  /** With a safe cut exactly the wanted suffix is kept. */
  lemma SafeCutKeepsSuffix(cs: seq<seq<Byte>>, fixedSize: nat, preAlloc: bool, newLen: nat)
    requires 0 < newLen < |Flatten(cs)|
    requires SafeCut(cs, preAlloc, |Flatten(cs)| - newLen)
    ensures Flatten(TrimmedHead(cs, fixedSize, preAlloc, newLen)) == Suffix(Flatten(cs), newLen)
  {
    hide Flatten, TrimmedHead, OnBoundary;
    var cut := |Flatten(cs)| - newLen;
    BoundaryIsNothingLeft(cs, cut);
    if preAlloc && FirstKept(cs, cut) > 0 {
      BoundaryCutKeepsSuffix(cs, fixedSize, newLen);
    } else {
      PlainCutKeepsSuffix(cs, fixedSize, preAlloc, newLen);
    }
  }

  lemma RejoinChunk(c: seq<Byte>, rest: seq<seq<Byte>>, moved: nat)
    requires moved <= |c|
    ensures Flatten([c[..moved], c[moved..]] + rest) == c + Flatten(rest)
    ensures moved == |c| ==> Flatten([c[..moved]] + rest) == c + Flatten(rest)
  {
    hide Flatten;
    assert [c[..moved], c[moved..]] + rest == [c[..moved]] + ([c[moved..]] + rest);
    FlattenFirst(c[..moved], [c[moved..]] + rest);
    FlattenFirst(c[moved..], rest);
    FlattenFirst(c[..moved], rest);
    assert c[..moved] + c[moved..] == c;
  }

  lemma FlattenFirst(c: seq<Byte>, rest: seq<seq<Byte>>)
    ensures Flatten([c] + rest) == c + Flatten(rest)
  {
    assert ([c] + rest)[1..] == rest;
  }

  /** Zeroes everywhere but a one in byte `at` of chunk `k`: data that shows a misplaced copy. */
  function Marked(cs: seq<seq<Byte>>, k: nat, at: nat): (ds: seq<seq<Byte>>)
    ensures SameLayout(cs, ds)
  {
    seq(|cs|, (i: nat) requires i < |cs| =>
      seq(|cs[i]|, (j: nat) => if i == k && j == at then 1 else 0))
  }

  lemma {:induction false} SameLayoutSameLengths(a: seq<seq<Byte>>, b: seq<seq<Byte>>)
    requires SameLayout(a, b)
    ensures |Flatten(a)| == |Flatten(b)|
  {
    if a != [] {
      SameLayoutSameLengths(a[1..], b[1..]);
    }
  }

  lemma SameLayoutSameCut(a: seq<seq<Byte>>, b: seq<seq<Byte>>, cut: nat)
    requires SameLayout(a, b) && cut < |Flatten(a)| && |Flatten(a)| == |Flatten(b)|
    ensures FirstKept(a, cut) == FirstKept(b, cut)
    ensures |Flatten(a[..FirstKept(a, cut)])| == |Flatten(b[..FirstKept(a, cut)])|
  {
    var k := FirstKept(a, cut);
    SameLayoutSameLengths(a[..k], b[..k]);
    FirstKeptIsUnique(b, cut, k);
  }

  /** With any other cut there is data of the same layout that is not kept right. */
  lemma UnsafeCutGarbles(cs: seq<seq<Byte>>, fixedSize: nat, newLen: nat) returns (ds: seq<seq<Byte>>)
    requires 0 < newLen < |Flatten(cs)| && fixedSize > 0
    requires !SafeCut(cs, true, |Flatten(cs)| - newLen)
    ensures SameLayout(cs, ds) && |Flatten(ds)| == |Flatten(cs)|
    ensures Flatten(TrimmedHead(ds, fixedSize, true, newLen)) != Suffix(Flatten(ds), newLen)
  {
    var cut := |Flatten(cs)| - newLen;
    var k := FirstKept(cs, cut);
    var left := cut - |Flatten(cs[..k])|;
    BoundaryIsNothingLeft(cs, cut);
    ds := Marked(cs, k, left);
    SameLayoutSameLengths(cs, ds);
    SameLayoutSameCut(cs, ds, cut);
    FlattenAt(ds, k);
    assert Suffix(Flatten(ds), newLen)[0] == ds[k][left] == 1;
    var trimmed := TrimmedHead(ds, fixedSize, true, newLen);
    assert k > 0;
    assert trimmed[0][0] == ds[k][0] == 0;
    FlattenFirst(trimmed[0], trimmed[1..]);
    assert trimmed == [trimmed[0]] + trimmed[1..];
    assert Flatten(trimmed)[0] == 0;
  }

  /** Whatever it copies, the operation leaves `newLen` bytes. */
  lemma TrimmedHeadLength(cs: seq<seq<Byte>>, fixedSize: nat, preAlloc: bool, newLen: nat)
    requires 0 < newLen < |Flatten(cs)|
    ensures |Flatten(TrimmedHead(cs, fixedSize, preAlloc, newLen))| == newLen
  {
    hide Flatten;
    var cut := |Flatten(cs)| - newLen;
    var k := FirstKept(cs, cut);
    var left := cut - |Flatten(cs[..k])|;
    FlattenAt(cs, k);
    var c, rest := cs[k], cs[k + 1..];
    FlattenFirst(c[left..], rest);
    if preAlloc && k > 0 {
      var moved := if |c| - left > fixedSize then fixedSize else |c| - left;
      FlattenFirst(c[..moved], rest);
      FlattenFirst(c[left + moved..], rest);
      FlattenFirst(c[..moved], [c[left + moved..]] + rest);
      assert [c[..moved], c[left + moved..]] + rest == [c[..moved]] + ([c[left + moved..]] + rest);
    }
  }

  ghost predicate KeepsSuffix(cs: seq<seq<Byte>>, fixedSize: nat, preAlloc: bool, newLen: nat)
    requires 0 < newLen < |Flatten(cs)|
  {
    Flatten(TrimmedHead(cs, fixedSize, preAlloc, newLen)) == Suffix(Flatten(cs), newLen)
  }

  lemma SameLayoutSameSafety(a: seq<seq<Byte>>, b: seq<seq<Byte>>, preAlloc: bool, cut: nat)
    requires SameLayout(a, b) && cut < |Flatten(a)| && |Flatten(a)| == |Flatten(b)| && a != []
    requires SafeCut(a, preAlloc, cut)
    ensures SafeCut(b, preAlloc, cut)
  {
    hide Flatten;
    SameLayoutSameCut(a, b, cut);
    BoundaryIsNothingLeft(a, cut);
    BoundaryIsNothingLeft(b, cut);
  }

  /** Main result: trimming the front keeps the wanted suffix, whatever the data, if and only if
      the cut is safe for the layout. */
  lemma TrimHeadIsExact(cs: seq<seq<Byte>>, fixedSize: nat, preAlloc: bool, newLen: nat)
    requires 0 < newLen < |Flatten(cs)| && fixedSize > 0
    ensures cs != []
    ensures SafeCut(cs, preAlloc, |Flatten(cs)| - newLen) <==>
            forall ds :: SameLayout(cs, ds) && |Flatten(ds)| == |Flatten(cs)| ==>
              KeepsSuffix(ds, fixedSize, preAlloc, newLen)
  {
    assert cs != [];
    hide Flatten, SameLayout, TrimmedHead, SafeCut;
    var cut := |Flatten(cs)| - newLen;
    if SafeCut(cs, preAlloc, cut) {
      forall ds | SameLayout(cs, ds) && |Flatten(ds)| == |Flatten(cs)|
        ensures KeepsSuffix(ds, fixedSize, preAlloc, newLen)
      {
        SameLayoutSameSafety(cs, ds, preAlloc, cut);
        SafeCutKeepsSuffix(ds, fixedSize, preAlloc, newLen);
      }
    } else {
      OnlyPreAllocIsUnsafe(cs, preAlloc, cut);
      var ds := UnsafeCutGarbles(cs, fixedSize, newLen);
      assert !KeepsSuffix(ds, fixedSize, true, newLen);
    }
  }

  /** Two full segments of four bytes, trimmed to the last two with pre-allocation: what is left are the
      first two bytes of the second segment. */
  lemma TrimHeadGarbles()
    ensures var cs: seq<seq<Byte>> := [[1, 2, 3, 4], [5, 6, 7, 8]];
            && |Flatten(cs)| == 8 && Suffix(Flatten(cs), 2) == [7, 8]
            && TrimmedHead(cs, 4, true, 2) == [[5, 6]]
            && !SafeCut(cs, true, 6)
  {
    var cs: seq<seq<Byte>> := [[1, 2, 3, 4], [5, 6, 7, 8]];
    assert cs[1..] == [[5, 6, 7, 8]] && cs[1..][1..] == [];
    assert Flatten(cs[1..]) == [5, 6, 7, 8] + [] == [5, 6, 7, 8];
    assert Flatten(cs) == [1, 2, 3, 4, 5, 6, 7, 8];
    assert cs[..1] == [cs[0]] && [cs[0]][1..] == [];
    FlattenOne(cs[0]);
    FirstKeptIsUnique(cs, 6, 1);
    BoundaryIsNothingLeft(cs, 6);
    assert |Flatten(cs[..1])| == 4;
    assert cs[2..] == [] && cs[1][..2] == [5, 6];
    assert TrimmedHead(cs, 4, true, 2) == [cs[1][..2]] + cs[2..];
  }

  lemma OnlyPreAllocIsUnsafe(cs: seq<seq<Byte>>, preAlloc: bool, cut: nat)
    requires cs != [] && !SafeCut(cs, preAlloc, cut)
    ensures preAlloc
  {
  }
}
