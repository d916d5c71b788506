/** The segmented byte queue of src/ayla/buffer.c: a singly linked list of partly filled segments
    that behaves as one byte sequence. */
module QueueBuffers {
  import opened Options
  import opened Chunks

  /** What is left of the first segment once it is emptied. */
  const EMPTIED: seq<seq<Byte>> := [[]]

  /** struct queue_buf_data; the size of a segment is the length of its array. */
  class Segment {
    const buf: array<Byte>
    var next: Segment?
    var len: nat

    /** queue_buf_data_alloc. */
    constructor (size: nat)
      ensures fresh(buf) && buf.Length == size && next == null && len == 0
    {
      buf := new Byte[size](_ => 0);
      next, len := null, 0;
    }
  }

  /** memcpy and memmove: `n` bytes, the ranges may overlap. */
  method MoveBytes(dst: array<Byte>, to: nat, src: array<Byte>, from: nat, n: nat)
    requires to + n <= dst.Length && from + n <= src.Length
    modifies dst
    ensures dst[..] == old(dst[..to]) + old(src[from..from + n]) + old(dst[to + n..])
  {
    forall i | 0 <= i < n {
      dst[to + i] := src[from + i];
    }
  }

  /** Distinct segments, linked in this order, that hold these chunks. */
  ghost predicate IsSpine(spine: seq<Segment>, chunks: seq<seq<Byte>>, repr: set<object>)
    reads repr
  {
    && |chunks| == |spine|
    && (forall i :: 0 <= i < |spine| ==> spine[i] in repr && spine[i].buf in repr)
    && (forall i, j :: 0 <= i < j < |spine| ==> spine[i] != spine[j] && spine[i].buf != spine[j].buf)
    && (spine != [] ==> spine[|spine| - 1].next == null)
    && (forall i :: 0 <= i < |spine| - 1 ==> spine[i].next == spine[i + 1])
    && (forall i :: 0 <= i < |spine| ==> 0 < spine[i].buf.Length && spine[i].len <= spine[i].buf.Length)
    && (forall i :: 0 <= i < |spine| ==> chunks[i] == spine[i].buf[..spine[i].len])
  }

  /** Hang one list behind another. */
  method LinkSpines(tail: Segment, ghost t: seq<Segment>, ghost cs: seq<seq<Byte>>, ghost r: set<object>,
      head: Segment, ghost u: seq<Segment>, ghost ds: seq<seq<Byte>>, ghost q: set<object>)
    requires IsSpine(t, cs, r) && IsSpine(u, ds, q) && r !! q
    requires t != [] && u != [] && tail == t[|t| - 1] && head == u[0]
    modifies tail`next
    ensures IsSpine(t + u, cs + ds, r + q)
  {
    ghost var a, b := t + u, cs + ds;
    ApartLists(t, u, r, q);
    tail.next := head;
    forall j | 0 <= j < |a|
      ensures 0 < a[j].buf.Length && a[j].len <= a[j].buf.Length && b[j] == a[j].buf[..a[j].len]
      ensures j < |a| - 1 ==> a[j].next == a[j + 1]
      ensures j == |a| - 1 ==> a[j].next == null
    {
      if j < |t| {
        assert a[j] == t[j] && b[j] == cs[j];
        assert j < |t| - 1 ==> a[j + 1] == t[j + 1] && t[j] != t[|t| - 1];
      } else {
        var k := j - |t|;
        assert a[j] == u[k] && b[j] == ds[k];
        assert k < |u| - 1 ==> a[j + 1] == u[k + 1];
      }
    }
  }

  /** Take the second segment out of a list. */
  method UnlinkSecond(head: Segment, ghost t: seq<Segment>, ghost cs: seq<seq<Byte>>, ghost r: set<object>)
    requires IsSpine(t, cs, r) && 2 <= |t| && head == t[0]
    modifies head`next
    ensures IsSpine([t[0]] + t[2..], [cs[0]] + cs[2..], r)
    ensures head.next == if |t| == 2 then null else t[2]
  {
    ghost var a, b := [t[0]] + t[2..], [cs[0]] + cs[2..];
    assert t[0].next == t[1];
    assert t[1].next == if |t| == 2 then null else t[2];
    head.next := head.next.next;
    forall j | 0 <= j < |a|
      ensures a[j] in r && a[j].buf in r
      ensures 0 < a[j].buf.Length && a[j].len <= a[j].buf.Length && b[j] == a[j].buf[..a[j].len]
      ensures j < |a| - 1 ==> a[j].next == a[j + 1]
      ensures j == |a| - 1 ==> a[j].next == null
    {
      if j > 0 {
        assert a[j] == t[j + 1] && b[j] == cs[j + 1] && t[j + 1] != t[0];
        assert j < |a| - 1 ==> a[j + 1] == t[j + 2];
      }
    }
  }

  lemma WidenSpine(t: seq<Segment>, cs: seq<seq<Byte>>, r: set<object>, wider: set<object>)
    requires IsSpine(t, cs, r) && r <= wider
    ensures IsSpine(t, cs, wider)
  {
  }

  class QueueBuf {
    var maxLen: nat
    var len: nat
    var minBufSize: nat
    var preAlloc: bool
    var first: Segment?
    var last: Segment?
    ghost var repr: set<object>
    ghost var spine: seq<Segment>
    ghost var chunks: seq<seq<Byte>>

    /** The list is well formed and acyclic, and segment `i` holds chunk `i`. */
    ghost predicate Linked()
      reads `first, `last, `spine, `chunks, `repr, repr
    {
      && first == (if spine == [] then null else spine[0])
      && last == (if spine == [] then null else spine[|spine| - 1])
      && IsSpine(spine, chunks, repr)
    }

    ghost predicate Valid()
      reads this, repr
    {
      && Linked() && this !in repr
      && len == |Flatten(chunks)|
      && (preAlloc ==> minBufSize > 0)
    }

    ghost function Contents(): seq<Byte>
      reads this
    {
      Flatten(chunks)
    }

    /** What well-formedness says about one segment. */
    lemma Segments(i: nat)
      requires Linked() && i < |spine|
      ensures |chunks| == |spine| && spine[i] in repr && spine[i].buf in repr
      ensures first == spine[0] && 0 < spine[i].buf.Length
      ensures spine[i].len == |chunks[i]| <= spine[i].buf.Length && chunks[i] == spine[i].buf[..spine[i].len]
      ensures spine[i].next == if i + 1 < |spine| then spine[i + 1] else null
    {
    }

    lemma Lengths()
      requires Linked()
      ensures |spine| == |chunks|
    {
    }

    // -------------------------------------------------------------- list macros

    /** QBUF_REMOVE_HEAD. */
    method RemoveHead()
      requires Linked()
      modifies this`first, this`last, this`spine, this`chunks
      ensures Linked()
      ensures spine == if old(spine) == [] then [] else old(spine[1..])
      ensures chunks == if old(spine) == [] then [] else old(chunks[1..])
    {
      if first == null {
        return;
      }
      ghost var t := spine;
      assert |t| > 1 ==> t[0].next == t[1];
      first := first.next;
      if first == null {
        last := null;
      }
      spine, chunks := t[1..], chunks[1..];
    }

    /** QBUF_REMOVE_NEXT, which the source only uses behind the first segment. */
    method RemoveSecond()
      requires Linked() && 2 <= |spine|
      modifies this`last, this`spine, this`chunks, first`next
      ensures Linked() && first == old(first)
      ensures spine == old([spine[0]] + spine[2..]) && chunks == old([chunks[0]] + chunks[2..])
    {
      ghost var t, cs := spine, chunks;
      UnlinkSecond(first, t, cs, repr);
      if first.next == null {
        last := first;
      }
      spine, chunks := [t[0]] + t[2..], [cs[0]] + cs[2..];
      assert |t| > 2 ==> spine[|spine| - 1] == t[|t| - 1];
    }

    /** queue_buf_data_free_tail: keep segments up to `newTail`, the one before index `n`. */
    method FreeTail(newTail: Segment?, ghost n: nat)
      requires Linked() && n <= |spine|
      requires newTail == if n == 0 then null else spine[n - 1]
      modifies this`first, this`last, this`spine, this`chunks, if newTail == null then {} else {newTail}
      ensures Linked()
      ensures spine == old(spine[..n]) && chunks == old(chunks[..n])
    {
      ghost var t := spine;
      assert 0 < n < |t| ==> t[n - 1].next == t[n];
      if newTail == null {
        first, last := null, null;
      } else if newTail.next != null {
        newTail.next := null;
        last := newTail;
      }
      spine, chunks := t[..n], chunks[..n];
      assert forall j :: 0 <= j < n ==> spine[j] == t[j];
    }

    /** QBUF_INSERT_HEAD. */
    method InsertHead(dp: Segment)
      requires Linked() && dp !in repr && dp.buf !in repr
      requires 0 < dp.buf.Length && dp.len <= dp.buf.Length
      modifies this`first, this`last, this`spine, this`chunks, this`repr, dp`next
      ensures Linked() && repr == old(repr) + {dp, dp.buf}
      ensures spine == [dp] + old(spine) && chunks == [dp.buf[..dp.len]] + old(chunks)
    {
      dp.next := first;
      if first == null {
        last := dp;
      }
      first := dp;
      repr := repr + {dp, dp.buf};
      spine, chunks := [dp] + spine, [dp.buf[..dp.len]] + chunks;
    }

    lemma Ends()
      requires Linked()
      ensures IsSpine(spine, chunks, repr) && |spine| == |chunks|
      ensures first == (if spine == [] then null else spine[0])
      ensures last == (if spine == [] then null else spine[|spine| - 1])
      ensures last != null ==> last in repr
    {
    }

    /** Hang the nonempty list `u` behind this one. */
    method Adopt(head: Segment, tail: Segment, ghost u: seq<Segment>, ghost ds: seq<seq<Byte>>, ghost q: set<object>)
      requires Linked() && IsSpine(u, ds, q) && u != [] && head == u[0] && tail == u[|u| - 1]
      requires repr !! q && this !in repr && this !in q
      modifies `first, `last, `spine, `chunks, `repr, repr
      ensures Linked() && spine == old(spine) + u && chunks == old(chunks) + ds && repr == old(repr) + q
    {
      hide IsSpine, Linked;
      ghost var t, cs, r := spine, chunks, repr;
      Ends();
      if first == null {
        WidenSpine(u, ds, q, r + q);
        assert t + u == u && cs + ds == ds;
        SetList(head, tail, u, ds, r + q);
      } else {
        LinkSpines(last, t, cs, r, head, u, ds, q);
        SetList(first, tail, t + u, cs + ds, r + q);
      }
    }

    method SetList(f: Segment, l: Segment, ghost a: seq<Segment>, ghost b: seq<seq<Byte>>, ghost r: set<object>)
      requires IsSpine(a, b, r) && a != [] && f == a[0] && l == a[|a| - 1] && this !in r
      modifies `first, `last, `spine, `chunks, `repr
      ensures Linked() && spine == a && chunks == b && repr == r
    {
      hide IsSpine;
      first, last := f, l;
      spine, chunks, repr := a, b, r;
    }

    /** QBUF_INSERT_TAIL. */
    method InsertTail(dp: Segment)
      requires Linked() && this !in repr && dp !in repr && dp.buf !in repr
      requires 0 < dp.buf.Length && dp.len <= dp.buf.Length
      modifies `first, `last, `spine, `chunks, `repr, repr, dp`next
      ensures Linked() && repr == old(repr) + {dp, dp.buf}
      ensures spine == old(spine) + [dp] && chunks == old(chunks) + [dp.buf[..dp.len]]
    {
      hide Linked;
      dp.next := null;
      Adopt(dp, dp, [dp], [dp.buf[..dp.len]], {dp, dp.buf});
    }

    /** Store bytes behind those segment `i` holds already. */
    method Fill(dp: Segment, data: seq<Byte>, ghost i: nat)
      requires Linked() && i < |spine| && spine[i] == dp && dp.len + |data| <= dp.buf.Length
      modifies this`chunks, dp`len, dp.buf
      ensures Linked()
      ensures chunks == old(chunks)[i := old(chunks)[i] + data]
    {
      var n := dp.len;
      forall j | 0 <= j < |data| {
        dp.buf[n + j] := data[j];
      }
      dp.len := n + |data|;
      chunks := chunks[i := chunks[i] + data];
      assert dp.buf[..dp.len] == chunks[i];
    }

    /** Keep only the bytes from `from` to `to` of segment `i`, moved to its front. */
    method Cut(dp: Segment, from: nat, to: nat, ghost i: nat)
      requires Linked() && i < |spine| && spine[i] == dp && from <= to <= dp.len
      modifies this`chunks, dp`len, dp.buf
      ensures Linked()
      ensures chunks == old(chunks)[i := old(chunks)[i][from..to]]
    {
      ghost var kept := chunks[i][from..to];
      assert kept == dp.buf[from..to];
      MoveBytes(dp.buf, 0, dp.buf, from, to - from);
      assert dp.buf[..to - from] == kept;
      dp.len := to - from;
      chunks := chunks[i := kept];
    }

    // -------------------------------------------------------------- operations

    /** queue_buf_init.  Here and below `granted` says whether a segment can be allocated. */
    constructor (preAlloc: bool, minBufSize: nat, granted: bool)
      requires preAlloc ==> minBufSize > 0
      ensures Valid() && fresh(repr) && Contents() == [] && maxLen == 0
      ensures preAlloc && granted ==> |spine| == 1 && spine[0].buf.Length == minBufSize
      ensures this.preAlloc == preAlloc && this.minBufSize == minBufSize
    {
      maxLen, len := 0, 0;
      this.minBufSize := minBufSize;
      this.preAlloc := preAlloc;
      first, last, spine, chunks, repr := null, null, [], [], {};
      new;
      Reset(granted);
    }

    /** The first step of queue_buf_reset with pre-allocation: a first segment of the right size.  A
        reallocation that fails gives the old segment back. */
    method FixedHead(granted: bool) returns (dp: Segment?)
      requires Linked() && minBufSize > 0
      modifies this`first, this`last, this`spine, this`chunks, this`repr
      ensures Linked() && fresh(repr - old(repr)) && |spine| == |chunks|
      ensures dp == if spine == [] then null else spine[0]
      ensures dp != null ==> (dp in old(repr) && dp.buf in old(repr)) || (fresh(dp) && fresh(dp.buf))
      ensures granted ==> dp != null && dp.buf.Length == minBufSize
    {
      if !granted || (first != null && first.buf.Length == minBufSize) {
        return first;
      }
      RemoveHead();
      dp := new Segment(minBufSize);
      InsertHead(dp);
    }

    /** The same, emptied. */
    method EmptyHead(granted: bool) returns (dp: Segment?)
      requires Linked() && this !in repr && minBufSize > 0
      modifies `first, `last, `spine, `chunks, `repr, repr
      ensures Linked() && |spine| == |chunks| && dp == (if spine == [] then null else spine[0])
      ensures dp != null ==> chunks[0] == []
      ensures fresh(repr - old(repr)) && (dp == null || dp in old(repr) || fresh(dp))
      ensures granted ==> dp != null && dp.buf.Length == minBufSize
    {
      hide Linked;
      dp := FixedHead(granted);
      if dp != null {
        Segments(0);
        Cut(dp, 0, 0, 0);
        Lengths();
      }
    }

    /** queue_buf_reset. */
    method Reset(granted: bool)
      requires Linked() && this !in repr && (preAlloc ==> minBufSize > 0)
      modifies this, repr
      ensures Valid() && Contents() == [] && fresh(repr - old(repr))
      ensures preAlloc && granted ==> |spine| == 1 && spine[0].buf.Length == minBufSize
      ensures maxLen == old(maxLen) && minBufSize == old(minBufSize) && preAlloc == old(preAlloc)
    {
      hide Linked, Flatten;
      FlattenEnds([]);
      len := 0;
      if preAlloc {
        var dp := EmptyHead(granted);
        if dp == null {
          return;
        }
        FreeTail(dp, 1);
        FlattenOne([]);
        assert chunks == [[]];
      } else {
        FreeTail(null, 0);
      }
    }

    /** Walk to the segment that holds byte `at - 1`; `sum` bytes lie in it and before it. */
    method SegmentAt(at: nat) returns (dp: Segment, sum: nat, ghost i: nat)
      requires Linked() && 0 < at <= |Flatten(chunks)|
      ensures |spine| == |chunks|
      ensures i < |spine| && dp == spine[i]
      ensures sum == |Flatten(chunks[..i])| + |chunks[i]|
      ensures |Flatten(chunks[..i])| < at <= sum
    {
      hide Linked, Flatten;
      Lengths();
      FlattenEnds(chunks);
      Segments(0);
      dp, sum, i := first, first.len, 0;
      while sum < at
        invariant i < |spine| && dp == spine[i]
        invariant sum == |Flatten(chunks[..i])| + |chunks[i]| && |Flatten(chunks[..i])| < at
        decreases |spine| - i
      {
        Segments(i);
        FlattenPrefix(chunks, i);
        dp := dp.next;
        i := i + 1;
        Segments(i);
        sum := sum + dp.len;
      }
    }

    /** queue_buf_trim. */
    method Trim(newLen: nat, granted: bool)
      requires Valid()
      modifies this, repr
      ensures Valid() && fresh(repr - old(repr))
      ensures Contents() == if newLen >= |old(Contents())| then old(Contents()) else old(Contents())[..newLen]
      ensures maxLen == old(maxLen) && minBufSize == old(minBufSize) && preAlloc == old(preAlloc)
    {
      hide Flatten, Linked;
      if newLen >= len {
        return;
      }
      if newLen == 0 {
        Reset(granted);
        return;
      }
      ghost var cs := chunks;
      len := newLen;
      var dp, sum, i := SegmentAt(newLen);
      Segments(i);
      TrimmedTail(cs, newLen, i);
      Cut(dp, 0, dp.len - (sum - newLen), i);
      FreeTail(dp, i + 1);
      assert chunks == cs[..i] + [cs[i][..newLen - |Flatten(cs[..i])|]];
    }

    /** The removal loop of queue_buf_trim_head when the first segment may go as well. */
    method DropFront(cut: nat) returns (rest: nat, ghost k: nat)
      requires Linked() && cut < |Flatten(chunks)|
      modifies `first, `last, `spine, `chunks
      ensures Linked() && |old(spine)| == |old(chunks)|
      ensures k == FirstKept(old(chunks), cut) && rest == cut - |Flatten(old(chunks)[..k])|
      ensures spine == old(spine)[k..] && chunks == old(chunks)[k..]
    {
      hide Linked, Flatten, FirstKept;
      ghost var t, cs := spine, chunks;
      Lengths();
      FlattenEnds(cs);
      Segments(0);
      rest, k := cut, 0;
      var dp := first;
      while dp != null && dp.len <= rest
        invariant Linked() && k <= |t| && rest + |Flatten(cs[..k])| == cut
        invariant spine == t[k..] && chunks == cs[k..]
        invariant dp == null <==> k == |t|
        invariant dp != null ==> dp.len == |cs[k]|
        decreases |t| - k
      {
        FlattenPrefix(cs, k);
        rest := rest - dp.len;
        RemoveHead();
        k := k + 1;
        dp := Front();
      }
      FirstKeptIsUnique(cs, cut, k);
    }

    /** The same loop behind a pre-allocated first segment, which is emptied and stays. */
    method DropBehind(head: Segment, cut: nat) returns (rest: nat, ghost k: nat)
      requires Linked() && spine != [] && head == spine[0] && |chunks[0]| <= cut < |Flatten(chunks)|
      modifies `last, `spine, `chunks, head, head.buf
      ensures Linked() && |old(spine)| == |old(chunks)|
      ensures k == FirstKept(old(chunks), cut) > 0 && rest == cut - |Flatten(old(chunks)[..k])|
      ensures spine == [head] + old(spine)[k..] && chunks == EMPTIED + old(chunks)[k..]
    {
      hide Linked, Flatten, FirstKept;
      ghost var t, cs := spine, chunks;
      Lengths();
      FlattenEnds(cs);
      Segments(0);
      rest := cut - head.len;
      k := 1;
      Cut(head, 0, 0, 0);
      var dp := Second();
      while dp != null && dp.len <= rest
        invariant Linked() && 0 < k <= |t| && rest + |Flatten(cs[..k])| == cut
        invariant spine == [head] + t[k..] && chunks == EMPTIED + cs[k..]
        invariant dp == null <==> k == |t|
        invariant dp != null ==> dp.len == |cs[k]|
        decreases |t| - k
      {
        FlattenPrefix(cs, k);
        rest := rest - dp.len;
        Segments(0);
        assert ([head] + t[k..])[2..] == t[k + 1..] && (EMPTIED + cs[k..])[2..] == cs[k + 1..];
        RemoveSecond();
        k := k + 1;
        dp := Second();
      }
      FirstKeptIsUnique(cs, cut, k);
    }

    /** The first segment. */
    method Front() returns (dp: Segment?)
      requires Linked()
      ensures |chunks| == |spine| && (dp == null <==> |spine| == 0)
      ensures dp != null ==> dp == spine[0] && dp.len == |chunks[0]|
    {
      if spine != [] {
        Segments(0);
      }
      dp := first;
    }

    /** The segment behind the first one. */
    method Second() returns (dp: Segment?)
      requires Linked() && spine != []
      ensures |chunks| == |spine| && (dp == null <==> |spine| == 1)
      ensures dp != null ==> dp == spine[1] && dp.len == |chunks[1]|
    {
      Segments(0);
      if |spine| > 1 {
        Segments(1);
      }
      dp := first.next;
    }

    /** The copy queue_buf_trim_head makes for an emptied pre-allocated first segment: bytes of
        the second segment, taken from its start although `rest` of them are trimmed, move into
        the first; the remainder of the second segment is shifted to its front. */
    method Refill(head: Segment, dp: Segment, rest: nat)
      requires Linked() && |spine| >= 2 && head == spine[0] && dp == spine[1]
      requires chunks[0] == [] && rest < |chunks[1]|
      modifies `last, `spine, `chunks, head, head.buf, dp, dp.buf
      ensures Linked() && spine != [] && head == spine[0]
      ensures var left := |old(chunks)[1]| - rest;
              var moved := if left > head.buf.Length then head.buf.Length else left;
              chunks == [old(chunks)[1][..moved]] +
                (if rest + moved == |old(chunks)[1]| then [] else [old(chunks)[1][rest + moved..]]) + old(chunks)[2..]
    {
      hide Linked;
      ghost var cs := chunks;
      Lengths();
      Segments(0);
      Segments(1);
      var moved := dp.len - rest;
      if moved > head.buf.Length {
        moved := head.buf.Length;
      }
      assert dp.buf[..moved] == cs[1][..moved] && [] + cs[1][..moved] == cs[1][..moved];
      Fill(head, dp.buf[..moved], 0);
      assert chunks == [cs[1][..moved]] + cs[1..];
      Segments(1);
      if rest + moved == dp.len {
        RemoveSecond();
        assert chunks == [cs[1][..moved]] + cs[2..];
      } else {
        assert chunks[1][rest + moved..dp.len] == cs[1][rest + moved..];
        Cut(dp, rest + moved, dp.len, 1);
        assert chunks == [cs[1][..moved]] + [cs[1][rest + moved..]] + cs[2..];
      }
    }

    /** queue_buf_trim_head. */
    method TrimHead(newLen: nat, granted: bool)
      requires Valid()
      modifies this, repr
      ensures Valid() && fresh(repr - old(repr))
      ensures newLen >= |old(Contents())| ==> Contents() == old(Contents())
      ensures newLen == 0 ==> Contents() == []
      ensures 0 < newLen < |old(Contents())| ==> old(chunks) != [] && |old(spine)| == |old(chunks)|
      ensures 0 < newLen < |old(Contents())| ==>
        chunks == TrimmedHead(old(chunks), old(spine)[0].buf.Length, preAlloc, newLen)
      ensures 0 < newLen < |old(Contents())| && SafeCut(old(chunks), preAlloc, |old(Contents())| - newLen) ==>
        Contents() == Suffix(old(Contents()), newLen)
      ensures maxLen == old(maxLen) && minBufSize == old(minBufSize) && preAlloc == old(preAlloc)
    {
      hide Linked, Flatten, FirstKept, SafeCut, Suffix;
      if newLen >= len {
        return;
      }
      if newLen == 0 {
        Reset(granted);
        return;
      }
      ghost var cs := chunks;
      var cut := len - newLen;
      len := newLen;
      TrimHeadParts(cut, newLen);
      TrimmedHeadLength(cs, old(spine)[0].buf.Length, preAlloc, newLen);
      if SafeCut(cs, preAlloc, cut) {
        SafeCutKeepsSuffix(cs, old(spine)[0].buf.Length, preAlloc, newLen);
      }
    }

    /** Both branches of queue_buf_trim_head, on the list alone. */
    method TrimHeadParts(cut: nat, ghost newLen: nat)
      requires Linked() && this !in repr && 0 < newLen < |Flatten(chunks)| && cut == |Flatten(chunks)| - newLen
      modifies `first, `last, `spine, `chunks, repr
      ensures Linked() && spine != [] && old(chunks) != [] && |old(spine)| == |old(chunks)|
      ensures chunks == TrimmedHead(old(chunks), old(spine)[0].buf.Length, preAlloc, newLen)
    {
      hide Linked, Flatten, FirstKept;
      Lengths();
      FlattenEnds(chunks);
      Segments(0);
      FirstKeptZero(chunks, cut);
      if preAlloc && first.len <= cut {
        TrimBehind(first, cut, newLen);
      } else {
        TrimFront(cut, newLen);
      }
    }

    method TrimFront(cut: nat, ghost newLen: nat)
      requires Linked() && this !in repr && 0 < newLen < |Flatten(chunks)| && cut == |Flatten(chunks)| - newLen
      requires !preAlloc || FirstKept(chunks, cut) == 0
      modifies `first, `last, `spine, `chunks, repr
      ensures Linked() && spine != []
      ensures chunks == TrimmedHead(old(chunks), 0, preAlloc, newLen)
    {
      hide Linked, Flatten, FirstKept;
      ghost var cs := chunks;
      var rest, k := DropFront(cut);
      HeadAndTail(cs, k);
      if rest != 0 {
        Segments(0);
        Cut(first, rest, first.len, 0);
        assert chunks == [cs[k][rest..]] + cs[k + 1..];
      }
    }

    method TrimBehind(head: Segment, cut: nat, ghost newLen: nat)
      requires Linked() && this !in repr && 0 < newLen < |Flatten(chunks)| && cut == |Flatten(chunks)| - newLen
      requires spine != [] && head == spine[0] && |chunks[0]| <= cut && preAlloc
      modifies `last, `spine, `chunks, repr
      ensures Linked() && spine != []
      ensures chunks == TrimmedHead(old(chunks), head.buf.Length, true, newLen)
    {
      hide Linked, Flatten, FirstKept, TrimmedHead;
      ghost var cs := chunks;
      Segments(0);
      var rest, k := DropBehind(head, cut);
      assert chunks[1..] == cs[k..] && chunks[0] == [];
      HeadAndTail(cs, k);
      var dp := Second();
      Segments(1);
      assert chunks[2..] == cs[k + 1..] && chunks[1] == cs[k];
      TrimmedBehind(cs, head.buf.Length, newLen, k, rest);
      Refill(head, dp, rest);
    }

    /** queue_buf_data_alloc and memcpy: a new segment of at least the minimum size that holds `data`. */
    method NewSegment(data: seq<Byte>) returns (dp: Segment)
      requires |data| > 0 || minBufSize > 0
      ensures fresh(dp) && fresh(dp.buf) && dp.buf.Length == (if |data| < minBufSize then minBufSize else |data|)
      ensures dp.len == |data| && dp.buf[..dp.len] == data
    {
      dp := new Segment(if |data| < minBufSize then minBufSize else |data|);
      forall j | 0 <= j < |data| {
        dp.buf[j] := data[j];
      }
      dp.len := |data|;
    }

    /** The room left in the last segment. */
    ghost function Room(): nat
      reads this, repr
      requires Linked()
    {
      if spine == [] then 0 else spine[|spine| - 1].buf.Length - |chunks[|spine| - 1]|
    }

    /** queue_buf_put.  Without memory for a new segment the part of the data that fits the last
        segment is still stored. */
    method Put(data: seq<Byte>, granted: bool) returns (rc: int)
      requires Valid()
      modifies this, repr
      ensures Valid() && fresh(repr - old(repr))
      ensures var fits := data == [] || maxLen == 0 || |old(Contents())| + |data| <= maxLen;
              && rc == (if fits && (granted || |data| <= old(Room())) then 0 else -1)
              && Contents() == old(Contents()) +
                 if rc == 0 then data else if fits then data[..old(Room())] else []
      ensures maxLen == old(maxLen) && minBufSize == old(minBufSize) && preAlloc == old(preAlloc)
    {
      hide Linked, Flatten;
      if data == [] {
        return 0;
      }
      if maxLen != 0 && maxLen < len + |data| {
        return -1;
      }
      var n := FillLast(data);
      if n == |data| {
        return 0;
      }
      if !granted {
        return -1;
      }
      var dp := NewSegment(data[n..]);
      ghost var cs := chunks;
      InsertTail(dp);
      FlattenAppend(cs, [data[n..]]);
      FlattenOne(data[n..]);
      len := len + (|data| - n);
      rc := 0;
    }

    /** The first part of queue_buf_put: fill what room the last segment has. */
    method FillLast(data: seq<Byte>) returns (n: nat)
      requires Valid()
      modifies `len, `chunks, repr
      ensures Valid() && n == (if |data| < old(Room()) then |data| else old(Room()))
      ensures Contents() == old(Contents()) + data[..n]
      ensures last in old(repr) || last == null
    {
      hide Linked, Flatten;
      Lengths();
      LastOfList();
      if last == null {
        return 0;
      }
      ghost var cs, i := chunks, |chunks| - 1;
      Segments(i);
      n := last.buf.Length - last.len;
      if n > |data| {
        n := |data|;
      }
      Fill(last, data[..n], i);
      len := len + n;
      FlattenExtend(cs, data[..n]);
      assert chunks == cs[..i] + [cs[i] + data[..n]];
    }

    lemma LastOfList()
      requires Linked()
      ensures last == if spine == [] then null else spine[|spine| - 1]
    {
    }

    /** queue_buf_put_head.  Unlike queue_buf_put it does not look at the maximum length.  The assertion
        in queue_buf_data_realloc demands that there be something to allocate. */
    method PutHead(data: seq<Byte>, granted: bool) returns (rc: int)
      requires Valid() && (|data| > 0 || minBufSize > 0)
      modifies this, repr
      ensures Valid() && fresh(repr - old(repr))
      ensures rc == if granted then 0 else -1
      ensures Contents() == if granted then data + old(Contents()) else old(Contents())
      ensures maxLen == old(maxLen) && minBufSize == old(minBufSize) && preAlloc == old(preAlloc)
    {
      hide Linked, Flatten;
      if !granted {
        return -1;
      }
      var dp := NewSegment(data);
      FlattenFirst(data, chunks);
      len := len + |data|;
      InsertHead(dp);
      rc := 0;
    }

    /** queue_buf_set_max_len.  Zero means "no limit" from then on, yet drops what is queued. */
    method SetMaxLen(limit: nat, granted: bool)
      requires Valid()
      modifies this, repr
      ensures Valid() && fresh(repr - old(repr)) && maxLen == limit
      ensures Contents() == if limit >= |old(Contents())| then old(Contents()) else old(Contents())[..limit]
      ensures minBufSize == old(minBufSize) && preAlloc == old(preAlloc)
    {
      hide Linked, Flatten;
      if len > limit {
        Trim(limit, granted);
      }
      maxLen := limit;
    }

    /** QBUF_CONCAT. */
    method Splice(other: QueueBuf)
      requires Linked() && other.Linked() && this != other && repr !! other.repr
      requires this !in repr && this !in other.repr && other !in repr && other !in other.repr
      modifies `first, `last, `spine, `chunks, `repr, repr
      modifies other`first, other`last, other`spine, other`chunks, other`repr
      ensures Linked() && other.Linked()
      ensures spine == old(spine) + old(other.spine) && chunks == old(chunks) + old(other.chunks)
      ensures other.spine == [] && other.chunks == []
      ensures repr <= old(repr) + old(other.repr) && other.repr == {}
    {
      hide IsSpine;
      SpineLengths(other.spine, other.chunks, other.repr);
      EmptySpine();
      if other.first != null {
        Adopt(other.first, other.last, other.spine, other.chunks, other.repr);
        other.first, other.last := null, null;
      }
      other.repr, other.spine, other.chunks := {}, [], [];
    }

    /** QBUF_CONCAT of a queue and itself: the list becomes a ring that nothing points to. */
    method SpliceSelf()
      requires Linked() && this !in repr
      modifies `first, `last, `spine, `chunks, repr
      ensures Linked() && spine == [] && chunks == []
    {
      Ends();
      if first != null {
        last.next := first;
        first, last := null, null;
      }
      spine, chunks := [], [];
    }

    /** queue_buf_concat.  A queue joined to itself loses everything. */
    method Concat(other: QueueBuf, granted: bool) returns (rc: int)
      requires Valid() && other.Valid()
      requires this == other || (repr !! other.repr && this !in other.repr && other !in repr)
      modifies this, repr, other, other.repr
      ensures Valid() && other.Valid()
      ensures this == other || (repr !! other.repr && this !in other.repr && other !in repr)
      ensures fresh(repr - old(repr) - old(other.repr)) && fresh(other.repr - old(other.repr))
      ensures rc == if maxLen != 0 && maxLen < |old(Contents())| + |old(other.Contents())| then -1 else 0
      ensures rc == 0 ==> other.Contents() == []
      ensures rc == 0 && this != other ==> Contents() == old(Contents()) + old(other.Contents())
      ensures rc == -1 ==> Contents() == old(Contents()) && other.Contents() == old(other.Contents())
    {
      hide Linked, Flatten;
      if maxLen != 0 && maxLen < len + other.len {
        return -1;
      }
      len := len + other.len;
      if this == other {
        SpliceSelf();
        Reset(granted);
        return 0;
      }
      LastOfList();
      Lengths();
      if last != null {
        Segments(|spine| - 1);
      }
      FlattenAppend(chunks, other.chunks);
      Splice(other);
      other.Reset(granted);
      rc := 0;
    }

    /** queue_buf_coalesce.  `granted` says whether the first segment can be enlarged. */
    method Coalesce(granted: bool) returns (r: Option<array<Byte>>)
      requires Valid()
      modifies this, repr
      ensures Valid() && fresh(repr - old(repr)) && Contents() == old(Contents())
      ensures r.Some? ==> |Contents()| <= r.value.Length && r.value[..|Contents()|] == Contents()
      ensures Contents() == [] ==> r.None?
      ensures granted && Contents() != [] ==> r.Some?
      ensures maxLen == old(maxLen) && minBufSize == old(minBufSize) && preAlloc == old(preAlloc)
    {
      hide Linked, Flatten;
      Ends();
      FlattenEnds(chunks);
      if first == null || len == 0 {
        return None;
      }
      Segments(0);
      if first.len == len {
        WholeInFirst(chunks);
        return Some(first.buf);
      }
      if len > first.buf.Length {
        if !granted {
          return None;
        }
        Enlarge();
      }
      Gather();
      Segments(0);
      FlattenOne(chunks[0]);
      assert chunks == [chunks[0]];
      r := Some(first.buf);
    }

    /** The part of queue_buf_coalesce that reallocates the first segment. */
    method Enlarge()
      requires Valid() && spine != [] && len > 0
      modifies `first, `last, `spine, `chunks, `repr
      ensures Valid() && spine != [] && chunks == old(chunks) && spine[0].buf.Length == len
      ensures fresh(spine[0]) && fresh(spine[0].buf) && fresh(repr - old(repr))
    {
      hide Linked, Flatten;
      Ends();
      Segments(0);
      FlattenSplit(chunks, 1);
      FlattenEnds(chunks);
      var old0 := first;
      ghost var c := chunks[0];
      assert [c] + chunks[1..] == chunks;
      RemoveHead();
      var dp := CopySegment(old0, len);
      InsertHead(dp);
    }

    /** realloc to a larger size: a new segment with the same bytes. */
    method CopySegment(from: Segment, size: nat) returns (dp: Segment)
      requires from.len <= from.buf.Length && from.len <= size
      ensures fresh(dp) && fresh(dp.buf) && dp.buf.Length == size && dp.len == from.len
      ensures dp.buf[..dp.len] == from.buf[..from.len]
    {
      dp := new Segment(size);
      forall j | 0 <= j < from.len {
        dp.buf[j] := from.buf[j];
      }
      dp.len := from.len;
    }

    /** The loop of queue_buf_coalesce: move all bytes into the first segment. */
    method Gather()
      requires Valid() && spine != [] && len <= spine[0].buf.Length
      modifies `last, `spine, `chunks, repr
      ensures Valid() && |spine| == |chunks| == 1 && Contents() == old(Contents())
      ensures spine[0] == old(spine[0])
    {
      hide Linked, Flatten;
      ghost var all := Flatten(chunks);
      Ends();
      Segments(0);
      var head := first;
      var dp := Second();
      while dp != null
        invariant Valid() && spine != [] && spine[0] == head && |spine| == |chunks|
        invariant Flatten(chunks) == all && head in repr && head.buf in repr
        invariant dp == null <==> |spine| == 1
        invariant dp != null ==> dp == spine[1] && dp.len == |chunks[1]|
        decreases |spine|
      {
        MergeSecond(head, dp);
        dp := Second();
      }
    }

    method MergeSecond(head: Segment, dp: Segment)
      requires Valid() && |spine| == |chunks| >= 2 && head == spine[0] && dp == spine[1]
      requires len <= head.buf.Length
      modifies `last, `spine, `chunks, head, head.buf
      ensures Valid() && spine != [] && spine[0] == head && |spine| == |chunks| == |old(spine)| - 1
      ensures Contents() == old(Contents())
    {
      hide Linked, Flatten;
      Segments(0);
      Segments(1);
      MergeTwo(chunks);
      Fill(head, dp.buf[..dp.len], 0);
      Segments(0);
      RemoveSecond();
    }

    /** queue_buf_copyout: up to `n` bytes from `offset` on. */
    method CopyOut(buf: array<Byte>, n: nat, offset: nat) returns (copied: nat)
      requires Valid() && buf !in repr && n <= buf.Length
      modifies buf
      ensures offset >= |Contents()| ==> copied == 0
      ensures offset < |Contents()| ==> copied == if n <= |Contents()| - offset then n else |Contents()| - offset
      ensures copied > 0 ==> buf[..copied] == Contents()[offset..offset + copied]
      ensures buf[copied..] == old(buf[copied..])
    {
      hide Linked, Flatten;
      if len <= offset {
        return 0;
      }
      var dp, off, i := Locate(offset);
      copied := CopyFrom(dp, off, buf, n, i);
    }

    /** queue_buf_get_pos: the segment and the place in it where `offset` lies, possibly just
        behind its last byte. */
    method Locate(offset: nat) returns (dp: Segment, off: nat, ghost i: nat)
      requires Valid() && offset < |Contents()|
      ensures i < |spine| == |chunks| && dp == spine[i]
      ensures off <= dp.len && |Flatten(chunks[..i])| + off == offset
    {
      hide Linked, Flatten;
      Ends();
      FlattenEnds(chunks);
      Segments(0);
      dp, off, i := first, offset, 0;
      while dp.len < off
        invariant i < |spine| && dp == spine[i] && |Flatten(chunks[..i])| + off == offset
        decreases |spine| - i
      {
        Segments(i);
        FlattenPrefix(chunks, i);
        off := off - dp.len;
        dp := dp.next;
        i := i + 1;
      }
    }

    /** One memcpy of queue_buf_copyout_pos. */
    method CopyPart(buf: array<Byte>, copied: nat, dp: Segment, off: nat, tlen: nat,
        ghost c: seq<Byte>, ghost at: nat, ghost was: seq<Byte>)
      requires copied + tlen <= buf.Length && off + tlen <= dp.buf.Length && buf != dp.buf
      requires CopiedSoFar(buf[..], was, c, at, copied) && at + copied + tlen <= |c|
      requires dp.buf[off..off + tlen] == c[at + copied..at + copied + tlen]
      modifies buf
      ensures CopiedSoFar(buf[..], was, c, at, copied + tlen)
    {
      ghost var now := buf[..];
      MoveBytes(buf, copied, dp.buf, off, tlen);
      CopyStep(now, buf[..], was, c, at, copied, tlen, dp.buf[off..off + tlen]);
    }

    /** queue_buf_copyout_pos. */
    method CopyFrom(start: Segment, from: nat, buf: array<Byte>, n: nat, ghost i0: nat) returns (copied: nat)
      requires Valid() && buf !in repr && n <= buf.Length
      requires i0 < |spine| && start == spine[i0] && from <= start.len && |chunks| == |spine|
      modifies buf
      ensures |Flatten(chunks[..i0])| + from + copied <= |Contents()| && copied <= n
      ensures copied < n ==> |Flatten(chunks[..i0])| + from + copied == |Contents()|
      ensures CopiedSoFar(buf[..], old(buf[..]), Contents(), |Flatten(chunks[..i0])| + from, copied)
    {
      hide Linked, Flatten, CopiedSoFar;
      NothingCopied(buf[..], Contents(), |Flatten(chunks[..i0])| + from);
      ghost var at, c, was := |Flatten(chunks[..i0])| + from, Contents(), buf[..];
      FlattenEnds(chunks);
      Segments(i0);
      FlattenAt(chunks, i0);
      var dp: Segment? := start;
      var off: nat := from;
      ghost var i: nat := i0;
      copied := 0;
      while dp != null && copied < n
        invariant Valid() && i <= |spine| && (if i < |spine| then dp == spine[i] else dp == null)
        invariant i < |spine| ==> off <= |chunks[i]|
        invariant i == |spine| ==> off == 0
        invariant |Flatten(chunks[..i])| + off == at + copied <= |c| && copied <= n
        invariant CopiedSoFar(buf[..], was, c, at, copied)
        decreases |spine| - i, n - copied
      {
        Segments(i);
        var tlen := dp.len - off;
        FlattenAt(chunks, i);
        if tlen == 0 {
          dp := dp.next;
          off := 0;
          i := i + 1;
        } else {
          if tlen > n - copied {
            tlen := n - copied;
          }
          SliceInside(chunks, i, off, tlen);
          assert chunks[i] == dp.buf[..dp.len];
          assert dp.buf[off..off + tlen] == dp.buf[..dp.len][off..off + tlen];
          CopyPart(buf, copied, dp, off, tlen, c, at, was);
          copied := copied + tlen;
          off := off + tlen;
        }
      }
    }
  }

  /** The first chunk holds everything exactly if it is as long as everything. */
  lemma WholeInFirst(cs: seq<seq<Byte>>)
    requires cs != [] && |cs[0]| == |Flatten(cs)|
    ensures cs[0] == Flatten(cs)
  {
  }

  lemma MergeTwo(cs: seq<seq<Byte>>)
    requires |cs| >= 2
    ensures Flatten([cs[0] + cs[1]] + cs[2..]) == Flatten(cs)
    ensures |cs[0]| + |cs[1]| <= |Flatten(cs)|
    ensures var merged := cs[0 := cs[0] + cs[1]]; [merged[0]] + merged[2..] == [cs[0] + cs[1]] + cs[2..]
  {
    hide Flatten;
    FlattenFirst(cs[0] + cs[1], cs[2..]);
    FlattenFirst(cs[1], cs[2..]);
    FlattenFirst(cs[0], cs[1..]);
    assert [cs[1]] + cs[2..] == cs[1..] && [cs[0]] + cs[1..] == cs;
    ConcatAssoc(cs[0], cs[1], Flatten(cs[2..]));
  }

  lemma SliceInside(cs: seq<seq<Byte>>, i: nat, off: nat, n: nat)
    requires i < |cs| && off + n <= |cs[i]|
    ensures var a := |Flatten(cs[..i])| + off;
            a + n <= |Flatten(cs)| && Flatten(cs)[a..a + n] == cs[i][off..off + n]
  {
    hide Flatten;
    FlattenAt(cs, i);
  }

  /** A buffer with the first `copied` bytes replaced by bytes of `c` from `at` on. */
  ghost predicate CopiedSoFar(now: seq<Byte>, was: seq<Byte>, c: seq<Byte>, at: nat, copied: nat)
  {
    |now| == |was| >= copied && at + copied <= |c| &&
    now[..copied] == c[at..at + copied] && now[copied..] == was[copied..]
  }

  lemma NothingCopied(b: seq<Byte>, c: seq<Byte>, at: nat)
    ensures at <= |c| ==> CopiedSoFar(b, b, c, at, 0)
  {
  }

  lemma CopyStep(
    now: seq<Byte>, next: seq<Byte>, was: seq<Byte>, c: seq<Byte>, at: nat, copied: nat, n: nat, part: seq<Byte>)
    requires CopiedSoFar(now, was, c, at, copied) && copied + n <= |now| && at + copied + n <= |c| && |part| == n
    requires next == now[..copied] + part + now[copied + n..]
    requires part == c[at + copied..at + copied + n]
    ensures CopiedSoFar(next, was, c, at, copied + n)
  {
    assert now[copied..][n..] == was[copied..][n..];
  }

  lemma SpineLengths(t: seq<Segment>, cs: seq<seq<Byte>>, r: set<object>)
    requires IsSpine(t, cs, r)
    ensures |t| == |cs|
  {
  }

  lemma EmptySpine()
    ensures IsSpine([], [], {})
  {
  }

  /** Lists of segments from disjoint sets share nothing. */
  lemma ApartLists(t: seq<Segment>, u: seq<Segment>, r: set<object>, q: set<object>)
    requires r !! q
    requires forall i :: 0 <= i < |t| ==> t[i] in r && t[i].buf in r
    requires forall i :: 0 <= i < |u| ==> u[i] in q && u[i].buf in q
    requires forall i, j :: 0 <= i < j < |t| ==> t[i] != t[j] && t[i].buf != t[j].buf
    requires forall i, j :: 0 <= i < j < |u| ==> u[i] != u[j] && u[i].buf != u[j].buf
    ensures forall i, j :: 0 <= i < j < |t + u| ==> (t + u)[i] != (t + u)[j] && (t + u)[i].buf != (t + u)[j].buf
    ensures forall i :: 0 <= i < |t + u| ==> (t + u)[i] in r + q && (t + u)[i].buf in r + q
    ensures forall i :: 0 <= i < |u| ==> u[i] !in t
  {
    forall i, j | 0 <= i < j < |t + u|
      ensures (t + u)[i] != (t + u)[j] && (t + u)[i].buf != (t + u)[j].buf
    {
      assert (t + u)[i] == if i < |t| then t[i] else u[i - |t|];
      assert (t + u)[j] == if j < |t| then t[j] else u[j - |t|];
    }
  }

  lemma FlattenExtend(cs: seq<seq<Byte>>, data: seq<Byte>)
    requires cs != []
    ensures var i := |cs| - 1; Flatten(cs[..i] + [cs[i] + data]) == Flatten(cs) + data
  {
    hide Flatten;
    var i := |cs| - 1;
    FlattenPrefix(cs, i);
    assert cs[..i + 1] == cs;
    FlattenAppend(cs[..i], [cs[i] + data]);
    FlattenOne(cs[i] + data);
    ConcatAssoc(Flatten(cs[..i]), cs[i], data);
  }

  lemma TrimmedBehind(cs: seq<seq<Byte>>, size: nat, newLen: nat, k: nat, rest: nat)
    requires 0 < newLen < |Flatten(cs)| && k == FirstKept(cs, |Flatten(cs)| - newLen) > 0
    requires rest == |Flatten(cs)| - newLen - |Flatten(cs[..k])|
    ensures var moved := if |cs[k]| - rest > size then size else |cs[k]| - rest;
            [cs[k][..moved]] + (if rest + moved == |cs[k]| then [] else [cs[k][rest + moved..]]) + cs[k + 1..]
            == TrimmedHead(cs, size, true, newLen)
  {
    hide Flatten, FirstKept;
  }

  lemma TrimmedTail(cs: seq<seq<Byte>>, newLen: nat, i: nat)
    requires i < |cs| && |Flatten(cs[..i])| < newLen <= |Flatten(cs[..i])| + |cs[i]|
    ensures newLen <= |Flatten(cs)|
    ensures Flatten(cs[..i] + [cs[i][..newLen - |Flatten(cs[..i])|]]) == Flatten(cs)[..newLen]
  {
    hide Flatten;
    var kept := cs[i][..newLen - |Flatten(cs[..i])|];
    FlattenAt(cs, i);
    FlattenAppend(cs[..i], [kept]);
    FlattenOne(kept);
  }
}
