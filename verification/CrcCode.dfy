/** What holds of every checksum loop whose byte step is eight steps of a shift register. */
module CrcCode {
  import opened Options
  import opened CrcTheory

  /** A checksum loop: how a register of type `W` reads as bits, the bits of a byte in the order
      they are taken in, the byte step of the loop, and the exclusive or of two registers. */
  datatype Code<!W> = Code(gen: Bits, reg: W -> Bits, byteBits: Byte -> Bits, step: (W, Byte) -> W, xor: (W, W) -> W)

  /** The byte step is the shift register fed with the bits of the byte, and both readings as
      bits lose nothing. */
  ghost predicate Faithful<W(!new)>(k: Code<W>)
  {
    && |k.gen| > 0 && k.gen[|k.gen| - 1]
    && (forall c :: |k.reg(c)| == |k.gen|)
    && (forall c, d :: k.reg(c) == k.reg(d) ==> c == d)
    && (forall b :: |k.byteBits(b)| == 8)
    && (forall a, b :: k.byteBits(a) == k.byteBits(b) ==> a == b)
    && (forall a, b :: k.byteBits(a ^ b) == Xor(k.byteBits(a), k.byteBits(b)))
    && (forall c, d :: k.reg(k.xor(c, d)) == Xor(k.reg(c), k.reg(d)))
    && (forall c, b :: k.reg(k.step(c, b)) == FeedAll(k.reg(c), k.byteBits(b), k.gen))
  }

  lemma FaithfulStep<W(!new)>(k: Code<W>, c: W, b: Byte)
    requires Faithful(k)
    ensures |k.reg(c)| == |k.gen| > 0 && |k.byteBits(b)| == 8
    ensures k.reg(k.step(c, b)) == FeedAll(k.reg(c), k.byteBits(b), k.gen)
  {
  }

  lemma FaithfulBytes<W(!new)>(k: Code<W>, a: Byte, b: Byte)
    requires Faithful(k)
    ensures |k.byteBits(a)| == |k.byteBits(b)| == 8 && (k.byteBits(a) == k.byteBits(b) ==> a == b)
  {
  }

  /** The checksum of a whole message. */
  function Crc<W>(k: Code<W>, crc: W, msg: seq<Byte>): W
    decreases |msg|
  {
    if msg == [] then crc else Crc(k, k.step(crc, msg[0]), msg[1..])
  }

  /** A message as a sequence of bits. */
  function MsgBits<W>(k: Code<W>, msg: seq<Byte>): Bits
    decreases |msg|
  {
    if msg == [] then [] else k.byteBits(msg[0]) + MsgBits(k, msg[1..])
  }

  lemma {:induction false} CrcFeeds<W(!new)>(k: Code<W>, crc: W, msg: seq<Byte>)
    requires Faithful(k)
    ensures k.reg(Crc(k, crc, msg)) == FeedAll(k.reg(crc), MsgBits(k, msg), k.gen)
    decreases |msg|
  {
    if msg != [] {
      FaithfulStep(k, crc, msg[0]);
      CrcFeeds(k, k.step(crc, msg[0]), msg[1..]);
      FeedAppend(k.reg(crc), k.byteBits(msg[0]), MsgBits(k, msg[1..]), k.gen);
    }
  }

  /** Main result: the loop computes the remainder of polynomial division. */
  lemma CrcIsDivision<W(!new)>(k: Code<W>, crc: W, msg: seq<Byte>)
    requires Faithful(k)
    ensures k.reg(Crc(k, crc, msg)) == Remainder(XorPrefix(MsgBits(k, msg) + Zeros(|k.gen|), k.reg(crc)), k.gen)
  {
    hide Crc, MsgBits;
    CrcFeeds(k, crc, msg);
    RegisterIsRemainder(k.reg(crc), MsgBits(k, msg), k.gen);
  }

  /** A checksum can be continued where another one stopped. */
  lemma {:induction false} CrcChains<W>(k: Code<W>, crc: W, a: seq<Byte>, b: seq<Byte>)
    ensures Crc(k, crc, a + b) == Crc(k, Crc(k, crc, a), b)
    decreases |a|
  {
    if a == [] {
      assert a + b == b;
    } else {
      assert (a + b)[1..] == a[1..] + b;
      CrcChains(k, k.step(crc, a[0]), a[1..], b);
    }
  }

  function XorBytes(m: seq<Byte>, n: seq<Byte>): (r: seq<Byte>)
    requires |m| == |n|
    ensures |r| == |m|
  {
    seq(|m|, i requires 0 <= i < |m| => m[i] ^ n[i])
  }

  lemma StepLinear<W(!new)>(k: Code<W>, c: W, d: W, a: Byte, b: Byte)
    requires Faithful(k)
    ensures k.step(k.xor(c, d), a ^ b) == k.xor(k.step(c, a), k.step(d, b))
  {
    FeedAllLinear(k.reg(c), k.reg(d), k.byteBits(a), k.byteBits(b), k.gen);
    var x, y := k.step(k.xor(c, d), a ^ b), k.xor(k.step(c, a), k.step(d, b));
    assert k.reg(x) == FeedAll(k.reg(k.xor(c, d)), k.byteBits(a ^ b), k.gen);
    assert k.reg(y) == Xor(k.reg(k.step(c, a)), k.reg(k.step(d, b)));
    assert k.reg(x) == k.reg(y);
  }

  /** Linearity in message and initial value. */
  lemma {:induction false} CrcLinear<W(!new)>(k: Code<W>, c: W, d: W, m: seq<Byte>, n: seq<Byte>)
    requires Faithful(k) && |m| == |n|
    ensures Crc(k, k.xor(c, d), XorBytes(m, n)) == k.xor(Crc(k, c, m), Crc(k, d, n))
    decreases |m|
  {
    hide Faithful;
    if m != [] {
      StepLinear(k, c, d, m[0], n[0]);
      assert XorBytes(m, n)[1..] == XorBytes(m[1..], n[1..]);
      CrcLinear(k, k.step(c, m[0]), k.step(d, n[0]), m[1..], n[1..]);
    }
  }

  lemma {:induction false} MsgBitsLength<W(!new)>(k: Code<W>, msg: seq<Byte>)
    requires Faithful(k)
    ensures |MsgBits(k, msg)| == 8 * |msg|
    decreases |msg|
  {
    if msg != [] {
      FaithfulBytes(k, msg[0], msg[0]);
      MsgBitsLength(k, msg[1..]);
    }
  }

  lemma {:induction false} MsgBitsInjective<W(!new)>(k: Code<W>, m: seq<Byte>, n: seq<Byte>)
    requires Faithful(k) && |m| == |n| && MsgBits(k, m) == MsgBits(k, n)
    ensures m == n
    decreases |m|
  {
    if m != [] {
      FaithfulBytes(k, m[0], n[0]);
      assert MsgBits(k, m)[..8] == k.byteBits(m[0]) && MsgBits(k, n)[..8] == k.byteBits(n[0]);
      assert MsgBits(k, m)[8..] == MsgBits(k, m[1..]) && MsgBits(k, n)[8..] == MsgBits(k, n[1..]);
      MsgBitsInjective(k, m[1..], n[1..]);
      assert m == [m[0]] + m[1..] && n == [n[0]] + n[1..];
    }
  }

  /** Two sequences that agree outside a window differ only in the middle of three parts. */
  lemma SplitWindow(a: Bits, b: Bits, lo: nat, hi: nat)
    requires |a| == |b| && lo <= hi <= |a|
    requires forall i :: 0 <= i < |a| && !(lo <= i < hi) ==> a[i] == b[i]
    ensures a == a[..lo] + a[lo..hi] + a[hi..] && b == a[..lo] + b[lo..hi] + a[hi..]
    ensures a[lo..hi] == b[lo..hi] ==> a == b
  {
    assert b[..lo] == a[..lo] && b[hi..] == a[hi..];
    assert b == b[..lo] + b[lo..hi] + b[hi..];
    assert a == a[..lo] + a[lo..hi] + a[hi..];
  }

  /** Two messages of equal length whose bits agree outside the `width` bits from `at` on. */
  ghost predicate DifferWithin<W>(k: Code<W>, m: seq<Byte>, n: seq<Byte>, at: nat, width: nat)
  {
    |m| == |n| && |MsgBits(k, m)| == |MsgBits(k, n)| &&
    forall i :: 0 <= i < |MsgBits(k, m)| && !(at <= i < at + width) ==> MsgBits(k, m)[i] == MsgBits(k, n)[i]
  }

  /** Main result: different messages that differ only within as many consecutive bits as the
      register is wide, wherever those lie, have different checksums. */
  lemma CrcDetectsBurst<W(!new)>(k: Code<W>, crc: W, m: seq<Byte>, n: seq<Byte>, at: nat)
    requires Faithful(k) && m != n && DifferWithin(k, m, n, at, |k.gen|)
    ensures Crc(k, crc, m) != Crc(k, crc, n)
  {
    hide Crc, MsgBits, FeedAll;
    var a, b, w := MsgBits(k, m), MsgBits(k, n), |k.gen|;
    var lo := if at <= |a| then at else |a|;
    var hi := if at + w <= |a| then at + w else |a|;
    SplitWindow(a, b, lo, hi);
    CrcFeeds(k, crc, m);
    CrcFeeds(k, crc, n);
    if FeedAll(k.reg(crc), a, k.gen) == FeedAll(k.reg(crc), b, k.gen) {
      BurstDetected(k.reg(crc), a[..lo], a[lo..hi], b[lo..hi], a[hi..], k.gen);
      MsgBitsInjective(k, m, n);
    }
  }

  lemma {:induction false} MsgBitsAppend<W>(k: Code<W>, a: seq<Byte>, b: seq<Byte>)
    ensures MsgBits(k, a + b) == MsgBits(k, a) + MsgBits(k, b)
    decreases |a|
  {
    if a == [] {
      assert a + b == b;
    } else {
      assert (a + b)[1..] == a[1..] + b;
      MsgBitsAppend(k, a[1..], b);
    }
  }

  /** Two messages of equal length that agree outside the `count` bytes from `at` on. */
  ghost predicate BytesWithin(m: seq<Byte>, n: seq<Byte>, at: nat, count: nat) {
    |m| == |n| && forall i :: 0 <= i < |m| && !(at <= i < at + count) ==> m[i] == n[i]
  }

  /** A message cut in three, as bits. */
  lemma MsgBitsCut<W(!new)>(k: Code<W>, m: seq<Byte>, lo: nat, hi: nat)
    requires Faithful(k) && lo <= hi <= |m|
    ensures MsgBits(k, m) == MsgBits(k, m[..lo]) + MsgBits(k, m[lo..hi]) + MsgBits(k, m[hi..])
    ensures |MsgBits(k, m[..lo])| == 8 * lo && |MsgBits(k, m[lo..hi])| == 8 * (hi - lo)
    ensures |MsgBits(k, m[hi..])| == 8 * (|m| - hi)
  {
    hide MsgBits, Faithful;
    assert m == m[..lo] + m[lo..hi] + m[hi..];
    MsgBitsAppend(k, m[..lo] + m[lo..hi], m[hi..]);
    MsgBitsAppend(k, m[..lo], m[lo..hi]);
    MsgBitsLength(k, m[..lo]);
    MsgBitsLength(k, m[lo..hi]);
    MsgBitsLength(k, m[hi..]);
  }

  lemma BytesAreBits<W(!new)>(k: Code<W>, m: seq<Byte>, n: seq<Byte>, at: nat, count: nat)
    requires Faithful(k) && BytesWithin(m, n, at, count)
    ensures DifferWithin(k, m, n, 8 * at, 8 * count)
  {
    hide MsgBits, Faithful;
    var lo := if at <= |m| then at else |m|;
    var hi := if at + count <= |m| then at + count else |m|;
    MsgBitsCut(k, m, lo, hi);
    MsgBitsCut(k, n, lo, hi);
    assert m[..lo] == n[..lo] && m[hi..] == n[hi..];
  }

  /** Messages that differ only within as many bytes as the register holds are told apart. */
  lemma CrcTellsApart<W(!new)>(k: Code<W>, crc: W, m: seq<Byte>, n: seq<Byte>, at: nat, count: nat)
    requires Faithful(k) && |k.gen| == 8 * count && BytesWithin(m, n, at, count)
    ensures Crc(k, crc, m) == Crc(k, crc, n) <==> m == n
  {
    hide Faithful, DifferWithin;
    if m != n {
      BytesAreBits(k, m, n, at, count);
      CrcDetectsBurst(k, crc, m, n, 8 * at);
    }
  }
}
