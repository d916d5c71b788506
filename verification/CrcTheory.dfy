/** Cyclic redundancy checks over bit sequences, for any width and any generator: the shift
    register, its meaning as polynomial division, and what it detects.  A generator of degree `w`
    is given by its `w` lower coefficients, the highest first. */
module CrcTheory {

  type Bits = seq<bool>

  function Xor(a: Bits, b: Bits): (c: Bits)
    requires |a| == |b|
    ensures |c| == |a| && forall i :: 0 <= i < |a| ==> c[i] == (a[i] != b[i])
  {
    seq(|a|, i requires 0 <= i < |a| => a[i] != b[i])
  }

  lemma XorFirst(x: bool, y: bool, a: Bits, b: Bits)
    requires |a| == |b|
    ensures Xor([x] + a, [y] + b) == [x != y] + Xor(a, b) && Xor([], []) == []
  {
  }

  function Zeros(n: nat): (z: Bits)
    ensures |z| == n && forall i :: 0 <= i < n ==> !z[i]
  {
    seq(n, _ => false)
  }

  /** One turn of the register: shift out the first bit, and subtract the generator if it was set. */
  function Shift(reg: Bits, g: Bits): (r: Bits)
    requires |reg| == |g| > 0
    ensures |r| == |g|
  {
    var s := reg[1..] + [false];
    if reg[0] then Xor(s, g) else s
  }

  function Shifts(reg: Bits, n: nat, g: Bits): (r: Bits)
    requires |reg| == |g| > 0
    ensures |r| == |g|
    decreases n
  {
    if n == 0 then reg else Shifts(Shift(reg, g), n - 1, g)
  }

  /** Take in one message bit. */
  function Feed(reg: Bits, bit: bool, g: Bits): (r: Bits)
    requires |reg| == |g| > 0
    ensures |r| == |g|
  {
    Shift(reg[0 := reg[0] != bit], g)
  }

  function FeedAll(reg: Bits, bits: Bits, g: Bits): (r: Bits)
    requires |reg| == |g| > 0
    ensures |r| == |g|
    decreases |bits|
  {
    if bits == [] then reg else FeedAll(Feed(reg, bits[0], g), bits[1..], g)
  }

  lemma {:induction false} FeedAppend(reg: Bits, a: Bits, b: Bits, g: Bits)
    requires |reg| == |g| > 0
    ensures FeedAll(reg, a + b, g) == FeedAll(FeedAll(reg, a, g), b, g)
    decreases |a|
  {
    if a == [] {
      assert a + b == b;
    } else {
      assert (a + b)[1..] == a[1..] + b;
      FeedAppend(Feed(reg, a[0], g), a[1..], b, g);
    }
  }

  // ---------------------------------------------------------------- polynomial division

  /** `d` with `r` subtracted from its leading coefficients. */
  function XorPrefix(d: Bits, r: Bits): (e: Bits)
    requires |r| <= |d|
    ensures |e| == |d|
  {
    Xor(d[..|r|], r) + d[|r|..]
  }

  /** Long division: the remainder of the polynomial `d`, highest coefficient first. */
  function Remainder(d: Bits, g: Bits): (r: Bits)
    requires |g| > 0
    ensures |d| >= |g| ==> |r| == |g|
    decreases |d|
  {
    if |d| <= |g| then d
    else if d[0] then Remainder(XorPrefix(d[1..], g), g)
    else Remainder(d[1..], g)
  }

  /** The register holds the remainder of the message, followed by as many zeros as the register
      is wide, with the initial register added to the leading coefficients. */
  lemma {:induction false} RegisterIsRemainder(init: Bits, bits: Bits, g: Bits)
    requires |init| == |g| > 0
    ensures FeedAll(init, bits, g) == Remainder(XorPrefix(bits + Zeros(|g|), init), g)
    decreases |bits|
  {
    var d := XorPrefix(bits + Zeros(|g|), init);
    if bits == [] {
      assert d == init;
    } else {
      var rest := bits[1..] + Zeros(|g|);
      assert (bits + Zeros(|g|))[1..] == rest;
      var s := init[1..] + [false];
      assert d[1..] == XorPrefix(rest, s);
      assert d[0] == (init[0] != bits[0]);
      var next := Feed(init, bits[0], g);
      if d[0] {
        assert XorPrefix(d[1..], g) == XorPrefix(rest, Xor(s, g));
      }
      RegisterIsRemainder(next, bits[1..], g);
    }
  }

  // ---------------------------------------------------------------- detection

  /** Feeding up to `w` bits one by one is adding them to the register at once and shifting. */
  lemma {:induction false} Preload(reg: Bits, v: Bits, g: Bits)
    requires |v| <= |reg| == |g| && |g| > 0
    ensures FeedAll(reg, v, g) == Shifts(Xor(reg, v + Zeros(|g| - |v|)), |v|, g)
    decreases |v|
  {
    var full := Xor(reg, v + Zeros(|g| - |v|));
    if v == [] {
      assert full == reg;
    } else {
      var next := Feed(reg, v[0], g);
      Preload(next, v[1..], g);
      assert Shift(full, g) == Xor(next, v[1..] + Zeros(|g| - |v| + 1));
    }
  }

  lemma ShiftInjective(a: Bits, b: Bits, g: Bits)
    requires |a| == |b| == |g| > 0 && g[|g| - 1]
    ensures Shift(a, g) == Shift(b, g) <==> a == b
  {
    if Shift(a, g) == Shift(b, g) {
      var n := |g| - 1;
      assert Shift(a, g)[n] == a[0] && Shift(b, g)[n] == b[0];
      forall i | 0 < i <= n
        ensures a[i] == b[i]
      {
        assert Shift(a, g)[i - 1] == (a[i] != (a[0] && g[i - 1]));
        assert Shift(b, g)[i - 1] == (b[i] != (b[0] && g[i - 1]));
      }
    }
  }

  lemma {:induction false} ShiftsInjective(a: Bits, b: Bits, n: nat, g: Bits)
    requires |a| == |b| == |g| > 0 && g[|g| - 1]
    ensures Shifts(a, n, g) == Shifts(b, n, g) <==> a == b
    decreases n
  {
    if n > 0 {
      ShiftsInjective(Shift(a, g), Shift(b, g), n - 1, g);
      ShiftInjective(a, b, g);
    }
  }

  lemma FeedInjective(a: Bits, b: Bits, bit: bool, g: Bits)
    requires |a| == |b| == |g| > 0 && g[|g| - 1]
    ensures Feed(a, bit, g) == Feed(b, bit, g) <==> a == b
  {
    var a', b' := a[0 := a[0] != bit], b[0 := b[0] != bit];
    ShiftInjective(a', b', g);
    if a' == b' {
      assert a'[0] == b'[0];
      assert forall i :: 0 < i < |g| ==> a[i] == a'[i] == b'[i] == b[i];
    }
  }

  /** From then on different registers stay different. */
  lemma {:induction false} FeedAllInjective(a: Bits, b: Bits, bits: Bits, g: Bits)
    requires |a| == |b| == |g| > 0 && g[|g| - 1]
    ensures FeedAll(a, bits, g) == FeedAll(b, bits, g) <==> a == b
    decreases |bits|
  {
    hide Feed;
    if bits != [] {
      FeedAllInjective(Feed(a, bits[0], g), Feed(b, bits[0], g), bits[1..], g);
      FeedInjective(a, b, bits[0], g);
    }
  }

  lemma WindowInjective(r: Bits, v: Bits, v': Bits, g: Bits)
    requires |r| == |g| > 0 && g[|g| - 1] && |v| == |v'| <= |g|
    ensures FeedAll(r, v, g) == FeedAll(r, v', g) <==> v == v'
  {
    hide FeedAll, Shifts;
    Preload(r, v, g);
    Preload(r, v', g);
    var z := Zeros(|g| - |v|);
    var a, b := Xor(r, v + z), Xor(r, v' + z);
    ShiftsInjective(a, b, |v|, g);
    if a == b {
      forall i | 0 <= i < |v|
        ensures v[i] == v'[i]
      {
        assert a[i] == (r[i] != v[i]) && b[i] == (r[i] != v'[i]);
      }
    }
  }

  /** Every burst error of at most `w` bits changes the checksum: two messages that agree except
      in a window of that length have the same register if and only if they are the same message. */
  lemma BurstDetected(reg: Bits, p: Bits, v: Bits, v': Bits, s: Bits, g: Bits)
    requires |reg| == |g| > 0 && g[|g| - 1]
    requires |v| == |v'| <= |g|
    ensures FeedAll(reg, p + v + s, g) == FeedAll(reg, p + v' + s, g) <==> v == v'
  {
    hide FeedAll;
    FeedAppend(reg, p + v, s, g);
    FeedAppend(reg, p + v', s, g);
    FeedAllInjective(FeedAll(reg, p + v, g), FeedAll(reg, p + v', g), s, g);
    FeedAppend(reg, p, v, g);
    FeedAppend(reg, p, v', g);
    WindowInjective(FeedAll(reg, p, g), v, v', g);
  }

  // ---------------------------------------------------------------- linearity

  lemma ShiftLinear(a: Bits, b: Bits, g: Bits)
    requires |a| == |b| == |g| > 0
    ensures Shift(Xor(a, b), g) == Xor(Shift(a, g), Shift(b, g))
  {
  }

  lemma {:induction false} ShiftsLinear(a: Bits, b: Bits, n: nat, g: Bits)
    requires |a| == |b| == |g| > 0
    ensures Shifts(Xor(a, b), n, g) == Xor(Shifts(a, n, g), Shifts(b, n, g))
    decreases n
  {
    if n > 0 {
      ShiftLinear(a, b, g);
      ShiftsLinear(Shift(a, g), Shift(b, g), n - 1, g);
    }
  }

  lemma {:induction false} FeedAllLinear(a: Bits, b: Bits, u: Bits, v: Bits, g: Bits)
    requires |a| == |b| == |g| > 0 && |u| == |v|
    ensures FeedAll(Xor(a, b), Xor(u, v), g) == Xor(FeedAll(a, u, g), FeedAll(b, v, g))
    decreases |u|
  {
    if u != [] {
      var a', b' := a[0 := a[0] != u[0]], b[0 := b[0] != v[0]];
      assert Xor(a, b)[0 := Xor(a, b)[0] != Xor(u, v)[0]] == Xor(a', b');
      ShiftLinear(a', b', g);
      assert Xor(u, v)[1..] == Xor(u[1..], v[1..]);
      FeedAllLinear(Feed(a, u[0], g), Feed(b, v[0], g), u[1..], v[1..], g);
    }
  }

  lemma {:induction false} ZerosStayZero(n: nat, g: Bits)
    requires |g| > 0
    ensures Shifts(Zeros(|g|), n, g) == Zeros(|g|)
    decreases n
  {
    if n > 0 {
      assert Shift(Zeros(|g|), g) == Zeros(|g|);
      ZerosStayZero(n - 1, g);
    }
  }

  lemma GeneratorLeavesNothing(g: Bits)
    requires |g| > 0
    ensures FeedAll(Zeros(|g|), [true] + g, g) == Zeros(|g|)
  {
    assert ([true] + g)[1..] == g;
    var s := Zeros(|g|)[0 := true];
    assert s[1..] + [false] == Zeros(|g|);
    assert Feed(Zeros(|g|), true, g) == g;
    Preload(g, g, g);
    assert g + Zeros(0) == g;
    assert Xor(g, g) == Zeros(|g|);
    ZerosStayZero(|g|, g);
  }

  /** The bound is sharp: an error shaped like the generator, one bit longer, goes unnoticed. */
  lemma LongerBurstMissed(reg: Bits, p: Bits, v: Bits, s: Bits, g: Bits)
    requires |reg| == |g| > 0 && |v| == |g| + 1
    ensures FeedAll(reg, p + v + s, g) == FeedAll(reg, p + Xor(v, [true] + g) + s, g)
  {
    var e := [true] + g;
    var v' := Xor(v, e);
    FeedAppend(reg, p + v, s, g);
    FeedAppend(reg, p + v', s, g);
    FeedAppend(reg, p, v, g);
    FeedAppend(reg, p, v', g);
    var r, z := FeedAll(reg, p, g), Zeros(|g|);
    hide FeedAll;
    FeedAllLinear(r, z, v, e, g);
    assert Xor(r, z) == r;
    GeneratorLeavesNothing(g);
    assert Xor(FeedAll(r, v, g), z) == FeedAll(r, v, g);
  }
}
