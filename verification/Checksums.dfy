/** The XOR checksums of ref/SerialLink.c, product/zwave/src/frame.c and ref/conhandle.c. */
module Checksums {
  import opened Options

  function Xor(a: Byte, b: Byte): Byte {
    a ^ b
  }

  function XorAll(acc: Byte, data: seq<Byte>): Byte
    decreases |data|
  {
    if data == [] then acc else XorAll(Xor(acc, data[0]), data[1..])
  }

  lemma XorNext(acc: Byte, data: seq<Byte>)
    ensures XorAll(acc, []) == acc
    ensures data != [] ==> XorAll(acc, data) == XorAll(Xor(acc, data[0]), data[1..])
  {
  }

  lemma {:induction false} XorAppend(acc: Byte, a: seq<Byte>, b: seq<Byte>)
    ensures XorAll(acc, a + b) == XorAll(XorAll(acc, a), b)
    decreases |a|
  {
    hide Xor;
    if a == [] {
      assert a + b == b;
    } else {
      assert (a + b)[1..] == a[1..] + b;
      XorAppend(Xor(acc, a[0]), a[1..], b);
    }
  }

  lemma XorCancels(a: Byte, b: Byte, c: Byte)
    ensures (Xor(c, a) == Xor(c, b)) <==> a == b
    ensures (Xor(a, c) == Xor(b, c)) <==> a == b
  {
  }

  /** Different running sums stay different over the same bytes. */
  lemma {:induction false} XorInjective(a: Byte, b: Byte, data: seq<Byte>)
    ensures (XorAll(a, data) == XorAll(b, data)) <==> a == b
    decreases |data|
  {
    hide Xor;
    if data != [] {
      XorCancels(a, b, data[0]);
      XorInjective(Xor(a, data[0]), Xor(b, data[0]), data[1..]);
    }
  }

  lemma XorAround(acc: Byte, before: seq<Byte>, b: Byte, after: seq<Byte>)
    ensures XorAll(acc, before + ([b] + after)) == XorAll(Xor(XorAll(acc, before), b), after)
  {
    hide Xor, XorAll;
    XorAppend(acc, before, [b] + after);
    XorNext(XorAll(acc, before), [b] + after);
    assert ([b] + after)[1..] == after;
  }

  /** A single changed byte always changes the sum. */
  lemma SingleChange(acc: Byte, data: seq<Byte>, i: nat, b: Byte)
    requires i < |data|
    ensures (XorAll(acc, data[i := b]) == XorAll(acc, data)) <==> b == data[i]
  {
    hide Xor, XorAll;
    var before, after := data[..i], data[i + 1..];
    var x := XorAll(acc, before);
    assert data == before + ([data[i]] + after) && data[i := b] == before + ([b] + after);
    XorAround(acc, before, data[i], after);
    XorAround(acc, before, b, after);
    XorInjective(Xor(x, data[i]), Xor(x, b), after);
    XorCancels(data[i], b, x);
  }

  // ---------------------------------------------------------------- bit by bit

  function Mask(k: nat): Byte
    requires k < 8
  {
    [0x01, 0x02, 0x04, 0x08, 0x10, 0x20, 0x40, 0x80][k]
  }

  /** Bit `k` of a byte, the lowest first. */
  predicate BitOf(b: Byte, k: nat)
    requires k < 8
  {
    b & Mask(k) != 0
  }

  /** How many of the bytes have bit `k` set. */
  function CountBit(s: seq<Byte>, k: nat): nat
    requires k < 8
    decreases |s|
  {
    if s == [] then 0 else (if BitOf(s[0], k) then 1 else 0) + CountBit(s[1..], k)
  }

  lemma BitOfXor(a: Byte, b: Byte, k: nat)
    requires k < 8
    ensures BitOf(Xor(a, b), k) <==> BitOf(a, k) != BitOf(b, k)
  {
    BitsOfXor(a, b, Mask(k));
  }

  lemma BitsOfXor(a: Byte, b: Byte, m: Byte)
    requires m in [0x01, 0x02, 0x04, 0x08, 0x10, 0x20, 0x40, 0x80]
    ensures Xor(a, b) & m != 0 <==> (a & m != 0) != (b & m != 0)
  {
  }

  /** Main result: the checksum counts bits.  Bit `k` of it is that of the initial value, turned over
      once for every byte that has it. */
  lemma {:induction false} XorCountsBits(acc: Byte, data: seq<Byte>, k: nat)
    requires k < 8
    ensures BitOf(XorAll(acc, data), k) <==> BitOf(acc, k) == (CountBit(data, k) % 2 == 0)
    decreases |data|
  {
    hide Xor, BitOf;
    if data != [] {
      BitOfXor(acc, data[0], k);
      XorCountsBits(Xor(acc, data[0]), data[1..], k);
    }
  }
}
