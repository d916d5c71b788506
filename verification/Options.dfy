// What every component shares.
module Options {

  /** A value, or the source's NULL / "not there". */
  datatype Option<+T> = None | Some(value: T)

  type Byte = bv8

  /** Conversions between a byte and its value. */
  function ToByte(n: nat): (b: Byte)
    requires n < 256
    ensures ToNat(b) == n
  {
    ToNatOfByte(n);
    n as Byte
  }

  function ToNat(b: Byte): (n: nat)
    ensures n < 256
  {
    b as nat
  }

  lemma ToNatOfByte(n: nat)
    requires n < 256
    ensures (n as Byte) as int == n
  {
    if n < 128 {
      if n < 64 {
      } else {
      }
    } else if n < 192 {
    } else {
    }
  }

  lemma ByteOfNat(b: Byte)
    ensures ToByte(ToNat(b)) == b
  {
  }
}
