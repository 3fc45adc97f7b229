/** Bytes as the firmware handles them (uint8_t), and their numeric values. */
module Bytes {

  type Byte = bv8

  /** The byte holding a number below 256. */
  function ByteOfNat(w: nat): (b: Byte)
    requires w < 256
    ensures b as int == w
  {
    if w == 0 then 0
    else
      var p := ByteOfNat(w - 1);
      ByteSucc(p);
      p + 1
  }

  /** Below 255, adding one to a byte does not wrap. */
  lemma ByteSucc(b: Byte)
    requires b != 255
    ensures (b + 1) as int == b as int + 1
  {
  }

  /** A byte is determined by its numeric value. */
  lemma ByteOfInt(x: Byte, y: Byte)
    requires x as int == y as int
    ensures x == y
  {
  }
}
