/** Bytes as bit vectors: exclusive or, which is also addition in GF(2^8), and the byte of a number. */
module ByteXor {

  function Add(x: bv8, y: bv8): bv8 {
    x ^ y
  }

  lemma AddTwice(x: bv8, y: bv8)
    ensures Add(Add(x, y), y) == x
  {}

  lemma NextByte(b: bv8)
    requires b != 255
    ensures (b + 1) as nat == b as nat + 1
  {}

  /** The byte with the value n, counted up from 0. */
  function Counted(n: nat): (b: bv8)
    requires n < 256
    ensures b as nat == n
  {
    if n == 0 then 0
    else
      var b := Counted(n - 1);
      assert b != 255;
      NextByte(b);
      b + 1
  }

  /** A number below 256 survives as a byte. */
  lemma ByteOfNumber(n: nat)
    requires n < 256
    ensures (n as bv8) as nat == n
  {
    var b := Counted(n);
    assert b as nat == n;
  }
}
