/** Bytes as bit vectors. */
module ByteBits {

  function Bv(b: int): bv8
    requires 0 <= b < 256
  {
    b as bv8
  }

  lemma Converts(a: int)
    requires 0 <= a < 256
    ensures (a as bv8) as int == a
  {
  }

  lemma BvReads(a: int)
    requires 0 <= a < 256
    ensures Bv(a) as int == a
  {
    Converts(a);
  }

  lemma BvInjective(a: int, b: int)
    requires 0 <= a < 256 && 0 <= b < 256
    ensures Bv(a) == Bv(b) ==> a == b
  {
    BvReads(a);
    BvReads(b);
  }

  lemma IntReads(v: bv8)
    ensures 0 <= v as int < 256 && Bv(v as int) == v
  {
  }
}
