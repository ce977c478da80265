/** CalculateCRC32: what it computes, and which changes it cannot miss. */
module Crc32 {
  import opened CrcTable

  const START: bv32 := 0xFFFF_FFFF

  type Table = bv8 -> bv32

  function Low(x: bv32): bv8 { (x & 0xFF) as bv8 }

  function Mix(x: bv32, y: bv32): bv32 { x ^ y }

  /** One round of the loop: the table entry of the low byte, and the rest of the register. */
  function Round(t: Table, crc: bv32, b: bv8): bv32 { Mix(t(Low(crc) ^ b), crc >> 8) }

  function Crc(t: Table, crc: bv32, s: seq<bv8>): bv32 {
    if s == [] then crc else Round(t, Crc(t, crc, s[..|s| - 1]), s[|s| - 1])
  }

  method CalculateCRC32(t: Table, crc: bv32, s: seq<bv8>) returns (r: bv32)
    ensures r == Crc(t, crc, s)
  {
    r := crc;
    for i := 0 to |s|
      invariant r == Crc(t, crc, s[..i])
    {
      assert s[..i + 1][..i] == s[..i];
      r := Mix(t(Low(r) ^ s[i]), r >> 8);
    }
    assert s[..|s|] == s;
  }

  /** A buffer may be fed in parts. */
  lemma {:induction false} CrcConcat(t: Table, crc: bv32, a: seq<bv8>, b: seq<bv8>)
    ensures Crc(t, crc, a + b) == Crc(t, Crc(t, crc, a), b)
  {
    if b == [] {
      assert a + b == a;
    } else {
      assert (a + b)[..|a + b| - 1] == a + b[..|b| - 1];
      CrcConcat(t, crc, a, b[..|b| - 1]);
    }
  }

  // ---------- the same as dividing bit by bit ----------

  /** The table holds eight bits of polynomial division for each byte. */
  ghost predicate IsPolynomial(t: Table) {
    forall i: bv8 :: t(i) == Divide(i as bv32, 8)
  }

  lemma TableIsPolynomial()
    ensures IsPolynomial(Entry)
  {
    forall i: bv8
      ensures Entry(i) == Divide(i as bv32, 8)
    {
      EntryIsPolynomial(i);
    }
  }

  function BitwiseRound(crc: bv32, b: bv8): bv32 { Divide(Mix(crc, b as bv32), 8) }

  function BitwiseCrc(crc: bv32, s: seq<bv8>): bv32 {
    if s == [] then crc else BitwiseRound(BitwiseCrc(crc, s[..|s| - 1]), s[|s| - 1])
  }

  /** Dividing is linear as long as the bits shifted out agree. */
  lemma ShiftSplits(x: bv32, high: bv32)
    requires high & 1 == 0
    ensures Shift(Mix(x, high)) == Mix(Shift(x), high >> 1)
  {
    ShiftXor(x, high);
  }

  lemma ShiftXor(x: bv32, high: bv32)
    requires high & 1 == 0
    ensures Shift(x ^ high) == Shift(x) ^ (high >> 1)
  {
  }

  lemma DivideStep(x: bv32, y: bv32, h: bv32, half: bv32, bits: nat)
    requires Divide(y, bits) == Mix(Divide(x, bits), h) && h & 1 == 0 && half == h >> 1
    ensures Divide(y, bits + 1) == Mix(Divide(x, bits + 1), half)
  {
    ShiftSplits(Divide(x, bits), h);
  }

  lemma DivideTwoSteps(x: bv32, y: bv32, h: bv32, bits: nat)
    requires Divide(y, bits) == Mix(Divide(x, bits), h) && h & 3 == 0
    ensures Divide(y, bits + 2) == Mix(Divide(x, bits + 2), h >> 2)
  {
    DivideStep(x, y, h, h >> 1, bits);
    DivideStep(x, y, h >> 1, h >> 2, bits + 1);
  }

  lemma DivideFourSteps(x: bv32, y: bv32, h: bv32, bits: nat)
    requires Divide(y, bits) == Mix(Divide(x, bits), h) && h & 0xF == 0
    ensures Divide(y, bits + 4) == Mix(Divide(x, bits + 4), h >> 4)
  {
    DivideTwoSteps(x, y, h, bits);
    DivideTwoSteps(x, y, h >> 2, bits + 2);
  }

  lemma DivideEightSplits(x: bv32, h: bv32, y: bv32)
    requires y == Mix(x, h) && h & 0xFF == 0
    ensures Divide(y, 8) == Mix(Divide(x, 8), h >> 8)
  {
    DivideFourSteps(x, y, h, 0);
    DivideFourSteps(x, y, h >> 4, 4);
  }

  lemma SplitRegister(crc: bv32, b: bv8)
    ensures var high := crc & 0xFFFF_FF00;
            && high & 0xFF == 0 && high >> 8 == crc >> 8
            && Mix(crc, b as bv32) == Mix((Low(crc) ^ b) as bv32, high)
  {
  }

  /** One table lookup is eight rounds of polynomial division. */
  lemma RoundIsBitwise(t: Table, crc: bv32, b: bv8)
    requires IsPolynomial(t)
    ensures Round(t, crc, b) == BitwiseRound(crc, b)
  {
    var i, high := Low(crc) ^ b, crc & 0xFFFF_FF00;
    SplitRegister(crc, b);
    DivideEightSplits(i as bv32, high, Mix(crc, b as bv32));
    assert t(i) == Divide(i as bv32, 8);
  }

  /** The table-driven loop computes the CRC of its polynomial. */
  lemma {:induction false} CrcIsBitwise(t: Table, crc: bv32, s: seq<bv8>)
    requires IsPolynomial(t)
    ensures Crc(t, crc, s) == BitwiseCrc(crc, s)
  {
    if s != [] {
      CrcIsBitwise(t, crc, s[..|s| - 1]);
      RoundIsBitwise(t, Crc(t, crc, s[..|s| - 1]), s[|s| - 1]);
    }
  }

  // ---------- one changed byte changes the CRC ----------

  /** Division steps can be undone. */
  lemma ShiftInjective(x: bv32, y: bv32)
    ensures Shift(x) == Shift(y) ==> x == y
  {
  }

  lemma {:induction false} DivideInjective(x: bv32, y: bv32, bits: nat)
    ensures Divide(x, bits) == Divide(y, bits) ==> x == y
  {
    if bits > 0 {
      DivideInjective(x, y, bits - 1);
      ShiftInjective(Divide(x, bits - 1), Divide(y, bits - 1));
    }
  }

  /** One round is injective in the register and in the byte. */
  lemma RoundInjective(t: Table, c: bv32, d: bv32, a: bv8, b: bv8)
    requires IsPolynomial(t)
    ensures Round(t, c, a) == Round(t, d, a) ==> c == d
    ensures Round(t, c, a) == Round(t, c, b) ==> a == b
  {
    RoundIsBitwise(t, c, a);
    RoundIsBitwise(t, d, a);
    RoundIsBitwise(t, c, b);
    DivideInjective(Mix(c, a as bv32), Mix(d, a as bv32), 8);
    DivideInjective(Mix(c, a as bv32), Mix(c, b as bv32), 8);
    XorCancels(c, d, a, b);
  }

  lemma XorCancels(c: bv32, d: bv32, a: bv8, b: bv8)
    ensures Mix(c, a as bv32) == Mix(d, a as bv32) ==> c == d
    ensures Mix(c, a as bv32) == Mix(c, b as bv32) ==> a == b
  {
  }

  lemma {:induction false} RegisterMatters(t: Table, c: bv32, d: bv32, s: seq<bv8>)
    requires IsPolynomial(t) && c != d
    ensures Crc(t, c, s) != Crc(t, d, s)
  {
    if s != [] {
      RegisterMatters(t, c, d, s[..|s| - 1]);
      RoundInjective(t, Crc(t, c, s[..|s| - 1]), Crc(t, d, s[..|s| - 1]), s[|s| - 1], s[|s| - 1]);
    }
  }

  /** Two buffers that differ in exactly one byte never have the same CRC. */
  lemma OneByteMatters(t: Table, crc: bv32, s: seq<bv8>, i: nat, b: bv8)
    requires IsPolynomial(t) && i < |s| && s[i] != b
    ensures Crc(t, crc, s[i := b]) != Crc(t, crc, s)
  {
    var c, rest := Crc(t, crc, s[..i]), s[i + 1..];
    RoundInjective(t, c, c, s[i], b);
    RegisterMatters(t, Round(t, c, s[i]), Round(t, c, b), rest);
    CrcOfThree(t, crc, s[..i], s[i], rest);
    CrcOfThree(t, crc, s[..i], b, rest);
    assert s == s[..i] + [s[i]] + rest && s[i := b] == s[..i] + [b] + rest;
  }

  lemma CrcOfThree(t: Table, crc: bv32, a: seq<bv8>, x: bv8, b: seq<bv8>)
    ensures Crc(t, crc, a + [x] + b) == Crc(t, Round(t, Crc(t, crc, a), x), b)
  {
    CrcConcat(t, crc, a + [x], b);
    assert (a + [x])[..|a|] == a;
  }
}
