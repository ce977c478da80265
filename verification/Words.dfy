/** Bytes, 512-byte sectors and the little-endian words the firmware overlays on them. */
module Words {

  const WORD: nat := 0x1_0000_0000   // unsigned long is 32 bits wide on the ARM7
  const HALF: nat := 0x1_0000        // unsigned short
  const SECTOR_BYTES: nat := 512

  type Byte = x: int | 0 <= x < 256
  type Sector = s: seq<Byte> | |s| == SECTOR_BYTES witness seq(SECTOR_BYTES, _ => 0)

  function Blank(): Sector { seq(SECTOR_BYTES, _ => 0) }

  function Le16(s: seq<Byte>, at: nat): (v: nat)
    requires at + 2 <= |s|
    ensures v < HALF
  {
    s[at] as int + 0x100 * s[at + 1] as int
  }

  function Le32(s: seq<Byte>, at: nat): (v: nat)
    requires at + 4 <= |s|
    ensures v < WORD
  {
    s[at] as int + 0x100 * s[at + 1] as int + 0x1_0000 * s[at + 2] as int + 0x100_0000 * s[at + 3] as int
  }

  function PutLe16(s: seq<Byte>, at: nat, v: nat): (r: seq<Byte>)
    requires at + 2 <= |s|
    ensures |r| == |s|
  {
    s[at := v % 0x100][at + 1 := (v / 0x100) % 0x100]
  }

  function PutLe32(s: seq<Byte>, at: nat, v: nat): (r: seq<Byte>)
    requires at + 4 <= |s|
    ensures |r| == |s|
  {
    s[at := v % 0x100][at + 1 := (v / 0x100) % 0x100]
     [at + 2 := (v / 0x1_0000) % 0x100][at + 3 := (v / 0x100_0000) % 0x100]
  }

  /** A stored half word reads back, and so does every half word that does not overlap it. */
  lemma PutLe16Reads(s: seq<Byte>, at: nat, v: nat, other: nat)
    requires at + 2 <= |s| && v < HALF
    requires other + 2 <= |s| && (other + 2 <= at || at + 2 <= other)
    ensures Le16(PutLe16(s, at, v), at) == v
    ensures Le16(PutLe16(s, at, v), other) == Le16(s, other)
  {
  }

  lemma PutLe32Reads(s: seq<Byte>, at: nat, v: nat, other: nat)
    requires at + 4 <= |s| && v < WORD
    requires other + 4 <= |s| && (other + 4 <= at || at + 4 <= other)
    ensures Le32(PutLe32(s, at, v), at) == v
    ensures Le32(PutLe32(s, at, v), other) == Le32(s, other)
  {
    WordDigits(v);
  }

  lemma PutLe16ReadsBack(s: seq<Byte>, at: nat, v: nat)
    requires at + 2 <= |s| && v < HALF
    ensures Le16(PutLe16(s, at, v), at) == v
  {
  }

  lemma PutLe32ReadsBack(s: seq<Byte>, at: nat, v: nat)
    requires at + 4 <= |s| && v < WORD
    ensures Le32(PutLe32(s, at, v), at) == v
  {
    WordDigits(v);
  }

  lemma WordDigits(v: nat)
    requires v < WORD
    ensures v % 0x100 + 0x100 * ((v / 0x100) % 0x100) + 0x1_0000 * ((v / 0x1_0000) % 0x100)
            + 0x100_0000 * ((v / 0x100_0000) % 0x100) == v
  {
    assert v / 0x1_0000 == (v / 0x100) / 0x100;
    assert v / 0x100_0000 == (v / 0x1_0000) / 0x100;
  }

  /** Quotient and remainder are the only way to write n = d * q + r with r < d. */
  lemma DivModUnique(n: int, d: int, q: int, r: int)
    requires d > 0 && 0 <= r < d && n == d * q + r
    ensures n / d == q && n % d == r
  {
    if q < n / d {
      assert d * (q + 1) <= d * (n / d) by { MulMonotone(d, q + 1, n / d); }
    } else if n / d < q {
      assert d * (n / d + 1) <= d * q by { MulMonotone(d, n / d + 1, q); }
    }
  }

  lemma NoWrap(n: nat)
    requires n < WORD
    ensures n % WORD == n
  {
  }

  lemma MulMonotone(d: int, a: int, b: int)
    requires d >= 0 && a <= b
    ensures d * a <= d * b
  {
  }

  lemma DivMonotone(a: int, b: int, d: int)
    requires d > 0 && a <= b
    ensures a / d <= b / d
  {
    if b / d < a / d {
      MulMonotone(d, b / d + 1, a / d);
    }
  }
}
