/** Cylinder/head/sector addresses of an IDE unit and the geometry invented for an image. */
module Chs {
  import opened Words

  datatype Address = Address(cylinder: nat, head: nat, sector: nat)

  /** Heads per cylinder and sectors per track. */
  datatype Track = Track(heads: nat, sectors: nat)
  {
    predicate Valid() { 1 <= heads <= 16 && 1 <= sectors <= 255 }
  }

  predicate IsAddress(g: Track, a: Address) {
    a.cylinder < HALF && a.head < g.heads && 1 <= a.sector <= g.sectors
  }

  /** chs2lba. */
  function ToLba(g: Track, a: Address): int {
    (a.cylinder * g.heads + a.head) * g.sectors + a.sector - 1
  }

  function Quotient(n: nat, d: nat): nat
    requires d > 0
  {
    n / d
  }

  function FromLba(g: Track, lba: nat): Address
    requires g.Valid()
  {
    var t := Quotient(lba, g.sectors);
    Address(Quotient(t, g.heads), t % g.heads, lba % g.sectors + 1)
  }

  /** The blocks of a unit and the addresses below its last cylinder correspond: FromLba and ToLba are
      inverse. */
  lemma ToLbaOfFromLba(g: Track, cylinders: nat, lba: nat)
    requires g.Valid() && cylinders <= HALF
    ensures ToLba(g, FromLba(g, lba)) == lba
    ensures lba < cylinders * g.heads * g.sectors ==>
              IsAddress(g, FromLba(g, lba)) && FromLba(g, lba).cylinder < cylinders
  {
    var t := lba / g.sectors;
    Recompose(t, g.heads);
    Recompose(lba, g.sectors);
    if cylinders <= t / g.heads {
      MulMonotone(g.heads, cylinders, t / g.heads);
      Larger(cylinders, g.sectors, g.heads, t);
    }
  }

  lemma Recompose(n: nat, d: nat)
    requires d > 0
    ensures n == n / d * d + n % d && 0 <= n / d && 0 <= n % d < d
  {
  }

  lemma Larger(cylinders: nat, sectors: nat, heads: nat, t: nat)
    requires heads * cylinders <= t
    ensures cylinders * heads * sectors <= sectors * t
  {
    MulMonotone(sectors, heads * cylinders, t);
  }

  /** A digit string with a smaller leading part is smaller. */
  lemma Below(q: nat, limit: nat, d: nat, r: nat)
    requires q < limit && r < d
    ensures q * d + r < limit * d
  {
    MulMonotone(d, q + 1, limit);
  }

  lemma FromLbaOfToLba(g: Track, cylinders: nat, a: Address)
    requires g.Valid() && IsAddress(g, a) && a.cylinder < cylinders
    ensures 0 <= ToLba(g, a) < cylinders * g.heads * g.sectors && FromLba(g, ToLba(g, a)) == a
  {
    var t := a.cylinder * g.heads + a.head;
    DivModUnique(t, g.heads, a.cylinder, a.head);
    DivModUnique(t * g.sectors + (a.sector - 1), g.sectors, t, a.sector - 1);
    Below(a.cylinder, cylinders, g.heads, a.head);
    Below(t, cylinders * g.heads, g.sectors, a.sector - 1);
  }

  /** One step of the task file inside a transfer. */
  function Step(g: Track, a: Address): Address {
    if a.sector == g.sectors then
      if a.head + 1 == g.heads then Address((a.cylinder + 1) % HALF, 0, 1)
      else Address(a.cylinder, a.head + 1, 1)
    else Address(a.cylinder, a.head, a.sector + 1)
  }

  lemma StepAdvances(g: Track, a: Address)
    requires g.Valid() && IsAddress(g, a) && ToLba(g, a) + 1 < HALF * g.heads * g.sectors
    ensures IsAddress(g, Step(g, a)) && ToLba(g, Step(g, a)) == ToLba(g, a) + 1
  {
    var t := a.cylinder * g.heads + a.head;
    assert (t + 1) * g.sectors == t * g.sectors + g.sectors;
    if a.head + 1 == g.heads {
      assert t + 1 == (a.cylinder + 1) * g.heads;
    }
  }

  /** The address after n sectors of a transfer that began at a. */
  function Steps(g: Track, a: Address, n: nat): Address {
    if n == 0 then a else Step(g, Steps(g, a, n - 1))
  }

  /** Stepping n times is adding n to the LBA, and never leaves the valid addresses. */
  lemma {:induction false} StepsAdvance(g: Track, a: Address, n: nat)
    requires g.Valid() && IsAddress(g, a) && ToLba(g, a) + n < HALF * g.heads * g.sectors
    ensures IsAddress(g, Steps(g, a, n)) && ToLba(g, Steps(g, a, n)) == ToLba(g, a) + n
  {
    if n > 0 {
      StepsAdvance(g, a, n - 1);
      StepAdvances(g, Steps(g, a, n - 1));
    }
  }

  /** READ and WRITE MULTIPLE step the task file block by block; the last sector is not stepped
      over, so N sectors end at the address of sector N. */
  method StepMultiple(g: Track, a: Address, count: nat, perBlock: nat) returns (last: Address, blocks: nat)
    requires count > 0 && perBlock > 0
    ensures last == Steps(g, a, count - 1)
    ensures blocks == (count + perBlock - 1) / perBlock
  {
    var left: nat, done: nat := count, 0;
    last, blocks := a, 0;
    while left > 0
      invariant left <= count && last == Steps(g, a, if left == 0 then count - 1 else count - left)
      invariant left == if blocks * perBlock <= count then count - blocks * perBlock else 0
      invariant left > 0 ==> blocks * perBlock < count
      invariant blocks > 0 ==> (blocks - 1) * perBlock < count
    {
      var block := if left > perBlock then perBlock else left;
      ghost var before := left;
      while block > 0
        invariant block <= left <= before
        invariant last == Steps(g, a, if left == 0 then count - 1 else count - left)
        invariant left - block == if before > perBlock then before - perBlock else 0
      {
        if left != 1 { last := Step(g, last); }
        left, block := left - 1, block - 1;
      }
      blocks := blocks + 1;
    }
    DivModUnique(count + perBlock - 1, perBlock, blocks, count + perBlock - 1 - perBlock * blocks);
  }

  // ---------- geometry of an image, card or partition ----------

  const SPT: seq<nat> := [63, 127, 255]

  /** The break conditions of the inner search loop. */
  predicate Acceptable(total: nat, head: nat, cyl: nat) {
    if total <= 1024 * 1024 then cyl <= 1023
    else cyl < 16383 || (cyl < 32767 && head >= 5) || cyl <= 65535
  }

  function Cylinders(total: nat, heads: nat, sectors: nat): nat
    requires heads * sectors > 0
  {
    total / (heads * sectors)
  }

  /** (spt, head) is tried before (spt', head'). */
  predicate TriedBefore(i: nat, head: nat, i': nat, head': nat) {
    i < i' || (i == i' && head < head')
  }

  /** GetHardfileGeometry for a plain image, a card or a partition of `total` sectors. */
  method GetHardfileGeometry(total: nat) returns (cylinders: nat, heads: nat, sectors: nat, ghost i: nat)
    requires total < 65536 * 16 * 255
    ensures i < |SPT| && sectors == SPT[i] && 4 <= heads <= 16
    ensures cylinders <= (if total <= 1024 * 1024 then 1023 else 65535)
    ensures cylinders * heads * sectors <= total < (cylinders + 1) * heads * sectors
    ensures forall k, h :: 0 <= k < |SPT| && 4 <= h <= 16 && TriedBefore(k, h, i, heads) ==>
              Cylinders(total, h, SPT[k]) > if total <= 1024 * 1024 then 1023 else 65535
  {
    var k, cyl := 0, 0;
    heads, sectors := 4, 63;
    assert Acceptable(total, 16, Cylinders(total, 16, SPT[2]));
    while k < |SPT|
      invariant 0 <= k <= |SPT|
      invariant forall j, h :: 0 <= j < k && 4 <= h <= 16 ==> !Acceptable(total, h, Cylinders(total, h, SPT[j]))
    {
      sectors := SPT[k];
      heads := 4;
      while heads <= 16
        invariant 4 <= heads <= 17
        invariant forall h :: 4 <= h < heads ==> !Acceptable(total, h, Cylinders(total, h, SPT[k]))
      {
        cyl := Cylinders(total, heads, sectors);
        if Acceptable(total, heads, cyl) { break; }
        heads := heads + 1;
      }
      if heads <= 16 { break; }
      k := k + 1;
    }
    i := k;
    cylinders := cyl % HALF;
  }
}
