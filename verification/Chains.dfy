/** The file allocation table as a heap of linked lists: chains, allocation, truncation, and
    what every run of the operations keeps. */
module Chains {

  /** The two table formats.  Cluster numbers of the data area are 2 <= c < clusterLimit; the
      table itself may have more entries than that. */
  datatype Shape = Shape(fat32: bool, clusterLimit: nat)
  {
    function Eoc(): nat { if fat32 then 0x0FFF_FFFF else 0xFFFF }

    function Link(v: nat): nat { if fat32 then v % 0x1000_0000 else v }

    predicate Valid() {
      2 <= clusterLimit <= if fat32 then 0x0FFF_FFF0 else 0xFFF0
    }
  }

  /** The end mark is the largest link that an entry can hold, and no cluster has that number. */
  lemma EocIsLast(g: Shape, v: nat, cluster: nat)
    requires g.Valid() && v < (if g.fat32 then 0x1_0000_0000 else 0x1_0000) && cluster < g.clusterLimit
    ensures g.Link(g.Eoc()) == g.Eoc() && g.Link(v) <= g.Eoc() && cluster < g.Eoc()
  {
  }

  type Table = seq<nat>
  type Chain = seq<nat>

  /** What the entry of cluster number i of chain c must say. */
  function Successor(g: Shape, c: Chain, i: nat): nat {
    if i + 1 < |c| then c[i + 1] else g.Eoc()
  }

  ghost predicate IsChain(g: Shape, t: Table, c: Chain)
    requires g.Valid() && g.clusterLimit <= |t|
  {
    && |c| > 0
    && (forall i :: 0 <= i < |c| ==> 2 <= c[i] < g.clusterLimit)
    && (forall i {:trigger Successor(g, c, i)} {:trigger g.Link(t[c[i]])} :: 0 <= i < |c| ==>
          g.Link(t[c[i]]) == Successor(g, c, i))
  }

  ghost predicate Disjoint(c: Chain, d: Chain) {
    forall x :: x in c ==> x !in d
  }

  // ---------- the shape of chains ----------

  /** Links are functional, so two chains that share a cluster share everything behind it. */
  lemma {:induction false} SharedTail(g: Shape, t: Table, c: Chain, i: nat, d: Chain, j: nat)
    requires g.Valid() && g.clusterLimit <= |t| && IsChain(g, t, c) && IsChain(g, t, d)
    requires i < |c| && j < |d| && c[i] == d[j]
    ensures c[i..] == d[j..]
    decreases |c| - i
  {
    assert Successor(g, c, i) == Successor(g, d, j);
    if i + 1 < |c| {
      SharedTail(g, t, c, i + 1, d, j + 1);
      assert c[i..] == [c[i]] + c[i + 1..];
      assert d[j..] == [d[j]] + d[j + 1..];
    } else {
      assert forall k :: 0 <= k < |d| ==> d[k] != g.Eoc();
    }
  }

  /** An EOC-terminated chain never visits a cluster twice. */
  lemma ChainAcyclic(g: Shape, t: Table, c: Chain)
    requires g.Valid() && g.clusterLimit <= |t| && IsChain(g, t, c)
    ensures forall i, j :: 0 <= i < j < |c| ==> c[i] != c[j]
  {
    forall i, j | 0 <= i < j < |c|
      ensures c[i] != c[j]
    {
      if c[i] == c[j] {
        SharedTail(g, t, c, i, c, j);
        assert false;
      }
    }
  }

  lemma {:induction false} DistinctFits(c: seq<nat>, lo: nat, hi: nat)
    requires lo <= hi
    requires forall i :: 0 <= i < |c| ==> lo <= c[i] < hi
    requires forall i, j :: 0 <= i < j < |c| ==> c[i] != c[j]
    ensures |c| <= hi - lo
    decreases hi - lo
  {
    if |c| == 0 {
      return;
    }
    assert lo <= c[0] < hi;
    if i :| 0 <= i < |c| && c[i] == hi - 1 {
      var d := c[..i] + c[i + 1..];
      forall k | 0 <= k < |d|
        ensures lo <= d[k] < hi - 1
      {
        assert d[k] == if k < i then c[k] else c[k + 1];
      }
      DistinctFits(d, lo, hi - 1);
    } else {
      DistinctFits(c, lo, hi - 1);
    }
  }

  /** No chain has more clusters than the volume. */
  lemma ChainFits(g: Shape, t: Table, c: Chain)
    requires g.Valid() && g.clusterLimit <= |t| && IsChain(g, t, c)
    ensures |c| <= g.clusterLimit - 2
  {
    ChainAcyclic(g, t, c);
    DistinctFits(c, 2, g.clusterLimit);
  }

  lemma ChainFrame(g: Shape, t: Table, t': Table, c: Chain)
    requires g.Valid() && g.clusterLimit <= |t| == |t'| && IsChain(g, t, c)
    requires forall x :: x in c ==> t'[x] == t[x]
    ensures IsChain(g, t', c)
  {
    forall i | 0 <= i < |c|
      ensures g.Link(t'[c[i]]) == Successor(g, c, i)
    {
      assert c[i] in c;
    }
  }

  lemma ChainEntriesUsed(g: Shape, t: Table, c: Chain, x: nat)
    requires g.Valid() && g.clusterLimit <= |t| && IsChain(g, t, c) && x in c
    ensures x < |t| && t[x] != 0
  {
    var i :| 0 <= i < |c| && c[i] == x;
    assert g.Link(t[c[i]]) == Successor(g, c, i) > 0;
  }

  // ---------- allocation ----------

  /** The first free entry at or above `from`, or |t| when there is none. */
  function LowestFree(t: Table, from: nat): (r: nat)
    requires from <= |t|
    ensures from <= r <= |t|
    ensures r < |t| ==> t[r] == 0
    ensures forall k :: from <= k < r ==> t[k] != 0
    decreases |t| - from
  {
    if from == |t| || t[from] == 0 then from else LowestFree(t, from + 1)
  }

  /** ClusterAllocate finds a cluster of the data area. */
  predicate HasFree(g: Shape, t: Table)
    requires g.Valid() && g.clusterLimit <= |t|
  {
    LowestFree(t, 2) < g.clusterLimit
  }

  function Allocate(g: Shape, t: Table, n: nat): (r: Table)
    requires n < |t|
  {
    t[n := g.Eoc()]
  }

  /** The table after a fresh cluster n was allocated and linked behind `last`. */
  function AppendTable(g: Shape, t: Table, last: nat, n: nat): (r: Table)
    requires n < |t| && last < |t|
  {
    Allocate(g, t, n)[last := n]
  }

  predicate Behind(c: Chain, pos: nat, x: nat) {
    exists k :: pos < k < |c| && c[k] == x
  }

  /** The table after cluster number pos of c became its end and the rest was released. */
  function CutTable(g: Shape, t: Table, c: Chain, pos: nat): (r: Table)
    requires pos < |c|
    ensures |r| == |t|
    ensures forall x :: 0 <= x < |t| ==> r[x] == CutEntry(g, t, c, pos, x)
  {
    seq(|t|, x requires 0 <= x < |t| => CutEntry(g, t, c, pos, x))
  }

  function CutEntry(g: Shape, t: Table, c: Chain, pos: nat, x: nat): nat
    requires pos < |c| && x < |t|
  {
    if x == c[pos] then g.Eoc() else if Behind(c, pos, x) then 0 else t[x]
  }

  lemma FreshIsUnowned(g: Shape, t: Table, c: Chain, n: nat)
    requires g.Valid() && g.clusterLimit <= |t| && IsChain(g, t, c) && n < |t| && t[n] == 0
    ensures n !in c
  {
    if n in c { ChainEntriesUsed(g, t, c, n); }
  }

  lemma AllocateMakesChain(g: Shape, t: Table, n: nat)
    requires g.Valid() && g.clusterLimit <= |t| && 2 <= n < g.clusterLimit
    ensures IsChain(g, Allocate(g, t, n), [n])
  {
  }

  lemma AppendExtendsChain(g: Shape, t: Table, c: Chain, n: nat)
    requires g.Valid() && g.clusterLimit <= |t| && IsChain(g, t, c)
    requires 2 <= n < g.clusterLimit && t[n] == 0
    ensures IsChain(g, AppendTable(g, t, c[|c| - 1], n), c + [n])
  {
    ChainAcyclic(g, t, c);
    FreshIsUnowned(g, t, c, n);
    var t' := AppendTable(g, t, c[|c| - 1], n);
    var c' := c + [n];
    forall i | 0 <= i < |c'|
      ensures g.Link(t'[c'[i]]) == Successor(g, c', i)
    {
      if i < |c| { assert c'[i] == c[i] && c[i] in c; }
    }
  }

  lemma CutShortensChain(g: Shape, t: Table, c: Chain, pos: nat)
    requires g.Valid() && g.clusterLimit <= |t| && IsChain(g, t, c) && pos < |c|
    ensures IsChain(g, CutTable(g, t, c, pos), c[..pos + 1])
    ensures forall k :: pos < k < |c| ==> CutTable(g, t, c, pos)[c[k]] == 0
  {
    ChainAcyclic(g, t, c);
    var t', c' := CutTable(g, t, c, pos), c[..pos + 1];
    forall i | 0 <= i < |c'|
      ensures g.Link(t'[c'[i]]) == Successor(g, c', i)
    {
      assert c'[i] == c[i] && !Behind(c, pos, c[i]);
      assert t'[c[i]] == CutEntry(g, t, c, pos, c[i]);
    }
    forall k | pos < k < |c|
      ensures t'[c[k]] == 0
    {
      assert t'[c[k]] == CutEntry(g, t, c, pos, c[k]);
    }
  }

  /** Releasing one more cluster behind the cut: what one round of the FileWriteEnd loop does. */
  lemma CutGrows(g: Shape, t: Table, c: Chain, pos: nat, m: nat)
    requires g.Valid() && g.clusterLimit <= |t| && IsChain(g, t, c) && pos < m < |c|
    ensures CutTable(g, t, c[..m + 1], pos) == CutTable(g, t, c[..m], pos)[c[m] := 0]
    ensures g.Link(CutTable(g, t, c[..m], pos)[c[m]]) == Successor(g, c, m)
  {
    ChainAcyclic(g, t, c);
    var more, cut := CutTable(g, t, c[..m + 1], pos), CutTable(g, t, c[..m], pos)[c[m] := 0];
    forall x | 0 <= x < |t|
      ensures more[x] == cut[x]
    {
      assert Behind(c[..m + 1], pos, x) <==> x == c[m] || Behind(c[..m], pos, x) by {
        assert c[..m + 1][m] == c[m];
        forall k | 0 <= k < m ensures c[..m + 1][k] == c[..m][k] { }
      }
    }
    assert !Behind(c[..m], pos, c[m]);
    assert CutTable(g, t, c[..m], pos)[c[m]] == CutEntry(g, t, c[..m], pos, c[m]) == t[c[m]];
    assert g.Link(t[c[m]]) == Successor(g, c, m);
  }

  lemma CutStarts(g: Shape, t: Table, c: Chain, pos: nat)
    requires g.Valid() && g.clusterLimit <= |t| && IsChain(g, t, c) && pos < |c|
    ensures CutTable(g, t, c[..pos + 1], pos) == t[c[pos] := g.Eoc()]
    ensures g.Link(t[c[pos]]) == Successor(g, c, pos)
  {
  }

  /** The table in the middle of FileWriteEnd, with clusters pos .. done-1 of c rewritten. */
  function CutSoFar(g: Shape, t: Table, c: Chain, pos: nat, done: nat): (r: Table)
    requires pos <= done <= |c| && pos < |c|
    ensures |r| == |t|
  {
    if done == pos then t else CutTable(g, t, c[..done], pos)
  }

  lemma CutRound(g: Shape, t: Table, c: Chain, pos: nat, done: nat)
    requires g.Valid() && g.clusterLimit <= |t| && IsChain(g, t, c) && pos <= done < |c|
    ensures 2 <= c[done] < g.clusterLimit && c[done] != g.Eoc()
    ensures g.Link(CutSoFar(g, t, c, pos, done)[c[done]]) == Successor(g, c, done)
    ensures CutSoFar(g, t, c, pos, done + 1)
         == CutSoFar(g, t, c, pos, done)[c[done] := if done == pos then g.Eoc() else 0]
  {
    if done == pos { CutStarts(g, t, c, pos); } else { CutGrows(g, t, c, pos, done); }
  }

  /** Appending costs one free cluster. */
  lemma AppendCosts(g: Shape, t: Table, c: Chain, n: nat)
    requires g.Valid() && g.clusterLimit <= |t| && IsChain(g, t, c)
    requires 2 <= n < g.clusterLimit && t[n] == 0
    ensures FreeCount(AppendTable(g, t, c[|c| - 1], n), g.clusterLimit) == FreeCount(t, g.clusterLimit) - 1
  {
    var last := c[|c| - 1];
    assert last in c;
    ChainEntriesUsed(g, t, c, last);
    FreeCountUpdate(t, g.clusterLimit, n, g.Eoc());
    FreeCountUpdate(Allocate(g, t, n), g.clusterLimit, last, n);
  }

  // ---------- counting ----------

  /** Free clusters among 2 .. limit-1. */
  function FreeCount(t: Table, limit: nat): (n: nat)
    requires limit <= |t|
    ensures limit >= 2 ==> n <= limit - 2
  {
    if limit <= 2 then 0 else (if t[limit - 1] == 0 then 1 else 0) + FreeCount(t, limit - 1)
  }

  function Bit(b: bool): nat { if b then 1 else 0 }

  lemma {:induction false} FreeCountUpdate(t: Table, limit: nat, i: nat, v: nat)
    requires 2 <= i < |t| && limit <= |t|
    ensures i < limit ==> FreeCount(t[i := v], limit) == FreeCount(t, limit) - Bit(t[i] == 0) + Bit(v == 0)
    ensures limit <= i ==> FreeCount(t[i := v], limit) == FreeCount(t, limit)
  {
    if limit > 2 {
      FreeCountUpdate(t, limit - 1, i, v);
    }
  }

  /** A positive count means the search of ClusterAllocate succeeds. */
  lemma {:induction false} FreeCountFindsOne(t: Table, limit: nat)
    requires 2 <= limit <= |t|
    ensures FreeCount(t, limit) > 0 <==> LowestFree(t, 2) < limit
  {
    if limit > 2 {
      FreeCountFindsOne(t, limit - 1);
    }
  }

  /** Truncation frees exactly the clusters behind the cut. */
  lemma {:induction false} CutFrees(g: Shape, t: Table, c: Chain, pos: nat)
    requires g.Valid() && g.clusterLimit <= |t| && IsChain(g, t, c) && pos < |c|
    ensures FreeCount(CutTable(g, t, c, pos), g.clusterLimit)
         == FreeCount(t, g.clusterLimit) + (|c| - pos - 1)
    decreases |c| - pos
  {
    ChainAcyclic(g, t, c);
    ChainEntriesUsed(g, t, c, c[pos]);
    var here := CutTable(g, t, c, pos);
    if pos + 1 == |c| {
      assert here == t[c[pos] := g.Eoc()];
      FreeCountUpdate(t, g.clusterLimit, c[pos], g.Eoc());
    } else {
      CutFrees(g, t, c, pos + 1);
      CutStep(g, t, c, pos);
      var next := CutTable(g, t, c, pos + 1);
      var mid := next[c[pos + 1] := 0];
      assert next[c[pos + 1]] == CutEntry(g, t, c, pos + 1, c[pos + 1]) == g.Eoc();
      assert mid[c[pos]] == next[c[pos]] == CutEntry(g, t, c, pos + 1, c[pos]) == t[c[pos]];
      FreeCountUpdate(next, g.clusterLimit, c[pos + 1], 0);
      FreeCountUpdate(mid, g.clusterLimit, c[pos], g.Eoc());
    }
  }

  /** Cutting one cluster earlier ends the chain there and releases one more. */
  lemma CutStep(g: Shape, t: Table, c: Chain, pos: nat)
    requires g.Valid() && g.clusterLimit <= |t| && IsChain(g, t, c) && pos + 1 < |c|
    ensures CutTable(g, t, c, pos) == CutTable(g, t, c, pos + 1)[c[pos + 1] := 0][c[pos] := g.Eoc()]
  {
    ChainAcyclic(g, t, c);
    var here, later := CutTable(g, t, c, pos), CutTable(g, t, c, pos + 1)[c[pos + 1] := 0][c[pos] := g.Eoc()];
    forall x | 0 <= x < |t|
      ensures here[x] == later[x]
    {
      assert Behind(c, pos, x) <==> x == c[pos + 1] || Behind(c, pos + 1, x);
    }
  }
}
