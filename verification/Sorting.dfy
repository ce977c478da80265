/** Stable insertion sort over a comparison function, its first entries, and the entries beyond
    a given one. */
module Sorting {

  type Cmp<!T> = (T, T) -> int

  /** Three values are ordered as by a total preorder. */
  ghost predicate OrderAt<T(!new)>(cmp: Cmp<T>, x: T, y: T, z: T) {
    && cmp(x, x) == 0 && (cmp(x, y) < 0 <==> cmp(y, x) > 0)
    && (cmp(x, y) <= 0 && cmp(y, z) <= 0 ==>
          cmp(x, z) <= 0 && (cmp(x, z) == 0 ==> cmp(x, y) == 0 && cmp(y, z) == 0))
  }

  ghost predicate TotalPreorder<T(!new)>(cmp: Cmp<T>) {
    forall x, y, z :: OrderAt(cmp, x, y, z)
  }

  /** The opposite order. */
  function Flip<T>(cmp: Cmp<T>): Cmp<T> { (x, y) => cmp(y, x) }

  /** Put x behind everything that need not come after it. */
  function Insert<T>(cmp: Cmp<T>, x: T, s: seq<T>): (r: seq<T>)
    ensures |r| == |s| + 1
  {
    if s != [] && cmp(x, s[|s| - 1]) < 0 then Insert(cmp, x, s[..|s| - 1]) + [s[|s| - 1]] else s + [x]
  }

  function Sort<T>(cmp: Cmp<T>, d: seq<T>): (r: seq<T>)
    ensures |r| == |d|
  {
    if d == [] then [] else Insert(cmp, d[|d| - 1], Sort(cmp, d[..|d| - 1]))
  }

  ghost predicate Ordered<T(!new)>(cmp: Cmp<T>, s: seq<T>) {
    forall i, j :: 0 <= i < j < |s| ==> cmp(s[i], s[j]) <= 0
  }

  ghost predicate Strict<T(!new)>(cmp: Cmp<T>, s: seq<T>) {
    forall i, j :: 0 <= i < j < |s| ==> cmp(s[i], s[j]) < 0
  }

  /** No two entries have the same key. */
  ghost predicate Distinct<T(!new)>(cmp: Cmp<T>, d: seq<T>) {
    forall i, j :: 0 <= i < j < |d| ==> cmp(d[i], d[j]) != 0
  }

  // ---------- the result is an ordered permutation ----------

  lemma {:induction false} InsertMembers<T>(cmp: Cmp<T>, x: T, s: seq<T>)
    ensures multiset(Insert(cmp, x, s)) == multiset(s) + multiset{x}
  {
    if s != [] && cmp(x, s[|s| - 1]) < 0 {
      InsertMembers(cmp, x, s[..|s| - 1]);
      assert s == s[..|s| - 1] + [s[|s| - 1]];
    }
  }

  lemma {:induction false} SortMembers<T>(cmp: Cmp<T>, d: seq<T>)
    ensures multiset(Sort(cmp, d)) == multiset(d)
  {
    if d != [] {
      SortMembers(cmp, d[..|d| - 1]);
      InsertMembers(cmp, d[|d| - 1], Sort(cmp, d[..|d| - 1]));
      assert d == d[..|d| - 1] + [d[|d| - 1]];
    }
  }

  lemma {:induction false} InsertOrdered<T(!new)>(cmp: Cmp<T>, x: T, s: seq<T>)
    requires TotalPreorder(cmp) && Ordered(cmp, s)
    ensures Ordered(cmp, Insert(cmp, x, s))
  {
    if s != [] {
      var init, last := s[..|s| - 1], s[|s| - 1];
      if cmp(x, last) < 0 {
        InsertOrdered(cmp, x, init);
        InsertBounded(cmp, x, init, last);
      } else {
        forall i | 0 <= i < |s|
          ensures cmp(s[i], x) <= 0
        {
          assert OrderAt(cmp, s[i], last, x) && OrderAt(cmp, last, x, x) && OrderAt(cmp, x, last, x);
        }
      }
    }
  }

  lemma {:induction false} InsertBounded<T(!new)>(cmp: Cmp<T>, x: T, s: seq<T>, y: T)
    requires cmp(x, y) <= 0 && forall i :: 0 <= i < |s| ==> cmp(s[i], y) <= 0
    ensures forall i :: 0 <= i < |s| + 1 ==> cmp(Insert(cmp, x, s)[i], y) <= 0
  {
    if s != [] && cmp(x, s[|s| - 1]) < 0 {
      InsertBounded(cmp, x, s[..|s| - 1], y);
    }
  }

  lemma {:induction false} SortOrdered<T(!new)>(cmp: Cmp<T>, d: seq<T>)
    requires TotalPreorder(cmp)
    ensures Ordered(cmp, Sort(cmp, d))
  {
    if d != [] {
      SortOrdered(cmp, d[..|d| - 1]);
      InsertOrdered(cmp, d[|d| - 1], Sort(cmp, d[..|d| - 1]));
    }
  }

  /** Entries with distinct keys are sorted strictly. */
  lemma SortStrict<T(!new)>(cmp: Cmp<T>, d: seq<T>)
    requires TotalPreorder(cmp) && Distinct(cmp, d)
    ensures Strict(cmp, Sort(cmp, d))
  {
    SortOrdered(cmp, d);
    SortDistinct(cmp, d);
  }

  lemma {:induction false} SortDistinct<T(!new)>(cmp: Cmp<T>, d: seq<T>)
    requires TotalPreorder(cmp) && Distinct(cmp, d)
    ensures Distinct(cmp, Sort(cmp, d))
  {
    if d != [] {
      var init, last := d[..|d| - 1], d[|d| - 1];
      SortDistinct(cmp, init);
      SortedDiffer(cmp, init, last);
      InsertDistinct(cmp, last, Sort(cmp, init));
    }
  }

  lemma SortedDiffer<T(!new)>(cmp: Cmp<T>, d: seq<T>, x: T)
    requires forall i :: 0 <= i < |d| ==> cmp(d[i], x) != 0
    ensures forall i :: 0 <= i < |d| ==> cmp(Sort(cmp, d)[i], x) != 0
  {
    SortMembers(cmp, d);
    forall i | 0 <= i < |d|
      ensures cmp(Sort(cmp, d)[i], x) != 0
    {
      assert Sort(cmp, d)[i] in multiset(Sort(cmp, d));
      assert Sort(cmp, d)[i] in d;
    }
  }

  lemma {:induction false} InsertDistinct<T(!new)>(cmp: Cmp<T>, x: T, s: seq<T>)
    requires TotalPreorder(cmp) && Distinct(cmp, s) && forall i :: 0 <= i < |s| ==> cmp(s[i], x) != 0
    ensures Distinct(cmp, Insert(cmp, x, s))
  {
    if s != [] && cmp(x, s[|s| - 1]) < 0 {
      var init, last := s[..|s| - 1], s[|s| - 1];
      InsertDistinct(cmp, x, init);
      InsertDiffers(cmp, x, init, last);
    }
  }

  lemma {:induction false} InsertDiffers<T(!new)>(cmp: Cmp<T>, x: T, s: seq<T>, y: T)
    requires cmp(x, y) != 0 && forall i :: 0 <= i < |s| ==> cmp(s[i], y) != 0
    ensures forall i :: 0 <= i < |s| + 1 ==> cmp(Insert(cmp, x, s)[i], y) != 0
  {
    if s != [] && cmp(x, s[|s| - 1]) < 0 {
      InsertDiffers(cmp, x, s[..|s| - 1], y);
    }
  }

  lemma SortNext<T>(cmp: Cmp<T>, d: seq<T>, x: T)
    ensures Sort(cmp, d + [x]) == Insert(cmp, x, Sort(cmp, d))
  {
    assert (d + [x])[..|d|] == d;
  }

  // ---------- the first entries ----------

  function First<T>(n: nat, s: seq<T>): (r: seq<T>) { if |s| <= n then s else s[..n] }

  /** Keeping n entries while inserting loses nothing of the first n. */
  lemma {:induction false} FirstInsert<T(!new)>(cmp: Cmp<T>, n: nat, x: T, s: seq<T>)
    requires TotalPreorder(cmp) && Ordered(cmp, s) && n > 0
    ensures First(n, Insert(cmp, x, s)) == First(n, Insert(cmp, x, First(n, s)))
  {
    if |s| > n {
      var init, last := s[..|s| - 1], s[|s| - 1];
      if cmp(x, last) < 0 {
        FirstInsert(cmp, n, x, init);
        assert First(n, init) == First(n, s);
        assert First(n, Insert(cmp, x, init) + [last]) == First(n, Insert(cmp, x, init));
      } else {
        assert OrderAt(cmp, x, s[n - 1], last) && OrderAt(cmp, s[n - 1], last, x) && OrderAt(cmp, last, x, x);
        assert First(n, s + [x]) == First(n, s) == First(n, First(n, s) + [x]);
      }
    }
  }

  /** Reading one more entry into the first n of the sorted list. */
  lemma FirstSortNext<T(!new)>(cmp: Cmp<T>, n: nat, d: seq<T>, x: T)
    requires TotalPreorder(cmp) && n > 0
    ensures First(n, Insert(cmp, x, First(n, Sort(cmp, d)))) == First(n, Sort(cmp, d + [x]))
    ensures Ordered(cmp, First(n, Sort(cmp, d)))
  {
    SortOrdered(cmp, d);
    SortNext(cmp, d, x);
    FirstInsert(cmp, n, x, Sort(cmp, d));
  }

  lemma {:induction false} InsertHead<T(!new)>(cmp: Cmp<T>, x: T, s: seq<T>)
    requires TotalPreorder(cmp) && s != [] && Ordered(cmp, s)
    ensures Insert(cmp, x, s)[0] == if cmp(x, s[0]) < 0 then x else s[0]
  {
    if |s| > 1 {
      var last := s[|s| - 1];
      assert OrderAt(cmp, x, s[0], last);
      if cmp(x, last) < 0 {
        InsertHead(cmp, x, s[..|s| - 1]);
      }
    }
  }

  /** Inserting the last entry of an ordered list changes nothing. */
  lemma InsertLast<T(!new)>(cmp: Cmp<T>, s: seq<T>)
    requires TotalPreorder(cmp) && s != [] && Ordered(cmp, s)
    ensures Insert(cmp, s[|s| - 1], s[..|s| - 1]) == s
  {
    if |s| > 1 { assert OrderAt(cmp, s[|s| - 2], s[|s| - 1], s[|s| - 2]); }
  }

  // ---------- entries beyond a given one ----------

  /** The entries that come after p, in their stored order. */
  function Beyond<T>(cmp: Cmp<T>, d: seq<T>, p: T): (r: seq<T>)
    ensures |r| <= |d|
  {
    if d == [] then []
    else Beyond(cmp, d[..|d| - 1], p) + if cmp(p, d[|d| - 1]) < 0 then [d[|d| - 1]] else []
  }

  lemma {:induction false} BeyondBounded<T(!new)>(cmp: Cmp<T>, d: seq<T>, p: T, y: T)
    requires forall i :: 0 <= i < |d| ==> cmp(d[i], y) <= 0
    ensures forall i :: 0 <= i < |Beyond(cmp, d, p)| ==> cmp(Beyond(cmp, d, p)[i], y) <= 0
  {
    if d != [] {
      BeyondBounded(cmp, d[..|d| - 1], p, y);
    }
  }

  lemma {:induction false} BeyondInsert<T(!new)>(cmp: Cmp<T>, x: T, s: seq<T>, p: T)
    requires TotalPreorder(cmp) && Ordered(cmp, s)
    ensures Beyond(cmp, Insert(cmp, x, s), p)
         == if cmp(p, x) < 0 then Insert(cmp, x, Beyond(cmp, s, p)) else Beyond(cmp, s, p)
  {
    var r := Insert(cmp, x, s);
    if s != [] && cmp(x, s[|s| - 1]) < 0 {
      var init, last := s[..|s| - 1], s[|s| - 1];
      BeyondInsert(cmp, x, init, p);
      assert r[..|s|] == Insert(cmp, x, init);
      var b := Beyond(cmp, init, p);
      assert (b + [last])[..|b|] == b;
      assert OrderAt(cmp, p, x, last) && OrderAt(cmp, last, x, last);
    } else {
      assert r[..|s|] == s;
      if s != [] {
        assert forall i :: 0 <= i < |s| ==> cmp(s[i], x) <= 0 by {
          forall i | 0 <= i < |s| ensures cmp(s[i], x) <= 0 {
            assert OrderAt(cmp, s[i], s[|s| - 1], x) && OrderAt(cmp, x, s[|s| - 1], x)
                   && OrderAt(cmp, s[|s| - 1], x, x);
          }
        }
        BeyondBounded(cmp, s, p, x);
        var b := Beyond(cmp, s, p);
        if b != [] { assert OrderAt(cmp, x, b[|b| - 1], x); }
      }
    }
  }

  /** Selecting and sorting commute. */
  lemma {:induction false} SortBeyond<T(!new)>(cmp: Cmp<T>, d: seq<T>, p: T)
    requires TotalPreorder(cmp)
    ensures Sort(cmp, Beyond(cmp, d, p)) == Beyond(cmp, Sort(cmp, d), p)
  {
    if d != [] {
      var init, last := d[..|d| - 1], d[|d| - 1];
      SortBeyond(cmp, init, p);
      SortOrdered(cmp, init);
      BeyondInsert(cmp, last, Sort(cmp, init), p);
      var b := Beyond(cmp, init, p);
      SortNext(cmp, b, last);
      assert Beyond(cmp, d, p) == if cmp(p, last) < 0 then b + [last] else b;
    }
  }

  /** In a strictly ordered list the entries beyond one are those behind it. */
  lemma {:induction false} BeyondInStrict<T(!new)>(cmp: Cmp<T>, s: seq<T>, m: nat, j: nat)
    requires TotalPreorder(cmp) && Strict(cmp, s) && j < |s| && m <= |s|
    ensures Beyond(cmp, s[..m], s[j]) == if m <= j + 1 then [] else s[j + 1..m]
  {
    if m > 0 {
      BeyondInStrict(cmp, s, m - 1, j);
      assert s[..m][..m - 1] == s[..m - 1];
      assert OrderAt(cmp, s[m - 1], s[j], s[j]) && OrderAt(cmp, s[j], s[m - 1], s[j]);
      if m == j + 2 { assert s[j + 1..m] == [s[m - 1]]; }
    }
  }

  /** What is beyond one entry of a directory, sorted, is the rest of the sorted directory. */
  lemma SortedBeyond<T(!new)>(cmp: Cmp<T>, d: seq<T>, j: nat)
    requires TotalPreorder(cmp) && Distinct(cmp, d) && j < |d|
    ensures Sort(cmp, Beyond(cmp, d, Sort(cmp, d)[j])) == Sort(cmp, d)[j + 1..]
  {
    SortStrict(cmp, d);
    SortBeyond(cmp, d, Sort(cmp, d)[j]);
    BeyondWhole(cmp, Sort(cmp, d), j);
  }

  lemma BeyondWhole<T(!new)>(cmp: Cmp<T>, s: seq<T>, j: nat)
    requires TotalPreorder(cmp) && Strict(cmp, s) && j < |s|
    ensures Beyond(cmp, s, s[j]) == s[j + 1..]
  {
    BeyondInStrict(cmp, s, |s|, j);
    assert s[..|s|] == s;
  }

  /** Reading one more entry while looking for the lowest one beyond p. */
  lemma HeadNext<T(!new)>(cmp: Cmp<T>, d: seq<T>, p: T, x: T)
    requires TotalPreorder(cmp)
    ensures var best, next := Sort(cmp, Beyond(cmp, d, p)), Sort(cmp, Beyond(cmp, d + [x], p));
            if cmp(p, x) < 0 then
              next != [] && next[0] == if best == [] || cmp(x, best[0]) < 0 then x else best[0]
            else next == best
  {
    BeyondNext(cmp, d, p, x);
    var b := Beyond(cmp, d, p);
    if cmp(p, x) < 0 {
      SortNext(cmp, b, x);
      if b != [] {
        SortOrdered(cmp, b);
        InsertHead(cmp, x, Sort(cmp, b));
      }
    } else {
      assert b + [] == b;
    }
  }

  lemma BeyondNext<T>(cmp: Cmp<T>, d: seq<T>, p: T, x: T)
    ensures Beyond(cmp, d + [x], p) == Beyond(cmp, d, p) + if cmp(p, x) < 0 then [x] else []
  {
    assert (d + [x])[..|d|] == d;
  }

  // ---------- the opposite order ----------

  function Reverse<T>(s: seq<T>): (r: seq<T>)
    ensures |r| == |s| && forall i :: 0 <= i < |s| ==> r[i] == s[|s| - 1 - i]
  {
    seq(|s|, i requires 0 <= i < |s| => s[|s| - 1 - i])
  }

  lemma FlipOrder<T(!new)>(cmp: Cmp<T>)
    requires TotalPreorder(cmp)
    ensures TotalPreorder(Flip(cmp))
  {
    forall x, y, z
      ensures OrderAt(Flip(cmp), x, y, z)
    {
      assert OrderAt(cmp, z, y, x) && OrderAt(cmp, y, x, z) && OrderAt(cmp, x, y, z);
    }
  }

  lemma FlipDistinct<T(!new)>(cmp: Cmp<T>, d: seq<T>)
    requires TotalPreorder(cmp) && Distinct(cmp, d)
    ensures Distinct(Flip(cmp), d)
  {
    forall i, j | 0 <= i < j < |d|
      ensures Flip(cmp)(d[i], d[j]) != 0
    {
      assert OrderAt(cmp, d[i], d[j], d[i]) && OrderAt(cmp, d[j], d[i], d[j]);
    }
  }

  lemma {:induction false} InsertFront<T(!new)>(cmp: Cmp<T>, x: T, s: seq<T>)
    requires TotalPreorder(cmp) && Ordered(cmp, s) && s != []
    ensures Insert(cmp, x, s) == if cmp(x, s[0]) < 0 then [x] + s else [s[0]] + Insert(cmp, x, s[1..])
  {
    var init, last := s[..|s| - 1], s[|s| - 1];
    assert OrderAt(cmp, x, s[0], last);
    if |s| > 1 {
      assert s[1..][..|s| - 2] == init[1..];
      if cmp(x, last) < 0 {
        InsertFront(cmp, x, init);
      }
    }
  }

  lemma ReverseCons<T>(x: T, s: seq<T>)
    ensures Reverse([x] + s) == Reverse(s) + [x]
  {
  }

  lemma {:induction false} InsertFlipped<T(!new)>(cmp: Cmp<T>, x: T, s: seq<T>)
    requires TotalPreorder(cmp) && Ordered(cmp, s) && forall i :: 0 <= i < |s| ==> cmp(s[i], x) != 0
    ensures Insert(Flip(cmp), x, Reverse(s)) == Reverse(Insert(cmp, x, s))
  {
    if s != [] {
      var y, rest := s[0], s[1..];
      assert s == [y] + rest;
      ReverseCons(y, rest);
      InsertFront(cmp, x, s);
      assert OrderAt(cmp, x, y, x) && OrderAt(cmp, y, x, y);
      if cmp(x, y) < 0 {
        ReverseCons(x, s);
      } else {
        InsertFlipped(cmp, x, rest);
        ReverseCons(y, Insert(cmp, x, rest));
        assert (Reverse(rest) + [y])[..|rest|] == Reverse(rest);
      }
    }
  }

  /** Without equal keys, sorting in the opposite order reverses the result. */
  lemma {:induction false} SortFlipped<T(!new)>(cmp: Cmp<T>, d: seq<T>)
    requires TotalPreorder(cmp) && Distinct(cmp, d)
    ensures Sort(Flip(cmp), d) == Reverse(Sort(cmp, d))
  {
    if d != [] {
      var init, last := d[..|d| - 1], d[|d| - 1];
      SortFlipped(cmp, init);
      SortOrdered(cmp, init);
      SortedDiffer(cmp, init, last);
      InsertFlipped(cmp, last, Sort(cmp, init));
    }
  }

  // ---------- slices of the sorted list ----------

  /** v is a run of consecutive entries of s, from index `top` on. */
  ghost predicate IsSlice<T>(v: seq<T>, s: seq<T>, top: nat) {
    top + |v| <= |s| && v == s[top..top + |v|]
  }

  /** Beyond the last entry of a slice is what follows it. */
  lemma HigherEntries<T(!new)>(cmp: Cmp<T>, d: seq<T>, top: nat, v: seq<T>)
    requires TotalPreorder(cmp) && Distinct(cmp, d)
    requires v != [] && IsSlice(v, Sort(cmp, d), top)
    ensures Sort(cmp, Beyond(cmp, d, v[|v| - 1])) == Sort(cmp, d)[top + |v|..]
  {
    SortedBeyond(cmp, d, top + |v| - 1);
  }

  /** In the opposite order, beyond the first entry of a slice is what precedes it, reversed. */
  lemma LowerEntries<T(!new)>(cmp: Cmp<T>, d: seq<T>, top: nat, v: seq<T>)
    requires TotalPreorder(cmp) && Distinct(cmp, d)
    requires v != [] && IsSlice(v, Sort(cmp, d), top)
    ensures Sort(Flip(cmp), Beyond(Flip(cmp), d, v[0])) == Reverse(Sort(cmp, d)[..top])
  {
    FlipOrder(cmp);
    FlipDistinct(cmp, d);
    SortFlipped(cmp, d);
    ReverseTail(Sort(cmp, d), top);
    SortedBeyond(Flip(cmp), d, |d| - 1 - top);
  }

  lemma ReverseTail<T>(s: seq<T>, top: nat)
    requires top < |s|
    ensures var i := |s| - 1 - top;
            Reverse(s)[i] == s[top] && Reverse(s)[i + 1..] == Reverse(s[..top])
  {
  }

  lemma OneLineDown<T>(s: seq<T>, top: nat, v: seq<T>, best: seq<T>, found: bool, w: seq<T>)
    requires v != [] && IsSlice(v, s, top) && best == s[top + |v|..]
    requires found == (best != []) && w == if found then v[1..] + [best[0]] else v
    ensures found <==> top + |v| < |s|
    ensures |w| == |v| && IsSlice(w, s, if found then top + 1 else top)
  {
  }

  lemma OneLineUp<T>(n: nat, s: seq<T>, top: nat, v: seq<T>, best: seq<T>, found: bool, w: seq<T>)
    requires 0 < |v| <= n && (|v| < n ==> top == 0)
    requires IsSlice(v, s, top) && best == Reverse(s[..top])
    requires found == (best != []) && w == if found then First(n, [best[0]] + v) else v
    ensures found <==> top > 0
    ensures |w| == |v| && IsSlice(w, s, if found then top - 1 else top)
  {
  }

  /** w is v, or v scrolled by one towards the lowest entry above it. */
  ghost predicate NextFound<T(!new)>(cmp: Cmp<T>, l: seq<T>, v: seq<T>, found: bool, w: seq<T>)
    requires v != []
  {
    var best := Sort(cmp, Beyond(cmp, l, v[|v| - 1]));
    found == (best != []) && w == if found then v[1..] + [best[0]] else v
  }

  /** w is v, or v scrolled by one towards the highest entry below it, cut to n entries. */
  ghost predicate PrevFound<T(!new)>(cmp: Cmp<T>, n: nat, l: seq<T>, v: seq<T>, found: bool, w: seq<T>)
    requires v != []
  {
    var best := Sort(Flip(cmp), Beyond(Flip(cmp), l, v[0]));
    found == (best != []) && w == if found then First(n, [best[0]] + v) else v
  }

  /** Scrolling down leads to the next slice. */
  lemma ScrollsDown<T(!new)>(cmp: Cmp<T>, d: seq<T>, top: nat, v: seq<T>, found: bool, w: seq<T>)
    requires TotalPreorder(cmp) && Distinct(cmp, d)
    requires v != [] && IsSlice(v, Sort(cmp, d), top) && NextFound(cmp, d, v, found, w)
    ensures found <==> top + |v| < |d|
    ensures |w| == |v| && IsSlice(w, Sort(cmp, d), if found then top + 1 else top)
  {
    var best := Sort(cmp, Beyond(cmp, d, v[|v| - 1]));
    HigherEntries(cmp, d, top, v);
    OneLineDown(Sort(cmp, d), top, v, best, found, w);
  }

  /** Scrolling up leads to the slice before. */
  lemma ScrollsUp<T(!new)>(cmp: Cmp<T>, n: nat, d: seq<T>, top: nat, v: seq<T>, found: bool, w: seq<T>)
    requires TotalPreorder(cmp) && Distinct(cmp, d) && 0 < |v| <= n && (|v| < n ==> top == 0)
    requires IsSlice(v, Sort(cmp, d), top) && PrevFound(cmp, n, d, v, found, w)
    ensures found <==> top > 0
    ensures |w| == |v| && IsSlice(w, Sort(cmp, d), if found then top - 1 else top)
  {
    var best := Sort(Flip(cmp), Beyond(Flip(cmp), d, v[0]));
    LowerEntries(cmp, d, top, v);
    OneLineUp(n, Sort(cmp, d), top, v, best, found, w);
  }

  lemma OnePageDown<T>(n: nat, s: seq<T>, top: nat, v: seq<T>, best: seq<T>)
    requires |v| == n > 0 && IsSlice(v, s, top) && best == First(n, s[top + n..])
    ensures |best| <= n && |v[|best|..] + best| == n && IsSlice(v[|best|..] + best, s, top + |best|)
  {
  }

  lemma OnePageUp<T>(n: nat, s: seq<T>, top: nat, v: seq<T>, best: seq<T>)
    requires 0 < |v| <= n && (|v| < n ==> top == 0) && IsSlice(v, s, top)
    requires best == First(n, Reverse(s[..top]))
    ensures |best| <= top && |First(n, Reverse(best) + v)| == |v|
    ensures IsSlice(First(n, Reverse(best) + v), s, top - |best|)
  {
    assert Reverse(best) == s[top - |best|..top];
    assert s[top - |best|..top] + v == s[top - |best|..top + |v|];
  }

  /** Showing up to n of the following entries moves the slice by as many. */
  lemma PagesDown<T(!new)>(cmp: Cmp<T>, n: nat, d: seq<T>, top: nat, v: seq<T>, best: seq<T>)
    requires TotalPreorder(cmp) && Distinct(cmp, d) && |v| == n > 0
    requires IsSlice(v, Sort(cmp, d), top)
    requires best == First(n, Sort(cmp, Beyond(cmp, d, v[|v| - 1])))
    ensures |best| == if |d| - top - n < n then |d| - top - n else n
    ensures |best| <= n && |v[|best|..] + best| == n && IsSlice(v[|best|..] + best, Sort(cmp, d), top + |best|)
  {
    HigherEntries(cmp, d, top, v);
    OnePageDown(n, Sort(cmp, d), top, v, best);
  }

  /** Showing up to n of the preceding entries moves the slice back by as many. */
  lemma PagesUp<T(!new)>(cmp: Cmp<T>, n: nat, d: seq<T>, top: nat, v: seq<T>, best: seq<T>)
    requires TotalPreorder(cmp) && Distinct(cmp, d) && 0 < |v| <= n && (|v| < n ==> top == 0)
    requires IsSlice(v, Sort(cmp, d), top)
    requires best == First(n, Sort(Flip(cmp), Beyond(Flip(cmp), d, v[0])))
    ensures |best| == if top < n then top else n
    ensures |First(n, Reverse(best) + v)| == |v|
    ensures IsSlice(First(n, Reverse(best) + v), Sort(cmp, d), top - |best|)
  {
    LowerEntries(cmp, d, top, v);
    OnePageUp(n, Sort(cmp, d), top, v, best);
  }
}
