/** The directory window: eight entries of an unsorted directory, kept in order through a
    permutation table and scrolled by reading the directory again. */
module Window {
  import opened Words
  import opened Sorting

  const SHOWN: nat := 8   // MAXDIRENTRIES

  // ---------- the order of directory entries ----------

  type Char = x: int | -128 <= x < 128   // plain char is signed

  function Fold(c: Char): Char { if 'A' as int <= c <= 'Z' as int then c + 32 else c }

  /** Capital letters become small ones, and every other character stays. */
  lemma FoldMeans(c: Char, i: nat)
    requires i < 26
    ensures Fold("ABCDEFGHIJKLMNOPQRSTUVWXYZ"[i] as int) == "abcdefghijklmnopqrstuvwxyz"[i] as int
    ensures (forall j :: 0 <= j < 26 ==> c != "ABCDEFGHIJKLMNOPQRSTUVWXYZ"[j] as int) ==> Fold(c) == c
  {
    Alphabet();
    if 'A' as int <= c <= 'Z' as int {
      assert c == "ABCDEFGHIJKLMNOPQRSTUVWXYZ"[c - 'A' as int] as int;
    }
  }

  lemma Alphabet()
    ensures forall j :: 0 <= j < 26 ==> "ABCDEFGHIJKLMNOPQRSTUVWXYZ"[j] as int == 'A' as int + j
    ensures forall j :: 0 <= j < 26 ==> "abcdefghijklmnopqrstuvwxyz"[j] as int == 'a' as int + j
  {
  }

  /** The characters in front of the first NUL. */
  function Cut(s: seq<Char>): (r: seq<Char>)
    ensures |r| <= |s| && (|r| < |s| ==> s[|r|] == 0)
    ensures forall i :: 0 <= i < |r| ==> r[i] == s[i] != 0
  {
    if s == [] || s[0] == 0 then [] else [s[0]] + Cut(s[1..])
  }

  function At(s: seq<Char>, i: nat): Char { if i < |s| then Fold(s[i]) else 0 }

  /** Case-insensitive lexicographic order on characters i .. n-1. */
  function Lex(a: seq<Char>, b: seq<Char>, i: nat, n: nat): int
    decreases n - i
  {
    if i >= n then 0
    else if At(a, i) != At(b, i) then At(a, i) - At(b, i)
    else Lex(a, b, i + 1, n)
  }

  /** _strnicmp. */
  method StrNICmp(s1: seq<Char>, s2: seq<Char>, n: nat) returns (v: int)
    requires n > 0 && (n <= |s1| || 0 in s1) && (n <= |s2| || 0 in s2)
    ensures v == Lex(Cut(s1), Cut(s2), 0, n)
  {
    var i: nat, more := 0, true;
    v := 0;
    ghost var a, b := Cut(s1), Cut(s2);
    ghost var all := Lex(a, b, 0, n);
    while more
      invariant if more then i < n && i <= |a| && i <= |b| && all == Lex(a, b, i, n) else v == all
      decreases n - i, more
    {
      var c1, c2 := s1[i], s2[i];
      LexNext(a, b, i, n);
      i := i + 1;
      v := Fold(c1) - Fold(c2);
      more := v == 0 && c1 != 0 && n - i > 0;
      if v == 0 && c1 == 0 { LexEnds(a, b, i, n); }
    }
  }

  lemma LexNext(a: seq<Char>, b: seq<Char>, i: nat, n: nat)
    requires i < n
    ensures Lex(a, b, i, n) == if At(a, i) != At(b, i) then At(a, i) - At(b, i) else Lex(a, b, i + 1, n)
    ensures i + 1 == n ==> Lex(a, b, i + 1, n) == 0
  {
  }

  lemma {:induction false} LexEnds(a: seq<Char>, b: seq<Char>, i: nat, n: nat)
    requires |a| <= i && |b| <= i
    ensures Lex(a, b, i, n) == 0
    decreases n - i
  {
    if i < n { LexEnds(a, b, i + 1, n); }
  }

  lemma {:induction false} LexAntisymmetric(a: seq<Char>, b: seq<Char>, i: nat, n: nat)
    ensures Lex(a, b, i, n) == -Lex(b, a, i, n)
    decreases n - i
  {
    if i < n { LexAntisymmetric(a, b, i + 1, n); }
  }

  lemma {:induction false} LexTransitive(a: seq<Char>, b: seq<Char>, c: seq<Char>, i: nat, n: nat)
    requires Lex(a, b, i, n) <= 0 && Lex(b, c, i, n) <= 0
    ensures Lex(a, c, i, n) <= 0
    ensures Lex(a, c, i, n) == 0 <==> Lex(a, b, i, n) == 0 && Lex(b, c, i, n) == 0
    decreases n - i
  {
    if i < n && At(a, i) == At(b, i) == At(c, i) { LexTransitive(a, b, c, i + 1, n); }
  }

  lemma {:induction false} LexSplits(a: seq<Char>, b: seq<Char>, i: nat, m: nat, n: nat)
    requires i <= m <= n
    ensures Lex(a, b, i, n) == if Lex(a, b, i, m) != 0 then Lex(a, b, i, m) else Lex(a, b, m, n)
    decreases m - i
  {
    if i < m { LexSplits(a, b, i + 1, m, n); }
  }

  /** A directory entry: its 11-character name and its long name, empty when it has none. */
  datatype Item = Item(name: seq<Char>, attributes: Byte, lfn: seq<Char>)
  {
    predicate Dir() { attributes / 0x10 % 2 == 1 }

    predicate Long() { lfn != [] && lfn[0] != 0 }

    /** The name that is compared. */
    function Text(): seq<Char> { Cut(Raw()) }

    /** The buffer CompareDirEntries passes on; not more than 11 characters of a short name are
        read. */
    function Raw(): seq<Char> { (if Long() then lfn else name) + [0] }
  }

  /** An entry goes by its long name if that has any character, and else by its short one. */
  lemma ShownName(x: Item)
    ensures var long, short := Cut(x.lfn + [0]), Cut(x.name + [0]);
            x.Text() == (if long != [] then long else short) && (x.Long() <==> long != [])
  {
    if x.lfn != [] { assert (x.lfn + [0])[0] == x.lfn[0]; }
  }

  function Compare(x: Item, y: Item): int {
    if x.Dir() && !y.Dir() then -1
    else if !x.Dir() && y.Dir() then 1
    else
      var rc := Lex(x.Text(), y.Text(), 0, if x.Long() && y.Long() then 260 else 11);
      if rc != 0 then rc
      else if x.Long() && !y.Long() then 1
      else if !x.Long() && y.Long() then -1
      else 0
  }

  method CompareDirEntries(x: Item, y: Item) returns (rc: int)
    ensures rc == Compare(x, y)
  {
    if x.Dir() && !y.Dir() { return -1; }
    if !x.Dir() && y.Dir() { return 1; }
    var len := 260;
    if !x.Long() || !y.Long() { len := 11; }
    assert x.Raw()[|x.Raw()| - 1] == 0 && y.Raw()[|y.Raw()| - 1] == 0;
    rc := StrNICmp(x.Raw(), y.Raw(), len);
    if rc == 0 {
      if x.Long() {
        if !y.Long() { rc := 1; }
      } else {
        if y.Long() { rc := -1; }
      }
    }
  }

  /** Directories first, then the first 11 folded characters, then short before long names, then
      the rest of two long names. */
  lemma OrderOfKeys(x: Item, y: Item)
    ensures var first := Lex(x.Text(), y.Text(), 0, 11);
            Compare(x, y) < 0 <==>
              || (x.Dir() && !y.Dir())
              || (x.Dir() == y.Dir() && (
                   || first < 0
                   || (first == 0 && !x.Long() && y.Long())
                   || (first == 0 && x.Long() && y.Long() && Lex(x.Text(), y.Text(), 11, 260) < 0)))
  {
    LexSplits(x.Text(), y.Text(), 0, 11, 260);
  }

  /** CompareDirEntries is a total preorder. */
  lemma TotalPreorderAt(x: Item, y: Item, z: Item)
    ensures Compare(x, x) == 0 && (Compare(x, y) < 0 <==> Compare(y, x) > 0)
    ensures Compare(x, y) <= 0 && Compare(y, z) <= 0 ==> Compare(x, z) <= 0
    ensures Compare(x, y) <= 0 && Compare(y, z) <= 0 && Compare(x, z) == 0 ==> Compare(x, y) == 0 && Compare(y, z) == 0
  {
    var a, b, c := x.Text(), y.Text(), z.Text();
    LexAntisymmetric(a, a, 0, 11);
    LexAntisymmetric(a, a, 0, 260);
    LexAntisymmetric(a, b, 0, 11);
    LexAntisymmetric(a, b, 0, 260);
    LexSplits(a, b, 0, 11, 260);
    LexSplits(b, c, 0, 11, 260);
    LexSplits(a, c, 0, 11, 260);
    if Lex(a, b, 0, 11) <= 0 && Lex(b, c, 0, 11) <= 0 { LexTransitive(a, b, c, 0, 11); }
    if Lex(a, b, 0, 260) <= 0 && Lex(b, c, 0, 260) <= 0 { LexTransitive(a, b, c, 0, 260); }
  }

  lemma CompareIsOrder()
    ensures TotalPreorder(Compare)
  {
    forall x: Item, y: Item, z: Item
      ensures OrderAt(Compare, x, y, z)
    {
      TotalPreorderAt(x, y, z);
    }
  }

  // ---------- which entries are listed ----------

  const DELETED: Char := -27    // 0xE5

  /** strncmp(&Name[8], extension, 3) == 0. */
  predicate SameExtension(a: seq<Char>, b: seq<Char>, n: nat) {
    n == 0 || (a != [] && b != [] && a[0] == b[0] && (a[0] == 0 || SameExtension(a[1..], b[1..], n - 1)))
  }

  predicate Eligible(x: Item, extension: seq<Char>, dirs: bool) {
    && |x.name| == 11 && x.name[0] != 0 && x.name[0] != DELETED
    && x.attributes / 8 % 2 == 0 && x.attributes / 2 % 2 == 0          // neither volume label nor hidden
    && (x.name[0] != '.' as int || x.name[1] != ' ' as int)
    && (|| (extension != [] && extension[0] == '*' as int)
        || SameExtension(x.name[8..], extension, 3)
        || (dirs && x.Dir()))
  }

  /** strncmp over three characters, without NUL in the extension. */
  lemma SameExtensionMeans(a: seq<Char>, b: seq<Char>)
    requires |a| == 3 <= |b| && 0 !in b[..3]
    ensures SameExtension(a, b, 3) <==> a == b[..3]
  {
    assert SameExtension(a, b, 3) <==> a[0] == b[0] && SameExtension(a[1..], b[1..], 2);
    assert SameExtension(a[1..], b[1..], 2) <==> a[1] == b[1] && SameExtension(a[2..], b[2..], 1);
    assert a[1..][1..] == a[2..] && b[1..][1..] == b[2..];
    assert SameExtension(a[2..], b[2..], 1) <==> a[2] == b[2];
    assert b[..3][0] == b[0] && b[..3][1] == b[1] && b[..3][2] == b[2];
  }

  /** Which entries are listed.  Unused and deleted slots, volume labels and long-name parts (bit 3),
      hidden entries (bit 1) and the entry of the directory itself never are; of the others every
      one with '*', and else those with the extension, and directories when they are wanted. */
  lemma ListedEntries(x: Item, extension: seq<Char>, dirs: bool)
    requires |x.name| == 11 && |extension| >= 3 && 0 !in extension[..3]
    ensures (x.name[0] in {0, -27} || x.attributes / 8 % 2 == 1 || x.attributes / 2 % 2 == 1
             || x.name[..2] == ['.' as int, ' ' as int]) ==> !Eligible(x, extension, dirs)
    ensures !(x.name[0] in {0, -27} || x.attributes / 8 % 2 == 1 || x.attributes / 2 % 2 == 1
              || x.name[..2] == ['.' as int, ' ' as int]) ==>
              (Eligible(x, extension, dirs) <==>
                 (extension[0] == '*' as int || x.name[8..] == extension[..3] || (dirs && x.attributes / 16 % 2 == 1)))
  {
    SameExtensionMeans(x.name[8..], extension);
    var at: seq<Char> := ['.' as int, ' ' as int];
    assert x.name[..2] == at <==> x.name[0] == at[0] && x.name[1] == at[1] by {
      assert x.name[..2][0] == x.name[0] && x.name[..2][1] == x.name[1];
    }
  }

  /** The listed entries, in stored order. */
  function Listed(d: seq<Item>, extension: seq<Char>, dirs: bool): (r: seq<Item>)
    ensures |r| <= |d|
  {
    if d == [] then []
    else Listed(d[..|d| - 1], extension, dirs)
         + if Eligible(d[|d| - 1], extension, dirs) then [d[|d| - 1]] else []
  }

  // ---------- a buffer of eight entries behind a permutation ----------

  /** The first n entries of the table are distinct slots of a buffer. */
  ghost predicate IsTable(t: seq<nat>, n: nat) {
    && |t| == SHOWN && n <= SHOWN
    && (forall i :: 0 <= i < n ==> t[i] < SHOWN)
    && (forall i, j :: 0 <= i < j < n ==> t[i] != t[j])
  }

  /** The first n entries of the table are the first n slots. */
  ghost predicate Dense(t: seq<nat>, n: nat) {
    n <= |t| && forall i :: 0 <= i < n ==> t[i] < n
  }

  /** What the table shows of the buffer. */
  ghost function View(e: seq<Item>, t: seq<nat>, n: nat): (v: seq<Item>)
    requires |e| == SHOWN && IsTable(t, n)
    ensures |v| == n
  {
    seq(n, i requires 0 <= i < n => e[t[i]])
  }

  /** The one-pass bubble sort puts the last shown entry in its place. */
  method Bubble(e: array<Item>, t: array<nat>, n: nat, up: bool, ghost cmp: Cmp<Item>)
    requires Meant(cmp) && e.Length == SHOWN && IsTable(t[..], n) && n > 0
    modifies t
    ensures IsTable(t[..], n) && Rearranged(old(t[..]), t[..], n)
    ensures var w := old(View(e[..], t[..], n));
            View(e[..], t[..], n) == Insert(Direction(cmp, up), w[n - 1], w[..n - 1])
  {
    var i, more := n - 1, true;
    ghost var w := View(e[..], t[..], n);
    ghost var x, s, t0 := w[n - 1], w[..n - 1], t[..];
    InsertedEnds(cmp, x, s, w, up);
    while more && i > 0
      invariant i < n && IsTable(t[..], n) && Rearranged(t0, t[..], n)
      invariant View(e[..], t[..], n) == With(x, s, i) && StillInserts(cmp, x, s, i, up, more)
      decreases i, more
    {
      i, more := SwapNext(e, t, n, i, up, cmp, x, s, t0);
    }
  }

  /** What remains to be done: insert x among the first i entries, or nothing more. */
  ghost predicate StillInserts(cmp: Cmp<Item>, x: Item, s: seq<Item>, i: nat, up: bool, more: bool)
    requires i <= |s|
  {
    Insert(Direction(cmp, up), x, s) == if more then Inserted(cmp, x, s, i, up) else With(x, s, i)
  }

  /** The body of the loop. */
  method SwapNext(e: array<Item>, t: array<nat>, n: nat, i: nat, up: bool, ghost cmp: Cmp<Item>, ghost x: Item,
                  ghost s: seq<Item>, ghost t0: seq<nat>) returns (i': nat, more: bool)
    requires Meant(cmp) && e.Length == SHOWN && IsTable(t[..], n) && 0 < i < n && |s| == n - 1
    requires View(e[..], t[..], n) == With(x, s, i) && StillInserts(cmp, x, s, i, up, true)
    requires |t0| == SHOWN && Rearranged(t0, t[..], n)
    modifies t
    ensures IsTable(t[..], n) && Rearranged(t0, t[..], n) && i' == if more then i - 1 else i
    ensures View(e[..], t[..], n) == With(x, s, i') && StillInserts(cmp, x, s, i', up, more)
  {
    ghost var t1 := t[..];
    more := SwapOnce(e, t, n, i, up, cmp, x, s);
    RearrangedAgain(t0, t1, t[..], n);
    i' := if more then i - 1 else i;
  }

  /** x in front of entry number i of s. */
  function With(x: Item, s: seq<Item>, i: nat): seq<Item>
    requires i <= |s|
  {
    s[..i] + [x] + s[i..]
  }

  /** x inserted among the first i entries of s. */
  function Inserted(cmp: Cmp<Item>, x: Item, s: seq<Item>, i: nat, up: bool): seq<Item>
    requires i <= |s|
  {
    Insert(Direction(cmp, up), x, s[..i]) + s[i..]
  }

  lemma InsertedEnds(cmp: Cmp<Item>, x: Item, s: seq<Item>, w: seq<Item>, up: bool)
    requires w != [] && x == w[|w| - 1] && s == w[..|w| - 1]
    ensures With(x, s, |s|) == w && Inserted(cmp, x, s, |s|, up) == Insert(Direction(cmp, up), x, s)
    ensures Inserted(cmp, x, s, 0, up) == With(x, s, 0)
  {
    assert s[..|s|] == s && s[|s|..] == [] && s[..0] == [] && s[0..] == s;
  }

  /** One comparison of the bubble sort. */
  method SwapOnce(e: array<Item>, t: array<nat>, n: nat, i: nat, up: bool, ghost cmp: Cmp<Item>, ghost x: Item,
                  ghost s: seq<Item>)
    returns (swapped: bool)
    requires Meant(cmp) && e.Length == SHOWN && IsTable(t[..], n) && 0 < i < n && |s| == n - 1
    requires View(e[..], t[..], n) == With(x, s, i)
    modifies t
    ensures IsTable(t[..], n) && Rearranged(old(t[..]), t[..], n)
    ensures if swapped then
        View(e[..], t[..], n) == With(x, s, i - 1) && Inserted(cmp, x, s, i, up) == Inserted(cmp, x, s, i - 1, up)
      else t[..] == old(t[..]) && Inserted(cmp, x, s, i, up) == With(x, s, i)
  {
    ghost var v := View(e[..], t[..], n);
    var a, b := e[t[i]], e[t[i - 1]];
    assert a == v[i] == x && b == v[i - 1] == s[i - 1];
    var rc := CompareDirEntries(a, b);
    swapped := if up then rc < 0 else rc > 0;
    if swapped {
      SwapView(e[..], t[..], n, i);
      InsertMoves(cmp, x, s, i, up);
      Swap(t, i, i - 1);
    } else {
      InsertStops(cmp, x, s, i, up);
    }
  }

  method Swap(t: array<nat>, i: nat, j: nat)
    requires i < t.Length && j < t.Length
    modifies t
    ensures t[..] == old(t[..])[i := old(t[j])][j := old(t[i])]
  {
    var x := t[i];
    t[i] := t[j];
    t[j] := x;
  }

  ghost predicate SameFrom(t: seq<nat>, t': seq<nat>, n: nat)
    requires |t| == |t'| == SHOWN
  {
    forall k :: n <= k < SHOWN ==> t'[k] == t[k]
  }

  /** The first n entries were permuted: the others are the same, and a full or dense table still is. */
  ghost predicate Rearranged(t: seq<nat>, t': seq<nat>, n: nat)
    requires |t| == |t'| == SHOWN
  {
    SameFrom(t, t', n) && (IsTable(t, SHOWN) ==> IsTable(t', SHOWN)) && (Dense(t, n) ==> Dense(t', n))
  }

  lemma RearrangedAgain(t: seq<nat>, t': seq<nat>, t'': seq<nat>, n: nat)
    requires |t| == |t'| == |t''| == SHOWN && Rearranged(t, t', n) && Rearranged(t', t'', n)
    ensures Rearranged(t, t'', n)
  {
  }

  lemma InsertStops(cmp: Cmp<Item>, x: Item, s: seq<Item>, i: nat, up: bool)
    requires Meant(cmp) && 0 < i <= |s| && (if up then Compare(x, s[i - 1]) >= 0 else Compare(x, s[i - 1]) <= 0)
    ensures Insert(Direction(cmp, up), x, s[..i]) == s[..i] + [x]
  {
    DirectionMeans(cmp, x, s[i - 1]);
  }

  lemma InsertMoves(cmp: Cmp<Item>, x: Item, s: seq<Item>, i: nat, up: bool)
    requires Meant(cmp) && 0 < i <= |s| && if up then Compare(x, s[i - 1]) < 0 else Compare(x, s[i - 1]) > 0
    ensures Insert(Direction(cmp, up), x, s[..i]) + s[i..] == Insert(Direction(cmp, up), x, s[..i - 1]) + s[i - 1..]
    ensures var v := s[..i] + [x] + s[i..];
            v[i := v[i - 1]][i - 1 := v[i]] == s[..i - 1] + [x] + s[i - 1..]
  {
    DirectionMeans(cmp, x, s[i - 1]);
    assert s[..i][..i - 1] == s[..i - 1];
    assert s[i - 1..] == [s[i - 1]] + s[i..];
  }

  /** cmp is what CompareDirEntries computes.  Stated entry by entry so that proofs about sorting
      need not look into the comparison. */
  ghost predicate Meant(cmp: Cmp<Item>) {
    TotalPreorder(cmp) && forall x, y :: Agrees(cmp, x, y)
  }

  ghost predicate Agrees(cmp: Cmp<Item>, x: Item, y: Item) {
    cmp(x, y) == Compare(x, y)
  }

  lemma CompareIsMeant()
    ensures Meant(Compare)
  {
    CompareIsOrder();
  }

  lemma Means(cmp: Cmp<Item>, x: Item, y: Item)
    requires Meant(cmp)
    ensures cmp(x, y) == Compare(x, y)
    ensures (cmp(x, y) < 0 <==> Compare(y, x) > 0) && (cmp(x, y) > 0 <==> Compare(y, x) < 0)
  {
    assert Agrees(cmp, x, y) && Agrees(cmp, y, x);
    assert OrderAt(cmp, x, y, x) && OrderAt(cmp, y, x, y);
  }

  /** Ascending or descending order. */
  function Direction(cmp: Cmp<Item>, up: bool): Cmp<Item> { if up then cmp else Flip(cmp) }

  lemma DirectionMeans(cmp: Cmp<Item>, x: Item, y: Item)
    requires Meant(cmp)
    ensures Direction(cmp, true)(x, y) < 0 <==> Compare(x, y) < 0
    ensures Direction(cmp, false)(x, y) < 0 <==> Compare(x, y) > 0
  {
    Means(cmp, x, y);
    Means(cmp, y, x);
  }

  lemma SwapView(e: seq<Item>, t: seq<nat>, n: nat, i: nat)
    requires |e| == SHOWN && IsTable(t, n) && 0 < i < n
    ensures var t' := t[i := t[i - 1]][i - 1 := t[i]];
            var v := View(e, t, n);
            && IsTable(t', n) && View(e, t', n) == v[i := v[i - 1]][i - 1 := v[i]]
            && (IsTable(t, SHOWN) ==> IsTable(t', SHOWN)) && (Dense(t, n) ==> Dense(t', n))
  {
  }

  /** Read one more entry into a buffer that keeps the first eight. */
  method Keep(e: array<Item>, t: array<nat>, n: nat, x: Item, up: bool, ghost cmp: Cmp<Item>) returns (n': nat)
    requires Meant(cmp) && e.Length == SHOWN && IsTable(t[..], n) && (n < SHOWN ==> IsTable(t[..], n + 1) && t[n] == n)
    requires Ordered(Direction(cmp, up), View(e[..], t[..], n))
    modifies e, t
    ensures n' == (if n < SHOWN then n + 1 else n) && IsTable(t[..], n') && SameFrom(old(t[..]), t[..], n')
    ensures IsTable(old(t[..]), SHOWN) ==> IsTable(t[..], SHOWN)
    ensures n < SHOWN && Dense(old(t[..]), n) ==> Dense(t[..], n')
    ensures View(e[..], t[..], n') == First(SHOWN, Insert(Direction(cmp, up), x, old(View(e[..], t[..], n))))
  {
    ghost var v := View(e[..], t[..], n);
    DirectionIsOrder(cmp, up);
    if n < SHOWN {
      e[n] := x;
      n' := n + 1;
      assert View(e[..], t[..], n') == v + [x];
    } else {
      n' := n;
      var last := e[t[SHOWN - 1]];
      assert last == v[SHOWN - 1];
      var rc := CompareDirEntries(x, last);
      KeepFull(cmp, x, v, up);
      if if up then rc < 0 else rc > 0 {
        PutView(e[..], t[..], n, SHOWN - 1, x);
        e[t[SHOWN - 1]] := x;
      }
    }
    ghost var w := View(e[..], t[..], n');
    assert n < SHOWN ==> w[..n' - 1] == v;
    Bubble(e, t, n', up, cmp);
  }

  lemma DirectionIsOrder(cmp: Cmp<Item>, up: bool)
    requires TotalPreorder(cmp)
    ensures TotalPreorder(Direction(cmp, up))
  {
    FlipOrder(cmp);
  }

  /** A full buffer replaces its last entry or stays as it is. */
  lemma KeepFull(cmp: Cmp<Item>, x: Item, v: seq<Item>, up: bool)
    requires Meant(cmp) && |v| == SHOWN && Ordered(Direction(cmp, up), v)
    ensures var last := v[SHOWN - 1];
            var w := if (if up then Compare(x, last) < 0 else Compare(x, last) > 0) then v[SHOWN - 1 := x] else v;
            Insert(Direction(cmp, up), w[SHOWN - 1], w[..SHOWN - 1]) == First(SHOWN, Insert(Direction(cmp, up), x, v))
  {
    DirectionMeans(cmp, x, v[SHOWN - 1]);
    DirectionIsOrder(cmp, up);
    InsertLast(Direction(cmp, up), v);
    assert v[SHOWN - 1 := x][..SHOWN - 1] == v[..SHOWN - 1];
  }

  lemma PutView(e: seq<Item>, t: seq<nat>, n: nat, i: nat, x: Item)
    requires |e| == SHOWN && IsTable(t, n) && i < n
    ensures View(e[t[i] := x], t, n) == View(e, t, n)[i := x]
  {
  }

  // ---------- the window ----------

  /** The position of the window in a directory of `size` listed entries: the entry at its top and
      the selected line. */
  datatype Position = Position(top: nat, line: nat, size: nat)
  {
    /** Index of the selected entry in the sorted directory. */
    function Index(): nat { top + line }

    predicate Valid() { Inside(top, line, size) }
  }

  predicate Inside(top: nat, line: nat, size: nat) {
    top + Lines(size) <= size && if size == 0 then line == 0 else line < Lines(size)
  }

  function Lines(size: nat): nat { if size < SHOWN then size else SHOWN }

  class DirWindow {
    const entries: array<Item>
    const table: array<nat>
    const newEntries: array<Item>   // t_DirEntry
    const newTable: array<nat>      // t_sort_table
    ghost const cmp: Cmp<Item>      // the order of the entries
    var count: nat
    var selected: nat
    ghost var top: nat

    constructor ()
      ensures Apart() && cmp == Compare && fresh(entries) && fresh(table) && fresh(newEntries) && fresh(newTable)
    {
      entries := new Item[SHOWN];
      table := new nat[SHOWN];
      newEntries := new Item[SHOWN];
      newTable := new nat[SHOWN];
      cmp := Compare;
      CompareIsMeant();
      count, selected, top := 0, 0, 0;
    }

    ghost predicate Apart() {
      && entries.Length == table.Length == newEntries.Length == newTable.Length == SHOWN
      && entries != newEntries && table != newTable && Meant(cmp)
    }

    /** The visible entries are eight in a row of the sorted directory, or all of it. */
    ghost predicate Shows(d: seq<Item>)
      reads this, entries, table
    {
      && Apart() && IsTable(table[..], SHOWN) && count == Lines(|d|)
      && Inside(top, selected, |d|)
      && IsSlice(View(entries[..], table[..], count), Sort(cmp, d), top)
    }

    /** SCAN_INIT. */
    method ScanInit(d: seq<Item>, extension: seq<Char>, dirs: bool)
      requires Apart()
      modifies this, entries, table
      ensures Shows(Listed(d, extension, dirs)) && top == 0 && selected == 0
    {
      Clear();
      FillAll(d, extension, dirs);
      FirstIsSlice(Sort(cmp, Listed(d, extension, dirs)));
    }

    method FillAll(d: seq<Item>, extension: seq<Char>, dirs: bool)
      requires Filled([])
      modifies this`count, entries, table
      ensures Filled(Listed(d, extension, dirs))
    {
      ghost var l := [];
      assert d[..0] == [];
      for m := 0 to |d|
        invariant Filled(l) && l == Listed(d[..m], extension, dirs)
      {
        ListedNext(d, m, extension, dirs);
        if Eligible(d[m], extension, dirs) {
          Fill(d[m], l);
          l := l + [d[m]];
        }
      }
      assert d[..|d|] == d;
    }

    lemma FirstIsSlice(s: seq<Item>)
      ensures |First(SHOWN, s)| == Lines(|s|) && IsSlice(First(SHOWN, s), s, 0)
    {
    }

    method Clear()
      requires Apart()
      modifies this, table
      ensures Filled([]) && selected == top == 0
    {
      count, selected, top := 0, 0, 0;
      for i := 0 to SHOWN
        invariant count == selected == top == 0 && forall k :: 0 <= k < i ==> table[k] == k
      {
        table[i] := i;
      }
    }

    /** The window holds the first lines of the directory read so far. */
    ghost predicate Filled(l: seq<Item>)
      reads this, entries, table
    {
      && Apart() && count == Lines(|l|)
      && IsTable(table[..], SHOWN) && (forall k :: count <= k < SHOWN ==> table[k] == k) && IsTable(table[..], count)
      && View(entries[..], table[..], count) == First(SHOWN, Sort(cmp, l))
    }

    method Fill(x: Item, ghost l: seq<Item>)
      requires Filled(l)
      modifies this`count, entries, table
      ensures Filled(l + [x])
    {
      FirstSortNext(cmp, SHOWN, l, x);
      count := Keep(entries, table, count, x, true, cmp);
    }

    /** SCAN_NEXT: below the last line, put the next higher entry behind the visible ones. */
    method ScanNext(d: seq<Item>, extension: seq<Char>, dirs: bool)
      requires Shows(Listed(d, extension, dirs)) && Distinct(cmp, Listed(d, extension, dirs))
      modifies this`selected, this`top, entries, table
      ensures Shows(Listed(d, extension, dirs)) && At(d, extension, dirs) == Next(old(At(d, extension, dirs)))
    {
      if count == 0 { return; }
      if selected + 1 < count {
        selected := selected + 1;
        return;
      }
      if count < SHOWN { return; }
      LineDown(d, extension, dirs);
    }

    method LineDown(d: seq<Item>, extension: seq<Char>, dirs: bool)
      requires Shows(Listed(d, extension, dirs)) && Distinct(cmp, Listed(d, extension, dirs)) && count == SHOWN
      modifies this`top, entries, table
      ensures Shows(Listed(d, extension, dirs))
      ensures top == if old(top) + SHOWN < |Listed(d, extension, dirs)| then old(top) + 1 else old(top)
    {
      var found := MoveDown(d, extension, dirs, Listed(d, extension, dirs), View(entries[..], table[..], SHOWN));
      if found { top := top + 1; }
    }

    method MoveDown(d: seq<Item>, extension: seq<Char>, dirs: bool, ghost l: seq<Item>, ghost v: seq<Item>)
      returns (found: bool)
      requires Apart() && IsTable(table[..], SHOWN) && Distinct(cmp, l) && l == Listed(d, extension, dirs)
      requires v == View(entries[..], table[..], SHOWN) && IsSlice(v, Sort(cmp, l), top)
      modifies entries, table
      ensures IsTable(table[..], SHOWN) && (found <==> top + SHOWN < |l|)
      ensures IsSlice(View(entries[..], table[..], SHOWN), Sort(cmp, l), if found then top + 1 else top)
    {
      found := FindNext(d, extension, dirs);
      ScrollsDown(cmp, l, top, v, found, View(entries[..], table[..], SHOWN));
    }

    /** SCAN_PREV: above the first line, put the next lower entry in front of the visible ones. */
    method ScanPrev(d: seq<Item>, extension: seq<Char>, dirs: bool)
      requires Shows(Listed(d, extension, dirs)) && Distinct(cmp, Listed(d, extension, dirs))
      modifies this`count, this`selected, this`top, entries, table
      ensures Shows(Listed(d, extension, dirs)) && At(d, extension, dirs) == Prev(old(At(d, extension, dirs)))
    {
      if count == 0 { return; }
      if selected > 0 {
        selected := selected - 1;
        return;
      }
      LineUp(d, extension, dirs);
    }

    method LineUp(d: seq<Item>, extension: seq<Char>, dirs: bool)
      requires Shows(Listed(d, extension, dirs)) && Distinct(cmp, Listed(d, extension, dirs)) && count > 0
      modifies this`count, this`top, entries, table
      ensures Shows(Listed(d, extension, dirs)) && top == if old(top) > 0 then old(top) - 1 else 0
    {
      ghost var v := View(entries[..], table[..], count);
      var found := FindPrev(d, extension, dirs);
      ScrollsUp(cmp, SHOWN, Listed(d, extension, dirs), top, v, found, View(entries[..], table[..], count));
      if found { top := top - 1; }
    }

    /** The scan of SCAN_PREV. */
    method FindPrev(d: seq<Item>, extension: seq<Char>, dirs: bool) returns (found: bool)
      requires Apart() && IsTable(table[..], SHOWN) && 0 < count <= SHOWN
      modifies this`count, entries, table
      ensures IsTable(table[..], SHOWN) && 0 < count <= SHOWN
      ensures Preceded(cmp, Listed(d, extension, dirs), old(View(entries[..], table[..], count)), found,
                       View(entries[..], table[..], count))
    {
      found := false;
      ghost var v := View(entries[..], table[..], count);
      assert d[..0] == [];
      for m := 0 to |d|
        invariant IsTable(table[..], SHOWN) && 0 < count <= SHOWN
        invariant Preceded(cmp, Listed(d[..m], extension, dirs), v, found, View(entries[..], table[..], count))
      {
        ListedNext(d, m, extension, dirs);
        found := PrevOf(d[m], found, extension, dirs, Listed(d[..m], extension, dirs), v);
      }
      assert d[..|d|] == d;
    }

    /** The body of the loop. */
    method PrevOf(x: Item, found: bool, extension: seq<Char>, dirs: bool, ghost l: seq<Item>, ghost v: seq<Item>)
      returns (found': bool)
      requires Apart() && IsTable(table[..], SHOWN) && 0 < count <= SHOWN
      requires Preceded(cmp, l, v, found, View(entries[..], table[..], count))
      modifies this`count, entries, table
      ensures IsTable(table[..], SHOWN) && 0 < count <= SHOWN
      ensures Preceded(cmp, if Eligible(x, extension, dirs) then l + [x] else l, v, found',
                       View(entries[..], table[..], count))
    {
      found' := found;
      if Eligible(x, extension, dirs) {
        ghost var w := View(entries[..], table[..], count);
        found' := TryPrev(x, found);
        PrecededNext(cmp, l, x, v, found, w);
      }
    }

    method TryPrev(x: Item, found: bool) returns (found': bool)
      requires Apart() && IsTable(table[..], SHOWN) && 0 < count <= SHOWN && (found ==> count > 1)
      modifies this`count, entries, table
      ensures IsTable(table[..], SHOWN) && 0 < count <= SHOWN && (found' ==> count > 1)
      ensures (found', View(entries[..], table[..], count))
           == PrevStep(x, found, old(View(entries[..], table[..], count)))
    {
      found' := found;
      ghost var v := View(entries[..], table[..], count);
      var first := entries[table[0]];
      assert first == v[0];
      var rc := CompareDirEntries(x, first);
      if !found {
        if rc < 0 {
          found' := true;
          RotateDown(x);
          if count < SHOWN { count := count + 1; }
          ShorterView(entries[..], table[..], count);
          ShorterView(old(entries[..]), old(table[..]), old(count));
          assert View(entries[..], table[..], count) == First(SHOWN, [x] + v);
        }
      } else if rc > 0 {
        var second := entries[table[1]];
        assert second == v[1];
        rc := CompareDirEntries(x, second);
        if rc < 0 {
          PutView(entries[..], table[..], count, 0, x);
          entries[table[0]] := x;
        }
      }
    }

    /** Replace the entry of the last slot of the table and move that slot to the front. */
    method RotateDown(x: Item)
      requires Apart() && IsTable(table[..], SHOWN)
      modifies entries, table
      ensures IsTable(table[..], SHOWN)
      ensures View(entries[..], table[..], SHOWN) == [x] + old(View(entries[..], table[..], SHOWN))[..SHOWN - 1]
    {
      ghost var t := table[..];
      PutView(entries[..], t, SHOWN, SHOWN - 1, x);
      entries[table[SHOWN - 1]] := x;
      var last := table[SHOWN - 1];
      for i := SHOWN - 1 downto 0
        invariant forall k :: i < k < SHOWN ==> table[k] == t[k - 1]
        invariant forall k :: 0 <= k <= i ==> table[k] == t[k]
        invariant entries[..] == old(entries[..])[t[SHOWN - 1] := x]
      {
        table[i + 1] := table[i];
      }
      table[0] := last;
      assert table[..] == [t[SHOWN - 1]] + t[..SHOWN - 1];
    }

    /** The scan of SCAN_NEXT. */
    method FindNext(d: seq<Item>, extension: seq<Char>, dirs: bool) returns (found: bool)
      requires Apart() && IsTable(table[..], SHOWN)
      modifies entries, table
      ensures IsTable(table[..], SHOWN)
      ensures Followed(cmp, Listed(d, extension, dirs), old(View(entries[..], table[..], SHOWN)), found,
                       View(entries[..], table[..], SHOWN))
    {
      found := false;
      ghost var v := View(entries[..], table[..], SHOWN);
      assert d[..0] == [];
      for m := 0 to |d|
        invariant IsTable(table[..], SHOWN)
        invariant Followed(cmp, Listed(d[..m], extension, dirs), v, found, View(entries[..], table[..], SHOWN))
      {
        ListedNext(d, m, extension, dirs);
        found := NextOf(d[m], found, extension, dirs, Listed(d[..m], extension, dirs), v);
      }
      assert d[..|d|] == d;
    }

    /** The body of the loop. */
    method NextOf(x: Item, found: bool, extension: seq<Char>, dirs: bool, ghost l: seq<Item>, ghost v: seq<Item>)
      returns (found': bool)
      requires Apart() && IsTable(table[..], SHOWN)
      requires Followed(cmp, l, v, found, View(entries[..], table[..], SHOWN))
      modifies entries, table
      ensures IsTable(table[..], SHOWN)
      ensures Followed(cmp, if Eligible(x, extension, dirs) then l + [x] else l, v, found',
                       View(entries[..], table[..], SHOWN))
    {
      found' := found;
      if Eligible(x, extension, dirs) {
        ghost var w := View(entries[..], table[..], SHOWN);
        found' := TryNext(x, found);
        FollowedNext(cmp, l, x, v, found, w);
      }
    }

    method TryNext(x: Item, found: bool) returns (found': bool)
      requires Apart() && IsTable(table[..], SHOWN)
      modifies entries, table
      ensures IsTable(table[..], SHOWN)
      ensures (found', View(entries[..], table[..], SHOWN))
           == NextStep(x, found, old(View(entries[..], table[..], SHOWN)))
    {
      found' := found;
      ghost var v := View(entries[..], table[..], SHOWN);
      var last := entries[table[SHOWN - 1]];
      assert last == v[7];
      var rc := CompareDirEntries(x, last);
      if !found {
        if rc > 0 {
          found' := true;
          RotateUp(x);
        }
      } else if rc < 0 {
        var before := entries[table[SHOWN - 2]];
        assert before == v[6];
        rc := CompareDirEntries(x, before);
        if rc > 0 {
          PutView(entries[..], table[..], SHOWN, SHOWN - 1, x);
          entries[table[SHOWN - 1]] := x;
        }
      }
    }

    /** Replace the first entry and move its slot to the end of the table. */
    method RotateUp(x: Item)
      requires Apart() && IsTable(table[..], SHOWN)
      modifies entries, table
      ensures IsTable(table[..], SHOWN)
      ensures View(entries[..], table[..], SHOWN) == old(View(entries[..], table[..], SHOWN))[1..] + [x]
    {
      ghost var t, v := table[..], View(entries[..], table[..], SHOWN);
      PutView(entries[..], t, SHOWN, 0, x);
      entries[table[0]] := x;
      var first := table[0];
      for i := 0 to SHOWN - 1
        invariant forall k :: 0 <= k < i ==> table[k] == t[k + 1]
        invariant forall k :: i <= k < SHOWN ==> table[k] == t[k]
        invariant entries[..] == old(entries[..])[t[0] := x]
      {
        table[i] := table[i + 1];
      }
      table[SHOWN - 1] := first;
      assert table[..] == t[1..] + [t[0]];
    }

    // ---------- a page at a time ----------

    /** SCAN_NEXT_PAGE. */
    method ScanNextPage(d: seq<Item>, extension: seq<Char>, dirs: bool)
      requires Shows(Listed(d, extension, dirs)) && Distinct(cmp, Listed(d, extension, dirs))
      modifies this`selected, this`top, entries, table, newEntries, newTable
      ensures Shows(Listed(d, extension, dirs))
      ensures At(d, extension, dirs) == NextPage(old(At(d, extension, dirs)))
    {
      if count == 0 { return; }
      if selected + 1 < count {
        selected := count - 1;
        return;
      }
      if count < SHOWN { return; }
      PageDown(d, extension, dirs);
    }

    method PageDown(d: seq<Item>, extension: seq<Char>, dirs: bool)
      requires Shows(Listed(d, extension, dirs)) && Distinct(cmp, Listed(d, extension, dirs)) && count == SHOWN
      modifies this`top, entries, table, newEntries, newTable
      ensures Shows(Listed(d, extension, dirs))
      ensures top == old(top) + Lines(|Listed(d, extension, dirs)| - SHOWN - old(top))
    {
      ghost var l, v := Listed(d, extension, dirs), View(entries[..], table[..], count);
      var n := TurnForward(d, extension, dirs, l, v);
      top := top + n;
    }

    method TurnForward(d: seq<Item>, extension: seq<Char>, dirs: bool, ghost l: seq<Item>, ghost v: seq<Item>)
      returns (n: nat)
      requires Apart() && IsTable(table[..], SHOWN) && count == SHOWN && Distinct(cmp, l)
      requires l == Listed(d, extension, dirs) && v == View(entries[..], table[..], count)
      requires IsSlice(v, Sort(cmp, l), top)
      modifies entries, table, newEntries, newTable
      ensures IsTable(table[..], SHOWN) && n == Lines(|l| - SHOWN - top)
      ensures IsSlice(View(entries[..], table[..], SHOWN), Sort(cmp, l), top + n)
    {
      n := FindPage(d, extension, dirs, true, l, v);
      ghost var best := View(newEntries[..], newTable[..], n);
      ghost var shown := NextPageShown(cmp, l, top, v, n, best);
      ShowNext(n, shown, v, best);
    }

    /** SCAN_PREV_PAGE. */
    method ScanPrevPage(d: seq<Item>, extension: seq<Char>, dirs: bool)
      requires Shows(Listed(d, extension, dirs)) && Distinct(cmp, Listed(d, extension, dirs))
      modifies this, entries, table, newEntries, newTable
      ensures Shows(Listed(d, extension, dirs)) && At(d, extension, dirs) == PrevPage(old(At(d, extension, dirs)))
    {
      if count == 0 { return; }
      if selected > 0 {
        selected := 0;
        return;
      }
      PageUp(d, extension, dirs);
    }

    method PageUp(d: seq<Item>, extension: seq<Char>, dirs: bool)
      requires Shows(Listed(d, extension, dirs)) && Distinct(cmp, Listed(d, extension, dirs)) && count > 0
      modifies this`count, this`top, entries, table, newEntries, newTable
      ensures Shows(Listed(d, extension, dirs)) && top == old(top) - Lines(old(top))
    {
      ghost var l, v := Listed(d, extension, dirs), View(entries[..], table[..], count);
      var n := TurnBack(d, extension, dirs, l, v);
      top := top - n;
    }

    method TurnBack(d: seq<Item>, extension: seq<Char>, dirs: bool, ghost l: seq<Item>, ghost v: seq<Item>)
      returns (n: nat)
      requires Apart() && IsTable(table[..], SHOWN) && 0 < count <= SHOWN && Distinct(cmp, l)
      requires l == Listed(d, extension, dirs) && v == View(entries[..], table[..], count)
      requires (|v| < SHOWN ==> top == 0) && IsSlice(v, Sort(cmp, l), top)
      modifies this`count, entries, table, newEntries, newTable
      ensures IsTable(table[..], SHOWN) && n == Lines(top) && count == old(count)
      ensures IsSlice(View(entries[..], table[..], count), Sort(cmp, l), top - n)
    {
      n := FindPage(d, extension, dirs, false, l, v);
      ghost var best := View(newEntries[..], newTable[..], n);
      ghost var shown := PrevPageShown(cmp, l, top, v, n, best);
      ShowPrev(n, shown, v, best);
    }

    /** Collect the first eight entries beyond the last (up) or the first visible one (down). */
    method FindPage(d: seq<Item>, extension: seq<Char>, dirs: bool, up: bool, ghost l: seq<Item>, ghost v: seq<Item>)
      returns (n: nat)
      requires Apart() && IsTable(table[..], SHOWN) && 0 < count <= SHOWN && (up ==> count == SHOWN)
      requires l == Listed(d, extension, dirs) && v == View(entries[..], table[..], count)
      modifies newEntries, newTable
      ensures IsTable(newTable[..], n)
      ensures Collected(cmp, l, v, up, n, View(newEntries[..], newTable[..], n))
    {
      var p := entries[table[if up then SHOWN - 1 else 0]];
      assert p == if up then v[count - 1] else v[0];
      n := ReadPage(d, extension, dirs, p, up);
    }

    /** The scan of the page modes, with p the entry to go beyond. */
    method ReadPage(d: seq<Item>, extension: seq<Char>, dirs: bool, p: Item, up: bool) returns (n: nat)
      requires Apart()
      modifies newEntries, newTable
      ensures Paged(n, Beyond(Direction(cmp, up), Listed(d, extension, dirs), p), up)
    {
      n := 0;
      ghost var b: seq<Item> := [];
      NothingPaged(up);
      NothingBeyond(d, extension, dirs, p, up);
      for m := 0 to |d|
        invariant Paged(n, b, up) && b == Beyond(Direction(cmp, up), Listed(d[..m], extension, dirs), p)
      {
        OneBeyond(d, m, extension, dirs, p, up);
        n, b := PageNext(d[m], n, extension, dirs, p, up, b);
      }
      assert d[..|d|] == d;
    }

    /** The body of the loop. */
    method PageNext(x: Item, n: nat, extension: seq<Char>, dirs: bool, p: Item, up: bool, ghost b: seq<Item>)
      returns (n': nat, ghost b': seq<Item>)
      requires Apart() && Paged(n, b, up)
      modifies newEntries, newTable
      ensures b' == b + if Eligible(x, extension, dirs) && Direction(cmp, up)(p, x) < 0 then [x] else []
      ensures Paged(n', b', up)
    {
      n', b' := n, b;
      if Eligible(x, extension, dirs) {
        n' := TryPage(x, n, p, up, b);
        b' := b + if Direction(cmp, up)(p, x) < 0 then [x] else [];
      }
    }

    lemma NothingPaged(up: bool)
      requires Apart()
      ensures Paged(0, [], up)
    {
    }

    lemma NothingBeyond(d: seq<Item>, extension: seq<Char>, dirs: bool, p: Item, up: bool)
      ensures Beyond(Direction(cmp, up), Listed(d[..0], extension, dirs), p) == []
    {
      assert d[..0] == [];
    }

    lemma OneBeyond(d: seq<Item>, m: nat, extension: seq<Char>, dirs: bool, p: Item, up: bool)
      requires m < |d|
      ensures Beyond(Direction(cmp, up), Listed(d[..m + 1], extension, dirs), p)
           == Beyond(Direction(cmp, up), Listed(d[..m], extension, dirs), p)
              + if Eligible(d[m], extension, dirs) && Direction(cmp, up)(p, d[m]) < 0 then [d[m]] else []
    {
      ListedNext(d, m, extension, dirs);
      if Eligible(d[m], extension, dirs) {
        BeyondNext(Direction(cmp, up), Listed(d[..m], extension, dirs), p, d[m]);
      }
    }

    /** The temporary buffer holds the first of the entries b. */
    ghost predicate Paged(n: nat, b: seq<Item>, up: bool)
      reads newEntries, newTable
    {
      && newEntries.Length == SHOWN && IsTable(newTable[..], n) && Dense(newTable[..], n) && n == Lines(|b|)
      && View(newEntries[..], newTable[..], n) == First(SHOWN, Sort(Direction(cmp, up), b))
    }

    method TryPage(x: Item, n: nat, p: Item, up: bool, ghost b: seq<Item>) returns (n': nat)
      requires Apart() && Paged(n, b, up)
      modifies newEntries, newTable
      ensures Paged(n', b + if Direction(cmp, up)(p, x) < 0 then [x] else [], up)
    {
      n' := n;
      var rc := CompareDirEntries(x, p);
      DirectionMeans(cmp, p, x);
      Means(cmp, p, x);
      Means(cmp, x, p);
      if if up then rc > 0 else rc < 0 {
        n' := KeepPage(x, n, up, b);
      } else {
        assert b + [] == b;
      }
    }

    method KeepPage(x: Item, n: nat, up: bool, ghost b: seq<Item>) returns (n': nat)
      requires Apart() && Paged(n, b, up)
      modifies newEntries, newTable
      ensures Paged(n', b + [x], up)
    {
      DirectionIsOrder(cmp, up);
      FirstSortNext(Direction(cmp, up), SHOWN, b, x);
      TakeSlot(n);
      n' := Keep(newEntries, newTable, n, x, up, cmp);
    }

    /** The next slot goes into the table, if one is left. */
    method TakeSlot(n: nat)
      requires Apart() && newEntries.Length == SHOWN && IsTable(newTable[..], n) && Dense(newTable[..], n)
      modifies newTable
      ensures IsTable(newTable[..], n) && Dense(newTable[..], n)
      ensures n < SHOWN ==> IsTable(newTable[..], n + 1) && newTable[n] == n
      ensures View(newEntries[..], newTable[..], n) == old(View(newEntries[..], newTable[..], n))
    {
      ghost var v := View(newEntries[..], newTable[..], n);
      if n < SHOWN { newTable[n] := n; }
      assert View(newEntries[..], newTable[..], n) == v;
    }

    /** Drop the first n entries from view and show the collected ones behind the rest. */
    method ShowNext(n: nat, ghost shown: seq<Item>, ghost v: seq<Item>, ghost best: seq<Item>)
      requires Apart() && IsTable(table[..], SHOWN) && IsTable(newTable[..], n)
      requires v == View(entries[..], table[..], SHOWN) && best == View(newEntries[..], newTable[..], n)
      requires v[n..] + best == shown
      modifies entries, table
      ensures IsTable(table[..], SHOWN) && View(entries[..], table[..], SHOWN) == shown
    {
      if n > 0 {
        ShiftUp(n);
        CopyBehind(n);
      } else {
        assert v[0..] + [] == v;
      }
    }

    method ShiftUp(n: nat)
      requires Apart() && IsTable(table[..], SHOWN) && 0 < n <= SHOWN
      modifies table
      ensures IsTable(table[..], SHOWN) && table[..SHOWN - n] == old(table[..])[n..]
    {
      ghost var t := table[..];
      for i := 0 to SHOWN - n
        invariant IsTable(table[..], SHOWN)
        invariant forall k :: 0 <= k < i ==> table[k] == t[k + n]
        invariant forall k :: i + n <= k < SHOWN ==> table[k] == t[k]
      {
        Swap(table, i, i + n);
      }
    }

    method CopyBehind(n: nat)
      requires Apart() && IsTable(table[..], SHOWN) && IsTable(newTable[..], n)
      modifies entries
      ensures View(entries[..], table[..], SHOWN)
           == old(View(entries[..], table[..], SHOWN))[..SHOWN - n] + View(newEntries[..], newTable[..], n)
    {
      ghost var v, w := View(entries[..], table[..], SHOWN), View(newEntries[..], newTable[..], n);
      var j := SHOWN - n;
      for i := 0 to n
        invariant View(entries[..], table[..], SHOWN) == v[..j] + w[..i] + v[j + i..]
      {
        PutView(entries[..], table[..], SHOWN, i + j, newEntries[newTable[i]]);
        entries[table[i + j]] := newEntries[newTable[i]];
      }
    }

    /** Show the collected entries, which are in reverse order, in front of the others. */
    method ShowPrev(n: nat, ghost shown: seq<Item>, ghost v: seq<Item>, ghost best: seq<Item>)
      requires Apart() && IsTable(table[..], SHOWN) && IsTable(newTable[..], n) && 0 < count <= SHOWN
      requires v == View(entries[..], table[..], count) && best == View(newEntries[..], newTable[..], n)
      requires First(SHOWN, Reverse(best) + v) == shown
      modifies this`count, entries, table
      ensures IsTable(table[..], SHOWN) && count == Lines(old(count) + n)
      ensures View(entries[..], table[..], count) == shown
    {
      if n > 0 {
        PrependAll(n, v, best);
        count := count + n;
        if count > SHOWN { count := SHOWN; }
        ShorterView(entries[..], table[..], count);
      } else {
        assert Reverse(best) + v == v;
      }
    }

    method PrependAll(n: nat, ghost v: seq<Item>, ghost best: seq<Item>)
      requires Apart() && IsTable(table[..], SHOWN) && IsTable(newTable[..], n) && 0 < n && 0 < count <= SHOWN
      requires v == View(entries[..], table[..], count) && best == View(newEntries[..], newTable[..], n)
      modifies entries, table
      ensures IsTable(table[..], SHOWN)
      ensures var k := Lines(count + n); View(entries[..], table[..], SHOWN)[..k] == (Reverse(best) + v)[..k]
    {
      ghost var w, t := View(entries[..], table[..], SHOWN), table[..];
      ShorterView(entries[..], table[..], count);
      ShiftDown(n);
      ShiftedView(entries[..], t, table[..], n);
      CopyInFront(n);
      PrependCut(Reverse(best), w, v, Lines(count + n));
    }

    method ShiftDown(n: nat)
      requires Apart() && IsTable(table[..], SHOWN) && 0 < n <= SHOWN
      modifies table
      ensures IsTable(table[..], SHOWN) && table[n..] == old(table[..])[..SHOWN - n]
    {
      ghost var t := table[..];
      for i := SHOWN downto n
        invariant IsTable(table[..], SHOWN)
        invariant forall k :: i <= k < SHOWN ==> table[k] == t[k - n]
        invariant forall k :: 0 <= k < i - n ==> table[k] == t[k]
      {
        Swap(table, i, i - n);
      }
    }

    method CopyInFront(n: nat)
      requires Apart() && IsTable(table[..], SHOWN) && IsTable(newTable[..], n)
      modifies entries
      ensures View(entries[..], table[..], SHOWN)
           == Reverse(View(newEntries[..], newTable[..], n)) + old(View(entries[..], table[..], SHOWN))[n..]
    {
      ghost var v, w := View(entries[..], table[..], SHOWN), View(newEntries[..], newTable[..], n);
      for i := 0 to n
        invariant View(entries[..], table[..], SHOWN) == InFront(v, w, n, i)
      {
        PutView(entries[..], table[..], SHOWN, n - 1 - i, newEntries[newTable[i]]);
        NextInFront(v, w, n, i);
        entries[table[n - 1 - i]] := newEntries[newTable[i]];
      }
    }

    ghost function At(d: seq<Item>, extension: seq<Char>, dirs: bool): Position
      reads this`selected, this`top
    {
      Position(top, selected, |Listed(d, extension, dirs)|)
    }

    method Scan(key: Key, d: seq<Item>, extension: seq<Char>, dirs: bool)
      requires Shows(Listed(d, extension, dirs)) && Distinct(cmp, Listed(d, extension, dirs))
      modifies this, entries, table, newEntries, newTable
      ensures Shows(Listed(d, extension, dirs))
      ensures At(d, extension, dirs) == Moved(old(At(d, extension, dirs)), key)
    {
      match key
      case NEXT => ScanNext(d, extension, dirs);
      case PREV => ScanPrev(d, extension, dirs);
      case NEXT_PAGE => ScanNextPage(d, extension, dirs);
      case PREV_PAGE => ScanPrevPage(d, extension, dirs);
    }

    /** SCAN_INIT and any run of scrolling, over a directory in any stored order. */
    method Browse(keys: seq<Key>, d: seq<Item>, extension: seq<Char>, dirs: bool)
      requires Apart() && Distinct(cmp, Listed(d, extension, dirs))
      modifies this, entries, table, newEntries, newTable
      ensures Shows(Listed(d, extension, dirs))
      ensures At(d, extension, dirs) == Ran(Start(|Listed(d, extension, dirs)|), keys)
    {
      ScanInit(d, extension, dirs);
      ghost var start := Start(|Listed(d, extension, dirs)|);
      assert keys[..0] == [];
      for i := 0 to |keys|
        invariant Shows(Listed(d, extension, dirs)) && At(d, extension, dirs) == Ran(start, keys[..i])
      {
        assert keys[..i + 1][..i] == keys[..i];
        Scan(keys[i], d, extension, dirs);
      }
      assert keys[..|keys|] == keys;
    }

    /** The selected line shows the entry with the selected index of the sorted directory. */
    lemma SelectedEntry(d: seq<Item>)
      requires Shows(d) && d != []
      ensures entries[table[selected]] == Sort(cmp, d)[top + selected]
    {
      assert View(entries[..], table[..], count)[selected] == entries[table[selected]];
    }
  }

  // ---------- where the keys lead ----------

  datatype Key = NEXT | PREV | NEXT_PAGE | PREV_PAGE

  /** The first line of the first page. */
  function Start(size: nat): Position { Position(0, 0, size) }

  function Moved(p: Position, key: Key): Position {
    match key
    case NEXT => Next(p)
    case PREV => Prev(p)
    case NEXT_PAGE => NextPage(p)
    case PREV_PAGE => PrevPage(p)
  }

  function Ran(start: Position, keys: seq<Key>): Position {
    if keys == [] then start else Moved(Ran(start, keys[..|keys| - 1]), keys[|keys| - 1])
  }

  /** A line key moves the selection by one entry, and the window only when the selection stands at
      its edge. */
  lemma MovedByLine(p: Position)
    requires p.Valid() && p.size > 0
    ensures Next(p).Valid() && Prev(p).Valid() && Next(p).size == Prev(p).size == p.size
    ensures Next(p).Index() == if p.Index() + 1 < p.size then p.Index() + 1 else p.Index()
    ensures Prev(p).Index() == if p.Index() > 0 then p.Index() - 1 else 0
    ensures Next(p).top != p.top ==> p.line == Next(p).line == Lines(p.size) - 1
    ensures Prev(p).top != p.top ==> p.line == Prev(p).line == 0
  {
  }

  /** A page key goes to the edge of the window first, and from there by a full window. */
  lemma MovedByPage(p: Position)
    requires p.Valid() && p.size > 0
    ensures NextPage(p).Valid() && PrevPage(p).Valid() && NextPage(p).size == PrevPage(p).size == p.size
    ensures NextPage(p).line == Lines(p.size) - 1 && PrevPage(p).line == 0
    ensures NextPage(p).Index()
         == if p.line < Lines(p.size) - 1 then p.top + Lines(p.size) - 1 else Smaller(p.Index() + SHOWN, p.size - 1)
    ensures PrevPage(p).Index() == if p.line > 0 then p.top else if p.top > SHOWN then p.top - SHOWN else 0
  {
  }

  function Smaller(a: nat, b: nat): nat { if a < b then a else b }

  /** k times the same key. */
  predicate Repeats(keys: seq<Key>, key: Key, k: nat) {
    |keys| == k && forall i :: 0 <= i < k ==> keys[i] == key
  }

  /** From the start, k page-downs end on the last line of page k, or on the last entry. */
  lemma {:induction false} PagedDown(size: nat, keys: seq<Key>, k: nat)
    requires size > 0 && k > 0 && Repeats(keys, NEXT_PAGE, k)
    ensures var p := Ran(Start(size), keys);
            p.Valid() && p.size == size && p.Index() == Smaller(8 * k, size) - 1 && p.line == Lines(size) - 1
  {
    if k == 1 {
      assert keys[..0] == [] && Ran(Start(size), []) == Start(size);
      MovedByPage(Start(size));
    } else {
      PagedDown(size, keys[..k - 1], k - 1);
      MovedByPage(Ran(Start(size), keys[..k - 1]));
    }
  }

  /** From the last entry, k page-ups end 8 k entries from the end, or on the first entry. */
  lemma {:induction false} PagedUp(p: Position, keys: seq<Key>, k: nat)
    requires p.Valid() && p.size > 0 && p.Index() == p.size - 1 && k > 0 && Repeats(keys, PREV_PAGE, k)
    ensures var q := Ran(p, keys);
            && q.Valid() && q.size == p.size && q.line == 0
            && q.Index() == if p.size > 8 * k then p.size - 8 * k else 0
  {
    if k == 1 {
      assert keys[..0] == [] && Ran(p, []) == p;
      MovedByPage(p);
    } else {
      PagedUp(p, keys[..k - 1], k - 1);
      MovedByPage(Ran(p, keys[..k - 1]));
    }
  }

  /** No run of keys leaves the directory. */
  lemma {:induction false} RanInside(start: Position, keys: seq<Key>)
    requires start.Valid() && start.size > 0
    ensures Ran(start, keys).Valid() && Ran(start, keys).Index() < Ran(start, keys).size == start.size
  {
    if keys != [] {
      RanInside(start, keys[..|keys| - 1]);
      MovedByLine(Ran(start, keys[..|keys| - 1]));
      MovedByPage(Ran(start, keys[..|keys| - 1]));
    }
  }

  /** Every entry of the directory can be reached line by line. */
  lemma {:induction false} ReachedByLines(start: Position, keys: seq<Key>, i: nat)
    requires start.Valid() && start.Index() + i < start.size
    requires |keys| == i && forall k :: 0 <= k < i ==> keys[k] == NEXT
    ensures Ran(start, keys).Index() == start.Index() + i
    ensures Ran(start, keys).Valid() && Ran(start, keys).size == start.size
  {
    if i > 0 {
      ReachedByLines(start, keys[..i - 1], i - 1);
      MovedByLine(Ran(start, keys[..i - 1]));
    }
  }

  /** What SCAN_NEXT does with one listed entry. */
  function NextStep(x: Item, found: bool, v: seq<Item>): (bool, seq<Item>)
    requires |v| == SHOWN
  {
    if found then (true, if Compare(x, v[7]) < 0 && Compare(x, v[6]) > 0 then v[7 := x] else v)
    else if Compare(x, v[7]) > 0 then (true, v[1..] + [x])
    else (false, v)
  }

  ghost predicate Followed(cmp: Cmp<Item>, l: seq<Item>, v: seq<Item>, found: bool, w: seq<Item>) {
    |v| == SHOWN && NextFound(cmp, l, v, found, w)
  }

  lemma FollowedNext(cmp: Cmp<Item>, l: seq<Item>, x: Item, v: seq<Item>, found: bool, w: seq<Item>)
    requires Meant(cmp) && Followed(cmp, l, v, found, w)
    ensures var (found', w') := NextStep(x, found, w);
            Followed(cmp, l + [x], v, found', w')
  {
    HeadNext(cmp, l, v[7], x);
    Means(cmp, v[7], x);
    Means(cmp, x, w[7]);
    if found { assert w[6] == v[7]; }
  }

  function PrevStep(x: Item, found: bool, v: seq<Item>): (bool, seq<Item>)
    requires |v| > 0 && (found ==> |v| > 1)
  {
    if found then (true, if Compare(x, v[0]) > 0 && Compare(x, v[1]) < 0 then v[0 := x] else v)
    else if Compare(x, v[0]) < 0 then (true, First(SHOWN, [x] + v))
    else (false, v)
  }

  ghost predicate Preceded(cmp: Cmp<Item>, l: seq<Item>, v: seq<Item>, found: bool, w: seq<Item>) {
    0 < |v| <= SHOWN && PrevFound(cmp, SHOWN, l, v, found, w)
  }

  lemma PrecededNext(cmp: Cmp<Item>, l: seq<Item>, x: Item, v: seq<Item>, found: bool, w: seq<Item>)
    requires Meant(cmp) && Preceded(cmp, l, v, found, w)
    ensures found ==> |w| > 1
    ensures var (found', w') := PrevStep(x, found, w);
            Preceded(cmp, l + [x], v, found', w')
  {
    FlipOrder(cmp);
    HeadNext(Flip(cmp), l, v[0], x);
    Means(cmp, x, v[0]);
    Means(cmp, w[0], x);
    if found { assert w[1] == v[0]; }
  }

  /** The first n entries of v after the last i of them were replaced by the first i of w, reversed. */
  function InFront(v: seq<Item>, w: seq<Item>, n: nat, i: nat): seq<Item>
    requires i <= n <= |v| && n <= |w|
  {
    v[..n - i] + Reverse(w[..i]) + v[n..]
  }

  lemma NextInFront(v: seq<Item>, w: seq<Item>, n: nat, i: nat)
    requires i < n <= |v| && n <= |w|
    ensures InFront(v, w, n, i)[n - 1 - i := w[i]] == InFront(v, w, n, i + 1)
  {
  }

  lemma ShiftedView(e: seq<Item>, t: seq<nat>, t': seq<nat>, n: nat)
    requires |e| == SHOWN && IsTable(t, SHOWN) && IsTable(t', SHOWN) && n <= SHOWN && t'[n..SHOWN] == t[..SHOWN - n]
    ensures View(e, t', SHOWN)[n..] == View(e, t, SHOWN)[..SHOWN - n]
  {
    var v, v' := View(e, t, SHOWN), View(e, t', SHOWN);
    forall i | 0 <= i < SHOWN - n
      ensures v'[n..][i] == v[..SHOWN - n][i]
    {
      assert t'[n + i] == t'[n..SHOWN][i] == t[..SHOWN - n][i] == t[i];
    }
  }

  lemma PrependCut(r: seq<Item>, w: seq<Item>, v: seq<Item>, k: nat)
    requires |r| <= SHOWN == |w| && v <= w && k == Lines(|v| + |r|)
    ensures (r + w[..SHOWN - |r|])[..k] == (r + v)[..k]
  {
  }

  lemma ShorterView(e: seq<Item>, t: seq<nat>, n: nat)
    requires |e| == SHOWN && IsTable(t, SHOWN) && n <= SHOWN
    ensures View(e, t, n) == View(e, t, SHOWN)[..n]
  {
  }

  function Prev(p: Position): Position {
    if p.line > 0 then p.(line := p.line - 1)
    else if p.top > 0 then p.(top := p.top - 1)
    else p
  }

  /** best is the first n entries beyond the end of v where the page goes. */
  ghost predicate Collected(cmp: Cmp<Item>, l: seq<Item>, v: seq<Item>, up: bool, n: nat, best: seq<Item>) {
    && v != []
    && var b := Beyond(Direction(cmp, up), l, if up then v[|v| - 1] else v[0]);
       n == Lines(|b|) && best == First(SHOWN, Sort(Direction(cmp, up), b))
  }

  lemma NextPageShown(cmp: Cmp<Item>, l: seq<Item>, top: nat, v: seq<Item>, n: nat, best: seq<Item>)
    returns (shown: seq<Item>)
    requires TotalPreorder(cmp) && Distinct(cmp, l) && |v| == SHOWN
    requires IsSlice(v, Sort(cmp, l), top) && Collected(cmp, l, v, true, n, best)
    ensures n == Lines(|l| - SHOWN - top) && shown == v[n..] + best
    ensures |shown| == SHOWN && IsSlice(shown, Sort(cmp, l), top + n)
  {
    shown := v[n..] + best;
    PagesDown(cmp, SHOWN, l, top, v, best);
  }

  lemma PrevPageShown(cmp: Cmp<Item>, l: seq<Item>, top: nat, v: seq<Item>, n: nat, best: seq<Item>)
    returns (shown: seq<Item>)
    requires TotalPreorder(cmp) && Distinct(cmp, l) && 0 < |v| <= SHOWN && (|v| < SHOWN ==> top == 0)
    requires IsSlice(v, Sort(cmp, l), top) && Collected(cmp, l, v, false, n, best)
    ensures n == Lines(top) && shown == First(SHOWN, Reverse(best) + v)
    ensures |shown| == |v| && IsSlice(shown, Sort(cmp, l), top - n)
  {
    shown := First(SHOWN, Reverse(best) + v);
    PagesUp(cmp, SHOWN, l, top, v, best);
  }

  function NextPage(p: Position): Position {
    if p.line + 1 < Lines(p.size) then p.(line := Lines(p.size) - 1)
    else if p.top + SHOWN < p.size then p.(top := p.top + Lines(p.size - SHOWN - p.top))
    else p
  }

  function PrevPage(p: Position): Position {
    if p.line > 0 then p.(line := 0) else p.(top := p.top - Lines(p.top))
  }

  function Next(p: Position): Position {
    if p.line + 1 < Lines(p.size) then p.(line := p.line + 1)
    else if p.top + SHOWN < p.size then p.(top := p.top + 1)
    else p
  }

  lemma ListedNext(d: seq<Item>, m: nat, extension: seq<Char>, dirs: bool)
    requires m < |d|
    ensures var l := Listed(d[..m], extension, dirs);
            Listed(d[..m + 1], extension, dirs) == if Eligible(d[m], extension, dirs) then l + [d[m]] else l
  {
    assert d[..m + 1][..m] == d[..m];
  }
}
