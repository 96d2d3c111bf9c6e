/** The implicit binary tree of the page allocator (arch/riscv/kernel/mm.c), as a theory on values.

    Node i has children 2i+1 and 2i+2; the leaves size-1 .. 2*size-2 are the pages in order.
    The allocator's meaning is the set `live` of nodes handed out. The bitmap is a function of
    that set alone, and it agrees with what `live` says about free aligned blocks. */
module BuddyTree {
  import opened Words

  function Left(i: nat): nat { 2 * i + 1 }

  function Right(i: nat): nat { 2 * i + 2 }

  function Parent(i: nat): nat requires i > 0 { (i - 1) / 2 }

  /** Pages under node i of a tree over `size` pages. */
  function NodeSize(size: nat, i: nat): nat {
    if i == 0 then size else NodeSize(size, Parent(i)) / 2
  }

  /** First page under node i. */
  function Start(size: nat, i: nat): int {
    (i + 1) * NodeSize(size, i) - size
  }

  predicate IsNode(size: nat, i: nat) { i < 2 * size - 1 }

  predicate IsLeaf(size: nat, i: nat) { i >= size - 1 }

  predicate InBlock(size: nat, i: nat, page: nat) {
    Start(size, i) <= page < Start(size, i) + NodeSize(size, i)
  }

  /** j is i or lies below i. */
  predicate Under(i: nat, j: nat) {
    j == i || (j > i && Under(i, Parent(j)))
  }

  // ----- shape of the tree

  lemma ChildBounds(p: nat, i: nat, n: nat, size: nat)
    requires i == Left(p) || i == Right(p)
    requires (p + 1) * (2 * n) >= size && (p + 2) * (2 * n) <= 2 * size
    ensures (i + 1) * n >= size && (i + 2) * n <= 2 * size
  {
    if i == Left(p) {
      assert (i + 1) * n == (p + 1) * (2 * n);
      assert (i + 2) * n <= (p + 2) * (2 * n);
    } else {
      assert (i + 1) * n >= (p + 1) * (2 * n);
      assert (i + 2) * n == (p + 2) * (2 * n);
    }
  }

  lemma LeafIffOne(i: nat, n: nat, size: nat)
    requires n >= 1 && (i + 1) * n >= size && (i + 2) * n <= 2 * size && i < 2 * size - 1
    ensures n == 1 <==> i >= size - 1
  {
    assert n >= 2 ==> (i + 2) * n >= (i + 2) * 2;
  }

  lemma {:induction false} NodeShape(size: nat, i: nat)
    requires IsPow2(size) && IsNode(size, i)
    ensures IsPow2(NodeSize(size, i)) && NodeSize(size, i) >= 1
    ensures 0 <= Start(size, i) && Start(size, i) + NodeSize(size, i) <= size
    ensures NodeSize(size, i) == 1 <==> IsLeaf(size, i)
    ensures IsLeaf(size, i) ==> Start(size, i) == i - (size - 1)
  {
    var n := NodeSize(size, i);
    if i > 0 {
      var p := Parent(i);
      NodeShape(size, p);
      assert NodeSize(size, p) == 2 * n;
      ChildBounds(p, i, n, size);
    }
    LeafIffOne(i, n, size);
  }

  lemma ChildProducts(i: nat, n: nat)
    ensures (Left(i) + 1) * n == (i + 1) * (2 * n)
    ensures (Right(i) + 1) * n == (i + 1) * (2 * n) + n
  {
  }

  /** The children split their parent's block in halves. */
  lemma Halves(size: nat, i: nat)
    requires IsPow2(size) && IsNode(size, i) && !IsLeaf(size, i)
    ensures IsNode(size, Left(i)) && IsNode(size, Right(i))
    ensures NodeSize(size, Left(i)) == NodeSize(size, Right(i))
    ensures NodeSize(size, i) == 2 * NodeSize(size, Left(i))
    ensures Start(size, Left(i)) == Start(size, i)
    ensures Start(size, Right(i)) == Start(size, i) + NodeSize(size, Left(i))
  {
    NodeShape(size, i);
    var n := NodeSize(size, Left(i));
    assert Parent(Left(i)) == i && Parent(Right(i)) == i;
    assert NodeSize(size, i) == 2 * n;
    ChildProducts(i, n);
  }

  lemma {:induction false} UnderTransitive(i: nat, j: nat, k: nat)
    requires Under(i, j) && Under(j, k)
    ensures Under(i, k)
    decreases k
  {
    if k != j { UnderTransitive(i, j, Parent(k)); }
  }

  lemma {:induction false} UnderComparable(i: nat, j: nat, k: nat)
    requires Under(i, k) && Under(j, k)
    ensures Under(i, j) || Under(j, i)
    decreases k
  {
    if k != i && k != j { UnderComparable(i, j, Parent(k)); }
  }

  lemma {:induction false} UnderChild(i: nat, j: nat)
    requires Under(i, j) && i != j
    ensures Under(Left(i), j) || Under(Right(i), j)
    decreases j
  {
    if Parent(j) != i { UnderChild(i, Parent(j)); }
  }

  lemma ChildrenAreUnder(i: nat)
    ensures Under(i, Left(i)) && Under(i, Right(i))
  {
    assert Parent(Left(i)) == i && Parent(Right(i)) == i;
  }

  lemma {:induction false} UnderIsInside(size: nat, i: nat, j: nat)
    requires IsPow2(size) && IsNode(size, j) && Under(i, j)
    ensures Start(size, i) <= Start(size, j)
    ensures Start(size, j) + NodeSize(size, j) <= Start(size, i) + NodeSize(size, i)
    ensures i != j ==> 2 * NodeSize(size, j) <= NodeSize(size, i)
    decreases j
  {
    if i != j {
      UnderIsInside(size, i, Parent(j));
      Halves(size, Parent(j));
      NodeShape(size, j);
    }
  }

  lemma {:induction false} InBlockIsUnder(size: nat, i: nat, page: nat)
    requires IsPow2(size) && IsNode(size, i) && page < size && InBlock(size, i, page)
    ensures Under(i, size - 1 + page)
    decreases 2 * size - i
  {
    NodeShape(size, i);
    if !IsLeaf(size, i) {
      Halves(size, i);
      ChildrenAreUnder(i);
      var child := if InBlock(size, Left(i), page) then Left(i) else Right(i);
      InBlockIsUnder(size, child, page);
      UnderTransitive(i, child, size - 1 + page);
    }
  }

  /** The leaf of a page lies under exactly the nodes whose block holds the page. */
  lemma LeafUnderIffInBlock(size: nat, i: nat, page: nat)
    requires IsPow2(size) && IsNode(size, i) && page < size
    ensures InBlock(size, i, page) <==> Under(i, size - 1 + page)
  {
    var leaf := size - 1 + page;
    if Under(i, leaf) {
      UnderIsInside(size, i, leaf);
      NodeShape(size, leaf);
    }
    if InBlock(size, i, page) { InBlockIsUnder(size, i, page); }
  }

  // ----- live blocks

  /** Live nodes are nodes, and none lies below another. */
  ghost predicate LiveOk(size: nat, live: set<nat>) {
    && (forall a <- live :: IsNode(size, a))
    && (forall a <- live, b <- live :: Under(a, b) ==> a == b)
  }

  ghost function Heads(size: nat, live: set<nat>): set<int> {
    set a <- live :: Start(size, a)
  }

  lemma CancelFactor(a: nat, b: nat, n: nat)
    requires n >= 1 && a * n - b * n >= 0
    ensures a >= b && (a - b) * n == a * n - b * n
  {
    assert a < b ==> (b - a) * n >= n;
  }

  lemma MoveTwo(k: int, n: int)
    ensures k * (2 * n) == (2 * k) * n
  {
  }

  lemma {:induction false} Ratio(size: nat, i: nat) returns (k: nat)
    requires IsPow2(size) && IsNode(size, i)
    ensures size == k * NodeSize(size, i)
  {
    if i == 0 {
      k := 1;
    } else {
      var k' := Ratio(size, Parent(i));
      var n := NodeSize(size, i);
      NodeShape(size, Parent(i));
      NodeShape(size, i);
      k := 2 * k';
      assert NodeSize(size, Parent(i)) == 2 * n;
      MoveTwo(k', n);
    }
  }

  lemma {:induction false} Aligned(size: nat, i: nat)
    requires IsPow2(size) && IsNode(size, i)
    ensures NodeSize(size, i) >= 1 && Start(size, i) % NodeSize(size, i) == 0
  {
    NodeShape(size, i);
    var n := NodeSize(size, i);
    var k := Ratio(size, i);
    CancelFactor(i + 1, k, n);
    DivUnique(Start(size, i), n, i + 1 - k, 0);
  }

  /** Live blocks are in range, power-of-two sized, aligned to their size, and pairwise disjoint. */
  lemma LiveBlocksSafe(size: nat, live: set<nat>, a: nat, b: nat)
    requires IsPow2(size) && LiveOk(size, live) && a in live && b in live
    ensures 0 <= Start(size, a) && Start(size, a) + NodeSize(size, a) <= size
    ensures IsPow2(NodeSize(size, a)) && Start(size, a) % NodeSize(size, a) == 0
    ensures a != b ==> forall page: nat :: !(InBlock(size, a, page) && InBlock(size, b, page))
  {
    NodeShape(size, a);
    Aligned(size, a);
    if a != b {
      forall page: nat ensures !(InBlock(size, a, page) && InBlock(size, b, page)) {
        if InBlock(size, a, page) && InBlock(size, b, page) {
          LeafUnderIffInBlock(size, a, page);
          LeafUnderIffInBlock(size, b, page);
          UnderComparable(a, b, size - 1 + page);
        }
      }
    }
  }

  /** Two live blocks with the same first page are the same node. */
  lemma HeadIsUnique(size: nat, live: set<nat>, a: nat, b: nat)
    requires IsPow2(size) && LiveOk(size, live) && a in live && b in live
    requires Start(size, a) == Start(size, b)
    ensures a == b
  {
    NodeShape(size, a);
    NodeShape(size, b);
    LiveBlocksSafe(size, live, a, b);
    assert InBlock(size, a, Start(size, a)) && InBlock(size, b, Start(size, a));
  }

  // ----- the bitmap as a function of the live set

  function Combine(l: nat, r: nat, n: nat): nat {
    if l + r == n then n else if l > r then l else r
  }

  /** Longest free run under node i, computed from the live set alone. */
  function Longest(size: nat, live: set<nat>, i: nat): nat
    requires IsNode(size, i)
    decreases 2 * size - i
  {
    if i in live then 0
    else if IsLeaf(size, i) then 1
    else Combine(Longest(size, live, Left(i)), Longest(size, live, Right(i)), NodeSize(size, i))
  }

  /** The equation that ties one cell of the bitmap to its children. */
  predicate Settled(size: nat, live: set<nat>, bm: seq<nat>, i: nat)
    requires |bm| >= 2 * size - 1 && IsNode(size, i)
  {
    bm[i] == if i in live then 0 else if IsLeaf(size, i) then 1
             else Combine(bm[Left(i)], bm[Right(i)], NodeSize(size, i))
  }

  ghost predicate Canonical(size: nat, live: set<nat>, bm: seq<nat>) {
    && |bm| >= 2 * size - 1
    && forall i | 0 <= i < 2 * size - 1 :: Settled(size, live, bm, i)
  }

  /** A canonical bitmap is determined by the live set: it is Longest at every node. */
  lemma {:induction false} CanonicalIsLongest(size: nat, live: set<nat>, bm: seq<nat>, i: nat)
    requires Canonical(size, live, bm) && IsNode(size, i)
    ensures bm[i] == Longest(size, live, i)
    decreases 2 * size - i
  {
    assert Settled(size, live, bm, i);
    if i !in live && !IsLeaf(size, i) {
      CanonicalIsLongest(size, live, bm, Left(i));
      CanonicalIsLongest(size, live, bm, Right(i));
    }
  }

  lemma SplitUnder(i: nat, a: nat)
    ensures Under(i, a) <==> a == i || Under(Left(i), a) || Under(Right(i), a)
  {
    ChildrenAreUnder(i);
    if Under(i, a) && a != i { UnderChild(i, a); }
    if Under(Left(i), a) { UnderTransitive(i, Left(i), a); }
    if Under(Right(i), a) { UnderTransitive(i, Right(i), a); }
  }

  lemma OnlyLeafUnderLeaf(size: nat, i: nat, a: nat)
    requires IsNode(size, i) && IsLeaf(size, i) && Under(i, a)
    ensures a == i || !IsNode(size, a)
    decreases a
  {
    if a != i { OnlyLeafUnderLeaf(size, i, Parent(a)); }
  }

  /** No cell exceeds its node's size, and it reaches it exactly when nothing below is live. */
  lemma {:induction false} FullIffUntouched(size: nat, live: set<nat>, bm: seq<nat>, i: nat)
    requires IsPow2(size) && LiveOk(size, live) && Canonical(size, live, bm) && IsNode(size, i)
    ensures bm[i] <= NodeSize(size, i)
    ensures bm[i] == NodeSize(size, i) <==> forall a <- live :: !Under(i, a)
    decreases 2 * size - i
  {
    NodeShape(size, i);
    assert Settled(size, live, bm, i);
    if i in live {
      assert Under(i, i);
    } else if IsLeaf(size, i) {
      forall a <- live ensures !Under(i, a) {
        if Under(i, a) { OnlyLeafUnderLeaf(size, i, a); }
      }
    } else {
      Halves(size, i);
      FullIffUntouched(size, live, bm, Left(i));
      FullIffUntouched(size, live, bm, Right(i));
      forall a <- live ensures Under(i, a) <==> Under(Left(i), a) || Under(Right(i), a) {
        SplitUnder(i, a);
      }
    }
  }

  // ----- free blocks

  /** No page of node j is in a live block. */
  ghost predicate FreeNode(size: nat, live: set<nat>, j: nat) {
    IsNode(size, j) && forall a <- live :: !Under(a, j) && !Under(j, a)
  }

  /** FreeNode says what it should about pages: none of the block's pages is inside a live block. */
  lemma FreeNodeMeansFreePages(size: nat, live: set<nat>, j: nat)
    requires IsPow2(size) && LiveOk(size, live) && IsNode(size, j)
    ensures FreeNode(size, live, j) <==>
      forall page: nat, a | a in live && InBlock(size, j, page) :: !InBlock(size, a, page)
  {
    NodeShape(size, j);
    if FreeNode(size, live, j) {
      forall page: nat, a | a in live && InBlock(size, j, page) ensures !InBlock(size, a, page) {
        LeafUnderIffInBlock(size, j, page);
        LeafUnderIffInBlock(size, a, page);
        if InBlock(size, a, page) { UnderComparable(a, j, size - 1 + page); }
      }
    } else {
      var a :| a in live && (Under(a, j) || Under(j, a));
      NodeShape(size, a);
      var page := if Under(a, j) then Start(size, j) else Start(size, a);
      if Under(a, j) { UnderIsInside(size, a, j); } else { UnderIsInside(size, j, a); }
      assert InBlock(size, j, page) && InBlock(size, a, page);
    }
  }

  lemma {:induction false} CellGrowsUpwards(size: nat, live: set<nat>, bm: seq<nat>, i: nat, j: nat)
    requires IsPow2(size) && LiveOk(size, live) && Canonical(size, live, bm) && IsNode(size, j) && Under(i, j)
    requires forall a <- live :: !Under(a, i) && !(Under(i, a) && Under(a, j))
    ensures i < |bm| && bm[j] <= bm[i]
    decreases j
  {
    if i != j {
      var p := Parent(j);
      assert Settled(size, live, bm, p);
      assert Under(p, p) && Under(p, j);
      Halves(size, p);
      FullIffUntouched(size, live, bm, Left(p));
      FullIffUntouched(size, live, bm, Right(p));
      assert bm[j] <= bm[p];
      forall a <- live ensures !(Under(i, a) && Under(a, p)) {
        if Under(i, a) && Under(a, p) { UnderTransitive(a, p, j); }
      }
      CellGrowsUpwards(size, live, bm, i, p);
    }
  }

  /** Outside live blocks a cell bounds the size of every free block below it. */
  lemma FreeBlocksFit(size: nat, live: set<nat>, bm: seq<nat>, i: nat, j: nat)
    requires IsPow2(size) && LiveOk(size, live) && Canonical(size, live, bm) && IsNode(size, j) && Under(i, j)
    requires FreeNode(size, live, j)
    requires forall a <- live :: !Under(a, i)
    ensures NodeSize(size, j) <= bm[i]
    decreases j
  {
    if i == j {
      FullIffUntouched(size, live, bm, i);
    } else {
      var p := Parent(j);
      // bm is monotone along the path from j up to i
      CellGrowsUpwards(size, live, bm, i, j);
      FullIffUntouched(size, live, bm, j);
    }
  }

  /** The allocator's descent for a block of n pages from node i. */
  function Descend(size: nat, bm: seq<nat>, i: nat, n: nat): nat
    requires |bm| >= 2 * size - 1
    decreases 2 * size - i
  {
    if i >= size - 1 || NodeSize(size, i) == n then i
    else if bm[Left(i)] >= n then Descend(size, bm, Left(i), n)
    else Descend(size, bm, Right(i), n)
  }

  lemma ChildNotInside(size: nat, live: set<nat>, bm: seq<nat>, i: nat, child: nat)
    requires IsNode(size, i) && Canonical(size, live, bm) && !IsLeaf(size, i)
    requires child == Left(i) || child == Right(i)
    requires bm[child] > 0 && forall a <- live :: !Under(a, i)
    ensures forall a <- live :: !Under(a, child)
  {
    assert Parent(child) == i;
    assert Settled(size, live, bm, child);
  }

  /** A free block of n pages below i lies in the half that the descent enters, or to its right. */
  lemma LowestAcrossHalves(size: nat, live: set<nat>, bm: seq<nat>, i: nat, n: nat, k: nat)
    requires IsPow2(size) && LiveOk(size, live) && Canonical(size, live, bm)
    requires IsNode(size, i) && !IsLeaf(size, i) && NodeSize(size, i) != n
    requires Under(i, k) && FreeNode(size, live, k) && NodeSize(size, k) == n
    requires forall a <- live :: !Under(a, i)
    ensures (bm[Left(i)] >= n && Under(Left(i), k)) || Under(Right(i), k)
  {
    SplitUnder(i, k);
    if Under(Left(i), k) {
      forall a <- live ensures !Under(a, Left(i)) {
        if Under(a, Left(i)) { UnderTransitive(a, Left(i), k); }
      }
      FreeBlocksFit(size, live, bm, Left(i), k);
    }
  }

  lemma {:induction false} Pow2Below(n: nat, m: nat)
    requires IsPow2(n) && IsPow2(m) && n < m
    ensures 2 * n <= m
  {
    if n > 1 { Pow2Below(n / 2, m / 2); }
  }

  /** From a cell that promises n pages, the descent ends at the lowest free block of n pages below it. */
  lemma {:induction false} DescendFindsLowest(size: nat, live: set<nat>, bm: seq<nat>, i: nat, n: nat)
    requires IsPow2(size) && LiveOk(size, live) && Canonical(size, live, bm) && IsNode(size, i)
    requires IsPow2(n) && n <= bm[i] && forall a <- live :: !Under(a, i)
    ensures var j := Descend(size, bm, i, n);
      && Under(i, j) && FreeNode(size, live, j) && NodeSize(size, j) == n && bm[j] == n
      && forall k :: Under(i, k) && FreeNode(size, live, k) && NodeSize(size, k) == n ==>
           Start(size, j) <= Start(size, k)
    decreases 2 * size - i
  {
    NodeShape(size, i);
    FullIffUntouched(size, live, bm, i);
    assert Settled(size, live, bm, i);
    if IsLeaf(size, i) || NodeSize(size, i) == n {
      forall k | Under(i, k) && FreeNode(size, live, k) ensures Start(size, i) <= Start(size, k) {
        UnderIsInside(size, i, k);
      }
    } else {
      Halves(size, i);
      FullIffUntouched(size, live, bm, Left(i));
      FullIffUntouched(size, live, bm, Right(i));
      var child := if bm[Left(i)] >= n then Left(i) else Right(i);
      Pow2Below(n, NodeSize(size, i));
      assert Under(i, i);
      assert bm[child] >= n;
      ChildNotInside(size, live, bm, i, child);
      DescendFindsLowest(size, live, bm, child, n);
      var j := Descend(size, bm, i, n);
      ChildrenAreUnder(i);
      UnderTransitive(i, child, j);
      forall k | Under(i, k) && FreeNode(size, live, k) && NodeSize(size, k) == n
        ensures Start(size, j) <= Start(size, k)
      {
        LowestAcrossHalves(size, live, bm, i, n, k);
        if !Under(child, k) { UnderIsInside(size, child, j); UnderIsInside(size, Right(i), k); }
      }
    }
  }

  /** Every cell is zero or a power of two. */
  lemma {:induction false} CellIsPow2(size: nat, live: set<nat>, bm: seq<nat>, i: nat)
    requires IsPow2(size) && Canonical(size, live, bm) && IsNode(size, i)
    ensures bm[i] == 0 || IsPow2(bm[i])
    decreases 2 * size - i
  {
    assert Settled(size, live, bm, i);
    NodeShape(size, i);
    if i !in live && !IsLeaf(size, i) {
      CellIsPow2(size, live, bm, Left(i));
      CellIsPow2(size, live, bm, Right(i));
    }
  }

  /** Outside live blocks a cell is exactly the size of the largest free block below it, and 0 if there is none. */
  lemma CellIsLargestFree(size: nat, live: set<nat>, bm: seq<nat>, i: nat)
    requires IsPow2(size) && LiveOk(size, live) && Canonical(size, live, bm) && IsNode(size, i)
    requires forall a <- live :: !Under(a, i)
    ensures forall j: nat :: Under(i, j) && FreeNode(size, live, j) ==> NodeSize(size, j) <= bm[i]
    ensures bm[i] > 0 ==> exists j: nat :: Under(i, j) && FreeNode(size, live, j) && NodeSize(size, j) == bm[i]
  {
    hide LiveOk, Under;
    forall j: nat | Under(i, j) && FreeNode(size, live, j) ensures NodeSize(size, j) <= bm[i] {
      FreeBlocksFit(size, live, bm, i, j);
    }
    CellIsPow2(size, live, bm, i);
    if bm[i] > 0 {
      DescendFindsLowest(size, live, bm, i, bm[i]);
    }
  }

  lemma {:induction false} RootAboveAll(j: nat)
    ensures Under(0, j)
  {
    if j > 0 { RootAboveAll(Parent(j)); }
  }

  /** A block of n pages can be had exactly when the root cell says so. */
  lemma FreeBlockExistsIff(size: nat, live: set<nat>, bm: seq<nat>, n: nat)
    requires IsPow2(size) && LiveOk(size, live) && Canonical(size, live, bm) && IsPow2(n) && size >= 1
    ensures bm[0] >= n <==> exists j :: FreeNode(size, live, j) && NodeSize(size, j) == n
  {
    if 0 in live {
      assert Settled(size, live, bm, 0);
      forall j | IsNode(size, j) ensures Under(0, j) { RootAboveAll(j); }
    } else {
      forall a <- live ensures !Under(a, 0) { }
      if bm[0] >= n { DescendFindsLowest(size, live, bm, 0, n); }
      if j :| FreeNode(size, live, j) && NodeSize(size, j) == n {
        RootAboveAll(j);
        FreeBlocksFit(size, live, bm, 0, j);
      }
    }
  }

  // ----- rewriting one cell and its ancestors

  /** Every cell is settled except possibly those properly above c. */
  ghost predicate SettledExceptAbove(size: nat, live: set<nat>, bm: seq<nat>, c: nat) {
    && |bm| >= 2 * size - 1
    && forall i | 0 <= i < 2 * size - 1 && (i == c || !Under(i, c)) :: Settled(size, live, bm, i)
  }

  lemma WriteCell(size: nat, live: set<nat>, live': set<nat>, bm: seq<nat>, c: nat, v: nat)
    requires Canonical(size, live, bm) && IsNode(size, c)
    requires live' == live + {c} || live' == live - {c}
    requires c in live' ==> v == 0
    requires c !in live' ==> v == if IsLeaf(size, c) then 1 else Combine(bm[Left(c)], bm[Right(c)], NodeSize(size, c))
    ensures SettledExceptAbove(size, live', bm[c := v], c)
  {
    forall i | 0 <= i < 2 * size - 1 && (i == c || !Under(i, c))
      ensures Settled(size, live', bm[c := v], i)
    {
      assert Settled(size, live, bm, i);
      if Left(i) == c || Right(i) == c { ChildrenAreUnder(i); }
    }
  }

  lemma ClimbStep(size: nat, live: set<nat>, bm: seq<nat>, c: nat, v: nat)
    requires IsNode(size, c) && c > 0 && SettledExceptAbove(size, live, bm, c)
    requires Parent(c) !in live
    requires v == Combine(bm[Left(Parent(c))], bm[Right(Parent(c))], NodeSize(size, Parent(c)))
    ensures SettledExceptAbove(size, live, bm[Parent(c) := v], Parent(c))
  {
    var p := Parent(c);
    forall i | 0 <= i < 2 * size - 1 && (i == p || !Under(i, p))
      ensures Settled(size, live, bm[p := v], i)
    {
      if i != p {
        assert i == c || !Under(i, c);
        assert Settled(size, live, bm, i);
        if Left(i) == p || Right(i) == p { ChildrenAreUnder(i); }
      }
    }
  }

  /** With no live block every cell holds its node's size: the state buddy_init starts from. */
  lemma EmptyIsInitial(size: nat, bm: seq<nat>, i: nat)
    requires IsPow2(size) && Canonical(size, {}, bm) && IsNode(size, i)
    ensures bm[i] == NodeSize(size, i)
  {
    FullIffUntouched(size, {}, bm, i);
  }

  lemma HalfOfParent(size: nat, i: nat)
    requires i > 0
    ensures NodeSize(size, i) == NodeSize(size, Parent(i)) / 2
  {
  }

  /** Walking the array in index order, the node size halves exactly where i + 1 is a power of two. */
  lemma {:induction false} NodeSizeInOrder(size: nat, i: nat)
    requires i > 0
    ensures NodeSize(size, i) == if IsPow2(i + 1) then NodeSize(size, i - 1) / 2 else NodeSize(size, i - 1)
  {
    hide NodeSize;
    var p := Parent(i);
    HalfOfParent(size, i);
    if i > 1 { HalfOfParent(size, i - 1); }
    if i == Left(p) {
      assert i + 1 == 2 * (p + 1);
      if p > 0 {
        NodeSizeInOrder(size, p);
        assert Parent(i - 1) == p - 1;
      }
    } else {
      assert Parent(i - 1) == p;
      assert (i + 1) % 2 == 1;
    }
  }
}
