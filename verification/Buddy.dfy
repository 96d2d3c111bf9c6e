/** The page allocator with reference counts (arch/riscv/kernel/mm.c). */
module PageAllocator {
  import opened Words
  import opened RoundUp
  import opened BuddyTree

  /** The block size that a request for n pages is rounded to. */
  function RoundPages(n: nat): (r: nat)
    ensures IsPow2(r) && r >= n
  {
    if n <= 1 then 1 else 2 * RoundPages((n + 1) / 2)
  }

  lemma {:induction false} RoundPagesIsLeast(n: nat, p: nat)
    requires IsPow2(p) && p >= n
    ensures RoundPages(n) <= p
    decreases n
  {
    if n > 1 { RoundPagesIsLeast((n + 1) / 2, p / 2); }
  }

  lemma OnePageNode(size: nat, j: nat)
    requires IsPow2(size) && IsNode(size, j)
    ensures NodeSize(size, j) == 1 <==> j >= size - 1
    ensures j >= size - 1 ==> Start(size, j) == j - (size - 1)
  {
    NodeShape(size, j);
  }

  lemma LeafStart(size: nat, live: set<nat>, pfn: nat)
    requires IsPow2(size) && LiveOk(size, live) && pfn < size
    ensures var leaf := size - 1 + pfn;
      && IsNode(size, leaf) && Under(leaf, leaf) && NodeSize(size, leaf) == 1
      && forall a <- live :: InBlock(size, a, pfn) ==> Under(a, leaf)
  {
    NodeShape(size, size - 1 + pfn);
    OnePageNode(size, size - 1 + pfn);
    forall a | a in live && InBlock(size, a, pfn) ensures Under(a, size - 1 + pfn) { LeafUnderIffInBlock(size, a, pfn); }
  }

  /** One turn of the climb past a non-zero cell; at the root no live block can be left. */
  lemma ClimbOn(size: nat, live: set<nat>, bm: seq<nat>, i: nat, pfn: nat)
    requires IsPow2(size) && LiveOk(size, live) && Canonical(size, live, bm) && IsNode(size, i) && bm[i] != 0
    requires pfn < size && Under(i, size - 1 + pfn)
    requires forall a <- live :: InBlock(size, a, pfn) ==> Under(a, i)
    ensures i == 0 ==> NodeSize(size, i) == size && forall a <- live :: !InBlock(size, a, pfn)
    ensures i > 0 ==> IsNode(size, Parent(i)) && Under(Parent(i), size - 1 + pfn)
    ensures i > 0 ==> NodeSize(size, Parent(i)) == NodeSize(size, i) * 2
    ensures i > 0 ==> forall a <- live :: InBlock(size, a, pfn) ==> Under(a, Parent(i))
  {
    assert Settled(size, live, bm, i);
    assert i !in live;
    if i > 0 {
      NodeShape(size, Parent(i));
      Halves(size, Parent(i));
      assert Under(Parent(i), i);
      UnderTransitive(Parent(i), i, size - 1 + pfn);
    }
  }

  lemma {:induction false} UnderIsLarger(i: nat, j: nat)
    requires Under(i, j)
    ensures i <= j
    decreases j
  {
  }

  lemma {:induction false} UnderAntisymmetric(i: nat, j: nat)
    requires Under(i, j)
    ensures i <= j && (Under(j, i) ==> i == j)
  {
    if i != j { UnderIsLarger(i, j); if Under(j, i) { UnderIsLarger(j, i); } }
  }

  /** The climb from a live block's first leaf stops at the block's own node. */
  lemma StopsAtLiveNode(size: nat, live: set<nat>, bm: seq<nat>, a: nat, i: nat)
    requires IsPow2(size) && LiveOk(size, live) && Canonical(size, live, bm)
    requires a in live && IsNode(size, i) && Under(a, i) && bm[i] == 0
    ensures i == a
  {
    FullIffUntouched(size, live, bm, i);
    NodeShape(size, i);
    var b :| b in live && Under(i, b);
    UnderTransitive(a, i, b);
    UnderAntisymmetric(a, i);
  }

  /** Page p is in no live block. */
  ghost predicate PageFree(size: nat, live: set<nat>, p: nat) {
    p < size && FreeNode(size, live, size - 1 + p)
  }

  /** A zero cell above a page is that of the live block which holds the page. */
  lemma ClimbEnds(size: nat, live: set<nat>, bm: seq<nat>, i: nat, pfn: nat)
    requires IsPow2(size) && LiveOk(size, live) && Canonical(size, live, bm) && IsNode(size, i) && bm[i] == 0
    requires pfn < size && Under(i, size - 1 + pfn)
    requires forall a <- live :: InBlock(size, a, pfn) ==> Under(a, i)
    ensures !PageFree(size, live, pfn) && forall a <- live :: InBlock(size, a, pfn) ==> a == i
  {
    forall a | a in live && InBlock(size, a, pfn) ensures a == i { StopsAtLiveNode(size, live, bm, a, i); }
    var leaf := size - 1 + pfn;
    if FreeNode(size, live, leaf) {
      forall a | a in live ensures !Under(a, i) {
        if Under(a, i) { UnderTransitive(a, i, leaf); }
      }
      OnePageNode(size, leaf);
      FreeBlocksFit(size, live, bm, i, leaf);
    }
  }

  lemma NothingAboveRoot(size: nat, live: set<nat>, bm: seq<nat>)
    ensures SettledExceptAbove(size, live, bm, 0) ==> Canonical(size, live, bm)
  {
    forall i: nat | Under(i, 0) ensures i == 0 { UnderIsLarger(i, 0); }
  }

  lemma RootTooLarge(size: nat, live: set<nat>, bm: seq<nat>)
    requires IsPow2(size) && LiveOk(size, live) && |bm| >= 2 * size
    ensures !Canonical(size, live, bm[0 := 2 * size])
  {
    var bm' := bm[0 := 2 * size];
    if Canonical(size, live, bm') {
      FullIffUntouched(size, live, bm', 0);
      assert false;
    }
  }

  /** Every page is free or inside exactly one live block. */
  lemma PageOwner(size: nat, live: set<nat>, page: nat)
    requires IsPow2(size) && LiveOk(size, live) && page < size
    ensures FreeNode(size, live, size - 1 + page) <==> forall a <- live :: !InBlock(size, a, page)
    ensures forall a <- live, b <- live :: InBlock(size, a, page) && InBlock(size, b, page) ==> a == b
  {
    var leaf := size - 1 + page;
    NodeShape(size, leaf);
    FreeNodeMeansFreePages(size, live, leaf);
    assert InBlock(size, leaf, page);
    forall p: nat | InBlock(size, leaf, p) ensures p == page { }
    forall a, b | a in live && b in live && InBlock(size, a, page) && InBlock(size, b, page) ensures a == b {
      LiveBlocksSafe(size, live, a, b);
    }
  }

  /** A page that heads a live block is in that block alone. */
  lemma HeadOwnsPage(size: nat, live: set<nat>, pfn: nat)
    requires IsPow2(size) && LiveOk(size, live) && pfn < size && pfn in Heads(size, live)
    ensures !PageFree(size, live, pfn)
    ensures forall a <- live :: InBlock(size, a, pfn) <==> Start(size, a) == pfn
  {
    var h :| h in live && Start(size, h) == pfn;
    NodeShape(size, h);
    PageOwner(size, live, pfn);
    assert InBlock(size, h, pfn);
    forall a | a in live ensures InBlock(size, a, pfn) <==> Start(size, a) == pfn { NodeShape(size, a); }
  }

  lemma NotAbove(live: set<nat>, i: nat)
    requires i > 0 && forall b <- live :: !Under(b, i)
    ensures Parent(i) !in live && forall b <- live :: !Under(b, Parent(i))
  {
    assert Under(Parent(i), Parent(i)) && Under(Parent(i), i);
    forall b | b in live ensures !Under(b, Parent(i)) {
      if Under(b, Parent(i)) { UnderIsLarger(b, Parent(i)); }
    }
  }

  lemma ParentAbove(live: set<nat>, j: nat, i: nat)
    requires Under(i, j) && i > 0 && forall b <- live :: Under(b, j) ==> b == j
    ensures Under(Parent(i), j) && Parent(i) !in live
  {
    assert Under(Parent(i), Parent(i)) && Under(Parent(i), i);
    UnderTransitive(Parent(i), i, j);
    UnderIsLarger(i, j);
  }

  ghost predicate CellFits(size: nat, bm: seq<nat>, i: nat)
    requires i < |bm|
  {
    bm[i] <= NodeSize(size, i)
  }

  ghost predicate CellsFit(size: nat, bm: seq<nat>) {
    |bm| >= 2 * size - 1 && forall i | 0 <= i < 2 * size - 1 :: CellFits(size, bm, i)
  }

  /** The bitmap while buddy_alloc climbs: settled up to c, whose cell is below its full size. */
  ghost predicate ShrunkTo(size: nat, live: set<nat>, bm: seq<nat>, c: nat) {
    && IsNode(size, c) && SettledExceptAbove(size, live, bm, c) && bm[c] < NodeSize(size, c)
    && CellsFit(size, bm)
  }

  lemma KeepsFitting(size: nat, bm: seq<nat>, p: nat, v: nat)
    requires CellsFit(size, bm)
    requires p < 2 * size - 1 && v <= NodeSize(size, p)
    ensures CellsFit(size, bm[p := v])
  {
    var bm' := bm[p := v];
    forall i | 0 <= i < 2 * size - 1 ensures CellFits(size, bm', i) { assert CellFits(size, bm, i); }
  }

  lemma MaximumIsCombine(l: nat, r: nat, half: nat, n: nat)
    requires n == 2 * half && half >= 1 && l <= half && r <= half && (l < half || r < half)
    ensures Combine(l, r, n) == if l > r then l else r
    ensures Combine(l, r, n) < n
  {
  }

  lemma ShrinkStep(size: nat, live: set<nat>, bm: seq<nat>, c: nat, v: nat)
    requires IsPow2(size) && ShrunkTo(size, live, bm, c) && c > 0 && Parent(c) !in live
    requires Right(Parent(c)) < 2 * size - 1
    requires v == if bm[Left(Parent(c))] > bm[Right(Parent(c))] then bm[Left(Parent(c))] else bm[Right(Parent(c))]
    ensures ShrunkTo(size, live, bm[Parent(c) := v], Parent(c))
  {
    var p := Parent(c);
    var l, r, n := bm[Left(p)], bm[Right(p)], NodeSize(size, p);
    Halves(size, p);
    NodeShape(size, Left(p));
    assert CellFits(size, bm, Left(p)) && CellFits(size, bm, Right(p));
    assert v == Combine(l, r, n) && v < n by {
      assert c == Left(p) || c == Right(p);
      MaximumIsCombine(l, r, NodeSize(size, Left(p)), n);
    }
    ClimbStep(size, live, bm, c, v);
    KeepsFitting(size, bm, p, v);
  }

  lemma RootFree(size: nat, live: set<nat>, bm: seq<nat>)
    requires size >= 1 && Canonical(size, live, bm) && bm[0] > 0
    ensures forall a <- live :: !Under(a, 0)
  {
    assert Settled(size, live, bm, 0);
  }

  lemma DescentStep(size: nat, live: set<nat>, bm: seq<nat>, i: nat, n: nat)
    requires IsPow2(size) && LiveOk(size, live) && Canonical(size, live, bm) && IsNode(size, i)
    requires IsPow2(n) && n <= bm[i] && NodeSize(size, i) != n && forall a <- live :: !Under(a, i)
    ensures !IsLeaf(size, i) && IsNode(size, Left(i)) && IsNode(size, Right(i))
    ensures var child := if bm[Left(i)] >= n then Left(i) else Right(i);
      && bm[child] >= n && NodeSize(size, child) == NodeSize(size, i) / 2
      && Descend(size, bm, i, n) == Descend(size, bm, child, n)
      && forall a <- live :: !Under(a, child)
  {
    NodeShape(size, i);
    FullIffUntouched(size, live, bm, i);
    Halves(size, i);
    FullIffUntouched(size, live, bm, Left(i));
    FullIffUntouched(size, live, bm, Right(i));
    Pow2Below(n, NodeSize(size, i));
    assert Settled(size, live, bm, i);
    assert Under(i, i);
    ChildNotInside(size, live, bm, i, if bm[Left(i)] >= n then Left(i) else Right(i));
  }

  lemma FreshHead(size: nat, live: set<nat>, j: nat)
    requires IsPow2(size) && LiveOk(size, live) && FreeNode(size, live, j)
    ensures LiveOk(size, live + {j}) && j !in live
    ensures 0 <= Start(size, j) < size && Start(size, j) !in Heads(size, live)
  {
    NodeShape(size, j);
    assert Under(j, j);
    forall a | a in live ensures Start(size, a) != Start(size, j) {
      FreeNodeMeansFreePages(size, live, j);
      NodeShape(size, a);
      if Start(size, a) == Start(size, j) {
        assert InBlock(size, j, Start(size, j)) && InBlock(size, a, Start(size, j));
      }
    }
  }

  /** The state right after buddy_alloc has zeroed its node. */
  lemma AllocatedCell(size: nat, live: set<nat>, bm: seq<nat>, j: nat)
    requires IsPow2(size) && LiveOk(size, live) && Canonical(size, live, bm) && FreeNode(size, live, j)
    ensures ShrunkTo(size, live + {j}, bm[j := 0], j)
    ensures LiveOk(size, live + {j}) && NodeSize(size, j) >= 1
    ensures 0 <= Start(size, j) < size && Start(size, j) !in Heads(size, live)
  {
    NodeShape(size, j);
    FreshHead(size, live, j);
    WriteCell(size, live, live + {j}, bm, j, 0);
    forall i | 0 <= i < 2 * size - 1 ensures CellFits(size, bm, i) { FullIffUntouched(size, live, bm, i); }
    KeepsFitting(size, bm, j, 0);
  }

  lemma UnderIsLargerIf(i: nat, j: nat)
    ensures Under(i, j) ==> i <= j
  {
    if Under(i, j) { UnderIsLarger(i, j); }
  }

  /** Freeing restores the node's full size: its children are untouched. */
  lemma FreedCellIsFull(size: nat, live: set<nat>, bm: seq<nat>, a: nat)
    requires IsPow2(size) && LiveOk(size, live) && Canonical(size, live, bm) && a in live
    ensures !IsLeaf(size, a) ==>
      Combine(bm[Left(a)], bm[Right(a)], NodeSize(size, a)) == NodeSize(size, a)
    ensures IsLeaf(size, a) ==> NodeSize(size, a) == 1
  {
    NodeShape(size, a);
    if !IsLeaf(size, a) {
      Halves(size, a);
      FullIffUntouched(size, live, bm, Left(a));
      FullIffUntouched(size, live, bm, Right(a));
      forall b | b in live ensures !Under(Left(a), b) && !Under(Right(a), b) {
        SplitUnder(a, b);
        UnderIsLargerIf(Left(a), b);
        UnderIsLargerIf(Right(a), b);
      }
    }
  }

  /** The state right after buddy_free has refilled its node. */
  lemma FreedCell(size: nat, live: set<nat>, bm: seq<nat>, a: nat)
    requires IsPow2(size) && LiveOk(size, live) && Canonical(size, live, bm) && a in live
    ensures SettledExceptAbove(size, live - {a}, bm[a := NodeSize(size, a)], a)
    ensures forall b <- live - {a} :: !Under(b, a)
    ensures forall page: nat | InBlock(size, a, page) :: live - {a} == set b | b in live && !InBlock(size, b, page)
  {
    NodeShape(size, a);
    FreedCellIsFull(size, live, bm, a);
    WriteCell(size, live, live - {a}, bm, a, NodeSize(size, a));
    forall page: nat, b | InBlock(size, a, page) && b in live && InBlock(size, b, page) ensures b == a {
      LiveBlocksSafe(size, live, a, b);
    }
  }

  lemma AllocatedHeads(size: nat, live: set<nat>, j: nat)
    ensures Heads(size, live + {j}) == Heads(size, live) + {Start(size, j)}
  {
  }

  lemma FreePageIff(size: nat, live: set<nat>, bm: seq<nat>)
    requires IsPow2(size) && LiveOk(size, live) && Canonical(size, live, bm)
    ensures bm[0] >= 1 <==> exists p: nat :: PageFree(size, live, p)
  {
    assert IsPow2(1);
    FreeBlockExistsIff(size, live, bm, 1);
    if j: nat :| FreeNode(size, live, j) && NodeSize(size, j) == 1 {
      OnePageNode(size, j);
      assert PageFree(size, live, j - (size - 1));
    }
    if p: nat :| PageFree(size, live, p) {
      OnePageNode(size, size - 1 + p);
    }
  }

  ghost predicate CellIsFull(size: nat, bm: seq<nat>, i: nat)
    requires i < |bm|
  {
    bm[i] == NodeSize(size, i)
  }

  lemma AllFreeIsCanonical(size: nat, bm: seq<nat>)
    requires IsPow2(size) && |bm| == 2 * size && forall k | 0 <= k < 2 * size - 1 :: CellIsFull(size, bm, k)
    ensures Canonical(size, {}, bm)
  {
    forall i | 0 <= i < 2 * size - 1 ensures Settled(size, {}, bm, i) {
      NodeShape(size, i);
      assert CellIsFull(size, bm, i);
      if !IsLeaf(size, i) {
        Halves(size, i);
        assert CellIsFull(size, bm, Left(i)) && CellIsFull(size, bm, Right(i));
      }
    }
  }

  ghost function FirstLeaves(size: nat, k: nat): set<nat>
    requires size >= 1
  {
    set i: nat | i < size - 1 + k && IsLeaf(size, i)
  }

  lemma NextLeafIsFree(size: nat, live: set<nat>, k: nat)
    requires IsPow2(size) && k < size && live == FirstLeaves(size, k)
    ensures FreeNode(size, live, size - 1 + k) && NodeSize(size, size - 1 + k) == 1
    ensures Start(size, size - 1 + k) == k
  {
    var leaf := size - 1 + k;
    NodeShape(size, leaf);
    forall a | a in live ensures !Under(a, leaf) && !Under(leaf, a) {
      if Under(a, leaf) { OnlyLeafUnderLeaf(size, a, leaf); }
      UnderIsLargerIf(leaf, a);
    }
  }

  lemma OnlyNextLeaf(size: nat, live: set<nat>, k: nat, j: nat)
    requires IsPow2(size) && k < size && live == FirstLeaves(size, k)
    requires FreeNode(size, live, j) && NodeSize(size, j) == 1 && Start(size, j) <= k
    ensures j == size - 1 + k && Start(size, j) == k
    ensures live + {j} == FirstLeaves(size, k + 1)
  {
    NodeShape(size, j);
    assert Under(j, j);
  }

  class Buddy {
    var bitmap: array<nat>
    var refCnt: array<nat>
    var size: nat
    ghost var live: set<nat>  // tree nodes handed out

    ghost predicate TreeOk()
      reads this, bitmap
    {
      && IsPow2(size) && bitmap.Length == 2 * size && refCnt.Length == size && bitmap != refCnt
      && LiveOk(size, live)
      && Canonical(size, live, bitmap[..])
    }

    /** A page's count is positive exactly when it heads a live block. */
    ghost predicate CountsOk()
      reads this, refCnt
      requires refCnt.Length == size
    {
      forall p | 0 <= p < size :: refCnt[p] > 0 <==> p in Heads(size, live)
    }

    ghost predicate Valid()
      reads this, bitmap, refCnt
    {
      TreeOk() && CountsOk()
    }

    /** buddy_alloc's descent. */
    method FindBlock(n: nat) returns (index: nat)
      requires TreeOk() && IsPow2(n) && bitmap[0] >= n
      ensures index == Descend(size, bitmap[..], 0, n)
      ensures FreeNode(size, live, index) && NodeSize(size, index) == n
      ensures forall k :: FreeNode(size, live, k) && NodeSize(size, k) == n ==> Start(size, index) <= Start(size, k)
    {
      ghost var bm := bitmap[..];
      RootFree(size, live, bm);
      DescendFindsLowest(size, live, bm, 0, n);
      index := 0;
      var nodeSize := size;
      while nodeSize != n
        invariant IsNode(size, index) && nodeSize == NodeSize(size, index) && bm[index] >= n
        invariant Descend(size, bm, index, n) == Descend(size, bm, 0, n)
        invariant forall a <- live :: !Under(a, index)
        decreases 2 * size - index
      {
        DescentStep(size, live, bm, index, n);
        if bitmap[Left(index)] >= n {
          index := Left(index);
        } else {
          index := Right(index);
        }
        nodeSize := nodeSize / 2;
      }
      forall k | FreeNode(size, live, k) ensures Under(0, k) { RootAboveAll(k); }
    }

    /** buddy_alloc's last loop: above a handed-out node no two halves can merge, so the maximum is enough. */
    method ShrinkAbove(j: nat)
      requires IsPow2(size) && bitmap.Length == 2 * size && IsNode(size, j)
      requires ShrunkTo(size, live, bitmap[..], j) && forall b <- live :: Under(b, j) ==> b == j
      modifies bitmap
      ensures Canonical(size, live, bitmap[..])
    {
      var index := j;
      while index > 0
        invariant IsNode(size, index) && Under(index, j)
        invariant ShrunkTo(size, live, bitmap[..], index)
      {
        ghost var before := bitmap[..];
        ParentAbove(live, j, index);
        NodeShape(size, Parent(index));
        Halves(size, Parent(index));
        ghost var child := index;
        index := Parent(index);
        var l, r := bitmap[Left(index)], bitmap[Right(index)];
        bitmap[index] := if l > r then l else r;
        ShrinkStep(size, live, before, child, bitmap[index]);
        assert bitmap[..] == before[index := bitmap[index]];
      }
    }

    /** buddy_alloc from the moment the node is found. */
    method Take(index: nat, n: nat) returns (pfn: nat)
      requires Valid() && FreeNode(size, live, index) && NodeSize(size, index) == n
      modifies bitmap, refCnt, this`live
      ensures Valid() && live == old(live) + {index} && pfn == Start(size, index)
      ensures pfn < size && old(refCnt[pfn]) == 0
      ensures refCnt[..] == old(refCnt[..])[pfn := 1]
    {
      ghost var bm, live0 := bitmap[..], live;
      AllocatedCell(size, live, bm, index);
      AllocatedHeads(size, live0, index);
      bitmap[index] := 0;
      pfn := (index + 1) * n - size;
      refCnt[pfn] := 1;
      live := live + {index};
      assert bitmap[..] == bm[index := 0];
      ShrinkAbove(index);
    }

    /** buddy_alloc. The out-of-memory exit is excluded: some free block has the rounded size. */
    method Alloc(nrpages: nat) returns (pfn: nat, ghost j: nat)
      requires Valid() && nrpages <= WORD / 2
      requires bitmap[0] >= RoundPages(nrpages)
      modifies bitmap, refCnt, this`live
      ensures Valid()
      ensures FreeNode(size, old(live), j) && NodeSize(size, j) == RoundPages(nrpages)
      ensures live == old(live) + {j} && pfn == Start(size, j)
      ensures forall k :: FreeNode(size, old(live), k) && NodeSize(size, k) == RoundPages(nrpages) ==> pfn <= Start(size, k)
      ensures pfn < size && old(refCnt[pfn]) == 0
      ensures refCnt[..] == old(refCnt[..])[pfn := 1]
    {
      var n := nrpages;
      if n == 0 {
        n := 1;
      } else {
        PowerOfTwoTest(n);
        if And(n, n - 1) != 0 {
          n := FixSize(n);
        }
      }
      RoundPagesIsLeast(nrpages, n);
      var index := FindBlock(n);
      j := index;
      pfn := Take(index, n);
    }

    /** buddy_init's last loop: one-page allocations, which come out as pages 0, 1, 2, ... */
    method ReserveFirst(reserved: nat)
      requires Valid() && live == {} && reserved <= size
      modifies bitmap, refCnt, this`live
      ensures Valid() && live == FirstLeaves(size, reserved)
      ensures forall p | 0 <= p < size :: refCnt[p] == if p < reserved then 1 else 0
    {
      hide Canonical;
      var pfn := reserved;
      while pfn > 0
        invariant 0 <= pfn <= reserved && Valid()
        invariant live == FirstLeaves(size, reserved - pfn)
        invariant forall p | 0 <= p < size :: refCnt[p] == if p < reserved - pfn then 1 else 0
      {
        ghost var k, before := reserved - pfn, live;
        NextLeafIsFree(size, live, k);
        FreeBlockExistsIff(size, live, bitmap[..], RoundPages(1));
        var page, j := Alloc(1);
        OnlyNextLeaf(size, before, k, j);
        pfn := pfn - 1;
      }
    }

    /** buddy_init's first loop: every cell holds its node's size. */
    method FillFree()
      requires IsPow2(size) && bitmap.Length == 2 * size && refCnt.Length == size && bitmap != refCnt && live == {}
      modifies bitmap
      ensures TreeOk()
    {
      var nodeSize := 2 * size;
      var i := 0;
      while i < 2 * size - 1
        invariant 0 <= i <= 2 * size - 1
        invariant nodeSize == if i == 0 then 2 * size else NodeSize(size, i - 1)
        invariant forall k | 0 <= k < i :: CellIsFull(size, bitmap[..], k)
      {
        PowerOfTwoTest(i + 1);
        if i > 0 { NodeSizeInOrder(size, i); }
        if And(i + 1, i) == 0 {
          nodeSize := nodeSize / 2;
        }
        ghost var before := bitmap[..];
        bitmap[i] := nodeSize;
        forall k | 0 <= k <= i ensures CellIsFull(size, bitmap[..], k) {
          if k < i { assert CellIsFull(size, before, k); }
        }
        i := i + 1;
      }
      AllFreeIsCanonical(size, bitmap[..]);
    }

    /** buddy_init: reserve the first pages (kernel image and allocator arrays) one page at a time. */
    constructor (physPages: nat, reserved: nat)
      requires 1 <= physPages <= WORD / 2 && reserved <= physPages
      ensures Valid() && fresh(bitmap) && fresh(refCnt)
      ensures size >= physPages && forall p: nat :: IsPow2(p) && p >= physPages ==> size <= p
      ensures live == FirstLeaves(size, reserved)
      ensures forall p | 0 <= p < size :: refCnt[p] == if p < reserved then 1 else 0
    {
      var buddySize := physPages;
      PowerOfTwoTest(physPages);
      if And(physPages, physPages - 1) != 0 {
        buddySize := FixSize(physPages);
      }
      size := buddySize;
      bitmap := new nat[2 * buddySize](_ => 0);
      refCnt := new nat[buddySize](_ => 0);
      live := {};
      new;
      FillFree();
      ReserveFirst(reserved);
    }

    /** buddy_free's first loop: climb from the page's leaf to the first zero cell, or past the root. Inside a live
        block it stops at the block's own node; from a free page it meets no zero cell at all. */
    method ClimbToZero(pfn: nat) returns (index: nat, nodeSize: nat)
      requires TreeOk() && pfn < size
      ensures forall a <- live :: InBlock(size, a, pfn) ==> index == a && nodeSize == NodeSize(size, a)
      ensures PageFree(size, live, pfn) ==> index == 0 && nodeSize == 2 * size
    {
      hide Canonical, LiveOk, Under, NodeSize, InBlock, FreeNode;
      ghost var bm := bitmap[..];
      nodeSize, index := 1, pfn + size - 1;
      LeafStart(size, live, pfn);
      while bitmap[index] != 0
        invariant IsNode(size, index) && Under(index, size - 1 + pfn) && nodeSize == NodeSize(size, index)
        invariant forall a <- live :: InBlock(size, a, pfn) ==> Under(a, index)
        decreases index
      {
        ClimbOn(size, live, bm, index, pfn);
        nodeSize := nodeSize * 2;
        if index == 0 {
          break;
        }
        index := Parent(index);
      }
      if bitmap[index] == 0 { ClimbEnds(size, live, bm, index, pfn); }
    }

    /** buddy_free's second loop: recompute the cells above node a, merging full halves. */
    method MergeAbove(a: nat, size0: nat)
      requires IsPow2(size) && bitmap.Length == 2 * size && IsNode(size, a) && size0 == NodeSize(size, a)
      requires SettledExceptAbove(size, live, bitmap[..], a) && forall b <- live :: !Under(b, a)
      modifies bitmap
      ensures Canonical(size, live, bitmap[..])
    {
      var index, nodeSize := a, size0;
      while index > 0
        invariant IsNode(size, index) && nodeSize == NodeSize(size, index)
        invariant SettledExceptAbove(size, live, bitmap[..], index)
        invariant forall b <- live :: !Under(b, index)
      {
        ghost var before, child := bitmap[..], index;
        NotAbove(live, child);
        index := Parent(index);
        NodeShape(size, index);
        Halves(size, index);
        nodeSize := nodeSize * 2;
        var l, r := bitmap[Left(index)], bitmap[Right(index)];
        if l + r == nodeSize {
          bitmap[index] := nodeSize;
        } else {
          bitmap[index] := if l > r then l else r;
        }
        assert bitmap[..] == before[index := Combine(l, r, nodeSize)];
        ClimbStep(size, live, before, child, Combine(l, r, nodeSize));
      }
    }

    /** buddy_free on any page: nothing while the count is non-zero; otherwise the block that holds the page is given
        back. On a page that is already free the root cell is overwritten with twice the tree's size. */
    method Free(pfn: nat)
      requires TreeOk() && pfn < size
      modifies bitmap, this`live
      ensures refCnt[pfn] > 0 ==> live == old(live) && bitmap[..] == old(bitmap[..])
      ensures refCnt[pfn] == 0 && !PageFree(size, old(live), pfn) ==>
        TreeOk() && live == set a | a in old(live) && !InBlock(size, a, pfn)
      ensures refCnt[pfn] == 0 && PageFree(size, old(live), pfn) ==>
        live == old(live) && bitmap[..] == old(bitmap[..])[0 := 2 * size] && !TreeOk()
    {
      if refCnt[pfn] > 0 {
        return;
      }
      ghost var bm, live0 := bitmap[..], live;
      PageOwner(size, live, pfn);
      var index, nodeSize := ClimbToZero(pfn);
      bitmap[index] := nodeSize;
      assert bitmap[..] == bm[index := nodeSize];
      if PageFree(size, live, pfn) {
        RootTooLarge(size, live, bm);
      } else {
        ghost var a :| a in live && InBlock(size, a, pfn);
        FreedCell(size, live, bm, a);
        live := live - {a};
      }
      if index > 0 {
        MergeAbove(index, nodeSize);
      } else {
        NothingAboveRoot(size, live, bitmap[..]);
      }
    }

    /** alloc_page, with the out-of-memory exit as a result: `ok` is false exactly when no page is free. */
    method AllocPage() returns (ok: bool, pfn: nat)
      requires Valid()
      modifies bitmap, refCnt, this`live
      ensures Valid()
      ensures ok <==> exists p: nat :: PageFree(size, old(live), p)
      ensures ok ==> PageFree(size, old(live), pfn) && forall p: nat :: PageFree(size, old(live), p) ==> pfn <= p
      ensures ok ==> pfn < size && old(refCnt[pfn]) == 0 && refCnt[..] == old(refCnt[..])[pfn := 1]
      ensures !ok ==> live == old(live) && refCnt[..] == old(refCnt[..])
    {
      hide Canonical, LiveOk, Heads;
      FreePageIff(size, live, bitmap[..]);
      ok, pfn := false, 0;
      if bitmap[0] < 1 {
        return;
      }
      ghost var live0 := live;
      ghost var j;
      ok := true;
      pfn, j := Alloc(1);
      OnePageNode(size, j);
      forall p: nat | PageFree(size, live0, p) ensures pfn <= p { OnePageNode(size, size - 1 + p); }
    }

    /** ref_page: -1 and no effect on a page that heads no live block. */
    method RefPage(pfn: nat) returns (res: int)
      requires Valid() && pfn < size
      modifies refCnt
      ensures Valid()
      ensures res == if pfn in Heads(size, live) then 0 else -1
      ensures refCnt[..] == if res == 0 then old(refCnt[..])[pfn := old(refCnt[pfn]) + 1] else old(refCnt[..])
    {
      if refCnt[pfn] == 0 {
        return -1;
      }
      refCnt[pfn] := refCnt[pfn] + 1;
      return 0;
    }

    /** deref_page: the block is given back exactly when its last reference goes. */
    method DerefPage(pfn: nat) returns (res: int)
      requires Valid() && pfn < size
      modifies bitmap, refCnt, this`live
      ensures Valid()
      ensures res == if pfn in Heads(size, old(live)) then 0 else -1
      ensures refCnt[..] == if res == 0 then old(refCnt[..])[pfn := old(refCnt[pfn]) - 1] else old(refCnt[..])
      ensures live == if old(refCnt[pfn]) == 1 then set a | a in old(live) && Start(size, a) != pfn else old(live)
      ensures old(refCnt[pfn]) != 1 ==> bitmap[..] == old(bitmap[..])
    {
      if refCnt[pfn] == 0 {
        return -1;
      }
      refCnt[pfn] := refCnt[pfn] - 1;
      if refCnt[pfn] == 0 {
        HeadOwnsPage(size, live, pfn);
        Free(pfn);
        assert Heads(size, live) == Heads(size, old(live)) - {pfn};
      }
      return 0;
    }
  }

  /** Allocating and dropping the reference leaves bitmap, counts and live set exactly as they were. */
  method AllocThenDeref(b: Buddy, nrpages: nat)
    requires b.Valid() && nrpages <= WORD / 2 && b.bitmap[0] >= RoundPages(nrpages)
    modifies b.bitmap, b.refCnt, b`live
    ensures b.Valid() && b.live == old(b.live) && b.refCnt[..] == old(b.refCnt[..])
    ensures forall i | 0 <= i < 2 * b.size - 1 :: b.bitmap[i] == old(b.bitmap[i])
  {
    ghost var bm, live0, rc := b.bitmap[..], b.live, b.refCnt[..];
    var pfn, j := b.Alloc(nrpages);
    FreshHead(b.size, live0, j);
    ghost var live1 := b.live;
    var res := b.DerefPage(pfn);
    forall a | a in live1 ensures Start(b.size, a) != pfn <==> a in live0 {
      if Start(b.size, a) == pfn { HeadIsUnique(b.size, live1, a, j); }
    }
    assert b.live == live0;
    assert b.refCnt[..] == rc;
    forall i | 0 <= i < 2 * b.size - 1 ensures b.bitmap[i] == bm[i] {
      CanonicalIsLongest(b.size, live0, bm, i);
      CanonicalIsLongest(b.size, live0, b.bitmap[..], i);
    }
  }

  lemma HeadsInRange(size: nat, live: set<nat>)
    requires IsPow2(size) && LiveOk(size, live)
    ensures forall p <- Heads(size, live) :: 0 <= p < size
  {
    forall a | a in live ensures 0 <= Start(size, a) < size { NodeShape(size, a); }
  }

  /** Dropping the last reference of every block, in whatever order, restores the untouched tree. */
  method ReleaseAll(b: Buddy, order: seq<nat>)
    requires b.Valid() && forall p | 0 <= p < b.size :: b.refCnt[p] <= 1
    requires forall p :: p in order <==> p in Heads(b.size, b.live)
    requires forall i, j | 0 <= i < j < |order| :: order[i] != order[j]
    modifies b.bitmap, b.refCnt, b`live
    ensures b.Valid() && b.live == {} && forall p | 0 <= p < b.size :: b.refCnt[p] == 0
    ensures forall i | 0 <= i < 2 * b.size - 1 :: b.bitmap[i] == NodeSize(b.size, i)
  {
    HeadsInRange(b.size, b.live);
    for k := 0 to |order|
      invariant b.Valid() && forall p | 0 <= p < b.size :: b.refCnt[p] <= 1
      invariant forall p :: p in order[k..] <==> p in Heads(b.size, b.live)
    {
      assert order[k] in order[k..];
      HeadsInRange(b.size, b.live);
      ghost var live0 := b.live;
      var res := b.DerefPage(order[k]);
      assert Heads(b.size, b.live) == Heads(b.size, live0) - {order[k]};
      assert order[k..] == [order[k]] + order[k + 1..];
    }
    assert forall a <- b.live :: Start(b.size, a) in Heads(b.size, b.live);
    assert b.live == {};
    forall i | 0 <= i < 2 * b.size - 1 ensures b.bitmap[i] == NodeSize(b.size, i) {
      EmptyIsInitial(b.size, b.bitmap[..], i);
    }
  }
}
