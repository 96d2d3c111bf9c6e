/** A process's memory descriptor: find_vma, do_mmap, remove_vma, do_munmap and copy_mm
    (arch/riscv/kernel/proc.c). */
module MemoryAreas {
  import opened Options
  import opened Words
  import opened VmaList
  import opened SlotCounts
  import opened SlotList
  import opened PageTree
  import opened PageTables

  function Identity(n: nat): (order: seq<nat>)
    ensures |order| == n && forall k | 0 <= k < n :: order[k] == k
  {
    seq(n, k requires 0 <= k < n => k)
  }

  lemma NoFreeSlots(src: seq<Slot>, from: nat, head: Ptr, used: seq<nat>, slots: seq<Slot>, page: nat, tail: Ptr)
    requires Linked(src, from, head, used) && |slots| == |src|
    ensures FreeLinked(slots, page, tail, [], tail) && Parted(slots, used, [])
    ensures head == PtrTo(from, used, 0)
  {
  }

  /** A pointer into one page, moved by the distance between two pages. */
  function Relocate(p: Ptr, from: nat, to: nat): Ptr {
    if p == At(from, if p.At? then p.slot else 0) then At(to, p.slot) else p
  }

  lemma CopiedPtr(from: nat, to: nat, used: seq<nat>, k: int)
    ensures Relocate(PtrTo(from, used, k), from, to) == PtrTo(to, used, k)
  {
  }

  function RelocateSlot(s: Slot, from: nat, to: nat): Slot {
    Slot(s.vma, Relocate(s.prev, from, to), Relocate(s.next, from, to))
  }

  /** What the copy loop needs about the k-th area: where its slot points, and that no other area uses it. */
  lemma CopySlot(src: seq<Slot>, from: nat, to: nat, head: Ptr, used: seq<nat>, k: nat)
    requires Linked(src, from, head, used) && k < |used|
    ensures used[k] < |src| && src[used[k]].next == PtrTo(from, used, k + 1)
    ensures Relocate(src[used[k]].next, from, to) == PtrTo(to, used, k + 1)
    ensures forall l | 0 <= l < k :: used[l] != used[k]
    ensures RelocateSlot(src[used[k]], from, to) ==
      Slot(src[used[k]].vma, Relocate(src[used[k]].prev, from, to), Relocate(src[used[k]].next, from, to))
  {
    LinkedReady(src, from, head, used, k);
  }

  lemma CopiedList(src: seq<Slot>, dst: seq<Slot>, from: nat, to: nat, head: Ptr, used: seq<nat>)
    requires Linked(src, from, head, used) && |dst| == |src|
    requires forall l | 0 <= l < |used| :: used[l] < |dst| && dst[used[l]] == RelocateSlot(src[used[l]], from, to)
    ensures Linked(dst, to, Relocate(head, from, to), used) && Areas(dst, used) == Areas(src, used)
  {
    forall k | 0 <= k < |used| ensures NextOk(dst, to, used, k) && PrevOk(dst, to, used, k) {
      assert NextOk(src, from, used, k) && PrevOk(src, from, used, k);
    }
  }

  /** Areas i..e are those that meet va..end: the first holds va, and only the last may pass end. */
  ghost predicate RunMeets(vs: seq<Vma>, i: nat, e: nat, va: nat, end: nat) {
    && i <= e && Contiguous(vs, i, e) && vs[i].start <= va < vs[i].end && end <= vs[e].end
    && forall l | i <= l < e :: vs[l].end < end
  }

  lemma NothingCut(vs: seq<Vma>, i: nat, va: nat, end: nat)
    requires i < |vs|
    ensures vs == vs[..i] + [] + vs[i..] && vs[i..i] == [] && Subtract([], va, end) == []
  {
  }

  lemma CurrentArea(vs: seq<Vma>, i: nat, e: nat, t: nat, done: seq<Vma>, va: nat, end: nat)
    requires Sorted(vs) && i <= t <= e && RunMeets(vs, i, e, va, end) && va < end
    ensures (vs[..i] + done + vs[t..])[i + |done|] == vs[t] && i + |done| < |vs[..i] + done + vs[t..]|
    ensures vs[t].start < end && va < vs[t].end && (t > i ==> va <= vs[t].start)
  {
    if t > i {
      assert vs[(t - 1) + 1].start == vs[t - 1].end;
      assert vs[i].end <= vs[t].start && vs[t].start < vs[t].end;
    }
  }

  lemma OneMoreSubtracted(vs: seq<Vma>, i: nat, t: nat, va: nat, end: nat)
    requires i <= t < |vs|
    ensures Subtract(vs[i..t + 1], va, end) == Subtract(vs[i..t], va, end) + Cut(vs[t], va, end)
  {
    hide Cut;
    assert vs[i..t + 1] == vs[i..t] + [vs[t]];
    SubtractConcat(vs[i..t], [vs[t]], va, end);
    assert Subtract([vs[t]], va, end) == Cut(vs[t], va, end) + Subtract([vs[t]][1..], va, end);
  }

  lemma OneMoreCut(vs: seq<Vma>, i: nat, t: nat, done: seq<Vma>, before: seq<Vma>, va: nat, end: nat)
    requires i <= t < |vs| && done == Subtract(vs[i..t], va, end) && before == vs[..i] + done + vs[t..]
    ensures i + |done| < |before|
    ensures before[..i + |done|] + Cut(vs[t], va, end) + before[i + |done| + 1..] == vs[..i] + (done + Cut(vs[t], va, end)) + vs[t + 1..]
    ensures done + Cut(vs[t], va, end) == Subtract(vs[i..t + 1], va, end)
  {
    hide Subtract, Cut;
    OneMoreSubtracted(vs, i, t, va, end);
    var cut := Cut(vs[t], va, end);
    assert before[..i + |done|] == vs[..i] + done && before[i + |done| + 1..] == vs[t + 1..];
    assert vs[..i] + done + cut == vs[..i] + (done + cut);
  }

  lemma OutsideRun(vs: seq<Vma>, i: nat, e: nat, va: nat, end: nat)
    requires Sorted(vs) && RunMeets(vs, i, e, va, end)
    ensures i <= e < |vs|
    ensures forall v <- vs[..i] :: v.start < v.end && v.end <= va
    ensures forall v <- vs[e + 1..] :: v.start < v.end && end <= v.start
  {
  }

  lemma RunCut(vs: seq<Vma>, i: nat, e: nat, va: nat, end: nat)
    requires Sorted(vs) && RunMeets(vs, i, e, va, end) && va < end
    ensures vs[..i] + Subtract(vs[i..e + 1], va, end) + vs[e + 1..] == Subtract(vs, va, end)
  {
    hide Sorted, RunMeets, Subtract;
    OutsideRun(vs, i, e, va, end);
    var before, run, after := vs[..i], vs[i..e + 1], vs[e + 1..];
    assert vs == before + (run + after);
    SubtractConcat(before, run + after, va, end);
    SubtractConcat(run, after, va, end);
    SubtractKeeps(before, va, end);
    SubtractKeeps(after, va, end);
  }

  /** Slots to hand after areas i..t have been cut. Only the last area's removal can leave the list empty. */
  function SpareAt(vs: seq<Vma>, spare: nat, i: nat, t: nat, va: nat, end: nat): int
    requires i <= t <= |vs|
  {
    if i == t then spare
    else if t == |vs| && i == 0 && Subtract(vs[..t - 1], va, end) == [] then AfterCut(0, spare + t - 1, |Cut(vs[t - 1], va, end)|)
    else spare + (t - i) - |Subtract(vs[i..t], va, end)|
  }

  /** List, order of slots and free slots before area t is cut. */
  ghost predicate CutBefore(vs: seq<Vma>, used0: seq<nat>, spare: nat, i: nat, t: nat, done: seq<Vma>,
                            before: seq<Vma>, used1: seq<nat>, free1: seq<nat>, va: nat, end: nat) {
    && i <= t <= |vs| == |used0| && done == Subtract(vs[i..t], va, end) && before == vs[..i] + done + vs[t..]
    && |used1| == |before| && i + |done| <= |used1| && used1[i + |done|..] == used0[t..]
    && |free1| == SpareAt(vs, spare, i, t, va, end)
  }

  lemma CutAtMostTwo(v: Vma, va: nat, end: nat)
    ensures |Cut(v, va, end)| <= 2 && (|Cut(v, va, end)| == 2 ==> v.start < va && end < v.end)
  {
  }

  lemma SpareStep(vs: seq<Vma>, spare: nat, i: nat, t: nat, va: nat, end: nat)
    requires i <= t < |vs| && SpareAt(vs, spare, i, t, va, end) >= 0
    requires var others := i + |Subtract(vs[i..t], va, end)| + |vs| - t - 1;
      |Cut(vs[t], va, end)| == 2 ==> SlotToTake(others, SpareAt(vs, spare, i, t, va, end))
    ensures var others := i + |Subtract(vs[i..t], va, end)| + |vs| - t - 1;
      SpareAt(vs, spare, i, t + 1, va, end) == AfterCut(others, SpareAt(vs, spare, i, t, va, end), |Cut(vs[t], va, end)|)
  {
    hide Cut;
    CutAtMostTwo(vs[t], va, end);
    OneMoreSubtracted(vs, i, t, va, end);
    assert vs[i..i] == [];
    assert i == 0 ==> vs[..t] == vs[i..t];
  }

  /** A split takes a slot that is there: it can only happen to the first area of the run. */
  lemma SlotForPieces(vs: seq<Vma>, spare: nat, i: nat, e: nat, t: nat, va: nat, end: nat)
    requires Sorted(vs) && RunMeets(vs, i, e, va, end) && i <= t <= e && va < end && SlotsSuffice(vs, spare, va, end)
    requires SpareAt(vs, spare, i, t, va, end) >= 0
    ensures var others := i + |Subtract(vs[i..t], va, end)| + |vs| - t - 1;
      SplitBy(vs[t], va, end) ==> SlotToTake(others, SpareAt(vs, spare, i, t, va, end))
  {
    CurrentArea(vs, i, e, t, [], va, end);
    if SplitBy(vs[t], va, end) {
      assert t == i;
      assert Splits(vs, va, end);
      assert vs[i..i] == [];
    }
  }

  /** An area before the run survives. */
  lemma KeepsFirst(vs: seq<Vma>, i: nat, n: nat, va: nat, end: nat)
    requires 0 < i <= n <= |vs| && va < end && forall v <- vs[..i] :: v.start < v.end && v.end <= va
    ensures Subtract(vs[..n], va, end) != []
  {
    assert vs[..i][0] == vs[..n][0];
    assert vs[..n][0] in vs[..i];
    assert Cut(vs[..n][0], va, end) != [];
  }

  lemma SpareAtEnd(vs: seq<Vma>, spare: nat, i: nat, e: nat, va: nat, end: nat)
    requires Sorted(vs) && RunMeets(vs, i, e, va, end) && va < end && SpareAt(vs, spare, i, e + 1, va, end) >= 0
    ensures SpareAt(vs, spare, i, e + 1, va, end) == AfterMunmap(vs, spare, va, end)
  {
    hide Cut, Subtract;
    OutsideRun(vs, i, e, va, end);
    RunCut(vs, i, e, va, end);
    CurrentArea(vs, i, e, e, [], va, end);
    CutAtMostTwo(vs[e], va, end);
    var n := |vs|;
    if e + 1 == n {
      if i == 0 {
        assert vs[0..n] == vs;
      } else {
        KeepsFirst(vs, i, n - 1, va, end);
      }
    } else {
      assert vs[n - 1] == vs[e + 1..][n - 1 - (e + 1)];
      assert vs[n - 1] in vs[e + 1..];
    }
  }

  /** The part of an area below va. */
  function LeftPiece(v: Vma, va: nat): seq<Vma> {
    if v.start < va then [v.(end := va)] else []
  }

  lemma CutPieces(v: Vma, va: nat, end: nat)
    requires v.start < end && va < v.end
    ensures Cut(v, va, end) == LeftPiece(v, va) + (if v.end > end then [v.(start := end)] else [])
    ensures |LeftPiece(v, va)| == if v.start < va then 1 else 0
  {
  }

  /** One entry more, at place m. */
  ghost predicate OneMoreAt(used: seq<nat>, used': seq<nat>, m: nat) {
    m <= |used| && |used'| == |used| + 1 && used'[..m] == used[..m] && used'[m + 1..] == used[m..]
  }

  lemma SlicesMeet(used0: seq<nat>, used1: seq<nat>, used2: seq<nat>, k: nat, n: nat)
    requires k < |used0| && |used1| == |used0| - 1 + n && used1[..k] == used0[..k] && used1[k + n..] == used0[k + 1..]
    ensures OneMoreAt(used1, used2, k + n) ==> used2[..k] == used0[..k] && used2[k + n + 1..] == used0[k + 1..]
  {
    if OneMoreAt(used1, used2, k + n) {
      assert used2[..k] == used2[..k + n][..k];
      assert used1[..k] == used1[..k + n][..k];
    }
  }

  /** v goes back between `before` and the areas after area k. */
  ghost predicate PutBackFits(vs: seq<Vma>, k: nat, before: seq<Vma>, v: Vma)
    requires k < |vs|
  {
    var rest := before + vs[k + 1..];
    Disjoint(rest, v) && InsertAt(rest, v.start) == |before| && Insert(rest, v) == before + [v] + vs[k + 1..]
  }

  /** What starts at or after the end of all that comes before, and ends before all that follows, goes in between. */
  lemma BetweenFits(vs: seq<Vma>, k: nat, before: seq<Vma>, v: Vma)
    requires k < |vs| && v.start < v.end
    requires forall l | 0 <= l < |before| :: before[l].start <= before[l].end <= v.start
    requires forall l | k < l < |vs| :: v.end <= vs[l].start
    ensures PutBackFits(vs, k, before, v)
  {
    var rest := before + vs[k + 1..];
    forall l | |before| <= l < |rest| ensures v.end <= rest[l].start { assert rest[l] == vs[l - |before| + k + 1]; }
    forall l | 0 <= l < |before| ensures rest[l].end <= v.start { assert rest[l] == before[l]; }
    InsertAtIs(rest, v.start, |before|);
  }

  /** Putting a part of area k back into the list without area k puts it where area k was. */
  lemma PieceFits(vs: seq<Vma>, k: nat, piece: Vma)
    requires Sorted(vs) && k < |vs| && vs[k].start <= piece.start < piece.end <= vs[k].end
    ensures PutBackFits(vs, k, vs[..k], piece)
  {
    hide PutBackFits;
    forall l | 0 <= l < k ensures vs[l].start <= vs[l].end <= piece.start { assert vs[l].end <= vs[k].start; }
    forall l | k < l < |vs| ensures piece.end <= vs[l].start { assert vs[k].end <= vs[l].start; }
    BetweenFits(vs, k, vs[..k], piece);
  }

  lemma WrappedFits(vs: seq<Vma>, k: nat, end: nat)
    requires Sorted(vs) && k < |vs| && end < vs[k].start && (k > 0 ==> vs[k - 1].end <= end)
    ensures PutBackFits(vs, k, vs[..k], vs[k].(start := end))
    ensures vs[k].start < vs[k].end && vs[..k] + [vs[k].(start := end)] + vs[k + 1..] == vs[k := vs[k].(start := end)]
  {
    hide PutBackFits;
    forall l | 0 <= l < k ensures vs[l].start <= vs[l].end <= end {
      if l < k - 1 { assert vs[l].end <= vs[k - 1].start < vs[k - 1].end; }
    }
    forall l | k < l < |vs| ensures vs[k].end <= vs[l].start { }
    BetweenFits(vs, k, vs[..k], vs[k].(start := end));
  }

  lemma SecondFits(vs: seq<Vma>, k: nat, before: seq<Vma>, va: nat, end: nat)
    requires Sorted(vs) && k < |vs| && va < end && vs[k].start < end < vs[k].end && va < vs[k].end
    requires before == vs[..k] + LeftPiece(vs[k], va)
    ensures PutBackFits(vs, k, before, vs[k].(start := end))
  {
    hide PutBackFits;
    forall l | 0 <= l < |before| ensures before[l].start <= before[l].end <= end {
      if l < k { assert before[l] == vs[l] && vs[l].end <= vs[k].start; }
    }
    forall l | k < l < |vs| ensures vs[k].end <= vs[l].start { }
    BetweenFits(vs, k, before, vs[k].(start := end));
  }

  lemma FirstFree(slots: seq<Slot>, page: nat, used: seq<nat>, freeHead: Ptr, free: seq<nat>, tail: Ptr)
    requires FreeLinked(slots, page, freeHead, free, tail) && Parted(slots, used, free) && free != []
    ensures freeHead == At(page, free[0]) && free[0] < |slots| && free[0] !in used
  {
    PopFree(slots, page, freeHead, free, tail);
  }

  lemma WithoutSorted(vs: seq<Vma>, k: nat)
    requires Sorted(vs) && k < |vs|
    ensures Sorted(vs[..k] + vs[k + 1..])
  {
    var out := vs[..k] + vs[k + 1..];
    forall l | 0 <= l < |out| ensures out[l] == vs[if l < k then l else l + 1] { }
  }

  lemma UsedPtrs(slots: seq<Slot>, page: nat, head: Ptr, used: seq<nat>, k: nat)
    requires Linked(slots, page, head, used) && k < |used|
    ensures head == At(page, used[k]) <==> k == 0
    ensures PtrTo(page, used, k - 1) == Null <==> k == 0
  {
  }

  lemma PtrDistinct(slots: seq<Slot>, page: nat, head: Ptr, used: seq<nat>, k: nat, x: nat)
    requires Linked(slots, page, head, used) && k <= |used| && x !in used
    ensures k == 0 <==> PtrTo(page, used, k - 1) == Null
    ensures PtrTo(page, used, k - 1) != At(page, x) && PtrTo(page, used, k) != At(page, x)
  {
  }

  lemma FirstArea(slots: seq<Slot>, page: nat, freeHead: Ptr, v: Vma)
    requires |slots| == NR_VMA_SLOTS && slots[0] == Slot(v, Null, Null) && freeHead == At(page, 1)
    requires forall k | 1 <= k < NR_VMA_SLOTS :: slots[k].next == if k + 1 < NR_VMA_SLOTS then At(page, k + 1) else Null
    ensures Linked(slots, page, At(page, 0), [0]) && Areas(slots, [0]) == [v]
    ensures FreeLinked(slots, page, freeHead, Identity(NR_VMA_SLOTS)[1..], Null)
    ensures Parted(slots, [0], Identity(NR_VMA_SLOTS)[1..])
  {
    var order := Identity(NR_VMA_SLOTS)[1..];
    forall k | 0 <= k < |order| ensures order[k] == k + 1 && FreeNextOk(slots, page, order, Null, k) { }
  }

  lemma FirstInsert(v: Vma)
    ensures InsertAt([], v.start) == 0 && Insert([], v) == [v] && With([], 0, 0) == [0]
  {
  }

  lemma FirstUsed(slots: seq<Slot>, page: nat, head: Ptr, used: seq<nat>)
    requires Linked(slots, page, head, used) && used != []
    ensures head == At(page, used[0])
  {
  }

  /** The list, cut off after slot j, one step on. */
  lemma UsedNext(slots: seq<Slot>, page: nat, head: Ptr, used: seq<nat>, k: nat, j: nat)
    requires Linked(slots, page, head, used) && k <= j < |used|
    ensures used[k] < |slots| && used[j] < |slots|
    ensures slots[used[j] := slots[used[j]].(next := Null)][used[k]].next == StaleCurr(page, used, j, k + 1)
  {
    assert NextOk(slots, page, used, k);
  }

  /** The stores of MapNext, one after the other. */
  lemma LinkStores(slots: seq<Slot>, page: nat, x: nat, prev: Ptr, curr: Ptr, v: Vma)
    requires x < |slots| && InArena(slots, prev) && InArena(slots, curr)
    ensures var s1 := if prev == Null then slots else slots[prev.slot := slots[prev.slot].(next := At(page, x))];
      var s2 := if curr == Null then s1 else s1[curr.slot := s1[curr.slot].(prev := At(page, x))];
      s2[x := Slot(v, prev, curr)] == LinkIn(slots, page, x, prev, curr, v)
  {
  }

  /** The stores of MapStale, one after the other. */
  lemma StaleStores(slots: seq<Slot>, page: nat, x: nat, prev: Ptr, curr: Ptr, v: Vma)
    requires x < |slots| && InArena(slots, prev) && InArena(slots, curr)
    ensures var s0 := slots[x := slots[x].(next := Null)];
      var s1 := s0[x := s0[x].(prev := prev, next := curr)];
      var s2 := if prev == Null then s1 else s1[prev.slot := s1[prev.slot].(next := At(page, x))];
      var s3 := if curr == Null then s2 else s2[curr.slot := s2[curr.slot].(prev := At(page, x))];
      s3[x := s3[x].(vma := v)] == StaleLink(slots, page, x, prev, curr, v)
  {
  }

  class MmStruct {
    const page: nat
    var mmap: Ptr
    var numVmas: nat
    var freeVmaList: Ptr
    var slots: array<Slot>
    ghost var used: seq<nat>  // slots of the list, in list order
    ghost var free: seq<nat>  // slots known to be on the free list, in list order
    ghost var tail: Ptr  // what follows them
    ghost var initialised: bool  // the arena has been threaded onto the free list

    /** The list proper: consistent in both directions, counted, sorted and disjoint. */
    ghost predicate UsedOk()
      reads this, slots
    {
      && slots.Length == NR_VMA_SLOTS
      && Linked(slots[..], page, mmap, used) && numVmas == |used|
      && Sorted(Areas(slots[..], used)) && InWord(Areas(slots[..], used))
    }

    /** The known part of the free list is sound; once the arena has been threaded it is the whole of it. */
    ghost predicate FreeOk()
      reads this, slots
    {
      && FreeLinked(slots[..], page, freeVmaList, free, tail) && Parted(slots[..], used, free)
      && (initialised ==> tail == Null && |used| + |free| == NR_VMA_SLOTS)
    }

    ghost predicate Valid()
      reads this, slots
    {
      UsedOk() && FreeOk()
    }

    ghost function Contents(): seq<Vma>
      requires UsedOk()
      reads this, slots
    {
      Areas(slots[..], used)
    }

    /** A page fresh from the allocator, with whatever it holds, made an empty descriptor. */
    constructor (page: nat, garbage: seq<Slot>)
      requires |garbage| == NR_VMA_SLOTS
      ensures Valid() && Contents() == [] && free == [] && !initialised && fresh(slots) && this.page == page
    {
      this.page := page;
      mmap, numVmas, freeVmaList := Null, 0, Null;
      slots := new Slot[NR_VMA_SLOTS](k requires 0 <= k < |garbage| => garbage[k]);
      used, free, tail, initialised := [], [], Null, false;
    }

    /** find_vma: the area that holds va, or NULL; the walk stops early once areas start above va. */
    method FindVma(va: nat) returns (p: Ptr, ghost k: nat)
      requires UsedOk()
      ensures p == Null <==> !Covered(Contents(), va)
      ensures p.At? ==> k < |used| && p == At(page, used[k]) && Covers(Contents()[k], va)
    {
      ghost var vs := Contents();
      p, k := mmap, 0;
      while p != Null
        invariant k <= |used| && p == PtrTo(page, used, k)
        invariant forall l | 0 <= l < k :: vs[l].end <= va
        decreases |used| - k
      {
        var slot := slots[p.slot];
        assert NextOk(slots[..], page, used, k);
        if va < slot.vma.start {
          p := Null;
          return;
        } else if va < slot.vma.end {
          return;
        }
        p := slot.next;
        k := k + 1;
      }
    }

    /** do_mmap's first-use loop: thread the whole arena onto the free list. */
    method ThreadArena()
      requires slots.Length == NR_VMA_SLOTS
      modifies slots, this`freeVmaList
      ensures freeVmaList == At(page, 0)
      ensures forall k | 0 <= k < NR_VMA_SLOTS :: slots[k].next == if k + 1 < NR_VMA_SLOTS then At(page, k + 1) else Null
    {
      var i := 0;
      while i < NR_VMA_SLOTS - 1
        invariant 0 <= i <= NR_VMA_SLOTS - 1
        invariant forall k | 0 <= k < i :: slots[k].next == At(page, k + 1)
      {
        slots[i] := slots[i].(next := At(page, i + 1));
        i := i + 1;
      }
      slots[NR_VMA_SLOTS - 1] := slots[NR_VMA_SLOTS - 1].(next := Null);
      freeVmaList := At(page, 0);
    }

    /** do_mmap's walk: the neighbours between which an area starting at va goes. */
    method FindPlace(va: nat) returns (prev: Ptr, curr: Ptr)
      requires UsedOk()
      ensures prev == PtrTo(page, used, InsertAt(Contents(), va) - 1) && curr == PtrTo(page, used, InsertAt(Contents(), va))
    {
      ghost var vs, k := Contents(), 0;
      curr, prev := mmap, Null;
      while curr != Null
        invariant k <= |used| && curr == PtrTo(page, used, k) && prev == PtrTo(page, used, k - 1)
        invariant forall l | 0 <= l < k :: vs[l].start <= va
        decreases |used| - k
      {
        var slot := slots[curr.slot];
        assert NextOk(slots[..], page, used, k);
        if va < slot.vma.start {
          break;
        }
        prev := curr;
        curr := slot.next;
        k := k + 1;
      }
      InsertAtIs(vs, va, k);
    }

    /** do_mmap's first branch: thread the arena and make its first slot the only area. */
    method MapFirst(v: Vma)
      requires Valid() && mmap == Null && v.start < v.end < WORD
      modifies this`mmap, this`numVmas, this`freeVmaList, this`used, this`free, this`tail, this`initialised, slots
      ensures Valid() && initialised && Contents() == [v] && used == [0] && free == Identity(NR_VMA_SLOTS)[1..]
    {
      ThreadArena();
      var vma := freeVmaList;
      mmap := vma;
      freeVmaList := slots[vma.slot].next;
      slots[vma.slot] := Slot(v, Null, Null);
      used, free, tail, initialised := [0], Identity(NR_VMA_SLOTS)[1..], Null, true;
      FirstArea(slots[..], page, freeVmaList, v);
      numVmas := numVmas + 1;
    }

    /** do_mmap's second branch: take a free slot and link it in address order. */
    method MapNext(v: Vma) returns (ghost x: nat)
      requires Valid() && used != [] && v.start < v.end < WORD && free != [] && Disjoint(Contents(), v)
      modifies this`mmap, this`numVmas, this`freeVmaList, this`used, this`free, slots
      ensures Valid() && Contents() == Insert(old(Contents()), v)
      ensures used == With(old(used), InsertAt(old(Contents()), v.start), x) && x !in old(used) && free == old(free)[1..]
    {
      hide Linked, FreeLinked, Parted, InWord, Sorted, Disjoint, NextOk, PrevOk, InsertAt, LinkIn;
      ghost var s := slots[..];
      InsertSorted(Contents(), v);
      InsertInWord(Contents(), v);
      FirstFree(s, page, used, freeVmaList, free, tail);
      var vma := freeVmaList;
      x := free[0];
      freeVmaList := slots[vma.slot].next;
      ghost var k := InsertAt(Contents(), v.start);
      var prev, curr := FindPlace(v.start);
      LinkInUsed(s, page, mmap, used, k, x, v);
      LinkInFree(s, page, mmap, used, free, k, vma, tail, v);
      PtrDistinct(s, page, mmap, used, k, x);
      LinkStores(s, page, x, prev, curr, v);
      if prev == Null {
        mmap := vma;
      } else {
        slots[prev.slot] := slots[prev.slot].(next := vma);
      }
      if curr != Null {
        slots[curr.slot] := slots[curr.slot].(prev := vma);
      }
      slots[vma.slot] := Slot(v, prev, curr);
      assert slots[..] == LinkIn(s, page, x, prev, curr, v);
      used, free := With(used, k, x), free[1..];
      numVmas := numVmas + 1;
    }

    lemma EmptyList()
      requires UsedOk()
      ensures (mmap == Null <==> used == []) && (used == [] ==> Contents() == [])
    {
    }

    /** do_mmap. It checks neither overlap nor slot exhaustion: both are the caller's obligation. */
    method DoMmap(va: nat, len: nat, flags: Flags, file: nat, pgoff: nat, filesz: nat) returns (r: nat, ghost x: nat)
      requires Valid() && len > 0 && va + len < WORD && Disjoint(Contents(), Vma(va, va + len, flags, file, pgoff, filesz))
      requires SlotToTake(|used|, |free|)
      modifies this`mmap, this`numVmas, this`freeVmaList, this`used, this`free, this`tail, this`initialised, slots
      ensures Valid() && r == va && initialised == (old(initialised) || old(used) == [])
      ensures Contents() == Insert(old(Contents()), Vma(va, va + len, flags, file, pgoff, filesz))
      ensures used == With(old(used), InsertAt(old(Contents()), va), x) && x !in old(used)
      ensures |free| == AfterMap(|old(used)|, |old(free)|)
    {
      hide UsedOk, FreeOk, Areas, Disjoint, InsertAt, Insert, With;
      var v := Vma(va, (va + len) % WORD, flags, file, pgoff, filesz);
      EmptyList();
      FirstInsert(v);
      if mmap == Null {
        x := 0;
        MapFirst(v);
      } else {
        x := MapNext(v);
      }
      r := va;
    }

    /** remove_vma. */
    method RemoveVma(p: Ptr, ghost k: nat)
      requires Valid() && k < |used| && p == At(page, used[k])
      modifies this`mmap, this`numVmas, this`freeVmaList, this`used, this`free, slots
      ensures Valid()
      ensures Contents() == old(Contents())[..k] + old(Contents())[k + 1..]
      ensures used == Without(old(used), k) && free == [old(used)[k]] + old(free)
    {
      hide Linked, FreeLinked, Parted, InWord, Sorted, Areas;
      ghost var s := slots[..];
      WithoutSorted(Contents(), k);
      WithoutInWord(Contents(), k);
      LinkedReady(s, page, mmap, used, k);
      UsedPtrs(s, page, mmap, used, k);
      UnlinkUsed(s, page, mmap, used, k, freeVmaList);
      UnlinkFree(s, page, mmap, used, free, k, freeVmaList, tail);
      var vma := slots[p.slot];
      if p == mmap {
        mmap := vma.next;
      }
      if vma.prev != Null {
        slots[vma.prev.slot] := slots[vma.prev.slot].(next := vma.next);
      }
      if vma.next != Null {
        slots[vma.next.slot] := slots[vma.next.slot].(prev := vma.prev);
      }
      slots[p.slot] := Slot(ZERO_VMA, Null, freeVmaList);
      freeVmaList := p;
      numVmas := numVmas - 1;
      assert slots[..] == Unlink(s, used[k], old(freeVmaList));
      free := [used[k]] + free;
      used := Without(used, k);
    }

    lemma UsedArea(k: nat)
      requires UsedOk() && k < |used|
      ensures used[k] < slots.Length && slots[used[k]].next == PtrTo(page, used, k + 1)
      ensures |Contents()| == |used| && slots[used[k]].vma == Contents()[k] && Sorted(Contents())
      ensures Contents()[k].end < WORD && InWord(Contents())
    {
      assert NextOk(slots[..], page, used, k);
    }

    /** do_munmap's check that the areas from the k-th on cover everything up to end without a gap. */
    method LastOfRun(first: Ptr, ghost k: nat, end: nat) returns (curr: Ptr, ghost e: nat)
      requires UsedOk() && k < |used| && first == At(page, used[k])
      ensures curr.At? ==> k <= e < |used| && curr == At(page, used[e]) && Contiguous(Contents(), k, e)
      ensures curr.At? ==> end <= Contents()[e].end && forall l | k <= l < e :: Contents()[l].end < end
      ensures curr == Null ==> exists a: nat :: Contents()[k].end <= a < end && !Covered(Contents(), a)
    {
      hide UsedOk, Areas, Sorted, Contents, Covered, InWord;
      ghost var vs := Contents();
      UsedArea(k);
      curr, e := first, k;
      while slots[curr.slot].vma.end < end
        invariant k <= e < |used| && curr == At(page, used[e]) && used[e] < slots.Length && slots[used[e]].vma == vs[e]
        invariant Contiguous(vs, k, e) && forall l | k <= l < e :: vs[l].end < end
        decreases |used| - e
      {
        UsedArea(e);
        var slot := slots[curr.slot];
        if slot.next == Null {
          GapAt(vs, e);
          curr := Null;
          return;
        }
        UsedArea(e + 1);
        if slots[slot.next.slot].vma.start != slot.vma.end {
          GapAt(vs, e);
          curr := Null;
          return;
        }
        curr := slot.next;
        e := e + 1;
      }
    }

    /** do_munmap puts a remaining part v of area k back where area k was. */
    method PutBack(v: Vma, ghost vs: seq<Vma>, ghost k: nat, ghost before: seq<Vma>, ghost order: seq<nat>)
      requires Valid() && v.start < v.end < WORD && SlotToTake(|used|, |free|)
      requires k < |vs| && PutBackFits(vs, k, before, v) && Contents() == before + vs[k + 1..]
      requires |before| <= |used| && used[..|before|] == order
      modifies this`mmap, this`numVmas, this`freeVmaList, this`used, this`free, this`tail, this`initialised, slots
      ensures Valid() && Contents() == before + [v] + vs[k + 1..]
      ensures |used| == old(|used|) + 1 && |free| == AfterMap(old(|used|), old(|free|))
      ensures used[..|before|] == order && used[|before| + 1..] == old(used)[|before|..]
    {
      hide Linked, FreeLinked, Parted, InWord, Sorted;
      var r, x := DoMmap(v.start, v.end - v.start, v.flags, v.file, v.pgoff, v.filesz);
    }

    /** First half of do_munmap's body for one area: drop it and put back its part below va. */
    method CutLeft(p: Ptr, ghost k: nat, va: nat) returns (removed: Slot)
      requires Valid() && k < |used| && p == At(page, used[k]) && va < Contents()[k].end
      modifies this`mmap, this`numVmas, this`freeVmaList, this`used, this`free, this`tail, this`initialised, slots
      ensures Valid() && removed.vma == old(Contents())[k] && removed.next == PtrTo(page, old(used), k + 1)
      ensures Sorted(old(Contents()))
      ensures Contents() == old(Contents())[..k] + LeftPiece(removed.vma, va) + old(Contents())[k + 1..]
      ensures var n := |LeftPiece(removed.vma, va)|;
        && |used| == old(|used|) - 1 + n && |free| == AfterCut(old(|used|) - 1, old(|free|), n)
        && used[..k] == old(used)[..k] && used[k + n..] == old(used)[k + 1..]
    {
      hide UsedOk, FreeOk, PutBackFits, Areas, Sorted;
      UsedArea(k);
      ghost var vs := Contents();
      removed := slots[p.slot];
      RemoveVma(p, k);
      if removed.vma.start < va {
        PieceFits(vs, k, removed.vma.(end := va));
        PutBack(removed.vma.(end := va), vs, k, vs[..k], used[..k]);
      }
    }

    lemma ManyUsed()
      requires UsedOk()
      ensures |Contents()| == |used|
    {
    }

    /** Map what is left of area k behind the range, if anything is. */
    method CutRight(v: Vma, ghost vs: seq<Vma>, ghost k: nat, va: nat, end: nat)
      requires Valid() && Sorted(vs) && k < |vs| && v == vs[k] && va < end && v.start < end && va < v.end < WORD
      requires Contents() == vs[..k] + LeftPiece(v, va) + vs[k + 1..] && (v.end > end ==> SlotToTake(|used|, |free|))
      modifies this`mmap, this`numVmas, this`freeVmaList, this`used, this`free, this`tail, this`initialised, slots
      ensures Valid() && Contents() == vs[..k] + Cut(v, va, end) + vs[k + 1..]
      ensures v.end <= end ==> used == old(used) && |free| == old(|free|)
      ensures v.end > end ==> |free| == AfterMap(old(|used|), old(|free|)) && OneMoreAt(old(used), used, k + |LeftPiece(v, va)|)
    {
      hide UsedOk, FreeOk, PutBackFits, Areas, Sorted, Cut, LeftPiece;
      CutPieces(v, va, end);
      if v.end > end {
        ghost var before := vs[..k] + LeftPiece(v, va);
        SecondFits(vs, k, before, va, end);
        ManyUsed();
        PutBack(v.(start := end), vs, k, before, used[..|before|]);
      }
    }

    /** do_munmap's body for one area: drop it and put back what lies outside va..end. */
    method CutArea(p: Ptr, ghost k: nat, va: nat, end: nat) returns (next: Ptr)
      requires Valid() && k < |used| && p == At(page, used[k]) && va < end
      requires Contents()[k].start < end && va < Contents()[k].end
      requires SplitBy(Contents()[k], va, end) ==> SlotToTake(|used| - 1, |free|)
      modifies this`mmap, this`numVmas, this`freeVmaList, this`used, this`free, this`tail, this`initialised, slots
      ensures Valid() && next == PtrTo(page, old(used), k + 1)
      ensures Contents() == old(Contents())[..k] + Cut(old(Contents())[k], va, end) + old(Contents())[k + 1..]
      ensures var n := |Cut(old(Contents())[k], va, end)|;
        && n <= 2 && (n == 2 ==> SlotToTake(old(|used|) - 1, old(|free|)))
        && |used| == old(|used|) - 1 + n && |free| == AfterCut(old(|used|) - 1, old(|free|), n)
        && used[..k] == old(used)[..k] && used[k + n..] == old(used)[k + 1..]
    {
      hide UsedOk, FreeOk, Areas, Sorted, Cut, LeftPiece;
      ghost var vs, used0 := Contents(), used;
      UsedArea(k);
      CutPieces(vs[k], va, end);
      var removed := CutLeft(p, k, va);
      ghost var used1 := used;
      CutRight(removed.vma, vs, k, va, end);
      SlicesMeet(used0, used1, used, k, |LeftPiece(vs[k], va)|);
      next := removed.next;
    }

    /** do_munmap's last loop under way: areas i..t have been cut, leaving `done`. */
    ghost predicate Cutting(vs: seq<Vma>, used0: seq<nat>, spare: nat, i: nat, t: nat, done: seq<Vma>, va: nat, end: nat)
      reads this, slots
    {
      && Valid() && i <= t <= |vs| == |used0| && done == Subtract(vs[i..t], va, end)
      && Contents() == vs[..i] + done + vs[t..]
      && i + |done| <= |used| && used[i + |done|..] == used0[t..]
      && |free| == SpareAt(vs, spare, i, t, va, end)
    }

    lemma CutReady(vs: seq<Vma>, used0: seq<nat>, spare: nat, i: nat, e: nat, t: nat, done: seq<Vma>, va: nat, end: nat)
      requires Cutting(vs, used0, spare, i, t, done, va, end)
      requires Sorted(vs) && i <= t <= e && RunMeets(vs, i, e, va, end) && va < end && SlotsSuffice(vs, spare, va, end)
      ensures var k := i + |done|;
        && Valid() && t < |vs| && k < |used| == |Contents()| && t < |used0| && used[k] == used0[t] && Contents()[k] == vs[t]
        && vs[t].start < end && va < vs[t].end && CutBefore(vs, used0, spare, i, t, done, Contents(), used, free, va, end)
        && (SplitBy(vs[t], va, end) ==> SlotToTake(|used| - 1, |free|))
        && PtrTo(page, used, k + 1) == PtrTo(page, used0, t + 1)
    {
      hide UsedOk, FreeOk, Areas, Sorted, Cut, Subtract, RunMeets, SpareAt, SlotsSuffice, SlotToTake, SplitBy;
      CurrentArea(vs, i, e, t, done, va, end);
      assert used[i + |done|] == used[i + |done|..][0];
      assert t + 1 < |used0| ==> used[i + |done| + 1] == used[i + |done|..][1];
      SlotForPieces(vs, spare, i, e, t, va, end);
      ManyUsed();
    }

    lemma CutOnce(vs: seq<Vma>, used0: seq<nat>, spare: nat, i: nat, t: nat, done: seq<Vma>,
                  before: seq<Vma>, used1: seq<nat>, free1: seq<nat>, va: nat, end: nat)
      requires CutBefore(vs, used0, spare, i, t, done, before, used1, free1, va, end) && t < |vs| && Valid()
      requires i + |done| < |before|
      requires Contents() == before[..i + |done|] + Cut(vs[t], va, end) + before[i + |done| + 1..]
      requires var k, n := i + |done|, |Cut(vs[t], va, end)|;
        && n <= 2 && (n == 2 ==> SlotToTake(|used1| - 1, |free1|)) && k < |used1|
        && |used| == |used1| - 1 + n && |free| == AfterCut(|used1| - 1, |free1|, n)
        && used[k + n..] == used1[k + 1..]
      ensures Cutting(vs, used0, spare, i, t + 1, done + Cut(vs[t], va, end), va, end)
    {
      hide UsedOk, FreeOk, Areas, Cut, Subtract, SpareAt, AfterCut, SlotToTake;
      OneMoreCut(vs, i, t, done, before, va, end);
      SpareStep(vs, spare, i, t, va, end);
      assert used0[t..][1..] == used0[t + 1..];
      assert used1[i + |done|..][1..] == used1[i + |done| + 1..];
    }

    method CutNext(p: Ptr, ghost vs: seq<Vma>, ghost used0: seq<nat>, ghost spare: nat, ghost i: nat, ghost e: nat,
                   ghost t: nat, ghost done: seq<Vma>, va: nat, end: nat)
      returns (next: Ptr, ghost done': seq<Vma>)
      requires Cutting(vs, used0, spare, i, t, done, va, end) && p == PtrTo(page, used0, t)
      requires Sorted(vs) && i <= t <= e && RunMeets(vs, i, e, va, end) && va < end && SlotsSuffice(vs, spare, va, end)
      modifies this`mmap, this`numVmas, this`freeVmaList, this`used, this`free, this`tail, this`initialised, slots
      ensures Cutting(vs, used0, spare, i, t + 1, done', va, end) && next == PtrTo(page, used0, t + 1)
    {
      hide Contents, UsedOk, FreeOk, Areas, Cut, Subtract, Cutting, CutBefore, AfterCut, SlotToTake, SplitBy, RunMeets,
           Sorted, SlotsSuffice;
      CutReady(vs, used0, spare, i, e, t, done, va, end);
      ghost var k, before, used1, free1 := i + |done|, Contents(), used, free;
      next := CutArea(p, k, va, end);
      done' := done + Cut(vs[t], va, end);
      CutOnce(vs, used0, spare, i, t, done, before, used1, free1, va, end);
    }

    lemma StartCutting(i: nat, va: nat, end: nat)
      requires Valid() && i < |used|
      ensures Cutting(Contents(), used, |free|, i, i, [], va, end)
    {
      hide UsedOk, FreeOk;
      NothingCut(Contents(), i, va, end);
    }

    lemma DoneCutting(vs: seq<Vma>, used0: seq<nat>, spare: nat, i: nat, e: nat, done: seq<Vma>, va: nat, end: nat)
      requires Cutting(vs, used0, spare, i, e + 1, done, va, end) && Sorted(vs) && RunMeets(vs, i, e, va, end) && va < end
      ensures Valid() && Contents() == Subtract(vs, va, end) && |free| == AfterMunmap(vs, spare, va, end)
    {
      hide UsedOk, FreeOk, Sorted, Subtract, SpareAt, AfterMunmap;
      RunCut(vs, i, e, va, end);
      SpareAtEnd(vs, spare, i, e, va, end);
    }

    lemma DistinctPtrs()
      requires Valid()
      ensures forall k, l | 0 <= k < l <= |used| :: PtrTo(page, used, k) != PtrTo(page, used, l)
    {
    }

    /** do_munmap's last loop: cut the areas from index i to index e one by one. */
    method CutRun(first: Ptr, ghost i: nat, stop: Ptr, ghost e: nat, va: nat, end: nat)
      requires Valid() && i <= e < |used| && va < end
      requires first == At(page, used[i]) && stop == PtrTo(page, used, e + 1)
      requires RunMeets(Contents(), i, e, va, end) && SlotsSuffice(Contents(), |free|, va, end)
      modifies this`mmap, this`numVmas, this`freeVmaList, this`used, this`free, this`tail, this`initialised, slots
      ensures Valid()
      ensures Contents() == Subtract(old(Contents()), va, end)
      ensures |free| == AfterMunmap(old(Contents()), old(|free|), va, end)
    {
      hide UsedOk, FreeOk, Areas, Sorted, Cut, Subtract, Cutting, AfterMunmap, SlotsSuffice;
      UsedArea(i);
      DistinctPtrs();
      ghost var vs, used0, spare, t := Contents(), used, |free|, i;
      ghost var done: seq<Vma> := [];
      StartCutting(i, va, end);
      var vma := first;
      while vma != stop
        invariant i <= t <= e + 1 && vma == PtrTo(page, used0, t) && Cutting(vs, used0, spare, i, t, done, va, end)
        decreases e + 1 - t
      {
        vma, done := CutNext(vma, vs, used0, spare, i, e, t, done, va, end);
        t := t + 1;
      }
      DoneCutting(vs, used0, spare, i, e, done, va, end);
    }

    /** do_munmap's checks: the run of areas to cut, or NULL when it fails. Nothing is written. The test that the
        area found starts above va has no case: find_vma returns an area that covers va. */
    method FindRun(va: nat, len: nat) returns (first: Ptr, curr: Ptr, ghost i: nat, ghost e: nat)
      requires Valid() && 0 < len < WORD && va < WORD
      ensures first.At? <==> MunmapPasses(Contents(), va, len)
      ensures first.At? ==> i <= e < |used| && first == At(page, used[i]) && curr == At(page, used[e])
      ensures first.At? && va + len < WORD ==> RunMeets(Contents(), i, e, va, va + len)
      ensures first.At? && va + len >= WORD ==> i == e && Covers(Contents()[i], va)
    {
      hide Linked, FreeLinked, Parted, InWord;
      ghost var vs := Contents();
      first, i := FindVma(va);
      curr, e := first, i;
      if first == Null {
        assert va <= va < va + len && !Covered(vs, va);
        return;
      }
      assert Covered(vs, va);
      if va % PAGE != 0 || len % PAGE != 0 {
        first := Null;
        return;
      }
      curr, e := LastOfRun(first, i, (va + len) % WORD);
      if curr == Null {
        first := Null;
        return;
      }
      if va + len >= WORD {
        return;
      }
      forall a: nat | va <= a < va + len ensures Covered(vs, a) {
        ContiguousCovers(vs, i, e, a);
      }
    }

    /** do_munmap's body for the area that covers va when the end of the range has wrapped around to below va. The
        area starts at va and nothing lies between: then it is mapped again from the wrapped end on, va included. */
    method CutWrapped(p: Ptr, ghost k: nat, va: nat, end: nat) returns (next: Ptr)
      requires Valid() && k < |used| && p == At(page, used[k]) && end < va == Contents()[k].start
      requires k > 0 ==> Contents()[k - 1].end <= end
      modifies this`mmap, this`numVmas, this`freeVmaList, this`used, this`free, this`tail, this`initialised, slots
      ensures Valid() && next == PtrTo(page, old(used), k + 1)
      ensures Contents() == old(Contents())[k := old(Contents())[k].(start := end)] && Covered(Contents(), va)
    {
      hide UsedOk, FreeOk, PutBackFits, Areas, Sorted, InWord;
      UsedArea(k);
      ghost var vs := Contents();
      var removed := slots[p.slot];
      RemoveVma(p, k);
      if removed.vma.start < va {
        assert false;
      }
      if removed.vma.end > end {
        WrappedFits(vs, k, end);
        PutBack(removed.vma.(start := end), vs, k, vs[..k], used[..k]);
      }
      next := removed.next;
      assert Covers(Contents()[k], va);
    }

    /** do_munmap: 1 on success and -1 on failure; `ok` is false when remove_mapping ran out of pages. */
    method DoMunmap(va: nat, len: nat, vm: VirtualMemory, pgd: nat) returns (res: int, ok: bool)
      requires Valid() && 0 < len < WORD && va < WORD
      requires vm.Valid() && IsRoot(vm.owner, pgd)
      requires MunmapPasses(Contents(), va, len) ==>
        && va + len < WORD && RangeFits(va, len) && SlotsSuffice(Contents(), |free|, va, va + len)
        && Removable(UnmapJob(vm.base, vm.mem, vm.owner, vm.buddy.refCnt[..], pgd, va, len))
      modifies this`mmap, this`numVmas, this`freeVmaList, this`used, this`free, this`tail, this`initialised, slots
      modifies vm`mem, vm`owner, vm.buddy.bitmap, vm.buddy.refCnt, vm.buddy`live
      ensures res == if MunmapPasses(old(Contents()), va, len) then 1 else -1
      ensures res == -1 ==> ok && Valid() && Contents() == old(Contents()) && used == old(used) && free == old(free)
      ensures res == -1 ==> vm.Valid() && vm.mem == old(vm.mem) && vm.owner == old(vm.owner) && vm.buddy.refCnt[..] == old(vm.buddy.refCnt[..])
      ensures res == 1 && ok ==> Valid() && Contents() == Subtract(old(Contents()), va, va + len)
      ensures res == 1 && ok ==> |free| == AfterMunmap(old(Contents()), old(|free|), va, va + len)
      ensures res == 1 && ok ==> vm.Valid() && RangeUnmapped(
        UnmapJob(vm.base, old(vm.mem), old(vm.owner), old(vm.buddy.refCnt[..]), pgd, va, len), vm.mem, vm.owner, vm.buddy.refCnt[..])
    {
      hide UsedOk, FreeOk, Areas, MunmapPasses, Subtract, RangeUnmapped, Removable, FramesOk, RunMeets, SlotsSuffice,
           AfterMunmap;
      var first, curr, i, e := FindRun(va, len);
      if first == Null {
        return -1, true;
      }
      UsedArea(e);
      res := 1;
      ok := vm.RemoveMapping(pgd, va, len);
      if ok {
        var stop := slots[curr.slot].next;
        CutRun(first, i, stop, e, va, (va + len) % WORD);
      }
    }

    /** copy_mm into a page that this descriptor's owner has just allocated: the same areas in the same slots of
        the new page. The free list's head is left as the page held it, so no free slot is known. */
    method CopyMm(src: MmStruct)
      requires src != this && src.slots != slots && src.UsedOk() && slots.Length == NR_VMA_SLOTS
      modifies this`mmap, this`numVmas, this`used, this`free, this`tail, this`initialised, slots
      ensures Valid() && used == src.used && Contents() == src.Contents()
      ensures free == [] && !initialised && freeVmaList == old(freeVmaList)
    {
      hide Linked, Distinct, FreeLinked, Parted, Areas, Sorted, RelocateSlot, Relocate;
      ghost var srcSlots := src.slots[..];
      NoFreeSlots(srcSlots, src.page, src.mmap, src.used, slots[..], page, freeVmaList);
      used, free, tail, initialised := src.used, [], freeVmaList, false;
      numVmas := 0;
      CopiedPtr(src.page, page, used, 0);
      if src.mmap == Null {
        mmap := Null;
        CopiedList(srcSlots, slots[..], src.page, page, src.mmap, used);
        return;
      }
      mmap := Relocate(src.mmap, src.page, page);
      numVmas := src.numVmas;
      var srcVma, dstVma := src.mmap, mmap;
      ghost var k := 0;
      while srcVma != Null
        invariant used == src.used && free == [] && tail == freeVmaList && !initialised && src.slots[..] == srcSlots
        invariant mmap == PtrTo(page, used, 0) && numVmas == |used|
        invariant k <= |used| && srcVma == PtrTo(src.page, used, k) && dstVma == PtrTo(page, used, k)
        invariant forall l | 0 <= l < k :: used[l] < slots.Length && slots[used[l]] == RelocateSlot(srcSlots[used[l]], src.page, page)
        decreases |used| - k
      {
        CopySlot(srcSlots, src.page, page, src.mmap, used, k);
        var slot := src.slots[srcVma.slot];
        slots[dstVma.slot] := Slot(slot.vma, Relocate(slot.prev, src.page, page), Relocate(slot.next, src.page, page));
        srcVma := slot.next;
        dstVma := slots[dstVma.slot].next;
        k := k + 1;
      }
      CopiedList(srcSlots, slots[..], src.page, page, src.mmap, used);
      NoFreeSlots(srcSlots, src.page, src.mmap, used, slots[..], page, freeVmaList);
    }

    /** do_mmap's search in the list cut off after slot j, and the stores that follow, where the free list's head is
        area j's own slot, as what the page held before may be in a forked child. Whatever is mapped, area j's record
        is lost and the list is one no more. */
    method MapStale(v: Vma, ghost j: nat)
      requires UsedOk() && j < |used| && freeVmaList == At(page, used[j])
      modifies this`mmap, this`numVmas, this`freeVmaList, slots
      ensures slots.Length == old(slots.Length) && used[j] < slots.Length && slots[used[j]].vma == v
      ensures forall order: seq<nat> :: !Linked(slots[..], page, mmap, order)
    {
      hide Linked, Areas, Sorted, InWord, StaleLink;
      ghost var s, head := slots[..], mmap;
      UsedArea(j);
      var vma := freeVmaList;
      freeVmaList := slots[vma.slot].next;
      slots[vma.slot] := slots[vma.slot].(next := Null);
      ghost var k := 0;
      FirstUsed(s, page, head, used);
      var curr, prev := mmap, Null;
      while curr != Null
        invariant k <= j + 1 && curr == StaleCurr(page, used, j, k) && prev == PtrTo(page, used, k - 1)
        invariant slots[..] == s[used[j] := s[used[j]].(next := Null)] && mmap == head
        decreases j + 1 - k
      {
        UsedNext(s, page, head, used, k, j);
        if v.start < slots[curr.slot].vma.start {
          break;
        }
        prev := curr;
        curr := slots[curr.slot].next;
        k := k + 1;
      }
      StaleHeadBreaksList(s, page, head, used, j, k, v, []);
      ghost var out, head' := StaleLink(s, page, used[j], prev, curr, v), if k == 0 then At(page, used[j]) else head;
      forall order: seq<nat> ensures !Linked(out, page, head', order) {
        StaleHeadBreaksList(s, page, head, used, j, k, v, order);
      }
      StaleStores(s, page, used[j], prev, curr, v);
      slots[vma.slot] := slots[vma.slot].(prev := prev, next := curr);
      if prev == Null {
        mmap := vma;
      } else {
        slots[prev.slot] := slots[prev.slot].(next := vma);
      }
      if curr != Null {
        slots[curr.slot] := slots[curr.slot].(prev := vma);
      }
      slots[vma.slot] := slots[vma.slot].(vma := v);
      numVmas := numVmas + 1;
      assert slots[..] == out && mmap == head';
    }
  }

  /** A page that held, where the free list's head goes, the address of a slot that the parent uses: after copy_mm the
      child's next mmap takes that slot, loses the area in it and leaves no list. */
  method ForkThenMmapBreaksList(src: MmStruct, dst: MmStruct, v: Vma, ghost j: nat)
    requires src != dst && src.slots != dst.slots && src.UsedOk() && dst.slots.Length == NR_VMA_SLOTS
    requires j < |src.used| && dst.freeVmaList == At(dst.page, src.used[j])
    modifies dst`mmap, dst`numVmas, dst`freeVmaList, dst`used, dst`free, dst`tail, dst`initialised, dst.slots
    ensures dst.used == src.used && src.used[j] < dst.slots.Length && dst.slots[src.used[j]].vma == v
    ensures forall order: seq<nat> :: !Linked(dst.slots[..], dst.page, dst.mmap, order)
  {
    dst.CopyMm(src);
    dst.MapStale(v, j);
  }
}
