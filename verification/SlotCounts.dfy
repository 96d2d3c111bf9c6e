/** How many free slots a memory descriptor has to hand (struct mm_struct, arch/riscv/include/proc.h): do_mmap
    takes one, remove_vma gives one back, and mapping into an empty list threads the whole arena anew
    (arch/riscv/kernel/proc.c). */
module SlotCounts {
  import opened VmaList

  /** sizeof(mm_struct) is 24 and sizeof(vm_area_struct) is 72, so a page has this many slots. */
  const NR_VMA_SLOTS: nat := (0x1000 - 24) / 72

  /** do_mmap finds a slot. */
  predicate SlotToTake(used: nat, spare: nat) { used == 0 || spare > 0 }

  /** Slots to hand after do_mmap. */
  function AfterMap(used: nat, spare: nat): nat
    requires SlotToTake(used, spare)
  {
    if used == 0 then NR_VMA_SLOTS - 1 else spare - 1
  }

  /** Slots to hand after do_munmap has removed one area, with `others` left, and mapped its remaining pieces again. */
  function AfterCut(others: nat, spare: nat, pieces: nat): nat
    requires pieces <= 2 && (pieces == 2 ==> SlotToTake(others, spare))
  {
    if pieces > 0 && others == 0 then NR_VMA_SLOTS - pieces else spare + 1 - pieces
  }

  predicate SplitBy(v: Vma, va: nat, end: nat) { v.start < va && end < v.end }

  /** Removing va..end splits an area in two. */
  ghost predicate Splits(vs: seq<Vma>, va: nat, end: nat) {
    exists k :: 0 <= k < |vs| && SplitBy(vs[k], va, end)
  }

  /** do_munmap finds every slot that it takes. Splitting the only area takes none beforehand. */
  ghost predicate SlotsSuffice(vs: seq<Vma>, spare: nat, va: nat, end: nat) {
    Splits(vs, va, end) ==> spare > 0 || |vs| == 1
  }

  /** The list is empty at the moment when its last area has been removed. */
  predicate Emptied(vs: seq<Vma>, va: nat, end: nat) {
    vs != [] && Subtract(vs[..|vs| - 1], va, end) == [] && va < vs[|vs| - 1].end && vs[|vs| - 1].start < end
  }

  /** Slots to hand after do_munmap. */
  function AfterMunmap(vs: seq<Vma>, spare: nat, va: nat, end: nat): nat {
    var n := |Subtract(vs, va, end)|;
    if Emptied(vs, va, end) then AfterCut(0, spare + |vs| - 1, |Cut(vs[|vs| - 1], va, end)|)
    else if spare + |vs| >= n then spare + |vs| - n else 0
  }

  /** Range subtraction adds an area only where it splits one. */
  lemma {:induction false} SubtractLength(vs: seq<Vma>, lo: nat, hi: nat)
    requires Sorted(vs) && lo < hi
    ensures |Subtract(vs, lo, hi)| <= |vs| + if Splits(vs, lo, hi) then 1 else 0
  {
    if vs != [] {
      var rest := vs[1..];
      assert Sorted(rest);
      SubtractLength(rest, lo, hi);
      if SplitBy(vs[0], lo, hi) {
        assert Splits(vs, lo, hi);
        forall v | v in rest ensures v.start < v.end && hi <= v.start { }
        SubtractKeeps(rest, lo, hi);
      } else if Splits(rest, lo, hi) {
        var k :| 0 <= k < |rest| && SplitBy(rest[k], lo, hi);
        assert SplitBy(vs[k + 1], lo, hi);
      }
    }
  }

  /** The areas and the slots to hand never exceed the arena. */
  lemma MapKeepsArena(used: nat, spare: nat)
    requires used + spare <= NR_VMA_SLOTS && SlotToTake(used, spare)
    ensures used + 1 + AfterMap(used, spare) <= NR_VMA_SLOTS
  {
  }

  lemma MunmapKeepsArena(vs: seq<Vma>, spare: nat, va: nat, end: nat)
    requires Sorted(vs) && va < end && |vs| + spare <= NR_VMA_SLOTS && SlotsSuffice(vs, spare, va, end)
    ensures |Subtract(vs, va, end)| + AfterMunmap(vs, spare, va, end) <= NR_VMA_SLOTS
  {
    SubtractLength(vs, va, end);
    if Emptied(vs, va, end) {
      var init, last := vs[..|vs| - 1], [vs[|vs| - 1]];
      assert vs == init + last;
      SubtractConcat(init, last, va, end);
      assert Subtract(last, va, end) == Cut(last[0], va, end) + Subtract(last[1..], va, end);
    }
  }
}
