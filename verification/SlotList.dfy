/** The doubly linked list of memory areas and the free list that share one page of slots
    (struct mm_struct, arch/riscv/include/proc.h), as a theory on values. */
module SlotList {
  import opened VmaList

  /** A pointer to slot `slot` of the mm page `page`. */
  datatype Ptr = Null | At(page: nat, slot: nat)

  datatype Slot = Slot(vma: Vma, prev: Ptr, next: Ptr)

  const ZERO_VMA: Vma := Vma(0, 0, Flags(false, false, false, false), 0, 0, 0)

  function PtrTo(page: nat, order: seq<nat>, k: int): Ptr {
    if 0 <= k < |order| then At(page, order[k]) else Null
  }

  /** `order` lists distinct slots of the arena. */
  ghost predicate Distinct(slots: seq<Slot>, order: seq<nat>) {
    && (forall k | 0 <= k < |order| :: order[k] < |slots|)
    && forall k, l | 0 <= k < l < |order| :: order[k] != order[l]
  }

  ghost predicate NextOk(slots: seq<Slot>, page: nat, order: seq<nat>, k: nat)
    requires k < |order| && order[k] < |slots|
  {
    slots[order[k]].next == PtrTo(page, order, k + 1)
  }

  ghost predicate PrevOk(slots: seq<Slot>, page: nat, order: seq<nat>, k: nat)
    requires k < |order| && order[k] < |slots|
  {
    slots[order[k]].prev == PtrTo(page, order, k - 1)
  }

  ghost predicate Linked(slots: seq<Slot>, page: nat, head: Ptr, order: seq<nat>) {
    && Distinct(slots, order)
    && head == PtrTo(page, order, 0)
    && forall k | 0 <= k < |order| :: NextOk(slots, page, order, k) && PrevOk(slots, page, order, k)
  }

  /** The free list as far as it is known: `tail` is what its last known slot points to, or its head if no slot
      is known. In a descriptor made by copy_mm that is whatever the page held. */
  function FreePtr(page: nat, order: seq<nat>, tail: Ptr, k: nat): Ptr {
    if k < |order| then At(page, order[k]) else tail
  }

  ghost predicate FreeNextOk(slots: seq<Slot>, page: nat, order: seq<nat>, tail: Ptr, k: nat)
    requires k < |order| && order[k] < |slots|
  {
    slots[order[k]].next == FreePtr(page, order, tail, k + 1)
  }

  ghost predicate FreeLinked(slots: seq<Slot>, page: nat, head: Ptr, order: seq<nat>, tail: Ptr) {
    && Distinct(slots, order)
    && head == FreePtr(page, order, tail, 0)
    && forall k | 0 <= k < |order| :: FreeNextOk(slots, page, order, tail, k)
  }

  ghost predicate Apart(used: seq<nat>, free: seq<nat>) {
    forall k, l | 0 <= k < |used| && 0 <= l < |free| :: used[k] != free[l]
  }

  /** No slot is in both lists, nor twice in one. With as many entries as slots, every slot is in exactly one. */
  ghost predicate Parted(slots: seq<Slot>, used: seq<nat>, free: seq<nat>) {
    Distinct(slots, used) && Distinct(slots, free) && Apart(used, free)
  }

  function Areas(slots: seq<Slot>, order: seq<nat>): (vs: seq<Vma>)
    requires forall k | 0 <= k < |order| :: order[k] < |slots|
    ensures |vs| == |order| && forall k | 0 <= k < |vs| :: vs[k] == slots[order[k]].vma
  {
    seq(|order|, k requires 0 <= k < |order| => slots[order[k]].vma)
  }

  // ----- unlinking

  predicate InArena(slots: seq<Slot>, p: Ptr) { p.At? ==> p.slot < |slots| }

  predicate UnlinkReady(slots: seq<Slot>, x: nat) {
    x < |slots| && InArena(slots, slots[x].prev) && InArena(slots, slots[x].next)
  }

  /** remove_vma's stores. */
  function Unlink(slots: seq<Slot>, x: nat, freeHead: Ptr): (out: seq<Slot>)
    requires UnlinkReady(slots, x)
    ensures |out| == |slots|
  {
    var prev, next := slots[x].prev, slots[x].next;
    var s1 := if prev.At? then slots[prev.slot := slots[prev.slot].(next := next)] else slots;
    var s2 := if next.At? then s1[next.slot := s1[next.slot].(prev := prev)] else s1;
    s2[x := Slot(ZERO_VMA, Null, freeHead)]
  }

  /** Unlink cell by cell: only the neighbours' facing pointers change. */
  lemma UnlinkCell(slots: seq<Slot>, x: nat, freeHead: Ptr, y: nat)
    requires UnlinkReady(slots, x) && y < |slots| && y != x
    ensures var out := Unlink(slots, x, freeHead);
      && out[y].vma == slots[y].vma
      && out[y].next == (if slots[x].prev.At? && slots[x].prev.slot == y then slots[x].next else slots[y].next)
      && out[y].prev == (if slots[x].next.At? && slots[x].next.slot == y then slots[x].prev else slots[y].prev)
  {
  }

  function Without(order: seq<nat>, k: nat): (out: seq<nat>)
    requires k < |order|
    ensures |out| == |order| - 1
  {
    order[..k] + order[k + 1..]
  }

  lemma LinkedReady(slots: seq<Slot>, page: nat, head: Ptr, used: seq<nat>, k: nat)
    requires Linked(slots, page, head, used) && k < |used|
    ensures UnlinkReady(slots, used[k])
    ensures slots[used[k]].prev == PtrTo(page, used, k - 1) && slots[used[k]].next == PtrTo(page, used, k + 1)
  {
    assert NextOk(slots, page, used, k) && PrevOk(slots, page, used, k);
  }

  lemma WithoutDistinct(slots: seq<Slot>, order: seq<nat>, k: nat)
    requires Distinct(slots, order) && k < |order|
    ensures Distinct(slots, Without(order, k))
  {
    var out := Without(order, k);
    forall l, m | 0 <= l < m < |out| ensures out[l] != out[m] {
      assert out[l] == order[if l < k then l else l + 1] && out[m] == order[if m < k then m else m + 1];
    }
  }

  lemma UnlinkedLink(slots: seq<Slot>, page: nat, head: Ptr, used: seq<nat>, k: nat, freeHead: Ptr, l: nat)
    requires Linked(slots, page, head, used) && k < |used| && l < |used| - 1
    requires UnlinkReady(slots, used[k]) && Distinct(slots, Without(used, k))
    ensures var s', out := Unlink(slots, used[k], freeHead), Without(used, k);
      && NextOk(s', page, out, l) && PrevOk(s', page, out, l) && s'[out[l]].vma == slots[out[l]].vma
  {
    var out := Without(used, k);
    var l' := if l < k then l else l + 1;
    assert out[l] == used[l'];
    assert NextOk(slots, page, used, l') && PrevOk(slots, page, used, l');
    LinkedReady(slots, page, head, used, k);
    UnlinkCell(slots, used[k], freeHead, used[l']);
    assert l + 1 < |out| ==> out[l + 1] == used[if l + 1 < k then l + 1 else l + 2];
    assert l > 0 ==> out[l - 1] == used[if l - 1 < k then l - 1 else l];
  }

  lemma UnlinkUsed(slots: seq<Slot>, page: nat, head: Ptr, used: seq<nat>, k: nat, freeHead: Ptr)
    requires Linked(slots, page, head, used) && k < |used|
    ensures UnlinkReady(slots, used[k])
    ensures Linked(Unlink(slots, used[k], freeHead), page, if k == 0 then slots[used[k]].next else head, Without(used, k))
    ensures Areas(Unlink(slots, used[k], freeHead), Without(used, k)) == Areas(slots, used)[..k] + Areas(slots, used)[k + 1..]
  {
    hide Unlink, NextOk, PrevOk;
    var out := Without(used, k);
    LinkedReady(slots, page, head, used, k);
    WithoutDistinct(slots, used, k);
    var s' := Unlink(slots, used[k], freeHead);
    forall l | 0 <= l < |out|
      ensures NextOk(s', page, out, l) && PrevOk(s', page, out, l) && s'[out[l]].vma == slots[out[l]].vma
    {
      UnlinkedLink(slots, page, head, used, k, freeHead, l);
    }
  }

  /** A free list whose slots are not touched stays a free list. */
  lemma FreeKept(slots: seq<Slot>, slots': seq<Slot>, page: nat, head: Ptr, free: seq<nat>, tail: Ptr)
    requires FreeLinked(slots, page, head, free, tail) && |slots'| == |slots|
    requires forall l | 0 <= l < |free| :: slots'[free[l]].next == slots[free[l]].next
    ensures FreeLinked(slots', page, head, free, tail)
  {
    forall l | 0 <= l < |free| ensures FreeNextOk(slots', page, free, tail, l) {
      assert FreeNextOk(slots, page, free, tail, l);
    }
  }

  lemma PushFree(slots: seq<Slot>, page: nat, head: Ptr, free: seq<nat>, tail: Ptr, x: nat)
    requires FreeLinked(slots, page, head, free, tail) && x < |slots| && x !in free && slots[x].next == head
    ensures FreeLinked(slots, page, At(page, x), [x] + free, tail)
  {
    var out := [x] + free;
    forall l | 0 <= l < |out| ensures out[l] < |slots| && FreeNextOk(slots, page, out, tail, l) {
      if l > 0 { assert FreeNextOk(slots, page, free, tail, l - 1); }
    }
  }

  lemma PopFree(slots: seq<Slot>, page: nat, head: Ptr, free: seq<nat>, tail: Ptr)
    requires FreeLinked(slots, page, head, free, tail) && free != []
    ensures head == At(page, free[0]) && free[0] < |slots| && FreeLinked(slots, page, slots[free[0]].next, free[1..], tail)
  {
    var out := free[1..];
    assert FreeNextOk(slots, page, free, tail, 0);
    forall l | 0 <= l < |out| ensures out[l] < |slots| && FreeNextOk(slots, page, out, tail, l) {
      assert FreeNextOk(slots, page, free, tail, l + 1);
    }
  }

  lemma MoveToFree(slots: seq<Slot>, used: seq<nat>, free: seq<nat>, k: nat)
    requires Parted(slots, used, free) && k < |used|
    ensures Parted(slots, Without(used, k), [used[k]] + free)
  {
    WithoutDistinct(slots, used, k);
    var out := Without(used, k);
    forall l | 0 <= l < |out| ensures out[l] == used[if l < k then l else l + 1] { }
  }

  lemma UnlinkFree(slots: seq<Slot>, page: nat, head: Ptr, used: seq<nat>, free: seq<nat>, k: nat, freeHead: Ptr, tail: Ptr)
    requires Linked(slots, page, head, used) && k < |used|
    requires FreeLinked(slots, page, freeHead, free, tail) && Parted(slots, used, free)
    ensures UnlinkReady(slots, used[k])
    ensures FreeLinked(Unlink(slots, used[k], freeHead), page, At(page, used[k]), [used[k]] + free, tail)
    ensures Parted(Unlink(slots, used[k], freeHead), Without(used, k), [used[k]] + free)
  {
    var x := used[k];
    LinkedReady(slots, page, head, used, k);
    var s' := Unlink(slots, x, freeHead);
    forall l | 0 <= l < |free| ensures s'[free[l]].next == slots[free[l]].next {
      UnlinkCell(slots, x, freeHead, free[l]);
    }
    FreeKept(slots, s', page, freeHead, free, tail);
    PushFree(s', page, freeHead, free, tail, x);
    WithoutDistinct(slots, used, k);
    MoveToFree(slots, used, free, k);
  }

  // ----- linking in

  /** do_mmap's stores for a non-empty list: slot x goes between prev and curr. */
  function LinkIn(slots: seq<Slot>, page: nat, x: nat, prev: Ptr, curr: Ptr, v: Vma): (out: seq<Slot>)
    requires x < |slots| && InArena(slots, prev) && InArena(slots, curr)
    ensures |out| == |slots|
  {
    var s1 := if prev.At? then slots[prev.slot := slots[prev.slot].(next := At(page, x))] else slots;
    var s2 := if curr.At? then s1[curr.slot := s1[curr.slot].(prev := At(page, x))] else s1;
    s2[x := Slot(v, prev, curr)]
  }

  lemma LinkInCell(slots: seq<Slot>, page: nat, x: nat, prev: Ptr, curr: Ptr, v: Vma, y: nat)
    requires x < |slots| && InArena(slots, prev) && InArena(slots, curr) && y < |slots| && y != x
    ensures var out := LinkIn(slots, page, x, prev, curr, v);
      && out[y].vma == slots[y].vma && out[x] == Slot(v, prev, curr)
      && out[y].next == (if prev.At? && prev.slot == y then At(page, x) else slots[y].next)
      && out[y].prev == (if curr.At? && curr.slot == y then At(page, x) else slots[y].prev)
  {
  }

  function With(order: seq<nat>, k: nat, x: nat): (out: seq<nat>)
    requires k <= |order|
    ensures |out| == |order| + 1
  {
    order[..k] + [x] + order[k..]
  }

  lemma WithDistinct(slots: seq<Slot>, order: seq<nat>, k: nat, x: nat)
    requires Distinct(slots, order) && k <= |order| && x < |slots| && x !in order
    ensures Distinct(slots, With(order, k, x))
  {
    var out := With(order, k, x);
    forall l | 0 <= l < |out| ensures out[l] == if l == k then x else order[if l < k then l else l - 1] { }
  }

  lemma PtrInArena(slots: seq<Slot>, page: nat, order: seq<nat>, k: int)
    requires Distinct(slots, order)
    ensures InArena(slots, PtrTo(page, order, k))
  {
  }

  /** Slot l of a list: its two pointers, and which neighbours of place k it is. */
  lemma LinkedSlot(slots: seq<Slot>, page: nat, head: Ptr, used: seq<nat>, l: nat, k: nat)
    requires Linked(slots, page, head, used) && l < |used| && k <= |used|
    ensures used[l] < |slots|
    ensures slots[used[l]].next == PtrTo(page, used, l + 1) && slots[used[l]].prev == PtrTo(page, used, l - 1)
    ensures var prev, curr := PtrTo(page, used, k - 1), PtrTo(page, used, k);
      (prev.At? && prev.slot == used[l] <==> l + 1 == k) && (curr.At? && curr.slot == used[l] <==> l == k)
  {
    assert NextOk(slots, page, used, l) && PrevOk(slots, page, used, l);
  }

  lemma WithAt(used: seq<nat>, k: nat, x: nat, l: nat)
    requires k <= |used| && l <= |used|
    ensures With(used, k, x)[l] == if l == k then x else if l < k then used[l] else used[l - 1]
  {
  }

  lemma LinkedBefore(slots: seq<Slot>, page: nat, head: Ptr, used: seq<nat>, k: nat, x: nat, v: Vma, l: nat)
    requires Linked(slots, page, head, used) && k <= |used| && x < |slots| && x !in used && l < k
    requires InArena(slots, PtrTo(page, used, k - 1)) && InArena(slots, PtrTo(page, used, k))
    ensures var s', out := LinkIn(slots, page, x, PtrTo(page, used, k - 1), PtrTo(page, used, k), v), With(used, k, x);
      && out[l] == used[l] < |slots| && s'[used[l]].vma == slots[used[l]].vma
      && s'[used[l]].next == PtrTo(page, out, l + 1) && s'[used[l]].prev == PtrTo(page, out, l - 1)
  {
    hide LinkIn, With, Linked;
    WithAt(used, k, x, l);
    WithAt(used, k, x, l + 1);
    if l > 0 { WithAt(used, k, x, l - 1); }
    LinkedSlot(slots, page, head, used, l, k);
    LinkInCell(slots, page, x, PtrTo(page, used, k - 1), PtrTo(page, used, k), v, used[l]);
  }

  lemma LinkedAfter(slots: seq<Slot>, page: nat, head: Ptr, used: seq<nat>, k: nat, x: nat, v: Vma, l: nat)
    requires Linked(slots, page, head, used) && x < |slots| && x !in used && k < l <= |used|
    requires InArena(slots, PtrTo(page, used, k - 1)) && InArena(slots, PtrTo(page, used, k))
    ensures var s', out := LinkIn(slots, page, x, PtrTo(page, used, k - 1), PtrTo(page, used, k), v), With(used, k, x);
      && out[l] == used[l - 1] < |slots| && s'[used[l - 1]].vma == slots[used[l - 1]].vma
      && s'[used[l - 1]].next == PtrTo(page, out, l + 1) && s'[used[l - 1]].prev == PtrTo(page, out, l - 1)
  {
    hide LinkIn, With, Linked;
    WithAt(used, k, x, l);
    if l < |used| { WithAt(used, k, x, l + 1); }
    WithAt(used, k, x, l - 1);
    LinkedSlot(slots, page, head, used, l - 1, k);
    LinkInCell(slots, page, x, PtrTo(page, used, k - 1), PtrTo(page, used, k), v, used[l - 1]);
  }

  lemma LinkedInPlace(slots: seq<Slot>, page: nat, used: seq<nat>, k: nat, x: nat, v: Vma)
    requires k <= |used| && x < |slots|
    requires InArena(slots, PtrTo(page, used, k - 1)) && InArena(slots, PtrTo(page, used, k))
    ensures var s', out := LinkIn(slots, page, x, PtrTo(page, used, k - 1), PtrTo(page, used, k), v), With(used, k, x);
      out[k] == x && s'[x] == Slot(v, PtrTo(page, out, k - 1), PtrTo(page, out, k + 1))
  {
    hide With;
    WithAt(used, k, x, k);
    if k > 0 { WithAt(used, k, x, k - 1); }
    if k < |used| { WithAt(used, k, x, k + 1); }
  }

  lemma LinkedInLink(slots: seq<Slot>, page: nat, head: Ptr, used: seq<nat>, k: nat, x: nat, v: Vma, l: nat)
    requires Linked(slots, page, head, used) && k <= |used| && x < |slots| && x !in used && l <= |used|
    requires InArena(slots, PtrTo(page, used, k - 1)) && InArena(slots, PtrTo(page, used, k))
    ensures var s', out := LinkIn(slots, page, x, PtrTo(page, used, k - 1), PtrTo(page, used, k), v), With(used, k, x);
      && out[l] < |slots| && NextOk(s', page, out, l) && PrevOk(s', page, out, l)
      && s'[out[l]].vma == if l == k then v else slots[out[l]].vma
  {
    hide LinkIn, With, Linked, InArena, PtrTo;
    if l < k {
      LinkedBefore(slots, page, head, used, k, x, v, l);
    } else if l > k {
      LinkedAfter(slots, page, head, used, k, x, v, l);
    } else {
      LinkedInPlace(slots, page, used, k, x, v);
    }
  }

  lemma LinkInUsed(slots: seq<Slot>, page: nat, head: Ptr, used: seq<nat>, k: nat, x: nat, v: Vma)
    requires Linked(slots, page, head, used) && k <= |used| && x < |slots| && x !in used
    ensures InArena(slots, PtrTo(page, used, k - 1)) && InArena(slots, PtrTo(page, used, k))
    ensures var s' := LinkIn(slots, page, x, PtrTo(page, used, k - 1), PtrTo(page, used, k), v);
      && Linked(s', page, if k == 0 then At(page, x) else head, With(used, k, x))
      && Areas(s', With(used, k, x)) == Areas(slots, used)[..k] + [v] + Areas(slots, used)[k..]
  {
    hide LinkIn, NextOk, PrevOk;
    PtrInArena(slots, page, used, k);
    PtrInArena(slots, page, used, k - 1);
    WithDistinct(slots, used, k, x);
    var s', out := LinkIn(slots, page, x, PtrTo(page, used, k - 1), PtrTo(page, used, k), v), With(used, k, x);
    forall l | 0 <= l < |out|
      ensures NextOk(s', page, out, l) && PrevOk(s', page, out, l) && s'[out[l]].vma == if l == k then v else slots[out[l]].vma
    {
      LinkedInLink(slots, page, head, used, k, x, v, l);
    }
  }

  lemma MoveToUsed(slots: seq<Slot>, used: seq<nat>, free: seq<nat>, k: nat)
    requires Parted(slots, used, free) && k <= |used| && free != []
    ensures Parted(slots, With(used, k, free[0]), free[1..])
  {
    WithDistinct(slots, used, k, free[0]);
    var out, rest := With(used, k, free[0]), free[1..];
    forall l | 0 <= l < |out| ensures out[l] == if l == k then free[0] else used[if l < k then l else l - 1] { }
    forall l | 0 <= l < |rest| ensures rest[l] == free[l + 1] { }
  }

  lemma LinkInFree(slots: seq<Slot>, page: nat, head: Ptr, used: seq<nat>, free: seq<nat>, k: nat, freeHead: Ptr, tail: Ptr, v: Vma)
    requires Linked(slots, page, head, used) && k <= |used| && free != []
    requires FreeLinked(slots, page, freeHead, free, tail) && Parted(slots, used, free)
    ensures free[0] < |slots| && InArena(slots, PtrTo(page, used, k - 1)) && InArena(slots, PtrTo(page, used, k))
    ensures var s' := LinkIn(slots, page, free[0], PtrTo(page, used, k - 1), PtrTo(page, used, k), v);
      && FreeLinked(s', page, slots[free[0]].next, free[1..], tail)
      && Parted(s', With(used, k, free[0]), free[1..])
  {
    PtrInArena(slots, page, used, k);
    PtrInArena(slots, page, used, k - 1);
    PopFree(slots, page, freeHead, free, tail);
    var x, rest := free[0], free[1..];
    var s' := LinkIn(slots, page, x, PtrTo(page, used, k - 1), PtrTo(page, used, k), v);
    forall l | 0 <= l < |rest| ensures s'[rest[l]].next == slots[rest[l]].next {
      assert rest[l] == free[l + 1];
      LinkInCell(slots, page, x, PtrTo(page, used, k - 1), PtrTo(page, used, k), v, rest[l]);
    }
    FreeKept(slots, s', page, slots[x].next, rest, tail);
    MoveToUsed(slots, used, free, k);
  }

  // ----- a free list that nobody set up

  /** do_mmap's stores, in their order, where the slot taken may be one of the list's own. */
  function StaleLink(slots: seq<Slot>, page: nat, x: nat, prev: Ptr, curr: Ptr, v: Vma): (out: seq<Slot>)
    requires x < |slots| && InArena(slots, prev) && InArena(slots, curr)
    ensures |out| == |slots|
  {
    var s0 := slots[x := slots[x].(prev := prev, next := curr)];
    var s1 := if prev.At? then s0[prev.slot := s0[prev.slot].(next := At(page, x))] else s0;
    var s2 := if curr.At? then s1[curr.slot := s1[curr.slot].(prev := At(page, x))] else s1;
    s2[x := s2[x].(vma := v)]
  }

  lemma StaleLinkCell(slots: seq<Slot>, page: nat, x: nat, prev: Ptr, curr: Ptr, v: Vma, y: nat)
    requires x < |slots| && InArena(slots, prev) && InArena(slots, curr) && y < |slots|
    ensures var out := StaleLink(slots, page, x, prev, curr, v);
      && out[y].vma == (if y == x then v else slots[y].vma)
      && out[y].next == if prev.At? && prev.slot == y then At(page, x) else if y == x then curr else slots[y].next
  {
  }

  lemma {:induction false} FollowsPath(slots: seq<Slot>, page: nat, head: Ptr, order: seq<nat>, path: seq<nat>, l: nat)
    requires Linked(slots, page, head, order) && l < |path| && head == At(page, path[0])
    requires forall m | 0 <= m < |path| :: path[m] < |slots|
    requires forall m | 0 <= m < |path| - 1 :: slots[path[m]].next == At(page, path[m + 1])
    ensures l < |order| && order[l] == path[l]
  {
    if l > 0 {
      FollowsPath(slots, page, head, order, path, l - 1);
      assert NextOk(slots, page, order, l - 1);
      assert slots[path[l - 1]].next == At(page, path[l - 1 + 1]);
    }
  }

  /** Where the next pointers lead back to a slot already passed, there is no list. */
  lemma NoListInLoop(slots: seq<Slot>, page: nat, head: Ptr, order: seq<nat>, path: seq<nat>, back: nat)
    requires back < |path| && head == At(page, path[0])
    requires forall m | 0 <= m < |path| :: path[m] < |slots|
    requires forall m | 0 <= m < |path| - 1 :: slots[path[m]].next == At(page, path[m + 1])
    requires slots[path[|path| - 1]].next == At(page, path[back])
    ensures !Linked(slots, page, head, order)
  {
    if Linked(slots, page, head, order) {
      var longer := path + [path[back]];
      FollowsPath(slots, page, head, order, longer, back);
      FollowsPath(slots, page, head, order, longer, |path|);
    }
  }

  /** Where the search for the place, in the list cut off after slot j, leaves do_mmap. */
  function StaleCurr(page: nat, used: seq<nat>, j: nat, k: nat): Ptr
    requires j < |used|
  {
    if k <= j then At(page, used[k]) else Null
  }

  lemma StalePath(slots: seq<Slot>, page: nat, head: Ptr, used: seq<nat>, j: nat, k: nat, v: Vma, m: nat)
    requires Linked(slots, page, head, used) && j < |used| && k <= j + 1 && m <= j
    requires InArena(slots, PtrTo(page, used, k - 1)) && InArena(slots, StaleCurr(page, used, j, k))
    ensures var out, at := StaleLink(slots, page, used[j], PtrTo(page, used, k - 1), StaleCurr(page, used, j, k), v), if k <= j then k else j;
      var path := With(used[..j], at, used[j]);
      path[m] < |slots| && out[path[m]].next == At(page, if m < j then path[m + 1] else used[j])
  {
    var at := if k <= j then k else j;
    var path := With(used[..j], at, used[j]);
    var l := if m == at then j else if m < at then m else m - 1;
    assert path[m] == used[l];
    assert NextOk(slots, page, used, l);
    assert m < j ==> path[m + 1] == if m + 1 == at then used[j] else used[if m + 1 < at then m + 1 else m];
    StaleLinkCell(slots, page, used[j], PtrTo(page, used, k - 1), StaleCurr(page, used, j, k), v, used[l]);
  }

  /** If the free list's head points at the slot of area j, mapping another area overwrites that area's record and
      makes the list run in a circle, wherever the new area belongs: no order of slots makes it a list. */
  lemma StaleHeadBreaksList(slots: seq<Slot>, page: nat, head: Ptr, used: seq<nat>, j: nat, k: nat, v: Vma, order: seq<nat>)
    requires Linked(slots, page, head, used) && j < |used| && k <= j + 1
    ensures InArena(slots, PtrTo(page, used, k - 1)) && InArena(slots, StaleCurr(page, used, j, k))
    ensures var out := StaleLink(slots, page, used[j], PtrTo(page, used, k - 1), StaleCurr(page, used, j, k), v);
      && out[used[j]].vma == v && !Linked(out, page, if k == 0 then At(page, used[j]) else head, order)
  {
    hide StaleLink, NextOk, PrevOk;
    PtrInArena(slots, page, used, k - 1);
    PtrInArena(slots, page, used, k);
    var at := if k <= j then k else j;
    var path := With(used[..j], at, used[j]);
    StaleLinkCell(slots, page, used[j], PtrTo(page, used, k - 1), StaleCurr(page, used, j, k), v, used[j]);
    var out := StaleLink(slots, page, used[j], PtrTo(page, used, k - 1), StaleCurr(page, used, j, k), v);
    forall m | 0 <= m <= j ensures path[m] < |slots| && out[path[m]].next == At(page, if m < j then path[m + 1] else used[j]) {
      StalePath(slots, page, head, used, j, k, v, m);
    }
    assert path[at] == used[j] && |path| == j + 1;
    StalePath(slots, page, head, used, j, k, v, j);
    NoListInLoop(out, page, if k == 0 then At(page, used[j]) else head, order, path, at);
  }
}
