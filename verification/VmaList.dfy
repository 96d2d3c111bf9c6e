/** A process's memory areas as a sorted sequence: lookup, insertion and range subtraction
    (the meaning of find_vma, do_mmap, remove_vma and do_munmap in arch/riscv/kernel/proc.c). */
module VmaList {
  import opened Options
  import opened Words

  datatype Flags = Flags(read: bool, write: bool, exec: bool, anon: bool)

  /** Half-open address range with its attributes; file 0 stands for no file. */
  datatype Vma = Vma(start: nat, end: nat, flags: Flags, file: nat, pgoff: nat, filesz: nat)

  predicate Covers(v: Vma, a: nat) { v.start <= a < v.end }

  /** Non-empty areas in address order, none overlapping. */
  ghost predicate Sorted(vs: seq<Vma>) {
    && (forall k | 0 <= k < |vs| :: vs[k].start < vs[k].end)
    && forall k, l | 0 <= k < l < |vs| :: vs[k].end <= vs[l].start
  }

  ghost predicate Covered(vs: seq<Vma>, a: nat) { exists k :: 0 <= k < |vs| && Covers(vs[k], a) }

  /** The attributes of an address: those of the first area that covers it. */
  function AreaAt(vs: seq<Vma>, a: nat): Option<Vma> {
    if vs == [] then None else if Covers(vs[0], a) then Some(vs[0]) else AreaAt(vs[1..], a)
  }

  function FlagsAt(vs: seq<Vma>, a: nat): Option<Flags> {
    match AreaAt(vs, a)
    case None => None
    case Some(v) => Some(v.flags)
  }

  lemma {:induction false} AreaAtIs(vs: seq<Vma>, k: nat, a: nat)
    requires Sorted(vs) && k < |vs| && Covers(vs[k], a)
    ensures AreaAt(vs, a) == Some(vs[k])
  {
    if k > 0 { AreaAtIs(vs[1..], k - 1, a); }
  }

  lemma {:induction false} AreaAtNone(vs: seq<Vma>, a: nat)
    ensures AreaAt(vs, a) == None <==> !Covered(vs, a)
  {
    if vs != [] {
      AreaAtNone(vs[1..], a);
      if Covered(vs[1..], a) {
        var k :| 0 <= k < |vs[1..]| && Covers(vs[1..][k], a);
        assert Covers(vs[k + 1], a);
      }
      if k :| 0 <= k < |vs| && Covers(vs[k], a) {
        if k > 0 { assert Covers(vs[1..][k - 1], a); }
      }
    }
  }

  lemma {:induction false} AreaAtConcat(xs: seq<Vma>, ys: seq<Vma>, a: nat)
    ensures AreaAt(xs + ys, a) == if AreaAt(xs, a).Some? then AreaAt(xs, a) else AreaAt(ys, a)
  {
    if xs == [] {
      assert xs + ys == ys;
    } else {
      assert (xs + ys)[1..] == xs[1..] + ys;
      AreaAtConcat(xs[1..], ys, a);
    }
  }

  // ----- insertion

  ghost predicate Disjoint(vs: seq<Vma>, v: Vma) {
    forall k | 0 <= k < |vs| :: vs[k].end <= v.start || v.end <= vs[k].start
  }

  /** Index at which do_mmap links a new area: before the first one that starts later. */
  function InsertAt(vs: seq<Vma>, va: nat): (p: nat)
    ensures p <= |vs|
  {
    if vs == [] || va < vs[0].start then 0 else 1 + InsertAt(vs[1..], va)
  }

  function Insert(vs: seq<Vma>, v: Vma): (out: seq<Vma>)
    ensures |out| == |vs| + 1
  {
    var p := InsertAt(vs, v.start);
    vs[..p] + [v] + vs[p..]
  }

  lemma {:induction false} InsertAtIs(vs: seq<Vma>, va: nat, p: nat)
    requires p <= |vs| && (forall k | 0 <= k < p :: vs[k].start <= va) && (p < |vs| ==> va < vs[p].start)
    ensures InsertAt(vs, va) == p
  {
    if p > 0 { InsertAtIs(vs[1..], va, p - 1); }
  }

  lemma {:induction false} InsertAtSplits(vs: seq<Vma>, va: nat)
    ensures var p := InsertAt(vs, va);
      (forall k | 0 <= k < p :: vs[k].start <= va) && (p < |vs| ==> va < vs[p].start)
  {
    if vs != [] && va >= vs[0].start { InsertAtSplits(vs[1..], va); }
  }

  lemma OneIsSorted(v: Vma)
    requires v.start < v.end
    ensures Sorted([v])
  {
  }

  /** What comes before a disjoint area ends before it, what comes after starts after it. */
  lemma Apart(vs: seq<Vma>, v: Vma, p: nat)
    requires Sorted(vs) && v.start < v.end && Disjoint(vs, v) && p <= |vs|
    requires (forall k | 0 <= k < p :: vs[k].start <= v.start) && (p < |vs| ==> v.start < vs[p].start)
    ensures Sorted(vs[..p]) && Sorted(vs[p..])
    ensures forall k, l | 0 <= k < |vs[..p]| && 0 <= l < |[v] + vs[p..]| :: vs[..p][k].end <= ([v] + vs[p..])[l].start
    ensures forall k, l | 0 <= k < |[v]| && 0 <= l < |vs[p..]| :: [v][k].end <= vs[p..][l].start
  {
    forall k | 0 <= k < p ensures vs[k].end <= v.start { }
    forall k | p <= k < |vs| ensures v.end <= vs[k].start { }
  }

  lemma SortedConcat(xs: seq<Vma>, ys: seq<Vma>)
    requires Sorted(xs) && Sorted(ys) && forall k, l | 0 <= k < |xs| && 0 <= l < |ys| :: xs[k].end <= ys[l].start
    ensures Sorted(xs + ys)
  {
  }

  /** Inserting a disjoint area keeps the list sorted ... */
  lemma InsertSorted(vs: seq<Vma>, v: Vma)
    requires Sorted(vs) && v.start < v.end && Disjoint(vs, v)
    ensures Sorted(Insert(vs, v))
  {
    hide Sorted, Disjoint, InsertAt;
    var p := InsertAt(vs, v.start);
    InsertAtSplits(vs, v.start);
    Apart(vs, v, p);
    assert Sorted([v]) by { OneIsSorted(v); }
    SortedConcat([v], vs[p..]);
    SortedConcat(vs[..p], [v] + vs[p..]);
    assert Insert(vs, v) == vs[..p] + ([v] + vs[p..]);
  }

  lemma NotCoveredPart(vs: seq<Vma>, v: Vma, p: nat, a: nat)
    requires Disjoint(vs, v) && p <= |vs|
    ensures Covers(v, a) ==> AreaAt(vs[..p], a) == None
  {
    AreaAtNone(vs[..p], a);
  }

  /** ... and gives exactly the new addresses the new attributes. */
  lemma InsertArea(vs: seq<Vma>, v: Vma, a: nat)
    requires Sorted(vs) && v.start < v.end && Disjoint(vs, v)
    ensures AreaAt(Insert(vs, v), a) == if Covers(v, a) then Some(v) else AreaAt(vs, a)
  {
    var p := InsertAt(vs, v.start);
    var before, after := vs[..p], vs[p..];
    assert Insert(vs, v) == before + ([v] + after);
    assert vs == before + after;
    NotCoveredPart(vs, v, p, a);
    AreaAtConcat(before, [v] + after, a);
    AreaAtConcat([v], after, a);
    AreaAtConcat(before, after, a);
  }

  // ----- removal of a range

  /** What is left of one area outside lo..hi. */
  function Cut(v: Vma, lo: nat, hi: nat): seq<Vma> {
    (if v.start < lo then [v.(end := if v.end < lo then v.end else lo)] else [])
    + (if v.end > hi then [v.(start := if v.start > hi then v.start else hi)] else [])
  }

  /** What is left of a list of areas outside lo..hi. */
  function Subtract(vs: seq<Vma>, lo: nat, hi: nat): seq<Vma> {
    if vs == [] then [] else Cut(vs[0], lo, hi) + Subtract(vs[1..], lo, hi)
  }

  /** Same attributes, whatever the bounds. */
  predicate SameKind(x: Option<Vma>, y: Option<Vma>) {
    if x.None? || y.None? then x == y else x.value == y.value.(start := x.value.start, end := x.value.end)
  }

  lemma CutMeaning(v: Vma, lo: nat, hi: nat, a: nat)
    requires v.start < v.end && lo < hi
    ensures AreaAt(Cut(v, lo, hi), a).Some? <==> Covers(v, a) && !(lo <= a < hi)
    ensures AreaAt(Cut(v, lo, hi), a).Some? ==> SameKind(AreaAt(Cut(v, lo, hi), a), Some(v))
  {
    var left := if v.start < lo then [v.(end := if v.end < lo then v.end else lo)] else [];
    var right := if v.end > hi then [v.(start := if v.start > hi then v.start else hi)] else [];
    assert Cut(v, lo, hi) == left + right;
    AreaAtConcat(left, right, a);
  }

  /** Range subtraction: addresses in lo..hi lose their area, every other address keeps its attributes. */
  lemma {:induction false} SubtractMeaning(vs: seq<Vma>, lo: nat, hi: nat, a: nat)
    requires Sorted(vs) && lo < hi
    ensures if lo <= a < hi then AreaAt(Subtract(vs, lo, hi), a) == None
            else SameKind(AreaAt(Subtract(vs, lo, hi), a), AreaAt(vs, a))
  {
    if vs != [] {
      SubtractMeaning(vs[1..], lo, hi, a);
      AreaAtConcat(Cut(vs[0], lo, hi), Subtract(vs[1..], lo, hi), a);
      CutMeaning(vs[0], lo, hi, a);
    }
  }

  lemma {:induction false} SubtractSorted(vs: seq<Vma>, lo: nat, hi: nat)
    requires Sorted(vs) && lo < hi
    ensures Sorted(Subtract(vs, lo, hi))
    ensures forall r <- Subtract(vs, lo, hi) :: vs != [] && vs[0].start <= r.start
  {
    if vs != [] {
      SubtractSorted(vs[1..], lo, hi);
      var rest := Subtract(vs[1..], lo, hi);
      var head := Cut(vs[0], lo, hi);
      forall r | r in rest ensures vs[0].end <= r.start { }
      forall h | h in head ensures vs[0].start <= h.start < h.end <= vs[0].end { }
      assert Sorted(head);
    }
  }

  lemma CutKeeps(v: Vma, lo: nat, hi: nat)
    requires v.start < v.end && (v.end <= lo || hi <= v.start) && lo < hi
    ensures Cut(v, lo, hi) == [v]
  {
  }

  /** Areas that do not meet the range are kept as they are. */
  lemma {:induction false} SubtractKeeps(vs: seq<Vma>, lo: nat, hi: nat)
    requires forall v <- vs :: v.start < v.end && (v.end <= lo || hi <= v.start)
    requires lo < hi
    ensures Subtract(vs, lo, hi) == vs
  {
    hide Cut;
    if vs != [] {
      SubtractKeeps(vs[1..], lo, hi);
      CutKeeps(vs[0], lo, hi);
    }
  }

  lemma {:induction false} SubtractConcat(xs: seq<Vma>, ys: seq<Vma>, lo: nat, hi: nat)
    ensures Subtract(xs + ys, lo, hi) == Subtract(xs, lo, hi) + Subtract(ys, lo, hi)
  {
    if xs == [] {
      assert xs + ys == ys;
    } else {
      assert (xs + ys)[1..] == xs[1..] + ys;
      SubtractConcat(xs[1..], ys, lo, hi);
    }
  }

  // ----- 64-bit addresses

  /** Addresses are 64-bit words. */
  ghost predicate InWord(vs: seq<Vma>) { forall k | 0 <= k < |vs| :: vs[k].end < WORD }

  lemma InsertInWord(vs: seq<Vma>, v: Vma)
    requires InWord(vs) && v.end < WORD
    ensures InWord(Insert(vs, v))
  {
    var p, out := InsertAt(vs, v.start), Insert(vs, v);
    forall k | 0 <= k < |out| ensures out[k].end < WORD {
      assert out[k] == if k < p then vs[k] else if k == p then v else vs[k - 1];
    }
  }

  /** An area covers the address it was asked for exactly when its end does not wrap around; one whose end wraps
      covers nothing, and no address's area changes. */
  lemma MmapCoversIff(vs: seq<Vma>, v: Vma, len: nat, a: nat)
    requires v.start < WORD && 0 < len < WORD && v.end == (v.start + len) % WORD
    ensures Covers(v, v.start) <==> v.start + len < WORD
    ensures v.start + len >= WORD ==> AreaAt(Insert(vs, v), a) == AreaAt(vs, a)
  {
    var p := InsertAt(vs, v.start);
    var before, after := vs[..p], vs[p..];
    assert Insert(vs, v) == before + ([v] + after) && vs == before + after;
    AreaAtConcat(before, [v] + after, a);
    AreaAtConcat([v], after, a);
    AreaAtConcat(before, after, a);
  }

  lemma WithoutInWord(vs: seq<Vma>, k: nat)
    requires InWord(vs) && k < |vs|
    ensures InWord(vs[..k] + vs[k + 1..])
  {
    var out := vs[..k] + vs[k + 1..];
    forall l | 0 <= l < |out| ensures out[l].end < WORD { assert out[l] == vs[if l < k then l else l + 1]; }
  }

  // ----- when do_munmap succeeds

  const PAGE: nat := 0x1000

  ghost predicate RangeCovered(vs: seq<Vma>, lo: nat, hi: nat) { forall a: nat | lo <= a < hi :: Covered(vs, a) }

  /** Areas i..e follow one another without a gap. */
  ghost predicate Contiguous(vs: seq<Vma>, i: nat, e: nat) {
    e < |vs| && forall k | i <= k < e :: vs[k + 1].start == vs[k].end
  }

  lemma {:induction false} ContiguousCovers(vs: seq<Vma>, i: nat, e: nat, a: nat)
    requires Sorted(vs) && i <= e && Contiguous(vs, i, e) && vs[i].start <= a < vs[e].end
    ensures Covered(vs, a)
    decreases e - i
  {
    if a < vs[i].end {
      assert Covers(vs[i], a);
    } else {
      ContiguousCovers(vs, i + 1, e, a);
    }
  }

  /** Where the run of areas breaks, the address at the break is in no area. */
  lemma GapAt(vs: seq<Vma>, e: nat)
    requires Sorted(vs) && e < |vs| && (e + 1 < |vs| ==> vs[e + 1].start != vs[e].end)
    ensures !Covered(vs, vs[e].end)
  {
    forall k | 0 <= k < |vs| ensures !Covers(vs[k], vs[e].end) {
      if k < e {
        assert vs[k].end <= vs[e].start;
      } else if k > e {
        assert vs[e].end <= vs[e + 1].start;
      }
    }
  }

  /** What munmap is for: the range is page aligned and every address of it is mapped. */
  ghost predicate MunmapOk(vs: seq<Vma>, va: nat, len: nat) {
    va % PAGE == 0 && len % PAGE == 0 && RangeCovered(vs, va, va + len)
  }

  /** What do_munmap checks: where the end of the range wraps around, only that va itself is mapped. */
  ghost predicate MunmapPasses(vs: seq<Vma>, va: nat, len: nat) {
    && va % PAGE == 0 && len % PAGE == 0
    && if va + len < WORD then RangeCovered(vs, va, va + len) else Covered(vs, va)
  }

  /** The checks are right exactly when the end does not wrap, or they fail for another reason. */
  lemma MunmapPassesIff(vs: seq<Vma>, va: nat, len: nat)
    requires len > 0 && InWord(vs)
    ensures (MunmapPasses(vs, va, len) <==> MunmapOk(vs, va, len)) <==>
      va + len < WORD || va % PAGE != 0 || len % PAGE != 0 || !Covered(vs, va)
  {
    if va + len >= WORD {
      var a := if va < WORD then WORD - 1 else va;
      assert va <= a < va + len && !Covered(vs, a);
    }
  }

  /** One page mapped at 0x10000; a length of 2^64 - 0x1000 passes the checks. */
  lemma MunmapWraps()
    ensures var vs := [Vma(0x10000, 0x11000, Flags(true, true, false, true), 0, 0, 0)];
      && MunmapPasses(vs, 0x10000, WORD - 0x1000) && !MunmapOk(vs, 0x10000, WORD - 0x1000)
      && (0x10000 + (WORD - 0x1000)) % WORD == 0xF000
  {
    var vs := [Vma(0x10000, 0x11000, Flags(true, true, false, true), 0, 0, 0)];
    assert Covers(vs[0], 0x10000);
    assert !Covered(vs, 0x11000);
  }
}
