/** Which area a page belongs to, and how insertion and range subtraction change that. */
module CowPages {
  import opened Options
  import opened VmaList
  import opened SlotCounts
  import opened CowState

  lemma TailOk(vs: seq<Vma>)
    requires AreasOk(vs) && vs != []
    ensures AreasOk(vs[1..])
  {
  }

  lemma {:induction false} PageAreaIs(vs: seq<Vma>, k: nat, v: nat)
    requires AreasOk(vs) && k < |vs| && PageIn(vs[k], v)
    ensures PageArea(vs, v) == Some(vs[k])
  {
    if k > 0 {
      assert EndPage(vs[0]) <= StartPage(vs[k]);
      TailOk(vs);
      PageAreaIs(vs[1..], k - 1, v);
    }
  }

  lemma {:induction false} PageAreaFound(vs: seq<Vma>, v: nat) returns (k: nat)
    requires PageArea(vs, v).Some?
    ensures k < |vs| && PageIn(vs[k], v) && PageArea(vs, v) == Some(vs[k])
  {
    if PageIn(vs[0], v) {
      k := 0;
    } else {
      k := PageAreaFound(vs[1..], v);
      k := k + 1;
    }
  }

  lemma {:induction false} PageAreaConcat(xs: seq<Vma>, ys: seq<Vma>, v: nat)
    ensures PageArea(xs + ys, v) == if PageArea(xs, v).Some? then PageArea(xs, v) else PageArea(ys, v)
  {
    if xs == [] {
      assert xs + ys == ys;
    } else {
      assert (xs + ys)[1..] == xs[1..] + ys;
      PageAreaConcat(xs[1..], ys, v);
    }
  }

  lemma {:induction false} AreaAtFound(vs: seq<Vma>, a: nat) returns (k: nat)
    requires AreaAt(vs, a).Some?
    ensures k < |vs| && Covers(vs[k], a) && AreaAt(vs, a) == Some(vs[k])
  {
    if Covers(vs[0], a) {
      k := 0;
    } else {
      k := AreaAtFound(vs[1..], a);
      k := k + 1;
    }
  }

  /** The area of an address is the area of its page. */
  lemma AreaOfPage(vs: seq<Vma>, va: nat)
    requires AreasOk(vs) && AreaAt(vs, va).Some?
    ensures PageArea(vs, va / PAGE) == AreaAt(vs, va)
  {
    var k := AreaAtFound(vs, va);
    assert PageIn(vs[k], va / PAGE);
    PageAreaIs(vs, k, va / PAGE);
  }

  /** An area's pages are the pages of its addresses. */
  lemma PageInIff(w: Vma, v: nat)
    requires w.start < w.end
    ensures PageIn(w, v) <==> exists a: nat :: Covers(w, a) && a / PAGE == v
  {
    if PageIn(w, v) {
      var a := if v * PAGE < w.start then w.start else v * PAGE;
      assert Covers(w, a) && a / PAGE == v;
    }
  }

  /** The pages that munmap removes are those of its range's addresses. */
  lemma InPagesIff(v: nat, va: nat, len: nat)
    requires va % PAGE == 0 && len % PAGE == 0
    ensures InPages(v, va, len) <==> va <= v * PAGE < va + len
  {
    assert va == va / PAGE * PAGE && len == len / PAGE * PAGE;
  }

  // ----- insertion

  lemma InOrder(vs: seq<Vma>, w: Vma, p: nat)
    requires AreasOk(vs) && p <= |vs|
    requires forall k | 0 <= k < p :: EndPage(vs[k]) <= StartPage(w)
    requires forall k | p <= k < |vs| :: EndPage(w) <= StartPage(vs[k])
    ensures PagesInOrder(vs[..p] + [w] + vs[p..])
  {
    hide StartPage, EndPage;
    var out := vs[..p] + [w] + vs[p..];
    forall k, l | 0 <= k < l < |out| ensures EndPage(out[k]) <= StartPage(out[l]) {
      var k', l' := if k > p then k - 1 else k, if l > p then l - 1 else l;
      assert k != p ==> out[k] == vs[k'];
      assert l != p ==> out[l] == vs[l'];
    }
  }

  lemma OrderedOk(vs: seq<Vma>)
    requires Sorted(vs) && PagesInOrder(vs)
    ensures AreasOk(vs)
  {
  }

  /** Of two areas without a common page, the one that starts first ends first. */
  lemma OrderByStart(x: Vma, y: Vma)
    requires x.start < x.end && y.start < y.end && x.start <= y.start
    requires EndPage(x) <= StartPage(y) || EndPage(y) <= StartPage(x)
    ensures EndPage(x) <= StartPage(y)
  {
  }

  lemma ApartInBytes(vs: seq<Vma>, w: Vma)
    requires PageDisjoint(vs, w)
    ensures Disjoint(vs, w)
  {
    forall k | 0 <= k < |vs| ensures vs[k].end <= w.start || w.end <= vs[k].start {
      assert EndPage(vs[k]) <= StartPage(w) || EndPage(w) <= StartPage(vs[k]);
    }
  }

  lemma InsertPages(vs: seq<Vma>, w: Vma)
    requires AreasOk(vs) && w.start < w.end && PageDisjoint(vs, w)
    ensures AreasOk(Insert(vs, w))
  {
    hide StartPage, EndPage;
    ApartInBytes(vs, w);
    InsertSorted(vs, w);
    InsertAtSplits(vs, w.start);
    var p, out := InsertAt(vs, w.start), Insert(vs, w);
    forall k | 0 <= k < p ensures EndPage(vs[k]) <= StartPage(w) { OrderByStart(vs[k], w); }
    forall k | p <= k < |vs| ensures EndPage(w) <= StartPage(vs[k]) {
      assert w.start < vs[k].start by { assert vs[p].start <= vs[k].start; }
      OrderByStart(w, vs[k]);
    }
    hide AreasOk, InsertAt;
    InOrder(vs, w, p);
    assert AreasOk(out) by { OrderedOk(out); }
  }

  lemma NotInBoth(vs: seq<Vma>, w: Vma, v: nat)
    requires PageDisjoint(vs, w)
    ensures PageArea(vs, v).Some? ==> !PageIn(w, v)
  {
    if PageArea(vs, v).Some? {
      var k := PageAreaFound(vs, v);
    }
  }

  lemma InsertPageArea(vs: seq<Vma>, w: Vma, v: nat)
    requires PageDisjoint(vs, w)
    ensures PageArea(vs, v).Some? ==> PageArea(Insert(vs, w), v) == PageArea(vs, v)
  {
    hide StartPage, EndPage, InsertAt, PageDisjoint;
    var p := InsertAt(vs, w.start);
    var before, after := vs[..p], vs[p..];
    assert Insert(vs, w) == before + ([w] + after) && vs == before + after;
    PageAreaConcat(before, [w] + after, v);
    PageAreaConcat([w], after, v);
    PageAreaConcat(before, after, v);
    NotInBoth(vs, w, v);
    assert PageArea([w], v) == if PageIn(w, v) then Some(w) else PageArea([w][1..], v);
  }

  // ----- subtraction of a page-aligned range

  lemma AlignedPages(a: nat)
    requires a % PAGE == 0
    ensures a == a / PAGE * PAGE && (a + PAGE - 1) / PAGE == a / PAGE
  {
  }

  lemma LeftPages(w: Vma, lo: nat, v: nat)
    requires w.start < w.end && lo % PAGE == 0
    ensures w.start < lo ==> (PageIn(w.(end := if w.end < lo then w.end else lo), v) <==> PageIn(w, v) && v < lo / PAGE)
    ensures w.start >= lo ==> !(PageIn(w, v) && v < lo / PAGE)
  {
    AlignedPages(lo);
  }

  lemma RightPages(w: Vma, hi: nat, v: nat)
    requires w.start < w.end && hi % PAGE == 0
    ensures w.end > hi ==> (PageIn(w.(start := if w.start > hi then w.start else hi), v) <==> PageIn(w, v) && v >= hi / PAGE)
    ensures w.end <= hi ==> !(PageIn(w, v) && v >= hi / PAGE)
  {
    AlignedPages(hi);
  }

  lemma CutPages(w: Vma, lo: nat, hi: nat, v: nat)
    requires w.start < w.end && lo < hi && lo % PAGE == 0 && hi % PAGE == 0 && !(lo / PAGE <= v < hi / PAGE)
    ensures PageArea(Cut(w, lo, hi), v).Some? <==> PageIn(w, v)
    ensures PageIn(w, v) ==> PageArea(Cut(w, lo, hi), v).value.flags == w.flags
  {
    var left := if w.start < lo then [w.(end := if w.end < lo then w.end else lo)] else [];
    var right := if w.end > hi then [w.(start := if w.start > hi then w.start else hi)] else [];
    assert Cut(w, lo, hi) == left + right;
    PageAreaConcat(left, right, v);
    AlignedPages(lo);
    AlignedPages(hi);
    LeftPages(w, lo, v);
    RightPages(w, hi, v);
    assert PageArea(left, v).Some? <==> left != [] && PageIn(left[0], v);
    assert PageArea(right, v).Some? <==> right != [] && PageIn(right[0], v);
  }

  /** A page outside the range keeps its flags. */
  lemma {:induction false} SubtractPageArea(vs: seq<Vma>, lo: nat, hi: nat, v: nat)
    requires AreasOk(vs) && lo < hi && lo % PAGE == 0 && hi % PAGE == 0 && !(lo / PAGE <= v < hi / PAGE)
    ensures PageArea(vs, v).Some? ==> PageArea(Subtract(vs, lo, hi), v).Some?
    ensures PageArea(vs, v).Some? ==> PageArea(Subtract(vs, lo, hi), v).value.flags == PageArea(vs, v).value.flags
  {
    if vs != [] {
      TailOk(vs);
      SubtractPageArea(vs[1..], lo, hi, v);
      CutPages(vs[0], lo, hi, v);
      PageAreaConcat(Cut(vs[0], lo, hi), Subtract(vs[1..], lo, hi), v);
    }
  }

  lemma CutWithin(w: Vma, lo: nat, hi: nat)
    requires w.start < w.end && lo < hi && lo % PAGE == 0 && hi % PAGE == 0
    ensures forall r <- Cut(w, lo, hi) :: StartPage(w) <= StartPage(r) && EndPage(r) <= EndPage(w)
    ensures |Cut(w, lo, hi)| <= 2 && StartPage(w) <= EndPage(w)
    ensures |Cut(w, lo, hi)| == 2 ==> EndPage(Cut(w, lo, hi)[0]) <= StartPage(Cut(w, lo, hi)[1])
  {
    AlignedPages(lo);
    AlignedPages(hi);
  }

  lemma {:induction false} SubtractPages(vs: seq<Vma>, lo: nat, hi: nat)
    requires AreasOk(vs) && lo < hi && lo % PAGE == 0 && hi % PAGE == 0
    ensures AreasOk(Subtract(vs, lo, hi))
    ensures forall r <- Subtract(vs, lo, hi) :: vs != [] && StartPage(vs[0]) <= StartPage(r)
  {
    hide StartPage, EndPage, Cut;
    SubtractSorted(vs, lo, hi);
    if vs != [] {
      TailOk(vs);
      SubtractPages(vs[1..], lo, hi);
      var head, rest := Cut(vs[0], lo, hi), Subtract(vs[1..], lo, hi);
      CutWithin(vs[0], lo, hi);
      forall r | r in rest ensures EndPage(vs[0]) <= StartPage(r) {
        assert EndPage(vs[0]) <= StartPage(vs[1]);
      }
      var out := head + rest;
      forall k, l | 0 <= k < l < |out| ensures EndPage(out[k]) <= StartPage(out[l]) {
        if k < |head| { assert out[k] in head; if l >= |head| { assert out[l] in rest; } }
      }
    }
  }

  // ----- the pages of all areas

  lemma InRange(lo: nat, n: nat, v: nat)
    ensures v in PageRange(lo, n) <==> lo <= v < lo + n
  {
    if lo <= v < lo + n { assert PageRange(lo, n)[v - lo] == v; }
  }

  lemma InitOk(vs: seq<Vma>)
    requires AreasOk(vs) && vs != []
    ensures AreasOk(vs[..|vs| - 1])
  {
  }

  /** PagesOf lists exactly the pages of areas, each once. */
  lemma {:induction false} PagesOfMeaning(vs: seq<Vma>, v: nat)
    ensures v in PagesOf(vs) <==> PageArea(vs, v).Some?
  {
    if vs != [] {
      var init, w := vs[..|vs| - 1], vs[|vs| - 1];
      PagesOfMeaning(init, v);
      assert vs == init + [w];
      PageAreaConcat(init, [w], v);
      if StartPage(w) < EndPage(w) { InRange(StartPage(w), EndPage(w) - StartPage(w), v); }
    }
  }

  ghost predicate NoDuplicates(s: seq<nat>) { forall i, j | 0 <= i < j < |s| :: s[i] != s[j] }

  lemma {:induction false} PagesOfDistinct(vs: seq<Vma>)
    requires AreasOk(vs)
    ensures NoDuplicates(PagesOf(vs))
  {
    if vs != [] {
      var init, w := vs[..|vs| - 1], vs[|vs| - 1];
      InitOk(vs);
      PagesOfDistinct(init);
      forall v | v in PagesOf(init) ensures v < StartPage(w) {
        PagesOfMeaning(init, v);
        var k := PageAreaFound(init, v);
        assert EndPage(vs[k]) <= StartPage(w);
      }
      var first := PagesOf(init);
      forall i, j | 0 <= i < j < |PagesOf(vs)| ensures PagesOf(vs)[i] != PagesOf(vs)[j] {
        if i < |first| { assert first[i] in first; }
      }
    }
  }

  // ----- the user's half

  lemma InsertInUser(vs: seq<Vma>, w: Vma)
    requires InUser(vs) && w.end <= USER_END
    ensures InUser(Insert(vs, w))
  {
    var p, out := InsertAt(vs, w.start), Insert(vs, w);
    forall k | 0 <= k < |out| ensures out[k].end <= USER_END {
      assert out[k] == if k < p then vs[k] else if k == p then w else vs[k - 1];
    }
  }

  lemma CutBelow(w: Vma, lo: nat, hi: nat)
    requires w.end <= USER_END && w.start < w.end
    ensures InUser(Cut(w, lo, hi))
  {
  }

  lemma {:induction false} SubtractInUser(vs: seq<Vma>, lo: nat, hi: nat)
    requires InUser(vs) && forall k | 0 <= k < |vs| :: vs[k].start < vs[k].end
    ensures InUser(Subtract(vs, lo, hi))
  {
    if vs != [] {
      SubtractInUser(vs[1..], lo, hi);
      CutBelow(vs[0], lo, hi);
    }
  }

  lemma EndInUser(end: nat)
    requires end <= USER_END
    ensures (end + PAGE - 1) / PAGE <= USER_PAGES
  {
  }

  /** Every page of an area is a user page. */
  lemma {:induction false} PageAreaInUser(vs: seq<Vma>, v: nat)
    requires InUser(vs) && PageArea(vs, v).Some?
    ensures v < USER_PAGES
  {
    if PageIn(vs[0], v) {
      EndInUser(vs[0].end);
    } else {
      PageAreaInUser(vs[1..], v);
    }
  }
}
