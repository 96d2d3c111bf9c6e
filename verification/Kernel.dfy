/** do_fork's page loop, do_page_fault, remove_mapping's walk over user entries and the unmap loops of
    do_execve and do_exit, as they update the process table, the reference counts and memory in place
    (arch/riscv/kernel/proc.c, arch/riscv/kernel/trap.c). Each is proved equal to its step. */
module CowKernel {
  import opened Options
  import opened Sv39
  import opened VmaList
  import opened SlotCounts
  import opened CowState

  function AreaPages(w: Vma): seq<nat> {
    if StartPage(w) < EndPage(w) then PageRange(StartPage(w), EndPage(w) - StartPage(w)) else []
  }

  lemma AreaPagesAre(w: Vma, n: nat)
    requires (StartPage(w) + n) * PAGE >= EndPage(w) * PAGE && (n > 0 ==> StartPage(w) + n <= EndPage(w))
    ensures AreaPages(w) == PageRange(StartPage(w), n)
  {
    if n == 0 { assert PageRange(StartPage(w), 0) == []; }
  }

  lemma NoPages(done: seq<nat>, lo: nat)
    ensures done + PageRange(lo, 0) == done
  {
  }

  lemma ShareNone(st: State, p: nat, c: nat)
    requires p in st.procs && c in st.procs
    ensures SharePages(st, p, c, []) == st && PagesOf([]) == []
  {
  }

  lemma ShareAppend(st: State, p: nat, c: nat, pages: seq<nat>, v: nat)
    requires p in st.procs && c in st.procs
    ensures SharePages(st, p, c, pages + [v]) == SharePage(SharePages(st, p, c, pages), p, c, v)
  {
    hide SharePage;
    assert (pages + [v])[..|pages|] == pages;
  }

  lemma DropNone(st: State, p: nat, lo: nat)
    requires p in st.procs
    ensures PageRange(lo, 0) == [] && DropPages(st, p, []) == st && PagesOf([]) == []
  {
  }

  lemma DropAppend(st: State, p: nat, pages: seq<nat>, v: nat)
    requires p in st.procs
    ensures DropPages(st, p, pages + [v]) == DropPage(DropPages(st, p, pages), p, v)
  {
    hide DropPage;
    assert (pages + [v])[..|pages|] == pages;
  }

  ghost predicate AreasNonEmpty(vs: seq<Vma>) { forall k | 0 <= k < |vs| :: vs[k].start < vs[k].end }

  function WithAreas(st: State, p: nat, vs: seq<Vma>, spare: nat): State
    requires p in st.procs
  {
    st.(procs := SetAreas(st.procs, p, vs, spare))
  }

  lemma PagesOfNext(vs: seq<Vma>, i: nat)
    requires i < |vs|
    ensures PagesOf(vs[..i + 1]) == PagesOf(vs[..i]) + AreaPages(vs[i])
  {
    assert vs[..i + 1][..i] == vs[..i];
  }

  lemma DropKeepsAreas(st: State, p: nat, vs: seq<Vma>, spare: nat, v: nat)
    requires p in st.procs
    ensures DropPage(WithAreas(st, p, vs, spare), p, v) == WithAreas(DropPage(st, p, v), p, vs, spare)
  {
    assert v in st.procs[p].pt ==> ClearPte(SetAreas(st.procs, p, vs, spare), p, v) == SetAreas(ClearPte(st.procs, p, v), p, vs, spare);
  }

  lemma {:induction false} DropIgnoresAreas(st: State, p: nat, vs: seq<Vma>, spare: nat, pages: seq<nat>)
    requires p in st.procs
    ensures DropPages(WithAreas(st, p, vs, spare), p, pages) == WithAreas(DropPages(st, p, pages), p, vs, spare)
  {
    if pages != [] {
      DropIgnoresAreas(st, p, vs, spare, pages[..|pages| - 1]);
      DropKeepsAreas(DropPages(st, p, pages[..|pages| - 1]), p, vs, spare, pages[|pages| - 1]);
    }
  }

  lemma {:induction false} DropConcat(st: State, p: nat, xs: seq<nat>, ys: seq<nat>)
    requires p in st.procs
    ensures DropPages(st, p, xs + ys) == DropPages(DropPages(st, p, xs), p, ys)
  {
    if ys == [] {
      assert xs + ys == xs;
    } else {
      var init := ys[..|ys| - 1];
      assert (xs + ys)[..|xs + ys| - 1] == xs + init;
      DropConcat(st, p, xs, init);
    }
  }

  lemma UnmappedOneMore(st: State, p: nat, vs: seq<Vma>, i: nat, spare: nat)
    requires p in st.procs && i < |vs| && AreasNonEmpty(vs)
    ensures DropPages(WithAreas(DropPages(st, p, PagesOf(vs[..i])), p, vs[i..], spare), p, AreaPages(vs[i])) ==
      WithAreas(DropPages(st, p, PagesOf(vs[..i + 1])), p, vs[i..], spare)
  {
    hide DropPages, WithAreas, PagesOf, AreaPages;
    DropIgnoresAreas(DropPages(st, p, PagesOf(vs[..i])), p, vs[i..], spare, AreaPages(vs[i]));
    DropConcat(st, p, PagesOf(vs[..i]), AreaPages(vs[i]));
    PagesOfNext(vs, i);
  }

  lemma NothingUnmapped(st: State, p: nat)
    requires p in st.procs
    ensures var vs := st.procs[p].vmas;
      vs[0..] == vs && WithAreas(DropPages(st, p, PagesOf(vs[..0])), p, vs[0..], st.procs[p].spare + 0) == st
  {
    assert st.procs[p].vmas[..0] == [];
  }

  lemma AreasAgain(st: State, p: nat, vs: seq<Vma>, spare: nat, vs': seq<Vma>)
    requires p in st.procs
    ensures var st1 := WithAreas(st, p, vs, spare);
      && p in st1.procs && st1.procs[p].vmas == vs && st1.procs[p].spare == spare
      && st1.(procs := SetAreas(st1.procs, p, vs', spare + 1)) == WithAreas(st, p, vs', spare + 1)
  {
  }

  lemma AllUnmapped(st: State, i: nat)
    requires st.cur in st.procs && i == |st.procs[st.cur].vmas|
    ensures var vs := st.procs[st.cur].vmas;
      WithAreas(DropPages(st, st.cur, PagesOf(vs[..i])), st.cur, vs[i..], st.procs[st.cur].spare + i) == UnmapAll(st)
  {
    hide DropPages;
    var vs := st.procs[st.cur].vmas;
    assert vs[..i] == vs && vs[i..] == [];
  }

  lemma OneMorePage(done: seq<nat>, lo: nat, n: nat)
    ensures done + PageRange(lo, n + 1) == done + PageRange(lo, n) + [lo + n]
  {
  }

  class Kernel {
    var procs: map<nat, Proc>
    var count: map<nat, nat>
    var mem: map<nat, Page>
    var current: nat

    ghost function St(): State
      reads this
    {
      State(procs, count, mem, current)
    }

    constructor (procs: map<nat, Proc>, count: map<nat, nat>, mem: map<nat, Page>, current: nat)
      ensures St() == State(procs, count, mem, current)
    {
      this.procs, this.count, this.mem, this.current := procs, count, mem, current;
    }

    method RefPage(f: nat)
      modifies this`count
      ensures count == Ref(old(count), f)
    {
      if f in count && count[f] > 0 {
        count := count[f := count[f] + 1];
      }
    }

    method DerefPage(f: nat)
      modifies this`count
      ensures count == Deref(old(count), f)
    {
      if f in count && count[f] > 0 {
        count := count[f := count[f] - 1];
      }
    }

    /** The body of do_fork's page loop. */
    method ShareOnePage(child: nat, v: nat)
      requires current in procs && child in procs
      modifies this`procs, this`count
      ensures St() == SharePage(old(St()), current, child, v)
    {
      if v in procs[current].pt {
        var pte := procs[current].pt[v];
        RefPage(pte.ppn);
        pte := pte.(perm := pte.perm.(s := true));
        pte := pte.(perm := pte.perm.(w := false));
        procs := SetPte(procs, current, v, pte);
        procs := SetPte(procs, child, v, pte);
      }
    }

    /** do_fork's page loop over one area. */
    method ShareArea(child: nat, vma: Vma, ghost st1: State, ghost done: seq<nat>)
      requires current in procs && child in procs && current in st1.procs && child in st1.procs
      requires St() == SharePages(st1, current, child, done)
      modifies this`procs, this`count
      ensures current in procs && child in procs
      ensures St() == SharePages(st1, current, child, done + AreaPages(vma))
    {
      hide SharePages, SharePage, PageRange;
      var startPageVa := vma.start / PAGE * PAGE;
      var endPageVa := (vma.end + PAGE - 1) / PAGE * PAGE;
      ghost var n, pages := 0, done;
      NoPages(done, StartPage(vma));
      var pageVa := startPageVa;
      while pageVa < endPageVa
        invariant pageVa == (StartPage(vma) + n) * PAGE && (n > 0 ==> StartPage(vma) + n <= EndPage(vma))
        invariant current in procs && child in procs
        invariant pages == done + PageRange(StartPage(vma), n) && St() == SharePages(st1, current, child, pages)
        decreases endPageVa - pageVa
      {
        ShareAppend(st1, current, child, pages, pageVa / PAGE);
        OneMorePage(done, StartPage(vma), n);
        ShareOnePage(child, pageVa / PAGE);
        pageVa := pageVa + PAGE;
        n, pages := n + 1, pages + [StartPage(vma) + n];
      }
      AreaPagesAre(vma, n);
    }

    /** do_fork, once the child's page table holds no user entry: copy the areas, then visit every page of every area. */
    method DoFork(child: nat)
      requires current in procs
      modifies this`procs, this`count
      ensures St() == Fork(old(St()), child)
    {
      hide SharePages;
      var vmas := procs[current].vmas;
      procs := procs[child := Proc(vmas, map[], 0)];
      ghost var st1 := St();
      var i := 0;
      ShareNone(st1, current, child);
      while i < |vmas|
        invariant 0 <= i <= |vmas| && current in procs && child in procs
        invariant St() == SharePages(st1, current, child, PagesOf(vmas[..i]))
      {
        ShareArea(child, vmas[i], st1, PagesOf(vmas[..i]));
        PagesOfNext(vmas, i);
        i := i + 1;
      }
      assert vmas[..|vmas|] == vmas;
    }

    /** do_page_fault. `frame` is the page that alloc_page returns; `contents` is what the file, or the frame's
        former use, leaves in a page that is mapped for the first time. */
    method DoPageFault(badVaddr: nat, scause: Cause, frame: nat, contents: Page)
      requires current in procs
      modifies this`procs, this`count, this`mem
      ensures St() == Fault(old(St()), badVaddr, scause, frame, contents)
    {
      var vma := AreaAt(procs[current].vmas, badVaddr);
      if vma == None {
        return;
      }
      var flags := vma.value.flags;
      if scause == Fetch && !flags.exec {
        return;
      }
      if scause == LoadFault && !flags.read {
        return;
      }
      if scause == StoreFault && !flags.write {
        return;
      }
      count := count[frame := 1];
      var vpn := badVaddr / PAGE;
      if vpn !in procs[current].pt {
        mem := mem[frame := contents];
        procs := SetPte(procs, current, vpn, Pte(frame, UserPerm(flags)));
      } else {
        var pte := procs[current].pt[vpn];
        var pa := pte.ppn;
        if scause == StoreFault && pte.perm.s && pa in count {
          var refCnt := count[pa];
          if refCnt >= 2 {
            mem := mem[frame := PageAt(mem, pa)];
            DerefPage(pa);
            procs := SetPte(procs, current, vpn, Pte(frame, UserPerm(flags)));
          } else if refCnt == 1 {
            pte := pte.(perm := pte.perm.(s := false));
            if flags.write {
              pte := pte.(perm := pte.perm.(w := true));
            }
            procs := SetPte(procs, current, vpn, pte);
          }
        }
      }
    }

    /** remove_mapping over user pages lo .. lo + n. */
    method RemovePages(lo: nat, n: nat)
      requires current in procs
      modifies this`procs, this`count
      ensures current in procs && St() == DropPages(old(St()), current, PageRange(lo, n))
    {
      hide DropPages, PageRange;
      var v := lo;
      ghost var pages: seq<nat> := [];
      DropNone(St(), current, lo);
      while v < lo + n
        invariant lo <= v <= lo + n && current in procs
        invariant pages == PageRange(lo, v - lo) && St() == DropPages(old(St()), current, pages)
      {
        DropAppend(old(St()), current, pages, v);
        OneMorePage([], lo, v - lo);
        assert [] + PageRange(lo, v - lo + 1) == PageRange(lo, v - lo + 1) && [] + pages == pages;
        pages := pages + [v];
        if v in procs[current].pt {
          DerefPage(procs[current].pt[v].ppn);
          procs := ClearPte(procs, current, v);
        }
        v := v + 1;
      }
    }

    /** remove_mapping over the pages of one area. */
    method UnmapArea(vma: Vma)
      requires current in procs && vma.start < vma.end
      modifies this`procs, this`count
      ensures current in procs && St() == DropPages(old(St()), current, AreaPages(vma))
    {
      hide DropPages;
      RemovePages(vma.start / PAGE, (vma.end - 1) / PAGE - vma.start / PAGE + 1);
    }

    /** The loop by which do_execve and do_exit give up all of a process's memory: unmap each area, then unlink it. */
    method UnmapAllAreas()
      requires current in procs && AreasNonEmpty(procs[current].vmas)
      modifies this`procs, this`count
      ensures St() == UnmapAll(old(St()))
    {
      hide DropPages, PagesOf, AreaPages, WithAreas;
      ghost var vs, st0, i := procs[current].vmas, St(), 0;
      NothingUnmapped(st0, current);
      while procs[current].vmas != []
        invariant 0 <= i <= |vs| && current in procs && procs[current].vmas == vs[i..]
        invariant St() == WithAreas(DropPages(st0, current, PagesOf(vs[..i])), current, vs[i..], st0.procs[current].spare + i)
        decreases |vs| - i
      {
        var vma := procs[current].vmas[0];
        UnmapArea(vma);
        UnmappedOneMore(st0, current, vs, i, st0.procs[current].spare + i);
        AreasAgain(DropPages(st0, current, PagesOf(vs[..i + 1])), current, vs[i..], st0.procs[current].spare + i, vs[i + 1..]);
        procs := SetAreas(procs, current, procs[current].vmas[1..], procs[current].spare + 1);
        i := i + 1;
      }
      AllUnmapped(st0, i);
    }
  }
}
