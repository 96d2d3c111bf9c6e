/** Every step keeps the invariant, conserves references, and does to what the processes see exactly
    what the eager-copy model does. */
module CowSteps {
  import opened Options
  import opened Sv39
  import opened VmaList
  import opened SlotCounts
  import opened CowState
  import opened CowEntries
  import opened CowPages

  // ----- fork

  lemma SharePageIs(st: State, parent: nat, child: nat, v: nat)
    requires parent in st.procs && child in st.procs && parent != child && v in st.procs[parent].pt
    ensures SharePage(st, parent, child, v) ==
      AddShared(Mark(st, parent, v, Shared(st.procs[parent].pt[v].perm)), parent, child, v)
  {
  }

  /** The same pages in the same frames; only permissions may differ. */
  ghost predicate SameFrames(a: Proc, b: Proc) {
    a.vmas == b.vmas && a.pt.Keys == b.pt.Keys && forall v <- a.pt :: a.pt[v].ppn == b.pt[v].ppn
  }

  /** The child has exactly those of the parent's pages that are listed, in the parent's frames. */
  ghost predicate HasPages(child: Proc, parent: Proc, pages: seq<nat>) {
    && child.vmas == parent.vmas
    && (forall v: nat :: v in child.pt <==> v in pages && v in parent.pt)
    && forall v <- child.pt :: v in parent.pt && child.pt[v].ppn == parent.pt[v].ppn
  }

  /** What the page loop of a fork has done after visiting `pages`: nobody's view changed but the child's. */
  ghost predicate Forked(st: State, st': State, parent: nat, child: nat, pages: seq<nat>)
    requires parent in st.procs
  {
    && st'.procs.Keys == st.procs.Keys && st'.mem == st.mem && st'.cur == st.cur
    && (forall q <- st.procs :: q != child ==> SameFrames(st'.procs[q], st.procs[q]))
    && child in st'.procs && HasPages(st'.procs[child], st.procs[parent], pages)
  }

  lemma SeenFrames(a: Proc, b: Proc, mem: map<nat, Page>)
    requires SameFrames(a, b)
    ensures Seen(a, mem) == Seen(b, mem)
  {
  }

  /** One page of fork: at most one entry appears, in the child, for the parent's frame. */
  ghost predicate PageShared(st: State, st': State, parent: nat, child: nat, v: nat)
    requires parent in st.procs && child in st.procs
  {
    && st'.procs.Keys == st.procs.Keys && st'.mem == st.mem && st'.cur == st.cur
    && (forall q <- st.procs :: q != child ==> SameFrames(st'.procs[q], st.procs[q]))
    && st'.procs[child].vmas == st.procs[child].vmas
    && st'.procs[child].pt.Keys == st.procs[child].pt.Keys + (if v in st.procs[parent].pt then {v} else {})
    && forall u <- st'.procs[child].pt :: st'.procs[child].pt[u].ppn ==
         if u in st.procs[child].pt then st.procs[child].pt[u].ppn else if u in st.procs[parent].pt then st.procs[parent].pt[u].ppn else 0
  }

  lemma SharePageShared(st: State, parent: nat, child: nat, v: nat)
    requires parent in st.procs && child in st.procs && parent != child && v !in st.procs[child].pt
    ensures PageShared(st, SharePage(st, parent, child, v), parent, child, v)
  {
  }

  lemma SharedFits(st: State, p: nat, v: nat)
    requires Inv(st) && p in st.procs && v in st.procs[p].pt
    ensures EntryOk(st.procs[p].vmas, v, Pte(st.procs[p].pt[v].ppn, Shared(st.procs[p].pt[v].perm)))
  {
    hide FrameOk, Unshared, Mappers;
    assert ProcOk(st.procs[p]);
  }

  lemma SharePageStep(st: State, parent: nat, child: nat, v: nat)
    requires Inv(st) && parent in st.procs && child in st.procs && parent != child
    requires st.procs[child].vmas == st.procs[parent].vmas && v !in st.procs[child].pt
    ensures var st' := SharePage(st, parent, child, v);
      Inv(st') && SlackKept(st, st') && PageShared(st, st', parent, child, v)
  {
    hide Inv, Slack, SameFrames;
    SharePageShared(st, parent, child, v);
    if v in st.procs[parent].pt {
      var perm := Shared(st.procs[parent].pt[v].perm);
      SharePageIs(st, parent, child, v);
      SharedFits(st, parent, v);
      MarkInv(st, parent, v, perm);
      AddSharedInv(Mark(st, parent, v, perm), parent, child, v);
    }
  }

  lemma ForkedOneMore(st: State, mid: State, st': State, parent: nat, child: nat, init: seq<nat>, v: nat)
    requires parent in st.procs && child in st.procs && parent != child && v !in init
    requires Forked(st, mid, parent, child, init) && PageShared(mid, st', parent, child, v)
    ensures Forked(st, st', parent, child, init + [v])
  {
    assert SameFrames(mid.procs[parent], st.procs[parent]);
    forall q | q in st.procs && q != child ensures SameFrames(st'.procs[q], st.procs[q]) {
      assert SameFrames(mid.procs[q], st.procs[q]) && SameFrames(st'.procs[q], mid.procs[q]);
    }
  }

  lemma {:induction false} SharePagesStep(st: State, parent: nat, child: nat, pages: seq<nat>)
    requires Inv(st) && parent in st.procs && child in st.procs && parent != child
    requires st.procs[child] == Proc(st.procs[parent].vmas, map[], 0) && NoDuplicates(pages)
    ensures var st' := SharePages(st, parent, child, pages);
      Inv(st') && SlackKept(st, st') && Forked(st, st', parent, child, pages)
  {
    hide Inv, Slack, PageShared;
    if pages != [] {
      var init, v := pages[..|pages| - 1], pages[|pages| - 1];
      SharePagesStep(st, parent, child, init);
      var mid := SharePages(st, parent, child, init);
      assert v !in init;
      SharePageStep(mid, parent, child, v);
      ForkedOneMore(st, mid, SharePage(mid, parent, child, v), parent, child, init, v);
      assert pages == init + [v];
    }
  }

  /** Before its page loop, fork adds an empty child. */
  lemma NewChildInv(st: State, child: nat, vs: seq<Vma>)
    requires Inv(st) && child !in st.procs && AreasOk(vs) && InUser(vs) && |vs| <= NR_VMA_SLOTS
    ensures var st1 := st.(procs := st.procs[child := Proc(vs, map[], 0)]); Inv(st1) && SlackKept(st, st1)
  {
    hide Mappers;
    var st1 := st.(procs := st.procs[child := Proc(vs, map[], 0)]);
    forall g: nat ensures FrameOk(st1, g) && (g in st.count ==> Slack(st1, g) == Slack(st, g)) {
      MappersNewProc(st.procs, child, vs, g);
      assert FrameOk(st, g);
    }
    forall q, u | q in st1.procs && u in st1.procs[q].pt ensures Unshared(st1.procs, q, u) {
      MappersNewProc(st.procs, child, vs, st1.procs[q].pt[u].ppn);
      assert Unshared(st.procs, q, u);
    }
  }

  lemma CurOk(st: State)
    requires Inv(st)
    ensures st.cur in st.procs && ProcOk(st.procs[st.cur])
  {
  }

  /** All resident pages lie in areas, so the loop over the areas' pages reaches every one. */
  lemma AllPagesShared(parent: Proc, child: Proc)
    requires ProcOk(parent) && HasPages(child, parent, PagesOf(parent.vmas))
    ensures SameFrames(child, parent)
  {
    forall v | v in parent.pt ensures v in child.pt {
      assert EntryOk(parent.vmas, v, parent.pt[v]);
      PagesOfMeaning(parent.vmas, v);
    }
  }

  lemma ForkViews(st: State, st': State, child: nat)
    requires st.cur in st.procs && child !in st.procs && st'.procs.Keys == st.procs.Keys + {child} && st'.cur == st.cur && st'.mem == st.mem
    requires forall q <- st.procs :: SameFrames(st'.procs[q], st.procs[q])
    requires SameFrames(st'.procs[child], st.procs[st.cur])
    ensures ViewOf(st') == ViewOf(st).(procs := ViewOf(st).procs[child := ViewOf(st).procs[st.cur]])
  {
    hide SameFrames, Seen;
    forall q | q in st.procs ensures Seen(st'.procs[q], st.mem) == Seen(st.procs[q], st.mem) {
      SeenFrames(st'.procs[q], st.procs[q], st.mem);
    }
    SeenFrames(st'.procs[child], st.procs[st.cur], st.mem);
  }

  /** Fork keeps the invariant, conserves references, and gives the child the parent's view. */
  lemma ForkStep(st: State, child: nat)
    requires Inv(st) && child !in st.procs
    ensures Inv(Fork(st, child)) && SlackKept(st, Fork(st, child))
    ensures ViewOf(Fork(st, child)) == ViewOf(st).(procs := ViewOf(st).procs[child := ViewOf(st).procs[st.cur]])
  {
    hide Inv, Slack, EntryOk, AreasOk, InUser, HasPages, SameFrames, Seen, SharePages, PagesOf, NoDuplicates, ViewOf;
    CurOk(st);
    var proc := st.procs[st.cur];
    NewChildInv(st, child, proc.vmas);
    PagesOfDistinct(proc.vmas);
    var st1 := st.(procs := st.procs[child := Proc(proc.vmas, map[], 0)]);
    SharePagesStep(st1, st.cur, child, PagesOf(proc.vmas));
    var st' := Fork(st, child);
    AllPagesShared(proc, st'.procs[child]);
    ForkViews(st, st', child);
  }

  // ----- page fault

  /** The faulting process's own mapping is read only where it is readable, and a freed frame cannot be the copy's target. */
  lemma CopyFault(st: State, va: nat, frame: nat, contents: Page)
    requires Inv(st) && frame in st.count && st.count[frame] == 0
    requires var proc := st.procs[st.cur];
      && va / PAGE in proc.pt && AreaAt(proc.vmas, va).Some? && AreaAt(proc.vmas, va).value.flags.write
      && proc.pt[va / PAGE].perm.s && proc.pt[va / PAGE].ppn in st.count && st.count[proc.pt[va / PAGE].ppn] >= 2
    ensures var proc, v := st.procs[st.cur], va / PAGE;
      var dropped := DropPage(st, st.cur, v);
      Fault(st, va, StoreFault, frame, contents) ==
        AddFresh(dropped, st.cur, v, frame, PageAt(st.mem, proc.pt[v].ppn), UserPerm(AreaAt(proc.vmas, va).value.flags))
  {
    hide Inv;
    CurOk(st);
    var proc, v := st.procs[st.cur], va / PAGE;
    var f := proc.pt[v].ppn;
    assert Deref(st.count[frame := 1], f) == Deref(st.count, f)[frame := 1];
    var e := Pte(frame, UserPerm(AreaAt(proc.vmas, va).value.flags));
    assert (proc.pt - {v})[v := e] == proc.pt[v := e];
    assert SetPte(ClearPte(st.procs, st.cur, v), st.cur, v, e) == SetPte(st.procs, st.cur, v, e);
  }

  lemma SeenShape(proc: Proc, mem: map<nat, Page>)
    ensures Seen(proc, mem).vmas == proc.vmas && Seen(proc, mem).pages.Keys == proc.pt.Keys
  {
  }

  lemma FreshView(st: State, v: nat, frame: nat, contents: Page, perm: Perm)
    requires Inv(st) && st.cur in st.procs && v !in st.procs[st.cur].pt && frame in st.count && st.count[frame] == 0
    ensures ViewOf(AddFresh(st, st.cur, v, frame, contents, perm)) ==
      ViewOf(st).(procs := ViewOf(st).procs[st.cur := Owner(st.procs[st.cur].vmas, Seen(st.procs[st.cur], st.mem).pages[v := contents])])
  {
    hide Inv, Seen;
    forall q | q in st.procs
      ensures ViewOf(AddFresh(st, st.cur, v, frame, contents, perm)).procs[q] ==
        if q == st.cur then Owner(st.procs[st.cur].vmas, Seen(st.procs[st.cur], st.mem).pages[v := contents]) else ViewOf(st).procs[q]
    {
      AddFreshSeen(st, st.cur, v, frame, contents, perm, q);
    }
  }

  /** A fault for a page that has no entry yet. */
  lemma DemandFaultStep(st: State, va: nat, c: Cause, frame: nat, contents: Page)
    requires Inv(st) && frame in st.count && st.count[frame] == 0 && |contents| == PAGE
    requires AreaAt(st.procs[st.cur].vmas, va).Some? && Allowed(AreaAt(st.procs[st.cur].vmas, va).value.flags, c)
    requires va / PAGE !in st.procs[st.cur].pt
    ensures var st' := Fault(st, va, c, frame, contents);
      Inv(st') && SlackKeptBut(st, st', frame) && ViewOf(st') == EagerApply(ViewOf(st), DoFault(va, c, frame, contents))
  {
    hide Inv, Slack, Seen, AreaAt, PageArea, AreasOk;
    CurOk(st);
    var proc, v := st.procs[st.cur], va / PAGE;
    var perm := UserPerm(AreaAt(proc.vmas, va).value.flags);
    AreaOfPage(proc.vmas, va);
    assert Fault(st, va, c, frame, contents) == AddFresh(st, st.cur, v, frame, contents, perm);
    AddFreshInv(st, st.cur, v, frame, contents, perm);
    FreshView(st, v, frame, contents, perm);
    SeenShape(proc, st.mem);
  }

  lemma DropThenRestore(st: State, v: nat)
    requires st.cur in st.procs && v in st.procs[st.cur].pt
    ensures var dropped := DropPage(st, st.cur, v);
      ViewOf(dropped).(procs := ViewOf(dropped).procs[st.cur :=
        Owner(dropped.procs[st.cur].vmas, Seen(dropped.procs[st.cur], dropped.mem).pages[v := PageAt(st.mem, st.procs[st.cur].pt[v].ppn)])])
      == ViewOf(st)
  {
    var dropped := DropPage(st, st.cur, v);
    var page := PageAt(st.mem, st.procs[st.cur].pt[v].ppn);
    assert Seen(dropped.procs[st.cur], dropped.mem).pages[v := page] == Seen(st.procs[st.cur], st.mem).pages;
  }

  /** A store to a shared page that others still map: the process gets its own copy, and nobody's view changes. */
  lemma CopyFaultStep(st: State, va: nat, frame: nat, contents: Page)
    requires Inv(st) && frame in st.count && st.count[frame] == 0
    requires var proc := st.procs[st.cur];
      && va / PAGE in proc.pt && AreaAt(proc.vmas, va).Some? && AreaAt(proc.vmas, va).value.flags.write
      && proc.pt[va / PAGE].perm.s && proc.pt[va / PAGE].ppn in st.count && st.count[proc.pt[va / PAGE].ppn] >= 2
    ensures var st' := Fault(st, va, StoreFault, frame, contents);
      Inv(st') && SlackKeptBut(st, st', frame) && ViewOf(st') == ViewOf(st)
  {
    hide Inv, Slack, Seen, AreaAt, PageArea, AreasOk, Fault;
    CurOk(st);
    var proc, v := st.procs[st.cur], va / PAGE;
    var page := PageAt(st.mem, proc.pt[v].ppn);
    var perm := UserPerm(AreaAt(proc.vmas, va).value.flags);
    CopyFault(st, va, frame, contents);
    AreaOfPage(proc.vmas, va);
    MappedFrame(st, st.cur, v);
    DropPageInv(st, st.cur, v);
    var dropped := DropPage(st, st.cur, v);
    AddFreshInv(dropped, st.cur, v, frame, page, perm);
    FreshView(dropped, v, frame, page, perm);
    DropThenRestore(st, v);
  }

  lemma UnsharedPerm(p: Perm, f: Flags)
    requires PermFits(p, f) && p.s && f.write
    ensures p.(s := false, w := true) == UserPerm(f) && PermFits(UserPerm(f), f)
  {
  }

  lemma MarkView(st: State, p: nat, v: nat, perm: Perm)
    requires p in st.procs && v in st.procs[p].pt
    ensures ViewOf(Mark(st, p, v, perm)) == ViewOf(st)
  {
    hide Seen;
    forall q | q in st.procs ensures Seen(Mark(st, p, v, perm).procs[q], st.mem) == Seen(st.procs[q], st.mem) {
      MarkSeen(st, p, v, perm, q);
    }
  }

  /** A store to a page marked shared whose other mappings are gone: the process takes it over. */
  lemma TakeOverStep(st: State, va: nat, frame: nat, contents: Page)
    requires Inv(st)
    requires var proc := st.procs[st.cur];
      && va / PAGE in proc.pt && AreaAt(proc.vmas, va).Some? && AreaAt(proc.vmas, va).value.flags.write
      && proc.pt[va / PAGE].perm.s && proc.pt[va / PAGE].ppn in st.count && st.count[proc.pt[va / PAGE].ppn] == 1
    ensures var proc, v := st.procs[st.cur], va / PAGE;
      var st' := Mark(st, st.cur, v, proc.pt[v].perm.(s := false, w := true));
      Inv(st') && SlackKept(st, st') && ViewOf(st') == ViewOf(st)
      && st'.procs[st.cur].pt[v].perm == UserPerm(AreaAt(proc.vmas, va).value.flags)
  {
    hide Inv, Slack, SlackKept, AreaAt, PageArea, AreasOk, Seen, PermFits, UserPerm, Shared, Mappers;
    CurOk(st);
    var proc, v := st.procs[st.cur], va / PAGE;
    AreaOfPage(proc.vmas, va);
    assert EntryOk(proc.vmas, v, proc.pt[v]);
    SoleMapper(st, st.cur, v);
    var perm := proc.pt[v].perm.(s := false, w := true);
    UnsharedPerm(proc.pt[v].perm, AreaAt(proc.vmas, va).value.flags);
    MarkInv(st, st.cur, v, perm);
    MarkView(st, st.cur, v, perm);
  }

  /** Handing out a frame that ends up unused changes only that frame's count. */
  lemma LeakInv(st: State, frame: nat)
    requires Inv(st) && frame in st.count && st.count[frame] == 0
    ensures var st' := st.(count := st.count[frame := 1]); Inv(st') && SlackKeptBut(st, st', frame) && ViewOf(st') == ViewOf(st)
  {
    hide Mappers, ProcOk, Unshared;
    UncountedIsUnmapped(st, frame);
    var st' := st.(count := st.count[frame := 1]);
    forall g: nat ensures FrameOk(st', g) && (g in st.count && g != frame ==> Slack(st', g) == Slack(st, g)) {
      assert FrameOk(st, g);
    }
  }
}
