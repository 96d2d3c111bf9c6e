/** Copy-on-write refines eager copying, over every run; and what follows for sharing counts,
    writability and page faults. */
module CowRefinement {
  import opened Options
  import opened Sv39
  import opened VmaList
  import opened SlotCounts
  import opened CowState
  import opened CowEntries
  import opened CowPages
  import opened CowSteps

  /** What a step keeps: the invariant, and every frame's unaccounted references but those of a page handed out. */
  ghost predicate Kept(st: State, step: Step, st': State) {
    Inv(st') && if step.DoFault? then SlackKeptBut(st, st', step.frame) else SlackKept(st, st')
  }

  // ----- the single steps

  lemma ViewShape(st: State)
    ensures ViewOf(st).cur == st.cur && ViewOf(st).procs.Keys == st.procs.Keys
    ensures forall p <- st.procs ::
      ViewOf(st).procs[p].vmas == st.procs[p].vmas && ViewOf(st).procs[p].pages.Keys == st.procs[p].pt.Keys
    ensures forall p <- st.procs, v <- st.procs[p].pt :: ViewOf(st).procs[p].pages[v] == PageAt(st.mem, st.procs[p].pt[v].ppn)
  {
  }

  lemma TakeOverFault(st: State, va: nat, frame: nat, contents: Page)
    requires Inv(st) && frame in st.count && st.count[frame] == 0
    requires var proc := st.procs[st.cur];
      && va / PAGE in proc.pt && AreaAt(proc.vmas, va).Some? && AreaAt(proc.vmas, va).value.flags.write
      && proc.pt[va / PAGE].perm.s && proc.pt[va / PAGE].ppn in st.count && st.count[proc.pt[va / PAGE].ppn] == 1
    ensures var st' := Fault(st, va, StoreFault, frame, contents);
      && Inv(st') && SlackKeptBut(st, st', frame) && ViewOf(st') == ViewOf(st)
      && st'.procs[st.cur].pt[va / PAGE].perm == UserPerm(AreaAt(st.procs[st.cur].vmas, va).value.flags)
  {
    hide Inv, Slack, AreaAt, Seen, ViewOf, Mappers, UserPerm;
    CurOk(st);
    var proc, v := st.procs[st.cur], va / PAGE;
    TakeOverStep(st, va, frame, contents);
    var st1 := Mark(st, st.cur, v, proc.pt[v].perm.(s := false, w := true));
    LeakInv(st1, frame);
    MappedFrame(st, st.cur, v);
    assert Fault(st, va, StoreFault, frame, contents) == st1.(count := st1.count[frame := 1]);
  }

  lemma FaultStep(st: State, va: nat, c: Cause, frame: nat, contents: Page)
    requires Inv(st) && Enabled(st, DoFault(va, c, frame, contents))
    ensures Kept(st, DoFault(va, c, frame, contents), Fault(st, va, c, frame, contents))
    ensures ViewOf(Fault(st, va, c, frame, contents)) == EagerApply(ViewOf(st), DoFault(va, c, frame, contents))
  {
    hide Inv, Slack, AreaAt, Seen, ViewOf, PageAt;
    var proc, v := st.procs[st.cur], va / PAGE;
    ViewShape(st);
    LeakInv(st, frame);
    if AreaAt(proc.vmas, va).Some? && Allowed(AreaAt(proc.vmas, va).value.flags, c) {
      if v !in proc.pt {
        DemandFaultStep(st, va, c, frame, contents);
      } else {
        MappedFrame(st, st.cur, v);
        var f := proc.pt[v].ppn;
        if c == StoreFault && proc.pt[v].perm.s {
          if st.count[f] >= 2 {
            CopyFaultStep(st, va, frame, contents);
          } else {
            TakeOverFault(st, va, frame, contents);
          }
        }
      }
    }
  }

  lemma StoreInv(st: State, f: nat, page: Page)
    requires Inv(st) && f in st.mem && |page| == PAGE
    ensures var st' := st.(mem := st.mem[f := page]); Inv(st') && SlackKept(st, st')
  {
    hide Mappers, ProcOk, Unshared;
    var st' := st.(mem := st.mem[f := page]);
    forall g: nat ensures FrameOk(st', g) { assert FrameOk(st, g); }
  }

  /** A write through an exclusive mapping is seen by nobody else. */
  lemma StoreView(st: State, p: nat, v: nat, page: Page)
    requires p in st.procs && v in st.procs[p].pt && Mappers(st.procs, st.procs[p].pt[v].ppn) == {(p, v)}
    ensures var st' := st.(mem := st.mem[st.procs[p].pt[v].ppn := page]);
      ViewOf(st') == ViewOf(st).(procs := ViewOf(st).procs[p :=
        Owner(st.procs[p].vmas, Seen(st.procs[p], st.mem).pages[v := page])])
  {
    var f := st.procs[p].pt[v].ppn;
    var st' := st.(mem := st.mem[f := page]);
    forall q, u | q in st.procs && u in st.procs[q].pt && (q, u) != (p, v) ensures st.procs[q].pt[u].ppn != f {
      MapperIff(st.procs, f, q, u);
    }
    assert Seen(st'.procs[p], st'.mem).pages == Seen(st.procs[p], st.mem).pages[v := page];
    forall q | q in st.procs && q != p ensures Seen(st'.procs[q], st'.mem) == Seen(st.procs[q], st.mem) {
      assert Seen(st'.procs[q], st'.mem).pages == Seen(st.procs[q], st.mem).pages;
    }
  }

  /** A writable user entry is the only one for its frame, and it grants nothing that its area lacks. */
  lemma WritableIsExclusive(st: State, p: nat, v: nat)
    requires Inv(st) && p in st.procs && v in st.procs[p].pt
    ensures var e := st.procs[p].pt[v];
      && (e.perm.w ==> Mappers(st.procs, e.ppn) == {(p, v)})
      && (|Mappers(st.procs, e.ppn)| >= 2 ==> e.perm.s && !e.perm.w)
      && PageArea(st.procs[p].vmas, v).Some?
      && var flags := PageArea(st.procs[p].vmas, v).value.flags;
         (e.perm.r ==> flags.read) && (e.perm.w ==> flags.write) && (e.perm.x ==> flags.exec)
  {
    hide Mappers, FrameOk;
    assert ProcOk(st.procs[p]);
    assert EntryOk(st.procs[p].vmas, v, st.procs[p].pt[v]);
    assert Unshared(st.procs, p, v);
  }

  lemma StoreStep(st: State, va: nat, byte: nat)
    requires Inv(st) && Enabled(st, DoStore(va, byte))
    ensures var st' := Apply(st, DoStore(va, byte));
      Kept(st, DoStore(va, byte), st') && EagerEnabled(ViewOf(st), DoStore(va, byte))
      && ViewOf(st') == EagerApply(ViewOf(st), DoStore(va, byte))
  {
    hide Slack, AreaAt, Mappers;
    var p, v := st.cur, va / PAGE;
    var f := st.procs[p].pt[v].ppn;
    WritableIsExclusive(st, p, v);
    MappedFrame(st, p, v);
    assert EntryOk(st.procs[p].vmas, v, st.procs[p].pt[v]);
    var st' := Apply(st, DoStore(va, byte));
    StoreInv(st, f, SetByte(PageAt(st.mem, f), va % PAGE, byte));
    StoreView(st, p, v, SetByte(PageAt(st.mem, f), va % PAGE, byte));
  }

  /** A store changes one byte of one page of one process, so a load of that address then gives the byte stored, and
      a load of any other address what it gave before. */
  lemma StoreThenLoad(st: State, va: nat, byte: nat)
    requires Inv(st) && Enabled(st, DoStore(va, byte))
    ensures var before, after := ViewOf(st).procs, ViewOf(Apply(st, DoStore(va, byte))).procs;
      && after.Keys == before.Keys && st.cur in before && va / PAGE in before[st.cur].pages
      && (forall q <- before :: after[q].vmas == before[q].vmas && after[q].pages.Keys == before[q].pages.Keys)
      && (forall q <- before, v <- before[q].pages :: (q, v) != (st.cur, va / PAGE) ==> after[q].pages[v] == before[q].pages[v])
      && |after[st.cur].pages[va / PAGE]| == PAGE == |before[st.cur].pages[va / PAGE]|
      && after[st.cur].pages[va / PAGE][va % PAGE] == byte
      && forall i: nat | i < PAGE && i != va % PAGE ::
           after[st.cur].pages[va / PAGE][i] == before[st.cur].pages[va / PAGE][i]
  {
    hide Inv, Apply, Slack, Seen, PageAt;
    StoreStep(st, va, byte);
    ViewShape(st);
  }

  lemma VmasInv(st: State, p: nat, vs: seq<Vma>, spare: nat)
    requires Inv(st) && p in st.procs && ProcOk(Proc(vs, st.procs[p].pt, spare))
    ensures var st' := st.(procs := SetAreas(st.procs, p, vs, spare)); Inv(st') && SlackKept(st, st')
  {
    hide Mappers, ProcOk, AreasOk;
    var st' := st.(procs := SetAreas(st.procs, p, vs, spare));
    forall g: nat ensures FrameOk(st', g) && (g in st.count ==> Slack(st', g) == Slack(st, g)) {
      MappersVmas(st.procs, p, vs, spare, g);
      assert FrameOk(st, g);
    }
    forall q, u | q in st'.procs && u in st'.procs[q].pt ensures Unshared(st'.procs, q, u) {
      MappersVmas(st.procs, p, vs, spare, st'.procs[q].pt[u].ppn);
      assert Unshared(st.procs, q, u);
    }
    forall q | q in st'.procs ensures ProcOk(st'.procs[q]) { assert ProcOk(st.procs[q]); }
  }

  lemma MmapStep(st: State, area: Vma)
    requires Inv(st) && Enabled(st, DoMmap(area))
    ensures var st' := Apply(st, DoMmap(area));
      Kept(st, DoMmap(area), st') && ViewOf(st') == EagerApply(ViewOf(st), DoMmap(area))
  {
    hide Inv, Slack, Insert, AreasOk, PageArea, Mappers;
    CurOk(st);
    var proc := st.procs[st.cur];
    InsertPages(proc.vmas, area);
    forall v | v in proc.pt ensures EntryOk(Insert(proc.vmas, area), v, proc.pt[v]) {
      InsertPageArea(proc.vmas, area, v);
    }
    MapKeepsArena(|proc.vmas|, proc.spare);
    InsertInUser(proc.vmas, area);
    VmasInv(st, st.cur, Insert(proc.vmas, area), AfterMap(|proc.vmas|, proc.spare));
  }

  // ----- unmapping

  /** After dropping `pages`, those entries are gone and nothing else changed for anyone. */
  ghost predicate Dropped(st: State, st': State, p: nat, pages: seq<nat>)
    requires p in st.procs
  {
    && st'.mem == st.mem && st'.cur == st.cur && st'.procs.Keys == st.procs.Keys
    && (forall q <- st.procs :: q != p ==> st'.procs[q] == st.procs[q])
    && st'.procs[p].vmas == st.procs[p].vmas && st'.procs[p].spare == st.procs[p].spare
    && (forall v: nat :: v in st'.procs[p].pt <==> v in st.procs[p].pt && v !in pages)
    && forall v <- st'.procs[p].pt :: v in st.procs[p].pt && st'.procs[p].pt[v] == st.procs[p].pt[v]
  }

  lemma {:induction false} DropPagesStep(st: State, p: nat, pages: seq<nat>)
    requires Inv(st) && p in st.procs
    ensures var st' := DropPages(st, p, pages); Inv(st') && SlackKept(st, st') && Dropped(st, st', p, pages)
  {
    hide Inv, Slack;
    if pages != [] {
      var init, v := pages[..|pages| - 1], pages[|pages| - 1];
      DropPagesStep(st, p, init);
      DropPageInv(DropPages(st, p, init), p, v);
      assert pages == init + [v];
    }
  }

  lemma AreasSorted(vs: seq<Vma>)
    requires AreasOk(vs)
    ensures Sorted(vs)
  {
  }

  lemma RangePages(va: nat, len: nat)
    requires va % PAGE == 0 && len % PAGE == 0
    ensures (va + len) % PAGE == 0 && (va + len) / PAGE == va / PAGE + len / PAGE
    ensures forall v: nat :: v in PageRange(va / PAGE, len / PAGE) <==> InPages(v, va, len)
  {
    forall v: nat ensures v in PageRange(va / PAGE, len / PAGE) <==> InPages(v, va, len) {
      InRange(va / PAGE, len / PAGE, v);
    }
  }

  lemma MunmapView(st: State, st1: State, va: nat, len: nat, spare: nat)
    requires st.cur in st.procs && Dropped(st, st1, st.cur, PageRange(va / PAGE, len / PAGE)) && len > 0
    requires MunmapOk(st.procs[st.cur].vmas, va, len)
    requires forall v: nat :: v in PageRange(va / PAGE, len / PAGE) <==> InPages(v, va, len)
    ensures ViewOf(st1.(procs := SetAreas(st1.procs, st.cur, Subtract(st.procs[st.cur].vmas, va, va + len), spare))) ==
      EagerApply(ViewOf(st), DoMunmap(va, len))
  {
    hide Subtract, MunmapOk, InPages, PageRange, PageAt;
    var vs := Subtract(st.procs[st.cur].vmas, va, va + len);
    var st' := st1.(procs := SetAreas(st1.procs, st.cur, vs, spare));
    assert ViewOf(st').procs[st.cur].pages ==
      map v | v in ViewOf(st).procs[st.cur].pages && !InPages(v, va, len) :: ViewOf(st).procs[st.cur].pages[v];
  }

  /** Areas and the entries that are left fit each other. */
  lemma MunmapLeaves(proc: Proc, pt: map<nat, Pte>, va: nat, len: nat)
    requires ProcOk(proc) && len > 0 && MunmapOk(proc.vmas, va, len) && SlotsSuffice(proc.vmas, proc.spare, va, va + len)
    requires forall v <- pt :: v in proc.pt && pt[v] == proc.pt[v] && v !in PageRange(va / PAGE, len / PAGE)
    ensures ProcOk(Proc(Subtract(proc.vmas, va, va + len), pt, AfterMunmap(proc.vmas, proc.spare, va, va + len)))
  {
    hide AreasOk, Subtract, RangeCovered, PageArea, AfterMunmap, SlotsSuffice, PermFits, PageRange;
    var vs := Subtract(proc.vmas, va, va + len);
    RangePages(va, len);
    SubtractPages(proc.vmas, va, va + len);
    forall v | v in pt ensures EntryOk(vs, v, pt[v]) {
      assert EntryOk(proc.vmas, v, proc.pt[v]);
      SubtractPageArea(proc.vmas, va, va + len, v);
    }
    AreasSorted(proc.vmas);
    MunmapKeepsArena(proc.vmas, proc.spare, va, va + len);
    SubtractInUser(proc.vmas, va, va + len);
  }

  lemma MunmapStep(st: State, va: nat, len: nat)
    requires Inv(st) && st.cur in st.procs && len > 0 && MunmapOk(st.procs[st.cur].vmas, va, len)
    requires SlotsSuffice(st.procs[st.cur].vmas, st.procs[st.cur].spare, va, va + len)
    ensures var st' := Munmap(st, va, len);
      Inv(st') && SlackKept(st, st') && ViewOf(st') == EagerApply(ViewOf(st), DoMunmap(va, len))
  {
    hide Inv, Slack, ProcOk, Mappers, Subtract, PageAt, AfterMunmap, SlotsSuffice, PageRange, DropPages, ViewOf,
         EagerApply, RangeCovered;
    CurOk(st);
    var proc, pages := st.procs[st.cur], PageRange(va / PAGE, len / PAGE);
    var vs, spare := Subtract(proc.vmas, va, va + len), AfterMunmap(proc.vmas, proc.spare, va, va + len);
    DropPagesStep(st, st.cur, pages);
    var st1 := DropPages(st, st.cur, pages);
    MunmapLeaves(proc, st1.procs[st.cur].pt, va, len);
    VmasInv(st1, st.cur, vs, spare);
    RangePages(va, len);
    MunmapView(st, st1, va, len, spare);
  }

  lemma NoAreasOk()
    ensures AreasOk([])
  {
  }

  lemma NothingStays(proc: Proc, v: nat)
    requires ProcOk(proc) && v in proc.pt
    ensures v in PagesOf(proc.vmas)
  {
    hide PagesOf;
    assert EntryOk(proc.vmas, v, proc.pt[v]);
    PagesOfMeaning(proc.vmas, v);
  }

  lemma EmptyOk(spare: nat)
    requires spare <= NR_VMA_SLOTS
    ensures ProcOk(Proc([], map[], spare))
  {
    NoAreasOk();
  }

  /** However a run goes, a process never has more areas and free slots together than the arena has. */
  lemma ArenaBound(st: State, p: nat)
    requires Inv(st) && p in st.procs
    ensures |st.procs[p].vmas| + st.procs[p].spare <= NR_VMA_SLOTS
  {
    hide Mappers, FrameOk, Unshared;
    assert ProcOk(st.procs[p]);
  }

  lemma UnmapAllView(st: State, st1: State, spare: nat)
    requires st.cur in st.procs && st1.cur == st.cur && st1.mem == st.mem && st1.procs.Keys == st.procs.Keys
    requires st1.procs[st.cur].pt == map[] && forall q <- st.procs :: q != st.cur ==> st1.procs[q] == st.procs[q]
    ensures ViewOf(st1.(procs := SetAreas(st1.procs, st.cur, [], spare))) == EagerApply(ViewOf(st), DoUnmapAll)
  {
    hide PageAt;
  }

  lemma UnmapAllStep(st: State)
    requires Inv(st) && st.cur in st.procs
    ensures Inv(UnmapAll(st)) && SlackKept(st, UnmapAll(st))
    ensures ViewOf(UnmapAll(st)) == EagerApply(ViewOf(st), DoUnmapAll)
  {
    hide Inv, Slack, ProcOk, Mappers, PagesOf, DropPages, ViewOf, EagerApply;
    CurOk(st);
    var proc := st.procs[st.cur];
    DropPagesStep(st, st.cur, PagesOf(proc.vmas));
    var st1 := DropPages(st, st.cur, PagesOf(proc.vmas));
    forall v | v in st1.procs[st.cur].pt ensures false { NothingStays(proc, v); }
    assert st1.procs[st.cur].pt == map[];
    ArenaBound(st, st.cur);
    EmptyOk(proc.spare + |proc.vmas|);
    VmasInv(st1, st.cur, [], proc.spare + |proc.vmas|);
    UnmapAllView(st, st1, proc.spare + |proc.vmas|);
  }

  // ----- refinement

  lemma SlackSame(st: State)
    ensures SlackKept(st, st)
  {
  }

  lemma SwitchInv(st: State, pid: nat)
    requires Inv(st) && pid in st.procs
    ensures Inv(st.(cur := pid)) && SlackKept(st, st.(cur := pid))
  {
    hide Mappers, ProcOk, Unshared;
    forall g: nat ensures FrameOk(st.(cur := pid), g) { assert FrameOk(st, g); }
  }

  /** One step: the invariant and the reference balance are kept, and the processes' views make the eager step. */
  lemma StepRefines(st: State, step: Step)
    requires Inv(st) && Enabled(st, step)
    ensures Kept(st, step, Apply(st, step))
    ensures EagerEnabled(ViewOf(st), step) && ViewOf(Apply(st, step)) == EagerApply(ViewOf(st), step)
  {
    hide Inv, Fork, Fault, Munmap, UnmapAll, Slack, Seen, MunmapOk, Insert;
    ViewShape(st);
    match step
    case DoFork(child) =>
      ForkStep(st, child);
    case DoFault(va, c, frame, contents) =>
      FaultStep(st, va, c, frame, contents);
    case DoLoad(va, byte) =>
      SlackSame(st);
    case DoStore(va, byte) =>
      StoreStep(st, va, byte);
    case DoMmap(area) =>
      MmapStep(st, area);
    case DoMunmap(va, len) =>
      SlackSame(st);
      if MunmapOk(st.procs[st.cur].vmas, va, len) { MunmapStep(st, va, len); }
    case DoUnmapAll =>
      UnmapAllStep(st);
    case DoSwitch(pid) =>
      SwitchInv(st, pid);
  }

  // ----- runs

  ghost predicate Executable(st: State, steps: seq<Step>)
    decreases |steps|
  {
    steps == [] || (Enabled(st, steps[0]) && Executable(Apply(st, steps[0]), steps[1..]))
  }

  ghost function Run(st: State, steps: seq<Step>): State
    requires Executable(st, steps)
    decreases |steps|
  {
    if steps == [] then st else Run(Apply(st, steps[0]), steps[1..])
  }

  ghost predicate EagerExecutable(e: View, steps: seq<Step>)
    decreases |steps|
  {
    steps == [] || (EagerEnabled(e, steps[0]) && EagerExecutable(EagerApply(e, steps[0]), steps[1..]))
  }

  ghost function EagerRun(e: View, steps: seq<Step>): View
    requires EagerExecutable(e, steps)
    decreases |steps|
  {
    if steps == [] then e else EagerRun(EagerApply(e, steps[0]), steps[1..])
  }

  /** Over every run, including the byte that each load returns, what every process sees through its own
      page table is what it sees in the model where fork copies everything at once. */
  lemma {:induction false} RunRefines(st: State, steps: seq<Step>)
    requires Inv(st) && Executable(st, steps)
    ensures Inv(Run(st, steps))
    ensures EagerExecutable(ViewOf(st), steps) && ViewOf(Run(st, steps)) == EagerRun(ViewOf(st), steps)
    decreases |steps|
  {
    hide Inv, Enabled, Apply, EagerEnabled, EagerApply, ViewOf, SlackKept, SlackKeptBut;
    if steps != [] {
      StepRefines(st, steps[0]);
      RunRefines(Apply(st, steps[0]), steps[1..]);
    }
  }

  /** Processes without memory satisfy the invariant, whatever the frames hold and however kernel pages are counted. */
  lemma StartOk(st: State)
    requires st.cur in st.procs && st.mem.Keys == st.count.Keys && forall f <- st.mem :: |st.mem[f]| == PAGE
    requires forall p <- st.procs :: st.procs[p] == Proc([], map[], 0)
    ensures Inv(st)
  {
    forall f: nat ensures Mappers(st.procs, f) == {} { }
  }

  // ----- consequences

  /** However a run goes, user entries stay in the user's half, where no two page numbers share an entry and no
      kernel entry lies. */
  lemma EntryInUser(st: State, p: nat, v: nat)
    requires Inv(st) && p in st.procs && v in st.procs[p].pt
    ensures v < USER_PAGES
  {
    hide Mappers, FrameOk, Unshared, AreasOk;
    assert ProcOk(st.procs[p]);
    assert EntryOk(st.procs[p].vmas, v, st.procs[p].pt[v]);
    PageAreaInUser(st.procs[p].vmas, v);
  }

  /** The sharing count is exact. */
  lemma SharingCountIsExact(st: State, p: nat, v: nat)
    requires Inv(st) && p in st.procs && v in st.procs[p].pt
    ensures st.procs[p].pt[v].ppn in st.count
    ensures st.count[st.procs[p].pt[v].ppn] == |Mappers(st.procs, st.procs[p].pt[v].ppn)|
  {
    MappedFrame(st, p, v);
  }

  /** A frame that user entries map goes back to the allocator in a step exactly when that step removes its last mapping. */
  lemma FreedWithLastMapping(st: State, step: Step, f: nat)
    requires Inv(st) && Enabled(st, step) && Mappers(st.procs, f) != {}
    ensures f in st.count && f in Apply(st, step).count
    ensures Apply(st, step).count[f] == |Mappers(Apply(st, step).procs, f)|
    ensures Apply(st, step).count[f] == 0 <==> Mappers(Apply(st, step).procs, f) == {}
  {
    hide Apply, Mappers;
    StepRefines(st, step);
    assert FrameOk(st, f);
    if step.DoFault? {
      UncountedIsUnmapped(st, step.frame);
    }
    assert Slack(Apply(st, step), f) == Slack(st, f);
  }

  lemma InvFrame(st: State, f: nat)
    requires Inv(st)
    ensures FrameOk(st, f)
  {
  }

  /** The handler takes its page before it looks whether it needs one. It puts the page to use exactly if the entry is
      missing, or the access is a store to a page with more sharers; else the page stays counted with no entry for it. */
  lemma FaultWastesPageIff(st: State, va: nat, c: Cause, frame: nat, contents: Page)
    requires Inv(st) && Enabled(st, DoFault(va, c, frame, contents))
    requires AreaAt(st.procs[st.cur].vmas, va).Some? && Allowed(AreaAt(st.procs[st.cur].vmas, va).value.flags, c)
    ensures var st', pt := Fault(st, va, c, frame, contents), st.procs[st.cur].pt;
      && frame in st'.count && st'.count[frame] == 1
      && (Mappers(st'.procs, frame) == {} <==>
          va / PAGE in pt && !(c == StoreFault && pt[va / PAGE].perm.s && |Mappers(st.procs, pt[va / PAGE].ppn)| >= 2))
  {
    hide Inv, AreaAt, Mappers;
    var proc, v := st.procs[st.cur], va / PAGE;
    var st' := Fault(st, va, c, frame, contents);
    UncountedIsUnmapped(st, frame);
    if v in proc.pt { MappedFrame(st, st.cur, v); }
    MapperIff(st'.procs, frame, st.cur, v);
    if v in proc.pt && st'.procs[st.cur].pt[v].ppn != frame { MappersRemark(st.procs, st.cur, v, st'.procs[st.cur].pt[v], frame); }
  }

  /** Such a page is lost: whatever steps follow, it stays counted and unmapped, and never goes back to the allocator. */
  lemma {:induction false} LostForever(st: State, steps: seq<Step>, f: nat)
    requires Inv(st) && Executable(st, steps) && f in st.count && st.count[f] > 0 && Mappers(st.procs, f) == {}
    ensures var st' := Run(st, steps); f in st'.count && st'.count[f] == st.count[f] && Mappers(st'.procs, f) == {}
    decreases |steps|
  {
    hide Inv, Apply, Mappers;
    if steps != [] {
      var st' := Apply(st, steps[0]);
      StepRefines(st, steps[0]);
      assert Slack(st', f) == Slack(st, f);
      assert FrameOk(st', f) by { InvFrame(st', f); }
      LostForever(st', steps[1..], f);
    }
  }

  lemma UserAddress(vs: seq<Vma>, va: nat)
    requires InUser(vs) && AreaAt(vs, va).Some?
    ensures va < USER_END && Canonical(va)
  {
    var k := AreaAtFound(vs, va);
  }

  lemma FaultServes(st: State, va: nat, c: Cause, frame: nat, contents: Page)
    requires Inv(st) && Enabled(st, DoFault(va, c, frame, contents))
    requires AreaAt(st.procs[st.cur].vmas, va).Some?
    requires var flags := AreaAt(st.procs[st.cur].vmas, va).value.flags; Allowed(flags, c) && (flags.write ==> flags.read)
    ensures var st' := Fault(st, va, c, frame, contents);
      && st'.cur == st.cur && st.cur in st'.procs && va / PAGE in st'.procs[st.cur].pt
      && Accessible(va, st'.procs[st.cur].pt[va / PAGE].perm, c)
      && (va / PAGE !in st.procs[st.cur].pt ==> PageAt(st'.mem, st'.procs[st.cur].pt[va / PAGE].ppn) == contents)
  {
    hide Inv, AreaAt, Mappers, AreasOk, PageArea, Deref;
    CurOk(st);
    var proc, v := st.procs[st.cur], va / PAGE;
    AreaOfPage(proc.vmas, va);
    UserAddress(proc.vmas, va);
    if v in proc.pt {
      assert EntryOk(proc.vmas, v, proc.pt[v]);
      MappedFrame(st, st.cur, v);
    }
  }

  /** One fault is enough: if the area allows the access, then after one run of the handler the retried access
      succeeds, and a page that was resident still holds the same bytes. */
  lemma OneFaultIsEnough(st: State, va: nat, c: Cause, frame: nat, contents: Page)
    requires Inv(st) && Enabled(st, DoFault(va, c, frame, contents))
    requires AreaAt(st.procs[st.cur].vmas, va).Some?
    requires var flags := AreaAt(st.procs[st.cur].vmas, va).value.flags; Allowed(flags, c) && (flags.write ==> flags.read)
    ensures var st' := Fault(st, va, c, frame, contents);
      && st'.cur == st.cur && st.cur in st'.procs && va / PAGE in st'.procs[st.cur].pt
      && Accessible(va, st'.procs[st.cur].pt[va / PAGE].perm, c)
      && (va / PAGE in st.procs[st.cur].pt ==> ViewOf(st') == ViewOf(st))
      && (va / PAGE !in st.procs[st.cur].pt ==> PageAt(st'.mem, st'.procs[st.cur].pt[va / PAGE].ppn) == contents)
  {
    hide Inv, Slack, AreaAt, Accessible;
    FaultStep(st, va, c, frame, contents);
    ViewShape(st);
    CurOk(st);
    FaultServes(st, va, c, frame, contents);
  }

  /** A genuine fault at an address that its area allows: the entry is missing or does not grant the access. A
      resident entry carries its area's permissions (so it is none of the kernel's), a shared one is counted and can
      be read for copying. */
  ghost predicate FaultReady(st: State, va: nat, c: Cause, frame: nat) {
    && st.cur in st.procs && AreaAt(st.procs[st.cur].vmas, va).Some?
    && var flags, pt := AreaAt(st.procs[st.cur].vmas, va).value.flags, st.procs[st.cur].pt;
    && Allowed(flags, c)
    && (va / PAGE in pt ==>
          var e := pt[va / PAGE];
          && PermFits(e.perm, flags) && !Accessible(va, e.perm, c)
          && (e.perm.s ==> e.ppn in st.count && st.count[e.ppn] >= 1 && e.ppn != frame && (c == StoreFault ==> e.perm.r)))
  }

  /** One run of the handler is enough exactly when the address is canonical and write permission implies read
      permission: at any other address the hardware refuses every access, and an area writable but not readable
      gives entries that the architecture reserves. */
  lemma FaultSufficesIff(st: State, va: nat, c: Cause, frame: nat, contents: Page)
    requires FaultReady(st, va, c, frame)
    ensures var st' := Fault(st, va, c, frame, contents);
      && st.cur in st'.procs && va / PAGE in st'.procs[st.cur].pt
      && (Accessible(va, st'.procs[st.cur].pt[va / PAGE].perm, c) <==>
          Canonical(va) &&
          (AreaAt(st.procs[st.cur].vmas, va).value.flags.write ==> AreaAt(st.procs[st.cur].vmas, va).value.flags.read))
  {
    hide AreaAt, Deref, Canonical;
  }

  /** In every reachable state a genuine fault is of that kind, and its address is canonical. */
  lemma FaultsAreReady(st: State, va: nat, c: Cause, frame: nat, contents: Page)
    requires Inv(st) && Enabled(st, DoFault(va, c, frame, contents))
    requires AreaAt(st.procs[st.cur].vmas, va).Some? && Allowed(AreaAt(st.procs[st.cur].vmas, va).value.flags, c)
    requires va / PAGE in st.procs[st.cur].pt ==> !Accessible(va, st.procs[st.cur].pt[va / PAGE].perm, c)
    ensures FaultReady(st, va, c, frame) && Canonical(va)
  {
    hide Inv, AreaAt, Mappers, AreasOk, PageArea, Accessible;
    CurOk(st);
    var proc, v := st.procs[st.cur], va / PAGE;
    AreaOfPage(proc.vmas, va);
    UserAddress(proc.vmas, va);
    if v in proc.pt {
      assert EntryOk(proc.vmas, v, proc.pt[v]);
      MappedFrame(st, st.cur, v);
    }
  }

  /** The handler can read the shared page that it is to copy exactly when the area is readable; otherwise its own load
      faults at an address where loads are refused, and serving that fault changes nothing. */
  lemma CopyReadableIff(st: State, va: nat, frame: nat, contents: Page)
    requires Inv(st) && AreaAt(st.procs[st.cur].vmas, va).Some?
    requires va / PAGE in st.procs[st.cur].pt && st.procs[st.cur].pt[va / PAGE].perm.s
    ensures CopyReadable(st, va) <==> AreaAt(st.procs[st.cur].vmas, va).value.flags.read
    ensures !CopyReadable(st, va) ==> Fault(st, va, LoadFault, frame, contents) == st
  {
    hide Inv, AreaAt, AreasOk, PageArea;
    CurOk(st);
    var proc := st.procs[st.cur];
    AreaOfPage(proc.vmas, va);
    assert EntryOk(proc.vmas, va / PAGE, proc.pt[va / PAGE]);
  }

  /** An area that starts where the user's half ends, which mmap accepts: a load there faults, is served, and
      faults again, although the area can be read and written. */
  lemma NonCanonicalAreaFaultsAgain()
    ensures var area := Vma(USER_END, USER_END + PAGE, Flags(true, true, false, true), 0, 0, 0);
      var page: Page := seq(PAGE, _ => 0);
      var st := State(map[1 := Proc([area], map[], 55)], map[7 := 0, 8 := 0], map[7 := page, 8 := page], 1);
      var st' := Fault(st, USER_END, LoadFault, 7, page);
      FaultReady(st, USER_END, LoadFault, 7) && FaultReady(st', USER_END, LoadFault, 8)
  {
    var area := Vma(USER_END, USER_END + PAGE, Flags(true, true, false, true), 0, 0, 0);
    assert AreaAt([area], USER_END) == Some(area);
  }

  /** A write-only area: the first store faults, is served, and faults again. */
  lemma WriteOnlyAreaFaultsAgain()
    ensures var area := Vma(0, PAGE, Flags(false, true, false, true), 0, 0, 0);
      var page: Page := seq(PAGE, _ => 0);
      var st := State(map[1 := Proc([area], map[], 55)], map[7 := 0], map[7 := page], 1);
      && Enabled(st, DoFault(0, StoreFault, 7, page))
      && Fault(st, 0, StoreFault, 7, page).procs == map[1 := Proc([area], map[0 := Pte(7, UserPerm(area.flags))], 55)]
      && !Accessible(0, UserPerm(area.flags), StoreFault)
  {
    var area := Vma(0, PAGE, Flags(false, true, false, true), 0, 0, 0);
    assert AreaAt([area], 0) == Some(area);
  }

  // ----- slots after fork

  lemma {:induction false} ShareKeepsAreas(st: State, parent: nat, child: nat, pages: seq<nat>)
    requires parent in st.procs && child in st.procs
    ensures SharePages(st, parent, child, pages).cur == st.cur
    ensures forall q <- st.procs :: var proc := SharePages(st, parent, child, pages).procs[q];
      proc.vmas == st.procs[q].vmas && proc.spare == st.procs[q].spare
  {
    if pages != [] { ShareKeepsAreas(st, parent, child, pages[..|pages| - 1]); }
  }

  /** A forked child's mmap does what it should exactly if the parent had no areas: with areas, it takes its slot
      from a free list that nobody has set up. */
  lemma ForkedChildMmapIff(st: State, child: nat, area: Vma)
    requires st.cur in st.procs && child !in st.procs && area.start < area.end <= USER_END
    ensures var st' := Fork(st, child).(cur := child);
      && child in st'.procs && st'.procs[child].spare == 0
      && (Enabled(st', DoMmap(area)) <==> st.procs[st.cur].vmas == [])
  {
    hide SharePages;
    var vs := st.procs[st.cur].vmas;
    ShareKeepsAreas(st.(procs := st.procs[child := Proc(vs, map[], 0)]), st.cur, child, PagesOf(vs));
  }

  /** The shortest such run: map, fork, switch to the child, map somewhere else. */
  lemma ForkThenMmap()
    ensures var flags := Flags(true, true, false, true);
      var a, b := Vma(0, PAGE, flags, 0, 0, 0), Vma(PAGE, 2 * PAGE, flags, 0, 0, 0);
      var start := State(map[1 := Proc([], map[], 0)], map[], map[], 1);
      && Inv(start) && Enabled(start, DoMmap(a))
      && var mapped := Apply(start, DoMmap(a));
      && Enabled(mapped, DoFork(2)) && Enabled(mapped, DoMmap(b))
      && var forked := Apply(mapped, DoFork(2));
      && Enabled(forked, DoSwitch(2)) && Enabled(forked, DoMmap(b))
      && !Enabled(Apply(forked, DoSwitch(2)), DoMmap(b))
  {
    hide SharePages;
    var flags := Flags(true, true, false, true);
    var a, b := Vma(0, PAGE, flags, 0, 0, 0), Vma(PAGE, 2 * PAGE, flags, 0, 0, 0);
    var start := State(map[1 := Proc([], map[], 0)], map[], map[], 1);
    StartOk(start);
    var mapped := Apply(start, DoMmap(a));
    assert Insert([], a) == [a];
    assert mapped.procs[1] == Proc([a], map[], NR_VMA_SLOTS - 1);
    assert EndPage(a) == 1 == StartPage(b) && PageDisjoint([a], b);
    ForkedChildMmapIff(mapped, 2, b);
    ShareKeepsAreas(mapped.(procs := mapped.procs[2 := Proc([a], map[], 0)]), 1, 2, PagesOf([a]));
    var forked := Apply(mapped, DoFork(2));
    assert forked == Fork(mapped, 2) && forked.cur == 1;
    assert Apply(forked, DoSwitch(2)) == forked.(cur := 2);
  }
}
