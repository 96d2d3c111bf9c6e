/** Processes sharing physical pages copy-on-write: do_fork's page loop (arch/riscv/kernel/proc.c),
    do_page_fault (arch/riscv/kernel/trap.c), user loads and stores, mmap, munmap, and the unmapping
    done by exec and exit, as steps on one state.

    A process's page table is the map from page number to valid leaf entry that the walk computes. */
module CowState {
  import opened Options
  import opened Words
  import opened Sv39
  import opened VmaList
  import opened SlotCounts

  type Page = seq<nat>  // 4096 bytes

  /** spare counts the slots that do_mmap can take from the descriptor's free list. */
  datatype Proc = Proc(vmas: seq<Vma>, pt: map<nat, Pte>, spare: nat)

  /** count is ref_cnt by frame; mem is the contents of each frame. */
  datatype State = State(procs: map<nat, Proc>, count: map<nat, nat>, mem: map<nat, Page>, cur: nat)

  datatype Cause = Fetch | LoadFault | StoreFault

  // ----- pages and areas

  /** End of the user's half of the address space, and of its pages. */
  const USER_END: nat := 0x40_0000_0000
  const USER_PAGES: nat := USER_END / PAGE

  const NR_TASKS: nat := 9

  /** Areas lie in the user's half. */
  ghost predicate InUser(vs: seq<Vma>) { forall k | 0 <= k < |vs| :: vs[k].end <= USER_END }

  function StartPage(w: Vma): nat { w.start / PAGE }

  /** PGROUNDUP(end) / PGSIZE. */
  function EndPage(w: Vma): nat { (w.end + PAGE - 1) / PAGE }

  predicate PageIn(w: Vma, v: nat) { StartPage(w) <= v < EndPage(w) }

  /** The area whose pages include v. */
  function PageArea(vs: seq<Vma>, v: nat): Option<Vma> {
    if vs == [] then None else if PageIn(vs[0], v) then Some(vs[0]) else PageArea(vs[1..], v)
  }

  ghost predicate PagesInOrder(vs: seq<Vma>) { forall k, l | 0 <= k < l < |vs| :: EndPage(vs[k]) <= StartPage(vs[l]) }

  /** Sorted areas, no two of which share a page. */
  ghost predicate AreasOk(vs: seq<Vma>) { Sorted(vs) && PagesInOrder(vs) }

  // ----- permissions

  /** vma_flags_to_perm. */
  function UserPerm(f: Flags): Perm {
    Perm(true, f.read, f.write, f.exec, true, false, true, f.write, false, false)
  }

  /** fork's `|= S; &= ~W`. */
  function Shared(p: Perm): Perm { p.(s := true, w := false) }

  predicate Allowed(f: Flags, c: Cause) {
    match c
    case Fetch => f.exec
    case LoadFault => f.read
    case StoreFault => f.write
  }

  /** Sv39 accepts an address only if bits 63 to 39 equal bit 38 (RISC-V Privileged Architecture, section 4.4.1). */
  predicate Canonical(va: nat) { va < USER_END || WORD - USER_END <= va < WORD }

  /** The hardware check of a user access through a leaf entry (RISC-V Privileged Architecture, section 4.3.2). */
  predicate Accessible(va: nat, p: Perm, c: Cause) {
    && Canonical(va)
    && p.v && p.u && p.a && !(p.w && !p.r) && (p.r || p.x)
    && (match c
        case Fetch => p.x
        case LoadFault => p.r
        case StoreFault => p.w && p.d)
  }

  // ----- primitive updates

  function SetPte(procs: map<nat, Proc>, p: nat, v: nat, e: Pte): map<nat, Proc>
    requires p in procs
  {
    procs[p := procs[p].(pt := procs[p].pt[v := e])]
  }

  function ClearPte(procs: map<nat, Proc>, p: nat, v: nat): map<nat, Proc>
    requires p in procs
  {
    procs[p := procs[p].(pt := procs[p].pt - {v})]
  }

  function SetAreas(procs: map<nat, Proc>, p: nat, vs: seq<Vma>, spare: nat): map<nat, Proc>
    requires p in procs
  {
    procs[p := procs[p].(vmas := vs, spare := spare)]
  }

  function Ref(count: map<nat, nat>, f: nat): map<nat, nat> {
    if f in count && count[f] > 0 then count[f := count[f] + 1] else count
  }

  function Deref(count: map<nat, nat>, f: nat): map<nat, nat> {
    if f in count && count[f] > 0 then count[f := count[f] - 1] else count
  }

  function SetByte(p: Page, i: nat, b: nat): Page
    requires i < |p|
  {
    p[i := b]
  }

  function PageAt(mem: map<nat, Page>, f: nat): Page { if f in mem then mem[f] else [] }

  // ----- fork

  /** One iteration of do_fork's page loop: take a reference, mark the parent's entry shared, copy it to the child. */
  function SharePage(st: State, parent: nat, child: nat, v: nat): State
    requires parent in st.procs && child in st.procs
  {
    if v !in st.procs[parent].pt then st
    else
      var e := st.procs[parent].pt[v];
      var e' := Pte(e.ppn, Shared(e.perm));
      var marked := SetPte(st.procs, parent, v, e');
      st.(procs := SetPte(marked, child, v, e'), count := Ref(st.count, e.ppn))
  }

  function SharePages(st: State, parent: nat, child: nat, pages: seq<nat>): (r: State)
    requires parent in st.procs && child in st.procs
    ensures r.procs.Keys == st.procs.Keys
  {
    if pages == [] then st
    else
      var before := SharePages(st, parent, child, pages[..|pages| - 1]);
      SharePage(before, parent, child, pages[|pages| - 1])
  }

  function PageRange(lo: nat, n: nat): seq<nat> { seq(n, k requires 0 <= k < n => lo + k) }

  /** The pages of the areas, in the order in which fork, exec and exit visit them. */
  function PagesOf(vs: seq<Vma>): seq<nat> {
    if vs == [] then []
    else
      var w := vs[|vs| - 1];
      PagesOf(vs[..|vs| - 1]) + (if StartPage(w) < EndPage(w) then PageRange(StartPage(w), EndPage(w) - StartPage(w)) else [])
  }

  /** copy_mm leaves the child's free list unset, so the child has no slot to hand. */
  function Fork(st: State, child: nat): State
    requires st.cur in st.procs
  {
    var vs := st.procs[st.cur].vmas;
    SharePages(st.(procs := st.procs[child := Proc(vs, map[], 0)]), st.cur, child, PagesOf(vs))
  }

  // ----- page fault

  /** do_page_fault for the current process; `frame` is the page alloc_page returns, `contents` what a new page is filled with. */
  function Fault(st: State, va: nat, c: Cause, frame: nat, contents: Page): State
    requires st.cur in st.procs
  {
    var proc := st.procs[st.cur];
    match AreaAt(proc.vmas, va)
    case None => st
    case Some(area) =>
      if !Allowed(area.flags, c) then st
      else
        var v := va / PAGE;
        var st1 := st.(count := st.count[frame := 1]);
        if v !in proc.pt then
          st1.(mem := st.mem[frame := contents], procs := SetPte(st.procs, st.cur, v, Pte(frame, UserPerm(area.flags))))
        else
          var e := proc.pt[v];
          if c != StoreFault || !e.perm.s || e.ppn !in st1.count then st1
          else if st1.count[e.ppn] >= 2 then
            st1.(mem := st.mem[frame := PageAt(st.mem, e.ppn)], count := Deref(st1.count, e.ppn),
                 procs := SetPte(st.procs, st.cur, v, Pte(frame, UserPerm(area.flags))))
          else if st1.count[e.ppn] == 1 then
            st1.(procs := SetPte(st.procs, st.cur, v, Pte(e.ppn, e.perm.(s := false, w := e.perm.w || area.flags.write))))
          else st1
  }

  // ----- unmapping

  /** One iteration of remove_mapping. */
  function DropPage(st: State, p: nat, v: nat): State
    requires p in st.procs
  {
    if v !in st.procs[p].pt then st
    else st.(count := Deref(st.count, st.procs[p].pt[v].ppn), procs := ClearPte(st.procs, p, v))
  }

  function DropPages(st: State, p: nat, pages: seq<nat>): (r: State)
    requires p in st.procs
    ensures r.procs.Keys == st.procs.Keys
  {
    if pages == [] then st else DropPage(DropPages(st, p, pages[..|pages| - 1]), p, pages[|pages| - 1])
  }

  /** do_munmap's effect on areas and entries when its checks pass. */
  function Munmap(st: State, va: nat, len: nat): State
    requires st.cur in st.procs
  {
    var st1 := DropPages(st, st.cur, PageRange(va / PAGE, len / PAGE));
    var proc := st.procs[st.cur];
    st1.(procs := SetAreas(st1.procs, st.cur, Subtract(proc.vmas, va, va + len), AfterMunmap(proc.vmas, proc.spare, va, va + len)))
  }

  /** The unmap loops of do_execve and do_exit. */
  function UnmapAll(st: State): State
    requires st.cur in st.procs
  {
    var st1 := DropPages(st, st.cur, PagesOf(st.procs[st.cur].vmas));
    st1.(procs := SetAreas(st1.procs, st.cur, [], st.procs[st.cur].spare + |st.procs[st.cur].vmas|))
  }

  // ----- steps

  datatype Step =
    | DoFork(child: nat)
    | DoFault(va: nat, cause: Cause, frame: nat, contents: Page)
    | DoLoad(va: nat, byte: nat)
    | DoStore(va: nat, byte: nat)
    | DoMmap(area: Vma)
    | DoMunmap(va: nat, len: nat)
    | DoUnmapAll
    | DoSwitch(pid: nat)

  ghost predicate PageDisjoint(vs: seq<Vma>, w: Vma) {
    forall k | 0 <= k < |vs| :: EndPage(vs[k]) <= StartPage(w) || EndPage(w) <= StartPage(vs[k])
  }

  /** do_page_fault copies a shared page by reading it through the faulting process's own mapping. */
  predicate CopyReadable(st: State, va: nat)
    requires st.cur in st.procs
  {
    va / PAGE in st.procs[st.cur].pt ==> var p := st.procs[st.cur].pt[va / PAGE].perm; (p.s ==> p.r)
  }

  /** When a step is what the code then does. Loads and stores happen only where the entry allows them, and a
      load's byte is the one that the process sees. The code checks neither that fork finds a place in the task
      table, nor that mmap stays in the user's half, overlaps nothing and finds a slot, nor that munmap's end
      does not wrap and that it finds the slot it needs where it splits an area. */
  ghost predicate Enabled(st: State, step: Step) {
    st.cur in st.procs &&
    var proc := st.procs[st.cur];
    match step
    case DoFork(child) => child !in st.procs && child < NR_TASKS
    case DoFault(va, c, frame, contents) =>
      frame in st.count && st.count[frame] == 0 && |contents| == PAGE && (c == StoreFault ==> CopyReadable(st, va))
    case DoLoad(va, byte) =>
      && va / PAGE in proc.pt && Accessible(va, proc.pt[va / PAGE].perm, LoadFault)
      && |PageAt(st.mem, proc.pt[va / PAGE].ppn)| == PAGE
      && byte == PageAt(st.mem, proc.pt[va / PAGE].ppn)[va % PAGE]
    case DoStore(va, byte) => va / PAGE in proc.pt && Accessible(va, proc.pt[va / PAGE].perm, StoreFault)
    case DoMmap(area) =>
      area.start < area.end <= USER_END && PageDisjoint(proc.vmas, area) && SlotToTake(|proc.vmas|, proc.spare)
    case DoMunmap(va, len) =>
      len > 0 && va + len < WORD && (MunmapOk(proc.vmas, va, len) ==> SlotsSuffice(proc.vmas, proc.spare, va, va + len))
    case DoUnmapAll => true
    case DoSwitch(pid) => pid in st.procs
  }

  ghost function Apply(st: State, step: Step): State
    requires Enabled(st, step)
  {
    match step
    case DoFork(child) => Fork(st, child)
    case DoFault(va, c, frame, contents) => Fault(st, va, c, frame, contents)
    case DoLoad(_, _) => st
    case DoStore(va, byte) =>
      var f := st.procs[st.cur].pt[va / PAGE].ppn;
      if |PageAt(st.mem, f)| == PAGE then st.(mem := st.mem[f := SetByte(PageAt(st.mem, f), va % PAGE, byte)]) else st
    case DoMmap(area) =>
      var proc := st.procs[st.cur];
      st.(procs := SetAreas(st.procs, st.cur, Insert(proc.vmas, area), AfterMap(|proc.vmas|, proc.spare)))
    case DoMunmap(va, len) => if MunmapOk(st.procs[st.cur].vmas, va, len) then Munmap(st, va, len) else st
    case DoUnmapAll => UnmapAll(st)
    case DoSwitch(pid) => st.(cur := pid)
  }

  // ----- the invariant

  /** The user entries, as (process, page) pairs, that map frame f. */
  ghost function Mappers(procs: map<nat, Proc>, f: nat): set<(nat, nat)> {
    set p, v | p in procs && v in procs[p].pt && procs[p].pt[v].ppn == f :: (p, v)
  }

  /** References to f that no user entry accounts for. */
  ghost function Slack(st: State, f: nat): int
    requires f in st.count
  {
    st.count[f] - |Mappers(st.procs, f)|
  }

  /** An entry carries exactly its area's permissions, or those with S set and W clear. */
  predicate PermFits(p: Perm, f: Flags) { p == UserPerm(f) || p == Shared(UserPerm(f)) }

  ghost predicate EntryOk(vs: seq<Vma>, v: nat, e: Pte) {
    PageArea(vs, v).Some? && PermFits(e.perm, PageArea(vs, v).value.flags)
  }

  ghost predicate ProcOk(proc: Proc) {
    && AreasOk(proc.vmas) && InUser(proc.vmas) && |proc.vmas| + proc.spare <= NR_VMA_SLOTS
    && forall v <- proc.pt :: EntryOk(proc.vmas, v, proc.pt[v])
  }

  /** A frame that user entries map is counted exactly. */
  ghost predicate FrameOk(st: State, f: nat) {
    Mappers(st.procs, f) != {} ==> f in st.count && Slack(st, f) == 0
  }

  /** An entry without S is its frame's only one. */
  ghost predicate Unshared(procs: map<nat, Proc>, p: nat, v: nat)
    requires p in procs && v in procs[p].pt
  {
    !procs[p].pt[v].perm.s ==> Mappers(procs, procs[p].pt[v].ppn) == {(p, v)}
  }

  ghost predicate Inv(st: State) {
    && st.cur in st.procs
    && st.mem.Keys == st.count.Keys && (forall f <- st.mem :: |st.mem[f]| == PAGE)
    && (forall p <- st.procs :: ProcOk(st.procs[p]))
    && (forall f: nat :: FrameOk(st, f))
    && forall p, v | p in st.procs && v in st.procs[p].pt :: Unshared(st.procs, p, v)
  }

  // ----- what each process sees: the eager-copy model

  /** In the eager model a process owns its resident pages outright. */
  datatype Owner = Owner(vmas: seq<Vma>, pages: map<nat, Page>)

  datatype View = View(procs: map<nat, Owner>, cur: nat)

  ghost function Seen(proc: Proc, mem: map<nat, Page>): Owner {
    Owner(proc.vmas, map v | v in proc.pt :: PageAt(mem, proc.pt[v].ppn))
  }

  ghost function ViewOf(st: State): View {
    View(map p | p in st.procs :: Seen(st.procs[p], st.mem), st.cur)
  }

  /** The pages that munmap removes. */
  predicate InPages(v: nat, va: nat, len: nat) { va / PAGE <= v < va / PAGE + len / PAGE }

  ghost predicate EagerEnabled(e: View, step: Step) {
    e.cur in e.procs &&
    var proc := e.procs[e.cur];
    match step
    case DoFork(child) => child !in e.procs
    case DoFault(va, c, frame, contents) => |contents| == PAGE
    case DoLoad(va, byte) =>
      va / PAGE in proc.pages && |proc.pages[va / PAGE]| == PAGE && byte == proc.pages[va / PAGE][va % PAGE]
    case DoStore(va, byte) =>
      && va / PAGE in proc.pages && |proc.pages[va / PAGE]| == PAGE
      && PageArea(proc.vmas, va / PAGE).Some? && PageArea(proc.vmas, va / PAGE).value.flags.write
    case DoMmap(area) => area.start < area.end && PageDisjoint(proc.vmas, area)
    case DoMunmap(va, len) => len > 0
    case DoUnmapAll => true
    case DoSwitch(pid) => pid in e.procs
  }

  /** The eager model: fork copies every resident page, a store writes only the storing process's own copy. */
  ghost function EagerApply(e: View, step: Step): View
    requires EagerEnabled(e, step)
  {
    var proc := e.procs[e.cur];
    match step
    case DoFork(child) => e.(procs := e.procs[child := proc])
    case DoFault(va, c, frame, contents) =>
      if AreaAt(proc.vmas, va).Some? && Allowed(AreaAt(proc.vmas, va).value.flags, c) && va / PAGE !in proc.pages
      then e.(procs := e.procs[e.cur := proc.(pages := proc.pages[va / PAGE := contents])])
      else e
    case DoLoad(_, _) => e
    case DoStore(va, byte) =>
      e.(procs := e.procs[e.cur := proc.(pages := proc.pages[va / PAGE := SetByte(proc.pages[va / PAGE], va % PAGE, byte)])])
    case DoMmap(area) => e.(procs := e.procs[e.cur := proc.(vmas := Insert(proc.vmas, area))])
    case DoMunmap(va, len) =>
      if MunmapOk(proc.vmas, va, len)
      then e.(procs := e.procs[e.cur := Owner(Subtract(proc.vmas, va, va + len),
                                              map v | v in proc.pages && !InPages(v, va, len) :: proc.pages[v])])
      else e
    case DoUnmapAll => e.(procs := e.procs[e.cur := Owner([], map[])])
    case DoSwitch(pid) => e.(cur := pid)
  }
}
