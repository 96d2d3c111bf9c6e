/** do_page_fault, fork's page loop and do_munmap over the real structures: the descriptor's list of areas, the
    page-table trees and the page allocator (arch/riscv/kernel/trap.c, arch/riscv/kernel/proc.c). Each makes exactly
    the step of the flat state that those structures stand for. */
module TreeKernel {
  import opened Options
  import opened Words
  import opened Sv39
  import opened PageTree
  import opened PageTables
  import opened VmaList
  import opened SlotCounts
  import opened SlotList
  import opened MemoryAreas
  import opened CowState
  import opened CowEntries
  import opened CowPages
  import opened CowSteps
  import opened CowRefinement
  import opened CowKernel
  import opened UserMappings
  import opened UserAccess
  import BuddyTree

  ghost predicate Stands(vm: VirtualMemory, st: State, roots: map<nat, nat>)
    reads vm, vm.buddy, vm.buddy.bitmap, vm.buddy.refCnt
  {
    vm.Valid() && Agrees(st, roots, vm.base, vm.mem, vm.owner, vm.buddy.refCnt[..])
  }

  // ----- single operations

  lemma FrameCounted(st: State, roots: map<nat, nat>, base: nat, mem: Memory, owner: Owners, counts: seq<nat>, f: nat)
    requires Agrees(st, roots, base, mem, owner, counts) && base <= f < base + |counts| && f !in owner
    ensures f in st.count && st.count[f] == counts[f - base]
  {
    assert Counted(st, base + (f - base), counts[f - base]);
  }

  lemma RamFrame(vm: VirtualMemory, f: nat)
    requires vm.Valid() && vm.InRam(f)
    ensures vm.base <= f < vm.base + |vm.buddy.refCnt[..]| <= PPN_LIMIT
  {
    hide Forest, BuddyTree.Canonical, BuddyTree.LiveOk;
  }

  /** alloc_page. */
  method TakePage(vm: VirtualMemory, ghost st: State, ghost roots: map<nat, nat>) returns (ok: bool, f: nat)
    requires Stands(vm, st, roots)
    modifies vm.buddy.bitmap, vm.buddy.refCnt, vm.buddy`live
    ensures vm.Valid() && (!ok ==> vm.NoFreePage())
    ensures ok ==> Stands(vm, st.(count := st.count[f := 1]), roots) && f in st.count && st.count[f] == 0
    ensures ok ==> UserFrame(vm.base, vm.owner, vm.buddy.refCnt[..], f) && f < PPN_LIMIT
    ensures ok ==> vm.InRam(f) && old(vm.buddy.refCnt[f - vm.base]) == 0 && vm.buddy.refCnt[..] == old(vm.buddy.refCnt[..])[f - vm.base := 1]
  {
    hide Agrees, VirtualMemory.Valid;
    ghost var counts := vm.buddy.refCnt[..];
    ok, f := vm.AllocFrame();
    if ok {
      RamFrame(vm, f);
      FrameCounted(st, roots, vm.base, vm.mem, vm.owner, counts, f);
      AllocAgrees(st, roots, vm.base, vm.mem, vm.owner, counts, f - vm.base);
      assert vm.base + (f - vm.base) == f;
    }
  }

  lemma EntryIs(st: State, roots: map<nat, nat>, base: nat, mem: Memory, owner: Owners, counts: seq<nat>, p: nat, v: nat)
    requires Agrees(st, roots, base, mem, owner, counts) && p in st.procs && v < USER_PAGES
    ensures p in roots && IsRoot(owner, roots[p])
    ensures v in st.procs[p].pt <==> IsValid(Word(mem, roots[p], v))
    ensures v in st.procs[p].pt ==> st.procs[p].pt[v] == Decode(Word(mem, roots[p], v)) && UserFrame(base, owner, counts, st.procs[p].pt[v].ppn)
  {
  }

  lemma ZeroIsInvalid()
    ensures !IsValid(0)
  {
  }

  /** walk_page_table_pte and the validity check: the entry of page v, and where it is stored. */
  method FindEntry(vm: VirtualMemory, ghost st: State, ghost roots: map<nat, nat>, ghost p: nat, pgd: nat, v: nat)
    returns (valid: bool, leaf: nat, index: nat, pte: nat)
    requires Stands(vm, st, roots) && p in st.procs && pgd == roots[p] && v < USER_PAGES
    ensures valid <==> v in st.procs[p].pt
    ensures valid ==> IsValid(pte) && Unreserved(pte) && st.procs[p].pt[v] == Decode(pte) && index == I0(v)
    ensures valid ==> LeafOf(vm.mem, pgd, I2(v), I1(v)) == Some(leaf) && pte == Word(vm.mem, pgd, v)
    ensures valid ==> UserFrame(vm.base, vm.owner, vm.buddy.refCnt[..], GetPpn(pte))
  {
    hide Agrees, IsValid, GetPpn, Word, LeafOf, UserFrame, Forest, BuddyTree.Canonical, BuddyTree.LiveOk;
    EntryIs(st, roots, vm.base, vm.mem, vm.owner, vm.buddy.refCnt[..], p, v);
    valid, leaf, index := vm.WalkPageTablePte(pgd, v);
    pte := 0;
    if valid {
      pte := Entry(vm.mem, leaf, index);
      valid := IsValid(pte);
      if valid {
        ForestOf(vm.base, vm.buddy.refCnt[..], vm.mem, vm.owner);
        WordIsUnreserved(vm.mem, vm.owner, pgd, v);
      }
    } else {
      ZeroIsInvalid();
    }
  }

  lemma StoredFrames(base: nat, counts: seq<nat>, mem: Memory, owner: Owners, root: nat, v: nat, leaf: nat, w: nat)
    requires FramesOk(base, counts, mem, owner) && IsRoot(owner, root) && v < VPNS
    requires LeafOf(mem, root, I2(v), I1(v)) == Some(leaf) && (IsValid(w) ==> Unreserved(w))
    ensures leaf in mem && I0(v) < |mem[leaf]|
    ensures var mem' := Store(mem, leaf, I0(v), w);
      && FramesOk(base, counts, mem', owner) && LeafOf(mem', root, I2(v), I1(v)) == Some(leaf)
      && Word(mem', root, v) == w
  {
    VpnOfParts(v);
    StoreLeaf(mem, owner, root, I2(v), I1(v), I0(v), leaf, w);
    LeafIsOwned(mem, owner, root, I2(v), I1(v));
  }

  /** *pte_ptr = w. */
  method StoreEntry(vm: VirtualMemory, ghost st: State, ghost roots: map<nat, nat>, ghost p: nat, ghost v: nat, leaf: nat, index: nat, w: nat)
    requires Stands(vm, st, roots) && p in st.procs && v < USER_PAGES && index == I0(v)
    requires LeafOf(vm.mem, roots[p], I2(v), I1(v)) == Some(leaf) && IsValid(w) && Unreserved(w)
    requires UserFrame(vm.base, vm.owner, vm.buddy.refCnt[..], Decode(w).ppn)
    modifies vm`mem
    ensures Stands(vm, st.(procs := SetPte(st.procs, p, v, Decode(w))), roots)
    ensures LeafOf(vm.mem, roots[p], I2(v), I1(v)) == Some(leaf) && Word(vm.mem, roots[p], v) == w
  {
    hide Agrees, IsValid, Word, LeafOf, UserFrame, Forest, FramesOk, Decode, BuddyTree.Canonical, BuddyTree.LiveOk;
    EntryIs(st, roots, vm.base, vm.mem, vm.owner, vm.buddy.refCnt[..], p, v);
    ForestOf(vm.base, vm.buddy.refCnt[..], vm.mem, vm.owner);
    StoredFrames(vm.base, vm.buddy.refCnt[..], vm.mem, vm.owner, roots[p], v, leaf, w);
    StoreAgrees(st, roots, vm.base, vm.mem, vm.owner, vm.buddy.refCnt[..], p, v, leaf, w);
    vm.mem := Store(vm.mem, leaf, index, w);
  }

  lemma PageBounds(v: nat, f: nat)
    requires v < USER_PAGES && f < PPN_LIMIT
    ensures v * PAGE < USER_END && v * PAGE % PAGE == 0 && v * PAGE / PAGE == v && RangeFits(v * PAGE, PAGE)
    ensures f * PAGE < WORD && f * PAGE / PAGE == f
  {
    UserRange(v * PAGE, PAGE);
  }

  /** create_mapping of one user page. */
  method MapPage(vm: VirtualMemory, ghost st: State, ghost roots: map<nat, nat>, ghost p: nat, pgd: nat, v: nat, f: nat,
                 bits: nat, ghost perm: Perm)
    returns (ok: bool)
    requires Stands(vm, st, roots) && p in st.procs && pgd == roots[p] && v < USER_PAGES
    requires bits == PermBits(perm) && perm.v && perm.a && (perm.w ==> perm.d)
    requires UserFrame(vm.base, vm.owner, vm.buddy.refCnt[..], f) && f < PPN_LIMIT
    modifies vm`mem, vm`owner, vm.buddy.bitmap, vm.buddy.refCnt, vm.buddy`live
    ensures vm.Valid() && (!ok ==> vm.NoFreePage())
    ensures ok ==> Stands(vm, st.(procs := SetPte(st.procs, p, v, Pte(f, perm))), roots)
  {
    hide Agrees, UserFrame, Forest, FramesOk, RangeMapped, PermBits, BuddyTree.Canonical, BuddyTree.LiveOk;
    EntryIs(st, roots, vm.base, vm.mem, vm.owner, vm.buddy.refCnt[..], p, v);
    PermRoundTrip(perm, 0);
    PageBounds(v, f);
    ghost var mem, owner, counts := vm.mem, vm.owner, vm.buddy.refCnt[..];
    ok := vm.CreateMapping(pgd, v * PAGE, f * PAGE, PAGE, bits);
    if ok {
      MapAgrees(st, roots, vm.base, mem, owner, counts, p, v * PAGE, f * PAGE, perm, vm.mem, vm.owner, vm.buddy.refCnt[..]);
    }
  }

  lemma FramesRecounted(base: nat, counts: seq<nat>, mem: Memory, owner: Owners, k: nat, n: nat)
    requires FramesOk(base, counts, mem, owner) && k < |counts| && base + k !in owner
    ensures FramesOk(base, counts[k := n], mem, owner)
  {
  }

  /** ref_page on a user's page. */
  method AddRef(vm: VirtualMemory, ghost st: State, ghost roots: map<nat, nat>, f: nat)
    requires Stands(vm, st, roots) && UserFrame(vm.base, vm.owner, vm.buddy.refCnt[..], f)
    modifies vm.buddy.refCnt
    ensures Stands(vm, st.(count := Ref(st.count, f)), roots) && UserFrame(vm.base, vm.owner, vm.buddy.refCnt[..], f)
  {
    hide Agrees, FramesOk, BuddyTree.Canonical, BuddyTree.LiveOk;
    ghost var counts := vm.buddy.refCnt[..];
    assert vm.base + (f - vm.base) == f;
    RefAgrees(st, roots, vm.base, vm.mem, vm.owner, counts, f - vm.base);
    FramesRecounted(vm.base, counts, vm.mem, vm.owner, f - vm.base, counts[f - vm.base] + 1);
    var res := vm.buddy.RefPage(f - vm.base);
    assert vm.buddy.refCnt[..] == counts[f - vm.base := counts[f - vm.base] + 1];
  }

  /** deref_page on a page that keeps a reference. */
  method DropRef(vm: VirtualMemory, ghost st: State, ghost roots: map<nat, nat>, f: nat)
    requires Stands(vm, st, roots) && UserFrame(vm.base, vm.owner, vm.buddy.refCnt[..], f)
    requires vm.buddy.refCnt[f - vm.base] > 1
    modifies vm.buddy.bitmap, vm.buddy.refCnt, vm.buddy`live
    ensures Stands(vm, st.(count := Deref(st.count, f)), roots)
    ensures vm.buddy.refCnt[..] == old(vm.buddy.refCnt[..])[f - vm.base := old(vm.buddy.refCnt[f - vm.base]) - 1]
  {
    hide Agrees, FramesOk, BuddyTree.Canonical, BuddyTree.LiveOk;
    ghost var counts := vm.buddy.refCnt[..];
    assert vm.base + (f - vm.base) == f;
    DerefAgrees(st, roots, vm.base, vm.mem, vm.owner, counts, f - vm.base);
    FramesRecounted(vm.base, counts, vm.mem, vm.owner, f - vm.base, counts[f - vm.base] - 1);
    var res := vm.buddy.DerefPage(f - vm.base);
    assert vm.buddy.refCnt[..] == counts[f - vm.base := counts[f - vm.base] - 1];
  }

  // ----- the page fault handler

  lemma FoundArea(vs: seq<Vma>, k: nat, va: nat)
    requires Sorted(vs) && InUser(vs) && k < |vs| && Covers(vs[k], va)
    ensures AreaAt(vs, va) == Some(vs[k]) && va / PAGE < USER_PAGES
  {
    AreaAtIs(vs, k, va);
  }

  lemma ValidBit(pte: nat)
    ensures IsValid(pte) <==> PermOf(pte).v
  {
  }

  lemma UserPermIsValid(flags: Flags)
    ensures UserPerm(flags).v
  {
  }

  lemma FreshEntry(f: nat, flags: Flags)
    requires f < PPN_LIMIT
    ensures Unreserved(Encode(Pte(f, UserPerm(flags))))
    ensures IsValid(Encode(Pte(f, UserPerm(flags)))) && Decode(Encode(Pte(f, UserPerm(flags)))) == Pte(f, UserPerm(flags))
  {
    hide PermOf, GetPpn, IsValid, MakePte, PermBits, UserPerm;
    PermRoundTrip(UserPerm(flags), 0);
    PteRoundTrip(f, PermBits(UserPerm(flags)), 0);
    DecodeEncode(Pte(f, UserPerm(flags)));
    ValidBit(Encode(Pte(f, UserPerm(flags))));
    UserPermIsValid(flags);
  }

  /** `&= ~S`, then `|= W` where the area is writable. */
  function Unshare(pte: nat, flags: Flags): nat {
    var cleared := AndNot(pte, Pow2(S_BIT));
    if flags.write then Or(cleared, Pow2(W_BIT)) else cleared
  }

  lemma UnsharedWord(pte: nat, flags: Flags)
    requires IsValid(pte) && Unreserved(pte)
    ensures var e := Decode(pte);
      && Decode(Unshare(pte, flags)) == Pte(e.ppn, e.perm.(s := false, w := e.perm.w || flags.write))
      && IsValid(Unshare(pte, flags)) && Unreserved(Unshare(pte, flags))
  {
    hide Or, AndNot, Pow2, PermOf, GetPpn, IsValid;
    ValidBit(pte);
    ValidBit(Unshare(pte, flags));
    ClearBits(pte);
    SetBits(AndNot(pte, Pow2(S_BIT)));
    BitsStayLow(pte, S_BIT);
    BitsStayLow(AndNot(pte, Pow2(S_BIT)), W_BIT);
  }

  /** The handler's else branch: a store to a resident page. */
  method ServeShared(vm: VirtualMemory, ghost st: State, ghost roots: map<nat, nat>, ghost v: nat,
                     leaf: nat, index: nat, pte: nat, flags: Flags, newPage: nat)
    requires Stands(vm, st, roots) && st.cur in st.procs && v < USER_PAGES && index == I0(v) && newPage < PPN_LIMIT
    requires v in st.procs[st.cur].pt && st.procs[st.cur].pt[v] == Decode(pte) && IsValid(pte) && Unreserved(pte)
    requires LeafOf(vm.mem, roots[st.cur], I2(v), I1(v)) == Some(leaf)
    requires UserFrame(vm.base, vm.owner, vm.buddy.refCnt[..], GetPpn(pte)) && GetPpn(pte) in st.count && GetPpn(pte) != newPage
    requires UserFrame(vm.base, vm.owner, vm.buddy.refCnt[..], newPage)
    modifies vm`mem, vm.buddy.bitmap, vm.buddy.refCnt, vm.buddy`live
    ensures var f := GetPpn(pte);
      Stands(vm, if st.count[f] >= 2 then
                   st.(count := Deref(st.count, f), procs := SetPte(st.procs, st.cur, v, Pte(newPage, UserPerm(flags))))
                 else if st.count[f] == 1 then
                   st.(procs := SetPte(st.procs, st.cur, v, Pte(f, Decode(pte).perm.(s := false, w := Decode(pte).perm.w || flags.write))))
                 else st, roots)
  {
    hide Agrees, FramesOk, Forest, LeafOf, BuddyTree.Canonical, BuddyTree.LiveOk, PermOf, Word, IsValid, GetPpn,
         Unshare, MakePte, PermBits, UserPerm;
    var pa := GetPpn(pte);
    FrameCounted(st, roots, vm.base, vm.mem, vm.owner, vm.buddy.refCnt[..], pa);
    var refCnt := vm.buddy.refCnt[pa - vm.base];
    if refCnt >= 2 {
      DropRef(vm, st, roots, pa);
      FreshEntry(newPage, flags);
      StoreEntry(vm, st.(count := Deref(st.count, pa)), roots, st.cur, v, leaf, index, MakePte(newPage, PermBits(UserPerm(flags))));
    } else if refCnt == 1 {
      UnsharedWord(pte, flags);
      StoreEntry(vm, st, roots, st.cur, v, leaf, index, Unshare(pte, flags));
    }
  }

  lemma SharedBit(pte: nat)
    ensures And(pte, Pow2(S_BIT)) != 0 <==> Decode(pte).perm.s
    ensures Decode(pte).ppn == GetPpn(pte)
  {
    AndBit(pte, S_BIT);
  }

  /** The handler once the access is known to be allowed. */
  method Serve(vm: VirtualMemory, pgd: nat, ghost st: State, ghost roots: map<nat, nat>,
               badVaddr: nat, scause: Cause, flags: Flags, ghost contents: Page)
    returns (ok: bool, frame: nat)
    requires Inv(st) && Stands(vm, st, roots) && pgd == roots[st.cur] && badVaddr / PAGE < USER_PAGES
    requires AreaAt(st.procs[st.cur].vmas, badVaddr).Some? && AreaAt(st.procs[st.cur].vmas, badVaddr).value.flags == flags
    requires Allowed(flags, scause)
    modifies vm`mem, vm`owner, vm.buddy.bitmap, vm.buddy.refCnt, vm.buddy`live
    ensures vm.Valid() && (!ok ==> vm.NoFreePage())
    ensures ok ==> frame in st.count && st.count[frame] == 0 && Stands(vm, Fault(st, badVaddr, scause, frame, contents), roots)
  {
    hide Agrees, Inv, AreaAt, FramesOk, Forest, LeafOf, BuddyTree.Canonical, BuddyTree.LiveOk, Word, UserFrame, PermOf,
         Pow2, And, PermBits, UserPerm, IsValid, GetPpn;
    CurOk(st);
    ok, frame := TakePage(vm, st, roots);
    if !ok {
      return;
    }
    ghost var st1 := st.(count := st.count[frame := 1]);
    var v := badVaddr / PAGE;
    var valid, leaf, index, pte := FindEntry(vm, st1, roots, st.cur, pgd, v);
    if !valid {
      MappedFormOk(flags, UserPerm(flags));
      ok := MapPage(vm, st1, roots, st.cur, pgd, v, frame, PermBits(UserPerm(flags)), UserPerm(flags));
      if ok {
        MemoryAgrees(st1.(procs := SetPte(st.procs, st.cur, v, Pte(frame, UserPerm(flags)))), roots,
                     vm.base, vm.mem, vm.owner, vm.buddy.refCnt[..], st.mem[frame := contents]);
      }
    } else {
      SharedBit(pte);
      MappedFrame(st, st.cur, v);
      if scause == StoreFault && And(pte, Pow2(S_BIT)) != 0 {
        ServeShared(vm, st1, roots, v, leaf, index, pte, flags, frame);
        if st1.count[GetPpn(pte)] >= 2 {
          MemoryAgrees(st1.(count := Deref(st1.count, GetPpn(pte)), procs := SetPte(st.procs, st.cur, v, Pte(frame, UserPerm(flags)))),
                       roots, vm.base, vm.mem, vm.owner, vm.buddy.refCnt[..], st.mem[frame := PageAt(st.mem, GetPpn(pte))]);
        }
      }
    }
  }

  /** do_page_fault, with the areas in the descriptor and the entries in the tree: the fault step of the flat state.
      `ok` is false when the allocator ran out of pages. */
  method DoPageFault(vm: VirtualMemory, mm: MmStruct, pgd: nat, ghost st: State, ghost roots: map<nat, nat>,
                     badVaddr: nat, scause: Cause, ghost contents: Page)
    returns (ok: bool, frame: nat)
    requires Inv(st) && Stands(vm, st, roots) && pgd == roots[st.cur]
    requires mm.UsedOk() && mm.Contents() == st.procs[st.cur].vmas
    modifies vm`mem, vm`owner, vm.buddy.bitmap, vm.buddy.refCnt, vm.buddy`live
    ensures vm.Valid() && (!ok ==> vm.NoFreePage())
    ensures ok ==> Stands(vm, Fault(st, badVaddr, scause, frame, contents), roots)
    ensures ok && Fault(st, badVaddr, scause, frame, contents) != st ==> frame in st.count && st.count[frame] == 0
    ensures ok && Servable(st.procs[st.cur].vmas, badVaddr, scause) ==> HardwareAccess(vm.mem, pgd, badVaddr, scause)
  {
    hide Agrees, Inv, Linked, AreaAt, FramesOk, Forest, LeafOf, BuddyTree.Canonical, BuddyTree.LiveOk, Word, UserFrame, HardwareAccess;
    ok, frame := true, 0;
    var p, k := mm.FindVma(badVaddr);
    if p == Null {
      AreaAtNone(mm.Contents(), badVaddr);
      return;
    }
    CurOk(st);
    FoundArea(mm.Contents(), k, badVaddr);
    mm.UsedArea(k);
    var vma := mm.slots[p.slot].vma;
    if scause == Fetch && !vma.flags.exec {
      return;
    }
    if scause == LoadFault && !vma.flags.read {
      return;
    }
    if scause == StoreFault && !vma.flags.write {
      return;
    }
    ok, frame := Serve(vm, pgd, st, roots, badVaddr, scause, vma.flags, contents);
    if ok && (vma.flags.write ==> vma.flags.read) {
      ForestOf(vm.base, vm.buddy.refCnt[..], vm.mem, vm.owner);
      ServedAccessPasses(st, roots, badVaddr, scause, frame, contents, vm.base, vm.mem, vm.owner, vm.buddy.refCnt[..]);
    }
  }

  // ----- mmap and munmap

  ghost predicate AreasStand(mm: MmStruct, proc: Proc)
    reads mm, mm.slots
  {
    mm.Valid() && mm.Contents() == proc.vmas && |mm.free| == proc.spare
  }

  lemma HeadOfList(mm: MmStruct)
    requires mm.UsedOk()
    ensures mm.mmap == PtrTo(mm.page, mm.used, 0) && |mm.used| == |mm.Contents()|
  {
  }

  /** do_mmap of the current process: the mmap step. */
  method MapArea(vm: VirtualMemory, mm: MmStruct, ghost st: State, ghost roots: map<nat, nat>,
                 va: nat, len: nat, flags: Flags, file: nat, pgoff: nat, filesz: nat)
    returns (r: nat)
    requires Inv(st) && Stands(vm, st, roots) && AreasStand(mm, st.procs[st.cur])
    requires Enabled(st, DoMmap(Vma(va, va + len, flags, file, pgoff, filesz)))
    modifies mm`mmap, mm`numVmas, mm`freeVmaList, mm`used, mm`free, mm`tail, mm`initialised, mm.slots
    ensures r == va
    ensures var st' := Apply(st, DoMmap(Vma(va, va + len, flags, file, pgoff, filesz)));
      Stands(vm, st', roots) && AreasStand(mm, st'.procs[st.cur])
  {
    hide Agrees, Inv, Linked, FreeLinked, Parted, Areas, Sorted, InWord, Insert, Disjoint, BuddyTree.Canonical,
         BuddyTree.LiveOk, FramesOk;
    ghost var area := Vma(va, va + len, flags, file, pgoff, filesz);
    ghost var vs, spare := st.procs[st.cur].vmas, st.procs[st.cur].spare;
    ApartInBytes(vs, area);
    ghost var x;
    HeadOfList(mm);
    r, x := mm.DoMmap(va, len, flags, file, pgoff, filesz);
    AreasAgree(st, roots, vm.base, vm.mem, vm.owner, vm.buddy.refCnt[..], st.cur, Insert(vs, area), AfterMap(|vs|, spare));
  }

  lemma AlignedRange(va: nat, len: nat)
    requires va % PAGE == 0 && len % PAGE == 0 && len > 0 && va + len <= USER_END
    ensures FirstVpn(va) == va / PAGE && FirstVpn(va) <= LastVpn(va, len) < USER_PAGES
    ensures LastVpn(va, len) + 1 - FirstVpn(va) == len / PAGE
  {
    UserRange(va, len);
    assert (va + len - 1) / PAGE == va / PAGE + len / PAGE - 1;
  }

  lemma CoveredInUser(st: State, va: nat, len: nat)
    requires Inv(st) && len > 0 && MunmapOk(st.procs[st.cur].vmas, va, len)
    ensures va + len <= USER_END
  {
    hide Mappers;
    var vs := st.procs[st.cur].vmas;
    assert InUser(vs) by { CurOk(st); }
    assert Covered(vs, va + len - 1);
  }

  lemma PassesIsOk(vs: seq<Vma>, va: nat, len: nat)
    requires va + len < WORD
    ensures MunmapPasses(vs, va, len) <==> MunmapOk(vs, va, len)
  {
  }

  lemma Aligned(vs: seq<Vma>, va: nat, len: nat)
    requires MunmapOk(vs, va, len)
    ensures va % PAGE == 0 && len % PAGE == 0
  {
  }

  lemma RootOf(st: State, roots: map<nat, nat>, base: nat, mem: Memory, owner: Owners, counts: seq<nat>, p: nat)
    requires Agrees(st, roots, base, mem, owner, counts) && p in st.procs
    ensures p in roots && IsRoot(owner, roots[p])
  {
  }

  /** do_munmap of the current process: the munmap step, on areas and entries. */
  method UnmapRange(vm: VirtualMemory, mm: MmStruct, pgd: nat, ghost st: State, ghost roots: map<nat, nat>, va: nat, len: nat)
    returns (res: int, ok: bool)
    requires Inv(st) && Stands(vm, st, roots) && pgd == roots[st.cur] && AreasStand(mm, st.procs[st.cur])
    requires Enabled(st, DoMunmap(va, len))
    modifies vm`mem, vm`owner, vm.buddy.bitmap, vm.buddy.refCnt, vm.buddy`live
    modifies mm`mmap, mm`numVmas, mm`freeVmaList, mm`used, mm`free, mm`tail, mm`initialised, mm.slots
    ensures res == if MunmapOk(st.procs[st.cur].vmas, va, len) then 1 else -1
    ensures ok ==> Stands(vm, Apply(st, DoMunmap(va, len)), roots)
    ensures ok ==> AreasStand(mm, Apply(st, DoMunmap(va, len)).procs[st.cur])
  {
    hide Agrees, Inv, RangeUnmapped, Removable, MunmapOk, MunmapPasses, Subtract, SlotsSuffice, AfterMunmap, FramesOk,
         Forest, BuddyTree.Canonical, BuddyTree.LiveOk, Linked, FreeLinked, Parted, RangeFits, DropPages, PageRange;
    ghost var mem, owner, counts := vm.mem, vm.owner, vm.buddy.refCnt[..];
    ghost var job := UnmapJob(vm.base, mem, owner, counts, pgd, va, len);
    CurOk(st);
    PassesIsOk(st.procs[st.cur].vmas, va, len);
    if MunmapOk(st.procs[st.cur].vmas, va, len) {
      MunmapRangeRemovable(st, roots, vm.base, mem, owner, counts, va, len);
    }
    RootOf(st, roots, vm.base, mem, owner, counts, st.cur);
    res, ok := mm.DoMunmap(va, len, vm, pgd);
    if res == 1 && ok {
      CoveredInUser(st, va, len);
      assert va % PAGE == 0 && len % PAGE == 0 by { Aligned(st.procs[st.cur].vmas, va, len); }
      AlignedRange(va, len);
      RemoveAgrees(st, roots, job, st.cur, vm.mem, vm.owner, vm.buddy.refCnt[..]);
      AreasAgree(DropPages(st, st.cur, PageRange(va / PAGE, len / PAGE)), roots, vm.base, vm.mem, vm.owner, vm.buddy.refCnt[..],
        st.cur, Subtract(st.procs[st.cur].vmas, va, va + len), AfterMunmap(st.procs[st.cur].vmas, st.procs[st.cur].spare, va, va + len));
    }
  }

  // ----- exec and exit

  /** A page range as remove_mapping visits it is the area's pages. */
  lemma AreaRange(w: Vma)
    requires w.start < w.end <= USER_END
    ensures FirstVpn(w.start) == StartPage(w) <= LastVpn(w.start, w.end - w.start) < USER_PAGES
    ensures AreaPages(w) == PageRange(StartPage(w), LastVpn(w.start, w.end - w.start) + 1 - StartPage(w))
  {
    UserRange(w.start, w.end - w.start);
    assert EndPage(w) == (w.end - 1) / PAGE + 1;
  }

  /** Giving up one more area. */
  method GiveUpArea(vm: VirtualMemory, pgd: nat, ghost st: State, ghost roots: map<nat, nat>, ghost pages: seq<nat>, vma: Vma) returns (ok: bool)
    requires Inv(st) && Stands(vm, DropPages(st, st.cur, pages), roots)
    requires pgd == roots[st.cur] && vma.start < vma.end <= USER_END
    modifies vm`mem, vm`owner, vm.buddy.bitmap, vm.buddy.refCnt, vm.buddy`live
    ensures vm.Valid() && (!ok ==> vm.NoFreePage())
    ensures ok ==> Stands(vm, DropPages(st, st.cur, pages + AreaPages(vma)), roots)
  {
    hide Agrees, Inv, RangeUnmapped, Removable, FramesOk, Forest, BuddyTree.Canonical, BuddyTree.LiveOk, RangeFits,
         DropPages, PageRange, AreaPages;
    ghost var mem, owner, counts := vm.mem, vm.owner, vm.buddy.refCnt[..];
    CurOk(st);
    ghost var st1 := DropPages(st, st.cur, pages);
    DropPagesStep(st, st.cur, pages);
    RootOf(st1, roots, vm.base, mem, owner, counts, st.cur);
    UserRangeRemovable(st1, roots, vm.base, mem, owner, counts, st.cur, vma.start, vma.end - vma.start);
    AreaRange(vma);
    ok := vm.RemoveMapping(pgd, vma.start, vma.end - vma.start);
    if ok {
      RemoveAgrees(st1, roots, UnmapJob(vm.base, mem, owner, counts, pgd, vma.start, vma.end - vma.start), st.cur,
                   vm.mem, vm.owner, vm.buddy.refCnt[..]);
      DropConcat(st, st.cur, pages, AreaPages(vma));
    }
  }

  lemma CurArea(st: State, i: nat)
    requires Inv(st) && i < |st.procs[st.cur].vmas|
    ensures st.cur in st.procs && st.procs[st.cur].vmas[i].start < st.procs[st.cur].vmas[i].end <= USER_END
  {
    CurOk(st);
  }

  lemma RestOf(vs: seq<Vma>, i: nat)
    requires i < |vs|
    ensures vs[i..][0] == vs[i] && vs[i..][..0] + vs[i..][1..] == vs[i + 1..]
  {
  }

  /** The first i areas have been given up. */
  ghost predicate GivenUp(vm: VirtualMemory, mm: MmStruct, st: State, roots: map<nat, nat>, i: nat)
    requires st.cur in st.procs && i <= |st.procs[st.cur].vmas|
    reads vm, vm.buddy, vm.buddy.bitmap, vm.buddy.refCnt, mm, mm.slots
  {
    && Stands(vm, DropPages(st, st.cur, PagesOf(st.procs[st.cur].vmas[..i])), roots)
    && mm.Valid() && mm.Contents() == st.procs[st.cur].vmas[i..] && |mm.free| == st.procs[st.cur].spare + i
  }

  lemma NoneGivenUp(vm: VirtualMemory, mm: MmStruct, st: State, roots: map<nat, nat>)
    requires Stands(vm, st, roots) && st.cur in st.procs && AreasStand(mm, st.procs[st.cur])
    ensures GivenUp(vm, mm, st, roots, 0) && (mm.mmap == Null <==> st.procs[st.cur].vmas == [])
  {
    hide Stands, DropPages, PagesOf, MmStruct.UsedOk, MmStruct.FreeOk, MmStruct.Contents;
    DropNone(st, st.cur, 0);
    assert st.procs[st.cur].vmas[..0] == [];
    HeadOfList(mm);
  }

  lemma AllGivenUp(vm: VirtualMemory, mm: MmStruct, st: State, roots: map<nat, nat>)
    requires st.cur in st.procs && GivenUp(vm, mm, st, roots, |st.procs[st.cur].vmas|)
    ensures st.cur in UnmapAll(st).procs && Stands(vm, UnmapAll(st), roots) && AreasStand(mm, UnmapAll(st).procs[st.cur])
  {
    hide Agrees, DropPages, PagesOf, MmStruct.Valid, MmStruct.Contents;
    var vs := st.procs[st.cur].vmas;
    AllUnmapped(st, |vs|);
    AreasAgree(DropPages(st, st.cur, PagesOf(vs[..|vs|])), roots, vm.base, vm.mem, vm.owner, vm.buddy.refCnt[..], st.cur, [],
               st.procs[st.cur].spare + |vs|);
  }

  /** One round of the loop: give up the first area, then unlink it. */
  method GiveUpFirst(vm: VirtualMemory, mm: MmStruct, pgd: nat, ghost st: State, ghost roots: map<nat, nat>, ghost i: nat, vma: Ptr)
    returns (ok: bool, next: Ptr)
    requires Inv(st) && st.cur in st.procs && i < |st.procs[st.cur].vmas| && st.cur in roots && pgd == roots[st.cur]
    requires GivenUp(vm, mm, st, roots, i) && vma == mm.mmap
    modifies vm`mem, vm`owner, vm.buddy.bitmap, vm.buddy.refCnt, vm.buddy`live
    modifies mm`mmap, mm`numVmas, mm`freeVmaList, mm`used, mm`free, mm.slots
    ensures vm.Valid() && (!ok ==> vm.NoFreePage())
    ensures ok ==> GivenUp(vm, mm, st, roots, i + 1) && next == mm.mmap && (next == Null <==> i + 1 == |st.procs[st.cur].vmas|)
  {
    hide Stands, VirtualMemory.Valid, Inv, ProcOk, AreasOk, InUser, InWord, Sorted, DropPages, AreaPages, PagesOf,
         MmStruct.UsedOk, MmStruct.FreeOk, MmStruct.Contents;
    CurArea(st, i);
    ghost var vs := st.procs[st.cur].vmas;
    HeadOfList(mm);
    mm.UsedArea(0);
    next := mm.slots[vma.slot].next;
    RestOf(vs, i);
    ok := GiveUpArea(vm, pgd, st, roots, PagesOf(vs[..i]), mm.slots[vma.slot].vma);
    if ok {
      PagesOfNext(vs, i);
      mm.RemoveVma(vma, 0);
      HeadOfList(mm);
    }
  }

  lemma CurRoot(vm: VirtualMemory, st: State, roots: map<nat, nat>)
    requires Stands(vm, st, roots) && st.cur in st.procs
    ensures st.cur in roots && vm.Valid()
  {
  }

  /** The unmap loop of do_execve and do_exit: the unmap-everything step. */
  method GiveUpAreas(vm: VirtualMemory, mm: MmStruct, pgd: nat, ghost st: State, ghost roots: map<nat, nat>) returns (ok: bool)
    requires Inv(st) && Stands(vm, st, roots) && pgd == roots[st.cur] && AreasStand(mm, st.procs[st.cur])
    modifies vm`mem, vm`owner, vm.buddy.bitmap, vm.buddy.refCnt, vm.buddy`live
    modifies mm`mmap, mm`numVmas, mm`freeVmaList, mm`used, mm`free, mm.slots
    ensures vm.Valid() && (!ok ==> vm.NoFreePage())
    ensures ok ==> Stands(vm, UnmapAll(st), roots) && AreasStand(mm, UnmapAll(st).procs[st.cur])
  {
    hide *;
    CurOk(st);
    CurRoot(vm, st, roots);
    NoneGivenUp(vm, mm, st, roots);
    ghost var n, i := |st.procs[st.cur].vmas|, 0;
    ok := true;
    var vma := mm.mmap;
    while vma != Null
      invariant i <= n && vma == mm.mmap && (vma == Null <==> i == n) && vm.Valid() && GivenUp(vm, mm, st, roots, i)
      decreases n - i
    {
      ok, vma := GiveUpFirst(vm, mm, pgd, st, roots, i, vma);
      if !ok {
        return;
      }
      i := i + 1;
    }
    AllGivenUp(vm, mm, st, roots);
  }

  // ----- fork

  lemma PermWord(w: nat)
    ensures PermBits(PermOf(w)) == GetPerm(w)
  {
    hide PermOf, PermBits;
    PermRoundTrip(PermOf(w), GetPerm(w));
    LowBits(w, GetPerm(w));
  }

  /** A user entry, once shared, is in the form that create_mapping leaves as it is. */
  lemma SharedForm(st: State, p: nat, v: nat)
    requires Inv(st) && p in st.procs && v in st.procs[p].pt
    ensures var perm := Shared(st.procs[p].pt[v].perm); perm.v && perm.a && (perm.w ==> perm.d)
  {
    hide FrameOk, Unshared, Mappers, AreasOk;
    assert ProcOk(st.procs[p]);
    assert EntryOk(st.procs[p].vmas, v, st.procs[p].pt[v]);
  }

  lemma MarkedTwice(procs: map<nat, Proc>, p: nat, v: nat, e1: Pte, e2: Pte)
    requires p in procs
    ensures SetPte(SetPte(procs, p, v, e1), p, v, e2) == SetPte(procs, p, v, e2)
  {
    assert procs[p].pt[v := e1][v := e2] == procs[p].pt[v := e2];
  }

  lemma PpnBound(pte: nat)
    ensures GetPpn(pte) < PPN_LIMIT
  {
  }

  lemma MarkedWords(pte: nat)
    requires IsValid(pte) && Unreserved(pte)
    ensures var marked := Or(pte, Pow2(S_BIT));
      var w := AndNot(marked, Pow2(W_BIT));
      && IsValid(marked) && IsValid(w) && Unreserved(marked) && Unreserved(w) && GetPpn(pte) < PPN_LIMIT
      && Decode(pte) == Pte(GetPpn(pte), PermOf(pte))
      && Decode(marked) == Pte(GetPpn(pte), PermOf(pte).(s := true))
      && Decode(w) == Pte(GetPpn(pte), PermOf(w)) && PermOf(w) == Shared(PermOf(pte))
  {
    hide Or, AndNot, Pow2, PermOf, GetPpn, IsValid;
    SetBits(pte);
    SharedWord(pte);
    ValidBit(pte);
    ValidBit(Or(pte, Pow2(S_BIT)));
    ValidBit(AndNot(Or(pte, Pow2(S_BIT)), Pow2(W_BIT)));
    PpnBound(pte);
    BitsStayLow(pte, S_BIT);
    BitsStayLow(Or(pte, Pow2(S_BIT)), W_BIT);
  }

  /** The body of fork's page loop. */
  method SharePageOf(vm: VirtualMemory, pgd: nat, childPgd: nat, ghost st: State, ghost roots: map<nat, nat>, ghost child: nat, v: nat)
    returns (ok: bool)
    requires Inv(st) && Stands(vm, st, roots) && child in st.procs && child != st.cur && v < USER_PAGES
    requires pgd == roots[st.cur] && childPgd == roots[child]
    modifies vm`mem, vm`owner, vm.buddy.bitmap, vm.buddy.refCnt, vm.buddy`live
    ensures vm.Valid() && (!ok ==> vm.NoFreePage())
    ensures ok ==> Stands(vm, SharePage(st, st.cur, child, v), roots)
  {
    hide Agrees, Inv, FramesOk, Forest, BuddyTree.Canonical, BuddyTree.LiveOk, IsValid, PermOf, PermBits, GetPpn,
         GetPerm, Or, AndNot, Pow2, Word, LeafOf, UserFrame;
    CurOk(st);
    ok := true;
    var valid, leaf, index, pte := FindEntry(vm, st, roots, st.cur, pgd, v);
    if valid {
      SharedForm(st, st.cur, v);
      var pagePpn := GetPpn(pte);
      AddRef(vm, st, roots, pagePpn);
      ghost var st1 := st.(count := Ref(st.count, pagePpn));
      var marked := Or(pte, Pow2(S_BIT));
      var w := AndNot(marked, Pow2(W_BIT));
      MarkedWords(pte);
      StoreEntry(vm, st1, roots, st.cur, v, leaf, index, marked);
      ghost var st2 := st1.(procs := SetPte(st.procs, st.cur, v, Decode(marked)));
      StoreEntry(vm, st2, roots, st.cur, v, leaf, index, w);
      MarkedTwice(st.procs, st.cur, v, Decode(marked), Decode(w));
      ghost var st3 := st1.(procs := SetPte(st.procs, st.cur, v, Decode(w)));
      PermWord(w);
      ok := MapPage(vm, st3, roots, child, childPgd, v, pagePpn, GetPerm(w), PermOf(w));
    }
  }

  /** What the page loop starts from: a child with the parent's areas and no page yet. */
  ghost predicate NewChild(st: State, child: nat) {
    && st.cur in st.procs && child in st.procs && child != st.cur
    && st.procs[child] == Proc(st.procs[st.cur].vmas, map[], 0)
  }

  lemma SharedSoFar(st: State, child: nat, pages: seq<nat>)
    requires Inv(st) && NewChild(st, child) && NoDuplicates(pages)
    ensures var st' := SharePages(st, st.cur, child, pages); Inv(st') && st'.cur == st.cur && st'.procs.Keys == st.procs.Keys
  {
    hide Inv, SharePages;
    SharePagesStep(st, st.cur, child, pages);
  }

  lemma PrefixDistinct(pages: seq<nat>, more: seq<nat>)
    requires NoDuplicates(pages + more)
    ensures NoDuplicates(pages)
  {
    forall i, j | 0 <= i < j < |pages| ensures pages[i] != pages[j] {
      assert (pages + more)[i] != (pages + more)[j];
    }
  }

  lemma PrefixOfRange(done: seq<nat>, lo: nat, n: nat, m: nat)
    requires n <= m && NoDuplicates(done + PageRange(lo, m))
    ensures NoDuplicates(done + PageRange(lo, n))
  {
    assert done + PageRange(lo, m) == (done + PageRange(lo, n)) + PageRange(lo, m)[n..];
    PrefixDistinct(done + PageRange(lo, n), PageRange(lo, m)[n..]);
  }

  lemma AreaBounds(w: Vma)
    requires w.start < w.end <= USER_END
    ensures StartPage(w) < EndPage(w) <= USER_PAGES && AreaPages(w) == PageRange(StartPage(w), EndPage(w) - StartPage(w))
  {
    EndInUser(w.end);
  }

  /** The page loop over one area. */
  method ShareAreaOf(vm: VirtualMemory, pgd: nat, childPgd: nat, ghost st: State, ghost roots: map<nat, nat>, ghost child: nat,
                     ghost done: seq<nat>, vma: Vma)
    returns (ok: bool)
    requires Inv(st) && NewChild(st, child) && Stands(vm, SharePages(st, st.cur, child, done), roots)
    requires pgd == roots[st.cur] && childPgd == roots[child]
    requires vma.start < vma.end <= USER_END && NoDuplicates(done + AreaPages(vma))
    modifies vm`mem, vm`owner, vm.buddy.bitmap, vm.buddy.refCnt, vm.buddy`live
    ensures vm.Valid() && (!ok ==> vm.NoFreePage())
    ensures ok ==> Stands(vm, SharePages(st, st.cur, child, done + AreaPages(vma)), roots)
  {
    hide Agrees, Inv, FramesOk, Forest, BuddyTree.Canonical, BuddyTree.LiveOk, SharePages, SharePage, PageRange,
         NoDuplicates, AreaPages;
    AreaBounds(vma);
    var startPageVa := vma.start / PAGE * PAGE;
    var endPageVa := (vma.end + PAGE - 1) / PAGE * PAGE;
    ghost var n, pages := 0, done;
    NoPages(done, StartPage(vma));
    ok := true;
    var pageVa := startPageVa;
    while pageVa < endPageVa
      invariant pageVa == (StartPage(vma) + n) * PAGE && StartPage(vma) + n <= EndPage(vma)
      invariant pages == done + PageRange(StartPage(vma), n) && Stands(vm, SharePages(st, st.cur, child, pages), roots)
      decreases endPageVa - pageVa
    {
      PrefixOfRange(done, StartPage(vma), n, EndPage(vma) - StartPage(vma));
      SharedSoFar(st, child, pages);
      ShareAppend(st, st.cur, child, pages, pageVa / PAGE);
      OneMorePage(done, StartPage(vma), n);
      ok := SharePageOf(vm, pgd, childPgd, SharePages(st, st.cur, child, pages), roots, child, pageVa / PAGE);
      if !ok {
        return;
      }
      pageVa := pageVa + PAGE;
      n, pages := n + 1, pages + [StartPage(vma) + n];
    }
  }

  lemma AreaInUser(st: State, i: nat)
    requires Inv(st) && i < |st.procs[st.cur].vmas|
    ensures var w := st.procs[st.cur].vmas[i]; w.start < w.end <= USER_END
    ensures NoDuplicates(PagesOf(st.procs[st.cur].vmas[..i]) + AreaPages(st.procs[st.cur].vmas[i]))
  {
    hide Mappers, PagesOf, NoDuplicates, AreaPages;
    CurOk(st);
    var vs := st.procs[st.cur].vmas;
    assert AreasOk(vs[..i + 1]);
    PagesOfDistinct(vs[..i + 1]);
    PagesOfNext(vs, i);
  }

  /** The area loop: the parent's list is walked from slot to slot. */
  method ShareAreasOf(vm: VirtualMemory, mm: MmStruct, pgd: nat, childPgd: nat, ghost st: State, ghost roots: map<nat, nat>, ghost child: nat)
    returns (ok: bool)
    requires Inv(st) && NewChild(st, child) && Stands(vm, st, roots)
    requires pgd == roots[st.cur] && childPgd == roots[child]
    requires mm.UsedOk() && mm.Contents() == st.procs[st.cur].vmas
    modifies vm`mem, vm`owner, vm.buddy.bitmap, vm.buddy.refCnt, vm.buddy`live
    ensures vm.Valid() && (!ok ==> vm.NoFreePage())
    ensures ok ==> Stands(vm, SharePages(st, st.cur, child, PagesOf(st.procs[st.cur].vmas)), roots)
  {
    hide Agrees, Inv, Linked, Areas, FramesOk, Forest, BuddyTree.Canonical, BuddyTree.LiveOk, SharePages, NoDuplicates,
         AreaPages, PagesOf;
    ghost var vs, i := mm.Contents(), 0;
    ShareNone(st, st.cur, child);
    assert vs[..0] == [];
    HeadOfList(mm);
    ok := true;
    var vma := mm.mmap;
    while vma != Null
      invariant 0 <= i <= |vs| && vma == PtrTo(mm.page, mm.used, i)
      invariant vm.Valid() && Stands(vm, SharePages(st, st.cur, child, PagesOf(vs[..i])), roots)
      decreases |vs| - i
    {
      mm.UsedArea(i);
      AreaInUser(st, i);
      PagesOfNext(vs, i);
      ok := ShareAreaOf(vm, pgd, childPgd, st, roots, child, PagesOf(vs[..i]), mm.slots[vma.slot].vma);
      if !ok {
        return;
      }
      vma := mm.slots[vma.slot].next;
      i := i + 1;
    }
    assert vs[..|vs|] == vs;
  }

  /** A page just taken is in no tree, holds no stale entry if the free pages did not, and no user entry maps it. */
  lemma TakenPage(st: State, base: nat, counts: seq<nat>, mem: Memory, f: nat)
    requires Inv(st) && f in st.count && st.count[f] == 0 && base <= f < base + |counts| && counts[f - base] == 0
    requires CleanFrames(base, counts, mem) && f in mem
    ensures NoValidEntry(mem[f]) && CleanFrames(base, counts[f - base := 1], mem)
    ensures forall p <- st.procs, v <- st.procs[p].pt :: st.procs[p].pt[v].ppn != f
    ensures Inv(st.(count := st.count[f := 1]))
  {
    hide Inv, Mappers, NoValidEntry;
    assert base + (f - base) == f;
    forall p, v | p in st.procs && v in st.procs[p].pt ensures st.procs[p].pt[v].ppn != f { MappedFrame(st, p, v); }
    LeakInv(st, f);
  }

  lemma FrameInMemory(vm: VirtualMemory, f: nat)
    requires vm.Valid() && vm.InRam(f)
    ensures f in vm.mem
  {
  }

  /** The child's root: a page from the allocator, filled by copy_mapping from the kernel's table. */
  method NewRootTable(vm: VirtualMemory, kernelPgd: nat, ghost st: State, ghost roots: map<nat, nat>, ghost child: nat, ghost vs: seq<Vma>)
    returns (ok: bool, childPgd: nat)
    requires Inv(st) && Stands(vm, st, roots) && child !in st.procs
    requires IsRoot(vm.owner, kernelPgd) && Entries(vm.mem, kernelPgd) == map[]
    requires CleanFrames(vm.base, vm.buddy.refCnt[..], vm.mem)
    modifies vm`mem, vm`owner, vm.buddy.bitmap, vm.buddy.refCnt, vm.buddy`live
    ensures vm.Valid() && (!ok ==> vm.NoFreePage())
    ensures ok ==> childPgd in st.count && st.count[childPgd] == 0 && Inv(st.(count := st.count[childPgd := 1]))
    ensures ok ==> Stands(vm, st.(count := st.count[childPgd := 1], procs := st.procs[child := Proc(vs, map[], 0)]), roots[child := childPgd])
  {
    hide Agrees, Inv, FramesOk, Forest, BuddyTree.Canonical, BuddyTree.LiveOk, CleanFrames, NoValidEntry, Entries, Word,
         TablesAdded, UserFrame;
    ghost var counts := vm.buddy.refCnt[..];
    ok, childPgd := TakePage(vm, st, roots);
    if !ok {
      return;
    }
    FrameInMemory(vm, childPgd);
    UserFrameIs(vm.base, vm.owner, vm.buddy.refCnt[..], childPgd);
    TakenPage(st, vm.base, counts, vm.mem, childPgd);
    ghost var mem, owner, counts1 := vm.mem, vm.owner, vm.buddy.refCnt[..];
    ok := vm.CopyMapping(childPgd, kernelPgd);
    if ok {
      CopyAgrees(st.(count := st.count[childPgd := 1]), roots, vm.base, mem, owner, counts1, kernelPgd, child, childPgd, vs,
                 vm.mem, vm.owner, vm.buddy.refCnt[..]);
    }
  }

  lemma ForkedChild(st: State, child: nat)
    requires st.cur in st.procs && child !in st.procs
    ensures var vs := st.procs[st.cur].vmas;
      var st2 := st.(procs := st.procs[child := Proc(vs, map[], 0)]);
      && Fork(st, child) == SharePages(st2, st.cur, child, PagesOf(vs)) && child in Fork(st, child).procs
      && Fork(st, child).procs[child].vmas == vs && Fork(st, child).procs[child].spare == 0
  {
    var vs := st.procs[st.cur].vmas;
    ShareKeepsAreas(st.(procs := st.procs[child := Proc(vs, map[], 0)]), st.cur, child, PagesOf(vs));
  }

  lemma ParentBounds(st: State)
    requires Inv(st)
    ensures var vs := st.procs[st.cur].vmas; AreasOk(vs) && InUser(vs) && |vs| <= NR_VMA_SLOTS
  {
    CurOk(st);
  }

  /** fork's memory: the child's descriptor, its root table copied from the kernel's, which has no user entries, and
      the loop over areas and pages. This is the fork step, with the child's root among the pages in use. */
  method ForkMemory(vm: VirtualMemory, mm: MmStruct, childMm: MmStruct, pgd: nat, kernelPgd: nat,
                    ghost st: State, ghost roots: map<nat, nat>, ghost child: nat)
    returns (ok: bool, childPgd: nat)
    requires Inv(st) && Stands(vm, st, roots) && pgd == roots[st.cur] && child !in st.procs
    requires mm.UsedOk() && mm.Contents() == st.procs[st.cur].vmas
    requires childMm != mm && childMm.slots != mm.slots && childMm.slots.Length == NR_VMA_SLOTS
    requires IsRoot(vm.owner, kernelPgd) && Entries(vm.mem, kernelPgd) == map[]
    requires CleanFrames(vm.base, vm.buddy.refCnt[..], vm.mem)
    modifies vm`mem, vm`owner, vm.buddy.bitmap, vm.buddy.refCnt, vm.buddy`live
    modifies childMm`mmap, childMm`numVmas, childMm`used, childMm`free, childMm`tail, childMm`initialised, childMm.slots
    ensures vm.Valid() && (!ok ==> vm.NoFreePage())
    ensures ok ==> childPgd in st.count && st.count[childPgd] == 0
    ensures ok ==> var st' := Fork(st.(count := st.count[childPgd := 1]), child);
      Stands(vm, st', roots[child := childPgd]) && AreasStand(childMm, st'.procs[child])
  {
    hide Stands, VirtualMemory.Valid, Inv, ProcOk, AreasOk, InUser, Linked, FreeLinked, Parted, Areas, Sorted, InWord,
         SharePages, Fork, PagesOf, CleanFrames, Entries, BuddyTree.Canonical, BuddyTree.LiveOk, FramesOk;
    CurOk(st);
    CurRoot(vm, st, roots);
    ghost var vs := mm.Contents();
    childMm.CopyMm(mm);
    ok, childPgd := NewRootTable(vm, kernelPgd, st, roots, child, vs);
    if !ok {
      return;
    }
    ghost var st1 := st.(count := st.count[childPgd := 1]);
    ghost var st2 := st1.(procs := st1.procs[child := Proc(vs, map[], 0)]);
    ParentBounds(st);
    NewChildInv(st1, child, vs);
    ok := ShareAreasOf(vm, mm, pgd, childPgd, st2, roots[child := childPgd], child);
    ForkedChild(st1, child);
  }
}
