/** User accesses as the hardware checks them on the page tables, and what that means for the flat state. */
module UserAccess {
  import opened Options
  import opened Words
  import opened Sv39
  import opened PageTree
  import opened HardwareWalk
  import opened VmaList
  import opened CowState
  import opened CowEntries
  import opened CowSteps
  import opened CowRefinement
  import opened UserMappings

  /** Steps 5 to 8 for an access in user mode: U, the right that the access needs, A, and D for a store. */
  predicate Grants(pte: nat, c: Cause) {
    && HasBit(pte, 0x10) && HasBit(pte, 0x40)
    && match c
       case Fetch => HasBit(pte, 0x8)
       case LoadFault => HasBit(pte, 0x2)
       case StoreFault => HasBit(pte, 0x4) && HasBit(pte, 0x80)
  }

  /** A leaf above level 0 must be aligned to its size. */
  predicate Aligned(level: nat, pte: nat) {
    (level >= 1 ==> pte / 0x400 % 0x200 == 0) && (level == 2 ==> pte / 0x400 % 0x4_0000 == 0)
  }

  /** The whole check. */
  predicate HardwareAccess(mem: Memory, root: nat, va: nat, c: Cause) {
    && SignExtended(va)
    && match Walk(mem, root, va, 2)
       case PageFault => false
       case Reached(level, pte) => Aligned(level, pte) && Grants(pte, c)
  }

  /** The word that vma_flags_to_perm computes. */
  lemma UserPermWord(f: Flags)
    ensures PermBits(UserPerm(f)) == 0x51 + (if f.read then 0x2 else 0) + (if f.write then 0x84 else 0) + (if f.exec then 0x8 else 0)
  {
    PermBitsAre(UserPerm(f));
  }

  lemma CanonicalIs(va: nat)
    requires va < WORD
    ensures Canonical(va) <==> SignExtended(va)
  {
  }

  /** The named check of a leaf is the hardware's. */
  lemma AccessibleByBits(va: nat, w: nat, c: Cause)
    requires va < WORD
    ensures Accessible(va, PermOf(w), c) <==> SignExtended(va) && LeafFor(w) && Grants(w, c)
  {
    hide HasBit, PermOf;
    NamesAreBits(w);
    CanonicalIs(va);
  }

  lemma UserPage(va: nat)
    requires va < USER_END
    ensures va / PAGE < USER_PAGES
  {
  }

  lemma InvalidIsNoLeaf(w: nat)
    ensures !IsValid(w) ==> !LeafFor(w)
  {
    hide HasBit;
    PointerBits(w);
  }

  /** For every user address and access: the hardware lets it pass on the process's tree exactly when the flat state
      has an entry that allows it. */
  lemma AccessIff(st: State, roots: map<nat, nat>, base: nat, mem: Memory, owner: Owners, counts: seq<nat>, p: nat, va: nat, c: Cause)
    requires Agrees(st, roots, base, mem, owner, counts) && Forest(mem, owner) && p in st.procs && va < USER_END
    ensures HardwareAccess(mem, roots[p], va, c) <==>
      va / PAGE in st.procs[p].pt && Accessible(va, st.procs[p].pt[va / PAGE].perm, c)
  {
    hide Walk, LeafFor, Grants, Accessible, Forest, Word, PermOf, IsValid;
    var w := Word(mem, roots[p], va / PAGE);
    UserPage(va);
    WalkGivesWord(mem, owner, roots[p], va);
    AccessibleByBits(va, w, c);
    InvalidIsNoLeaf(w);
    assert va / PAGE in Entries(mem, roots[p]) <==> IsValid(w);
  }

  lemma SameProcs(st: State, va: nat, c: Cause, frame: nat, contents: Page, contents': Page)
    requires st.cur in st.procs
    ensures Fault(st, va, c, frame, contents).procs == Fault(st, va, c, frame, contents').procs
  {
  }

  /** The area allows the access, and if it can be written it can be read. */
  predicate Servable(vs: seq<Vma>, va: nat, c: Cause) {
    && AreaAt(vs, va).Some? && Allowed(AreaAt(vs, va).value.flags, c)
    && (AreaAt(vs, va).value.flags.write ==> AreaAt(vs, va).value.flags.read)
  }

  /** After one run of the handler for an access that its area allows, the hardware lets the retried access pass. */
  lemma ServedAccessPasses(st: State, roots: map<nat, nat>, va: nat, c: Cause, frame: nat, contents: Page,
                           base: nat, mem: Memory, owner: Owners, counts: seq<nat>)
    requires Inv(st) && frame in st.count && st.count[frame] == 0 && Servable(st.procs[st.cur].vmas, va, c)
    requires Agrees(Fault(st, va, c, frame, contents), roots, base, mem, owner, counts) && Forest(mem, owner)
    ensures st.cur in roots && HardwareAccess(mem, roots[st.cur], va, c)
  {
    hide Inv, AreaAt, Fault, Forest, Accessible, HardwareAccess;
    var page: Page := seq(PAGE, _ => 0);
    CurOk(st);
    UserAddress(st.procs[st.cur].vmas, va);
    if va / PAGE in st.procs[st.cur].pt && st.procs[st.cur].pt[va / PAGE].perm.s { CopyReadableIff(st, va, frame, page); }
    OneFaultIsEnough(st, va, c, frame, page);
    SameProcs(st, va, c, frame, contents, page);
    AccessIff(Fault(st, va, c, frame, contents), roots, base, mem, owner, counts, st.cur, va, c);
  }

  /** No process can do on its pages what the area does not allow. */
  lemma AccessStaysInArea(st: State, roots: map<nat, nat>, base: nat, mem: Memory, owner: Owners, counts: seq<nat>, p: nat, va: nat, c: Cause)
    requires Inv(st) && Agrees(st, roots, base, mem, owner, counts) && Forest(mem, owner) && p in st.procs && va < USER_END
    requires HardwareAccess(mem, roots[p], va, c)
    ensures PageArea(st.procs[p].vmas, va / PAGE).Some? && Allowed(PageArea(st.procs[p].vmas, va / PAGE).value.flags, c)
  {
    hide Inv, HardwareAccess, Forest, Entries, Mappers;
    AccessIff(st, roots, base, mem, owner, counts, p, va, c);
    WritableIsExclusive(st, p, va / PAGE);
  }

  lemma TranslatedFrame(st: State, roots: map<nat, nat>, base: nat, mem: Memory, owner: Owners, counts: seq<nat>, p: nat, va: nat, c: Cause)
    requires Agrees(st, roots, base, mem, owner, counts) && Forest(mem, owner) && p in st.procs && va < USER_END
    requires HardwareAccess(mem, roots[p], va, c)
    ensures va / PAGE in st.procs[p].pt
    ensures Translate(mem, roots[p], va) == st.procs[p].pt[va / PAGE].ppn * 0x1000 + va % 0x1000
    ensures c == StoreFault ==> st.procs[p].pt[va / PAGE].perm.w
  {
    hide Forest, LeafFor, Word, PermOf, IsValid, Grants;
    AccessIff(st, roots, base, mem, owner, counts, p, va, c);
    WalkGivesWord(mem, owner, roots[p], va);
    PointerBits(Word(mem, roots[p], va / PAGE));
  }

  lemma FrameOfAddress(f: nat, va: nat)
    ensures (f * 0x1000 + va % 0x1000) / 0x1000 == f
  {
  }

  /** Where the hardware lets a process store, no access of any other process, nor of this one through another page,
      reaches the same physical page. */
  lemma StoresAreIsolated(st: State, roots: map<nat, nat>, base: nat, mem: Memory, owner: Owners, counts: seq<nat>,
                          p: nat, va: nat, q: nat, va': nat, c: Cause)
    requires Inv(st) && Agrees(st, roots, base, mem, owner, counts) && Forest(mem, owner)
    requires p in st.procs && q in st.procs && va < USER_END && va' < USER_END
    requires HardwareAccess(mem, roots[p], va, StoreFault) && HardwareAccess(mem, roots[q], va', c)
    ensures Translate(mem, roots[p], va) / 0x1000 == Translate(mem, roots[q], va') / 0x1000 ==> p == q && va / PAGE == va' / PAGE
  {
    hide Inv, HardwareAccess, Translate, Forest, Entries, Mappers;
    TranslatedFrame(st, roots, base, mem, owner, counts, p, va, StoreFault);
    TranslatedFrame(st, roots, base, mem, owner, counts, q, va', c);
    WritableIsExclusive(st, p, va / PAGE);
    MapperIff(st.procs, st.procs[p].pt[va / PAGE].ppn, q, va' / PAGE);
    FrameOfAddress(st.procs[p].pt[va / PAGE].ppn, va);
    FrameOfAddress(st.procs[q].pt[va' / PAGE].ppn, va');
  }
}
