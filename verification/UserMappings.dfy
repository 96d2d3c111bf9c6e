/** How the copy-on-write steps, which work on maps from page to entry, rest on the page-table trees:
    one create_mapping, one in-place store and one remove_mapping are exactly the steps' map updates. */
module UserMappings {
  import opened Options
  import opened Words
  import opened Sv39
  import opened PageTree
  import opened PageTables
  import opened VmaList
  import opened SlotCounts
  import opened CowState
  import opened CowEntries
  import opened CowSteps
  import opened CowPages
  import opened CowKernel

  /** The valid leaf entries that the walk finds for user pages. */
  ghost function Entries(mem: Memory, root: nat): map<nat, Pte> {
    map v: nat | v < USER_PAGES && IsValid(Word(mem, root, v)) :: Decode(Word(mem, root, v))
  }

  lemma SameEntries(mem: Memory, mem': Memory, r: nat)
    requires forall v: nat | v < USER_PAGES :: Word(mem', r, v) == Word(mem, r, v)
    ensures Entries(mem', r) == Entries(mem, r)
  {
  }

  /** Mapping one page sets that page's entry and no other, in any tree. */
  lemma MapOnePage(base: nat, mem: Memory, owner: Owners, counts: seq<nat>, root: nat, va: nat, pa: nat, perm: Perm,
                   mem': Memory, owner': Owners, counts': seq<nat>)
    requires IsRoot(owner, root) && RangeFits(va, PAGE) && va % PAGE == 0 && pa / PAGE < PPN_LIMIT
    requires va / PAGE % VPNS < USER_PAGES
    requires RangeMapped(MapJob(base, mem, owner, counts, root, va, pa, PAGE, PermBits(perm)), mem', owner', counts')
    requires perm.v && perm.a && (perm.w ==> perm.d)
    ensures Entries(mem', root) == Entries(mem, root)[va / PAGE % VPNS := Pte(pa / PAGE, perm)]
    ensures forall r <- owner :: IsRoot(owner, r) && r != root ==> Entries(mem', r) == Entries(mem, r)
  {
    hide MappedPerm, MakePte, GetPpn, IsValid, PermOf, PermBits, Word, Grows;
    var job := MapJob(base, mem, owner, counts, root, va, pa, PAGE, PermBits(perm));
    PermRoundTrip(perm, 0);
    MappedEntry(pa / PAGE, PermBits(perm));
    var v := va / PAGE % VPNS;
    assert job.lo == v == job.hi;
    assert Word(mem', root, v) == MakePte(pa / PAGE, MappedPerm(PermBits(perm)));
    assert Decode(Word(mem', root, v)) == Pte(pa / PAGE, perm);
    forall u: nat | u < USER_PAGES && u != v ensures Word(mem', root, u) == Word(mem, root, u) { }
    forall r | r in owner && IsRoot(owner, r) && r != root ensures Entries(mem', r) == Entries(mem, r) {
      SameEntries(mem, mem', r);
    }
  }

  /** The entries that a demand fault and fork map are in that form: create_mapping adds no permission to them. */
  lemma MappedFormOk(flags: Flags, p: Perm)
    ensures UserPerm(flags).v && UserPerm(flags).a && (UserPerm(flags).w ==> UserPerm(flags).d)
    ensures PermFits(p, flags) ==> Shared(p).v && Shared(p).a && (Shared(p).w ==> Shared(p).d)
  {
  }

  lemma LeafPresent(mem: Memory, owner: Owners, root: nat, v: nat, leaf: nat)
    requires Forest(mem, owner) && IsRoot(owner, root) && v < VPNS && LeafOf(mem, root, I2(v), I1(v)) == Some(leaf)
    ensures leaf in mem && I0(v) < |mem[leaf]|
  {
    VpnOfParts(v);
    LeafIsOwned(mem, owner, root, I2(v), I1(v));
  }

  /** Storing a valid word through the pointer that the walk returned sets one entry, in one tree. */
  lemma StoreOnePage(mem: Memory, owner: Owners, root: nat, v: nat, leaf: nat, w: nat)
    requires Forest(mem, owner) && IsRoot(owner, root) && v < USER_PAGES && IsValid(w) && Unreserved(w)
    requires LeafOf(mem, root, I2(v), I1(v)) == Some(leaf)
    ensures leaf in mem && I0(v) < |mem[leaf]|
    ensures var mem' := Store(mem, leaf, I0(v), w);
      && Forest(mem', owner)
      && Entries(mem', root) == Entries(mem, root)[v := Decode(w)]
      && forall r <- owner :: IsRoot(owner, r) && r != root ==> Entries(mem', r) == Entries(mem, r)
  {
    hide Word, IsValid, Unreserved, Decode, Forest;
    VpnOfParts(v);
    LeafPresent(mem, owner, root, v, leaf);
    StoreLeaf(mem, owner, root, I2(v), I1(v), I0(v), leaf, w);
    var mem' := Store(mem, leaf, I0(v), w);
    forall r | r in owner && IsRoot(owner, r) && r != root ensures Entries(mem', r) == Entries(mem, r) {
      SameEntries(mem, mem', r);
    }
  }

  /** fork's update of a parent entry, `|= S` and then `&= ~W`, gives the shared permissions. */
  lemma SharedWord(w: nat)
    ensures Decode(AndNot(Or(w, Pow2(S_BIT)), Pow2(W_BIT))) == Pte(GetPpn(w), Shared(PermOf(w)))
  {
    SetBits(w);
    ClearBits(Or(w, Pow2(S_BIT)));
  }

  // ----- what remove_mapping drops

  function Less(x: nat, y: nat): nat { if x >= y then x - y else 0 }

  ghost predicate CountLess(st: State, st': State, mem: Memory, root: nat, f: nat, lo: nat, n: nat)
    requires f in st.count && f in st'.count
  {
    st'.count[f] == Less(st.count[f], Uses(mem, root, f, lo, lo + n))
  }

  /** The state after remove_mapping has treated the first n pages from lo on. */
  ghost predicate RangeDropped(st: State, st': State, p: nat, lo: nat, n: nat, mem: Memory, root: nat)
    requires p in st.procs
  {
    && p in st'.procs && st'.procs == st.procs[p := st.procs[p].(pt := st'.procs[p].pt)] && st'.count.Keys == st.count.Keys
    && (forall v: nat :: v in st'.procs[p].pt <==> v in st.procs[p].pt && !(lo <= v < lo + n))
    && (forall v <- st'.procs[p].pt :: st'.procs[p].pt[v] == st.procs[p].pt[v])
    && forall f <- st.count :: CountLess(st, st', mem, root, f, lo, n)
  }

  lemma NoneDropped(st: State, p: nat, lo: nat, mem: Memory, root: nat)
    requires p in st.procs
    ensures RangeDropped(st, DropPages(st, p, PageRange(lo, 0)), p, lo, 0, mem, root)
  {
    assert PageRange(lo, 0) == [];
  }

  lemma CountDropped(st: State, mid: State, st': State, mem: Memory, root: nat, f: nat, lo: nat, n: nat, pt: map<nat, Pte>)
    requires f in st.count && f in mid.count && f in st'.count && CountLess(st, mid, mem, root, f, lo, n)
    requires pt == Entries(mem, root) && lo + n < USER_PAGES
    requires st'.count == if lo + n in pt then Deref(mid.count, pt[lo + n].ppn) else mid.count
    ensures CountLess(st, st', mem, root, f, lo, n + 1)
  {
    hide Word;
    assert Uses(mem, root, f, lo, lo + (n + 1)) == Uses(mem, root, f, lo, lo + n) + if MapsFrame(mem, root, lo + n, f) then 1 else 0;
  }

  lemma OneMoreDropped(st: State, mid: State, p: nat, lo: nat, n: nat, mem: Memory, root: nat)
    requires p in st.procs && lo + n < USER_PAGES && st.procs[p].pt == Entries(mem, root)
    requires RangeDropped(st, mid, p, lo, n, mem, root)
    ensures RangeDropped(st, DropPage(mid, p, lo + n), p, lo, n + 1, mem, root)
  {
    hide Entries, Uses, Less, CountLess;
    var v, st' := lo + n, DropPage(mid, p, lo + n);
    forall f | f in st.count ensures f in st'.count && CountLess(st, st', mem, root, f, lo, n + 1) {
      assert CountLess(st, mid, mem, root, f, lo, n);
      assert v in mid.procs[p].pt <==> v in st.procs[p].pt;
      CountDropped(st, mid, st', mem, root, f, lo, n, st.procs[p].pt);
    }
  }

  lemma {:induction false} DropsRange(st: State, p: nat, lo: nat, n: nat, mem: Memory, root: nat)
    requires p in st.procs && lo + n <= USER_PAGES && st.procs[p].pt == Entries(mem, root)
    ensures RangeDropped(st, DropPages(st, p, PageRange(lo, n)), p, lo, n, mem, root)
    decreases n
  {
    hide RangeDropped, Entries, DropPages, DropPage, PageRange;
    if n == 0 {
      NoneDropped(st, p, lo, mem, root);
    } else {
      DropsRange(st, p, lo, n - 1, mem, root);
      var init, v := PageRange(lo, n - 1), lo + (n - 1);
      OneMorePage([], lo, n - 1);
      assert [] + PageRange(lo, n) == PageRange(lo, n) && [] + init == init;
      DropAppend(st, p, init, v);
      OneMoreDropped(st, DropPages(st, p, init), p, lo, n - 1, mem, root);
    }
  }

  ghost predicate Counted(st: State, f: nat, n: nat) { f in st.count && st.count[f] == n }

  ghost predicate CountsAgree(st: State, base: nat, owner: Owners, counts: seq<nat>) {
    forall k | 0 <= k < |counts| && base + k !in owner :: Counted(st, base + k, counts[k])
  }

  lemma RemovedEntries(job: Job, mem': Memory)
    requires job.lo <= job.hi < USER_PAGES && OthersKept(job, mem') && IsRoot(job.owner, job.root)
    requires forall v: nat | job.lo <= v <= job.hi :: Word(mem', job.root, v) == 0
    ensures forall v: nat :: v in Entries(mem', job.root) <==>
      v in Entries(job.mem, job.root) && !(job.lo <= v <= job.hi)
    ensures forall v <- Entries(mem', job.root) :: Entries(mem', job.root)[v] == Entries(job.mem, job.root)[v]
  {
    hide Word, Decode;
  }

  lemma DroppedCounts(job: Job, mem': Memory, owner': Owners, counts': seq<nat>, st: State, st': State, p: nat)
    requires RangeUnmapped(job, mem', owner', counts') && CountsAgree(st, job.base, job.owner, job.counts)
    requires p in st.procs && job.lo <= job.hi && RangeDropped(st, st', p, job.lo, job.hi + 1 - job.lo, job.mem, job.root)
    ensures CountsAgree(st', job.base, owner', counts')
  {
    hide Word, Uses, OthersKept;
    forall k | 0 <= k < |counts'| && job.base + k !in owner' ensures Counted(st', job.base + k, counts'[k]) {
      var f := job.base + k;
      assert f !in job.owner && Counted(st, f, job.counts[k]);
      assert CountLess(st, st', job.mem, job.root, f, job.lo, job.hi + 1 - job.lo);
    }
  }

  /** remove_mapping on the tree is DropPages on the map, and the counts agree for every frame that is not a table. */
  lemma RemoveIsDrop(job: Job, mem': Memory, owner': Owners, counts': seq<nat>, st: State, p: nat)
    requires job.goal.Unmap? && RangeUnmapped(job, mem', owner', counts') && IsRoot(job.owner, job.root)
    requires job.lo <= job.hi < USER_PAGES
    requires p in st.procs && st.procs[p].pt == Entries(job.mem, job.root)
    requires CountsAgree(st, job.base, job.owner, job.counts)
    ensures var st' := DropPages(st, p, PageRange(job.lo, job.hi + 1 - job.lo));
      && st'.procs[p].pt == Entries(mem', job.root)
      && (forall q <- st.procs :: q != p ==> st'.procs[q] == st.procs[q])
      && (forall r <- job.owner :: IsRoot(job.owner, r) && r != job.root ==> Entries(mem', r) == Entries(job.mem, r))
      && CountsAgree(st', job.base, owner', counts')
  {
    hide Word, Decode, DropPages, PageRange, Uses, Entries, CountsAgree;
    DropsRange(st, p, job.lo, job.hi + 1 - job.lo, job.mem, job.root);
    var st' := DropPages(st, p, PageRange(job.lo, job.hi + 1 - job.lo));
    forall r | r in job.owner && IsRoot(job.owner, r) && r != job.root ensures Entries(mem', r) == Entries(job.mem, r) {
      SameEntries(job.mem, mem', r);
    }
    RemovedEntries(job, mem');
    DroppedCounts(job, mem', owner', counts', st, st', p);
    assert st'.procs[p].pt == Entries(mem', job.root);
  }

  // ----- the flat state and the machine

  /** A page in RAM that is in use and is no table. */
  ghost predicate UserFrame(base: nat, owner: Owners, counts: seq<nat>, f: nat) {
    base <= f < base + |counts| && f !in owner && counts[f - base] > 0
  }

  ghost predicate UserFrames(st: State, base: nat, owner: Owners, counts: seq<nat>) {
    forall p <- st.procs, v <- st.procs[p].pt :: UserFrame(base, owner, counts, st.procs[p].pt[v].ppn)
  }

  /** The steps' state stands for the trees and the allocator's counts: every process's map holds the entries that
      its tree has for user pages, those entries map pages that are in use and no tables, and every frame that is no
      table has the allocator's count. */
  ghost predicate Agrees(st: State, roots: map<nat, nat>, base: nat, mem: Memory, owner: Owners, counts: seq<nat>) {
    && roots.Keys == st.procs.Keys
    && (forall p <- st.procs :: IsRoot(owner, roots[p]) && st.procs[p].pt == Entries(mem, roots[p]))
    && (forall p <- roots, q <- roots :: p != q ==> roots[p] != roots[q])
    && CountsAgree(st, base, owner, counts)
    && UserFrames(st, base, owner, counts)
  }

  /** Areas are not part of the agreement, ... */
  lemma AreasAgree(st: State, roots: map<nat, nat>, base: nat, mem: Memory, owner: Owners, counts: seq<nat>,
                   p: nat, vs: seq<Vma>, spare: nat)
    requires Agrees(st, roots, base, mem, owner, counts) && p in st.procs
    ensures Agrees(st.(procs := SetAreas(st.procs, p, vs, spare)), roots, base, mem, owner, counts)
  {
    hide Entries, UserFrame;
    var st' := st.(procs := SetAreas(st.procs, p, vs, spare));
    forall k | 0 <= k < |counts| && base + k !in owner ensures Counted(st', base + k, counts[k]) {
      assert Counted(st, base + k, counts[k]);
    }
  }

  /** ... nor is what the pages hold. */
  lemma MemoryAgrees(st: State, roots: map<nat, nat>, base: nat, mem: Memory, owner: Owners, counts: seq<nat>, contents: map<nat, Page>)
    requires Agrees(st, roots, base, mem, owner, counts)
    ensures Agrees(st.(mem := contents), roots, base, mem, owner, counts)
  {
    hide Entries, UserFrame;
    forall k | 0 <= k < |counts| && base + k !in owner ensures Counted(st.(mem := contents), base + k, counts[k]) {
      assert Counted(st, base + k, counts[k]);
    }
  }

  /** alloc_page hands out frame k with count 1. */
  lemma AllocAgrees(st: State, roots: map<nat, nat>, base: nat, mem: Memory, owner: Owners, counts: seq<nat>, k: nat)
    requires Agrees(st, roots, base, mem, owner, counts) && k < |counts| && base + k !in owner
    ensures Agrees(st.(count := st.count[base + k := 1]), roots, base, mem, owner, counts[k := 1])
  {
    hide Entries;
    var st', counts' := st.(count := st.count[base + k := 1]), counts[k := 1];
    forall l | 0 <= l < |counts'| && base + l !in owner ensures Counted(st', base + l, counts'[l]) {
      assert Counted(st, base + l, counts[l]);
    }
    forall q, u | q in st.procs && u in st.procs[q].pt ensures UserFrame(base, owner, counts', st.procs[q].pt[u].ppn) {
      assert UserFrame(base, owner, counts, st.procs[q].pt[u].ppn);
    }
  }

  /** ref_page on a frame in use. */
  lemma RefAgrees(st: State, roots: map<nat, nat>, base: nat, mem: Memory, owner: Owners, counts: seq<nat>, k: nat)
    requires Agrees(st, roots, base, mem, owner, counts) && k < |counts| && base + k !in owner && counts[k] > 0
    ensures Agrees(st.(count := Ref(st.count, base + k)), roots, base, mem, owner, counts[k := counts[k] + 1])
  {
    hide Entries;
    assert Counted(st, base + k, counts[k]);
    var st', counts' := st.(count := Ref(st.count, base + k)), counts[k := counts[k] + 1];
    forall l | 0 <= l < |counts| && base + l !in owner ensures Counted(st', base + l, counts'[l]) {
      assert Counted(st, base + l, counts[l]);
    }
    forall q, u | q in st.procs && u in st.procs[q].pt ensures UserFrame(base, owner, counts', st.procs[q].pt[u].ppn) {
      assert UserFrame(base, owner, counts, st.procs[q].pt[u].ppn);
    }
  }

  /** deref_page on a frame in use, unless it takes the last reference from under a user entry. */
  lemma DerefAgrees(st: State, roots: map<nat, nat>, base: nat, mem: Memory, owner: Owners, counts: seq<nat>, k: nat)
    requires Agrees(st, roots, base, mem, owner, counts) && k < |counts| && base + k !in owner && counts[k] > 0
    requires counts[k] > 1 || Mappers(st.procs, base + k) == {}
    ensures Agrees(st.(count := Deref(st.count, base + k)), roots, base, mem, owner, counts[k := counts[k] - 1])
  {
    hide Entries, Mappers;
    assert Counted(st, base + k, counts[k]);
    var st', counts' := st.(count := Deref(st.count, base + k)), counts[k := counts[k] - 1];
    forall l | 0 <= l < |counts| && base + l !in owner ensures Counted(st', base + l, counts'[l]) {
      assert Counted(st, base + l, counts[l]);
    }
    forall q, u | q in st.procs && u in st.procs[q].pt ensures UserFrame(base, owner, counts', st.procs[q].pt[u].ppn) {
      assert UserFrame(base, owner, counts, st.procs[q].pt[u].ppn);
      MapperIff(st.procs, base + k, q, u);
    }
  }

  lemma UserFrameKept(base: nat, owner: Owners, counts: seq<nat>, owner': Owners, counts': seq<nat>, f: nat)
    requires UserFrame(base, owner, counts, f) && TablesAdded(base, owner, counts, owner', counts')
    ensures UserFrame(base, owner', counts', f)
  {
    assert CountAdded(owner, counts[f - base], owner', counts'[f - base], base + (f - base));
  }

  /** Tables are taken from free pages, so a user's page stays one. */
  lemma UserFramesKept(st: State, base: nat, owner: Owners, counts: seq<nat>, owner': Owners, counts': seq<nat>)
    requires UserFrames(st, base, owner, counts) && TablesAdded(base, owner, counts, owner', counts')
    ensures UserFrames(st, base, owner', counts')
  {
    forall q, u | q in st.procs && u in st.procs[q].pt ensures UserFrame(base, owner', counts', st.procs[q].pt[u].ppn) {
      UserFrameKept(base, owner, counts, owner', counts', st.procs[q].pt[u].ppn);
    }
  }

  lemma SetUserFrame(st: State, p: nat, v: nat, e: Pte, base: nat, owner: Owners, counts: seq<nat>)
    requires UserFrames(st, base, owner, counts) && p in st.procs && UserFrame(base, owner, counts, e.ppn)
    ensures UserFrames(st.(procs := SetPte(st.procs, p, v, e)), base, owner, counts)
  {
    hide UserFrame;
  }

  lemma RootsGrow(st: State, roots: map<nat, nat>, job: Job, mem': Memory, owner': Owners, counts': seq<nat>)
    requires roots.Keys == st.procs.Keys && (forall q <- st.procs :: IsRoot(job.owner, roots[q]))
    requires job.goal.MapTo? && RangeMapped(job, mem', owner', counts')
    ensures TablesAdded(job.base, job.owner, job.counts, owner', counts')
    ensures forall q <- st.procs :: roots[q] in job.owner && IsRoot(owner', roots[q])
  {
    hide OthersKept, Word, TablesAdded;
  }

  lemma SetCounts(st: State, p: nat, v: nat, e: Pte, base: nat, owner: Owners, counts: seq<nat>)
    requires CountsAgree(st, base, owner, counts) && p in st.procs
    ensures CountsAgree(st.(procs := SetPte(st.procs, p, v, e)), base, owner, counts)
  {
    forall k | 0 <= k < |counts| && base + k !in owner ensures Counted(st.(procs := SetPte(st.procs, p, v, e)), base + k, counts[k]) {
      assert Counted(st, base + k, counts[k]);
    }
  }

  /** A user range has user pages, whose numbers the walk does not cut. */
  lemma UserRange(va: nat, sz: nat)
    requires sz > 0 && va + sz <= USER_END
    ensures RangeFits(va, sz) && FirstVpn(va) == va / PAGE <= LastVpn(va, sz) == (va + sz - 1) / PAGE < USER_PAGES
  {
  }

  lemma CountsAfterTables(st: State, base: nat, owner: Owners, counts: seq<nat>, owner': Owners, counts': seq<nat>)
    requires CountsAgree(st, base, owner, counts) && TablesAdded(base, owner, counts, owner', counts')
    ensures CountsAgree(st, base, owner', counts')
  {
    forall k | 0 <= k < |counts'| && base + k !in owner' ensures Counted(st, base + k, counts'[k]) {
      assert CountAdded(owner, counts[k], owner', counts'[k], base + k);
      assert Counted(st, base + k, counts[k]);
    }
  }

  /** create_mapping of one page, as in a demand fault and in fork: tables may be taken, user frames keep their counts. */
  lemma MapAgrees(st: State, roots: map<nat, nat>, base: nat, mem: Memory, owner: Owners, counts: seq<nat>,
                  p: nat, va: nat, pa: nat, perm: Perm, mem': Memory, owner': Owners, counts': seq<nat>)
    requires Agrees(st, roots, base, mem, owner, counts) && p in st.procs
    requires va % PAGE == 0 && va < USER_END && pa / PAGE < PPN_LIMIT && UserFrame(base, owner, counts, pa / PAGE)
    requires RangeMapped(MapJob(base, mem, owner, counts, roots[p], va, pa, PAGE, PermBits(perm)), mem', owner', counts')
    requires perm.v && perm.a && (perm.w ==> perm.d)
    ensures Agrees(st.(procs := SetPte(st.procs, p, va / PAGE, Pte(pa / PAGE, perm))), roots, base, mem', owner', counts')
  {
    hide Entries, RangeMapped, MappedPerm, PermBits, UserFrame, UserFrames, CountsAgree, TablesAdded;
    UserRange(va, PAGE);
    MapOnePage(base, mem, owner, counts, roots[p], va, pa, perm, mem', owner', counts');
    RootsGrow(st, roots, MapJob(base, mem, owner, counts, roots[p], va, pa, PAGE, PermBits(perm)), mem', owner', counts');
    CountsAfterTables(st, base, owner, counts, owner', counts');
    UserFramesKept(st, base, owner, counts, owner', counts');
    UserFrameKept(base, owner, counts, owner', counts', pa / PAGE);
    SetUserFrame(st, p, va / PAGE, Pte(pa / PAGE, perm), base, owner', counts');
    SetCounts(st, p, va / PAGE, Pte(pa / PAGE, perm), base, owner', counts');
  }

  /** An in-place store to a user entry: fork's marking, the handler's copy and its taking over of a page. */
  lemma StoreAgrees(st: State, roots: map<nat, nat>, base: nat, mem: Memory, owner: Owners, counts: seq<nat>,
                    p: nat, v: nat, leaf: nat, w: nat)
    requires Agrees(st, roots, base, mem, owner, counts) && p in st.procs && Forest(mem, owner)
    requires v < USER_PAGES && IsValid(w) && Unreserved(w) && LeafOf(mem, roots[p], I2(v), I1(v)) == Some(leaf)
    requires UserFrame(base, owner, counts, Decode(w).ppn)
    ensures leaf in mem && I0(v) < |mem[leaf]|
    ensures Agrees(st.(procs := SetPte(st.procs, p, v, Decode(w))), roots, base, Store(mem, leaf, I0(v), w), owner, counts)
  {
    hide Entries, Decode, IsValid, Unreserved, Forest, LeafOf, Store, UserFrame, UserFrames, CountsAgree;
    StoreOnePage(mem, owner, roots[p], v, leaf, w);
    SetCounts(st, p, v, Decode(w), base, owner, counts);
    SetUserFrame(st, p, v, Decode(w), base, owner, counts);
  }

  // ----- what may be unmapped

  /** Process p's entries for the n pages from lo on that map frame f. */
  ghost function RangeMappers(p: nat, pt: map<nat, Pte>, f: nat, lo: nat, end: nat): set<(nat, nat)> {
    set v | v in pt && lo <= v < end && pt[v].ppn == f :: (p, v)
  }

  lemma RangeMapperIff(p: nat, pt: map<nat, Pte>, f: nat, lo: nat, end: nat, q: nat, u: nat)
    ensures (q, u) in RangeMappers(p, pt, f, lo, end) <==> q == p && u in pt && lo <= u < end && pt[u].ppn == f
  {
  }

  lemma OneMoreMapper(p: nat, pt: map<nat, Pte>, f: nat, lo: nat, v: nat)
    requires lo <= v
    ensures RangeMappers(p, pt, f, lo, v + 1) == RangeMappers(p, pt, f, lo, v) + (if v in pt && pt[v].ppn == f then {(p, v)} else {})
    ensures (p, v) !in RangeMappers(p, pt, f, lo, v)
  {
  }

  lemma NoMapper(p: nat, pt: map<nat, Pte>, f: nat, lo: nat, end: nat)
    requires end <= lo
    ensures RangeMappers(p, pt, f, lo, end) == {}
  {
  }

  lemma EntryMaps(mem: Memory, root: nat, f: nat, v: nat)
    requires v < USER_PAGES
    ensures MapsFrame(mem, root, v, f) <==> v in Entries(mem, root) && Entries(mem, root)[v].ppn == f
  {
  }

  /** The tree's number of uses is the number of the map's entries. */
  lemma {:induction false} UsesAreMappers(mem: Memory, root: nat, p: nat, pt: map<nat, Pte>, f: nat, lo: nat, end: nat)
    requires pt == Entries(mem, root) && end <= USER_PAGES
    ensures Uses(mem, root, f, lo, end) == |RangeMappers(p, pt, f, lo, end)|
    decreases end
  {
    hide Word, RangeMappers, Entries, MapsFrame;
    if end > lo {
      UsesAreMappers(mem, root, p, pt, f, lo, end - 1);
      OneMoreMapper(p, pt, f, lo, end - 1);
      EntryMaps(mem, root, f, end - 1);
    } else {
      NoMapper(p, pt, f, lo, end);
    }
  }

  lemma SmallerSet(s: set<(nat, nat)>, t: set<(nat, nat)>)
    requires s <= t
    ensures |s| <= |t| && (s != t ==> |s| < |t|)
  {
    assert t == s + (t - s);
  }

  /** A frame's count covers the uses of any range, with one to spare if some entry outside the range maps it. */
  lemma UsesAreCounted(st: State, roots: map<nat, nat>, base: nat, mem: Memory, owner: Owners, counts: seq<nat>,
                       p: nat, lo: nat, end: nat, q: nat, u: nat)
    requires Inv(st) && Agrees(st, roots, base, mem, owner, counts) && p in st.procs && end <= USER_PAGES
    requires q in st.procs && u in st.procs[q].pt
    ensures var f := st.procs[q].pt[u].ppn;
      && UserFrame(base, owner, counts, f)
      && Uses(mem, roots[p], f, lo, end) <= counts[f - base]
      && (!(q == p && lo <= u < end) ==> Uses(mem, roots[p], f, lo, end) < counts[f - base])
  {
    hide Entries, Uses, Mappers, RangeMappers, Inv;
    var f, pt := st.procs[q].pt[u].ppn, st.procs[p].pt;
    assert UserFrame(base, owner, counts, f);
    assert Counted(st, base + (f - base), counts[f - base]);
    MappedFrame(st, q, u);
    UsesAreMappers(mem, roots[p], p, pt, f, lo, end);
    forall m | m in RangeMappers(p, pt, f, lo, end) ensures m in Mappers(st.procs, f) {
      RangeMapperIff(p, pt, f, lo, end, m.0, m.1);
      MapperIff(st.procs, f, m.0, m.1);
    }
    RangeMapperIff(p, pt, f, lo, end, q, u);
    SmallerSet(RangeMappers(p, pt, f, lo, end), Mappers(st.procs, f));
  }

  lemma UserFrameIs(base: nat, owner: Owners, counts: seq<nat>, f: nat)
    requires UserFrame(base, owner, counts, f)
    ensures base <= f < base + |counts| && f !in owner
  {
  }

  /** In every reachable state whatever a process has in a user range can be unmapped: its entries map RAM pages
      that are no tables, and their counts cover the entries. */
  lemma UserRangeRemovable(st: State, roots: map<nat, nat>, base: nat, mem: Memory, owner: Owners, counts: seq<nat>,
                           p: nat, va: nat, sz: nat)
    requires Inv(st) && Agrees(st, roots, base, mem, owner, counts) && p in st.procs && sz > 0 && va + sz <= USER_END
    ensures RangeFits(va, sz) && Removable(UnmapJob(base, mem, owner, counts, roots[p], va, sz))
  {
    hide Word, IsValid, GetPpn, Uses, Inv, UserFrame;
    UserRange(va, sz);
    var job := UnmapJob(base, mem, owner, counts, roots[p], va, sz);
    forall v: nat | job.lo <= v <= job.hi ensures RemovableEntry(job, v) {
      if IsValid(Word(mem, roots[p], v)) {
        assert v in Entries(mem, roots[p]);
        UsesAreCounted(st, roots, base, mem, owner, counts, p, job.lo, job.hi + 1, p, v);
        UserFrameIs(base, owner, counts, GetPpn(Word(mem, roots[p], v)));
      }
    }
  }

  /** The three loop bounds leave nothing between lo and hi. */
  predicate LoopsEmpty(lo: nat, hi: nat) {
    I2(hi) < I2(lo) || (I2(hi) == I2(lo) && (I1(hi) < I1(lo) || (I1(hi) == I1(lo) && I0(hi) < I0(lo))))
  }

  lemma NothingBetween(lo: nat, hi: nat)
    requires hi < lo < VPNS
    ensures LoopsEmpty(lo, hi)
  {
    VpnOfParts(lo);
    VpnOfParts(hi);
  }

  lemma EndsBefore(va: nat, end: nat)
    requires va % PAGE == 0 && end < va < USER_END
    ensures end / PAGE < va / PAGE < VPNS && end / PAGE % VPNS == end / PAGE
  {
  }

  /** A range from a user page whose end wraps around has no pages for remove_mapping, unless it ends at 2^64 exactly:
      then it has all that follow, the kernel's included. */
  lemma WrappedRange(va: nat, len: nat)
    requires va % PAGE == 0 && len % PAGE == 0 && va < USER_END && len < WORD <= va + len
    ensures var lo, hi := FirstVpn(va), (va + len - 1) % WORD / PAGE % VPNS;
      if va + len == WORD then lo < hi == VPNS - 1 else LoopsEmpty(lo, hi)
  {
    hide LoopsEmpty;
    UserRange(va, 1);
    if va + len == WORD {
      assert (va + len - 1) % WORD == WORD - 1;
    } else {
      var end := va + len - 1 - WORD;
      assert (va + len - 1) % WORD == end;
      EndsBefore(va, end);
      NothingBetween(va / PAGE, end / PAGE);
    }
  }

  /** Every range that munmap's checks let through is one. */
  lemma MunmapRangeRemovable(st: State, roots: map<nat, nat>, base: nat, mem: Memory, owner: Owners, counts: seq<nat>,
                             va: nat, len: nat)
    requires Inv(st) && Agrees(st, roots, base, mem, owner, counts) && len > 0
    requires MunmapOk(st.procs[st.cur].vmas, va, len)
    ensures RangeFits(va, len) && Removable(UnmapJob(base, mem, owner, counts, roots[st.cur], va, len))
  {
    hide Removable, Mappers, RangeFits;
    var vs := st.procs[st.cur].vmas;
    assert InUser(vs) by { CurOk(st); }
    assert Covered(vs, va + len - 1);
    UserRangeRemovable(st, roots, base, mem, owner, counts, st.cur, va, len);
  }

  // ----- remove_mapping keeps the agreement

  lemma RootsStay(st: State, roots: map<nat, nat>, job: Job, mem': Memory, owner': Owners, counts': seq<nat>)
    requires roots.Keys == st.procs.Keys && (forall q <- st.procs :: IsRoot(job.owner, roots[q]))
    requires RangeUnmapped(job, mem', owner', counts')
    ensures forall q <- st.procs :: roots[q] in job.owner && IsRoot(owner', roots[q])
  {
    hide OthersKept, Uses, Word;
  }

  lemma SameLength(job: Job, mem': Memory, owner': Owners, counts': seq<nat>)
    requires RangeUnmapped(job, mem', owner', counts')
    ensures |counts'| == |job.counts|
  {
  }

  /** A frame that is still mapped was counted more often than the range mapped it, so it has not been released. */
  lemma StillUserFrame(st: State, roots: map<nat, nat>, job: Job, p: nat, mem': Memory, owner': Owners, counts': seq<nat>, q: nat, u: nat)
    requires Inv(st) && Agrees(st, roots, job.base, job.mem, job.owner, job.counts) && p in st.procs && job.root == roots[p]
    requires job.goal.Unmap? && RangeUnmapped(job, mem', owner', counts') && job.lo <= job.hi < USER_PAGES
    requires q in st.procs && u in st.procs[q].pt && !(q == p && job.lo <= u <= job.hi)
    ensures UserFrame(job.base, owner', counts', st.procs[q].pt[u].ppn)
  {
    hide RangeUnmapped, Agrees, Inv, Uses;
    var f := st.procs[q].pt[u].ppn;
    UsesAreCounted(st, roots, job.base, job.mem, job.owner, job.counts, p, job.lo, job.hi + 1, q, u);
    assert job.base + (f - job.base) == f;
    FallIsExact(job, mem', owner', counts', f - job.base);
    SameLength(job, mem', owner', counts');
  }

  lemma UserFramesAfterDrop(st: State, roots: map<nat, nat>, job: Job, p: nat, mem': Memory, owner': Owners, counts': seq<nat>)
    requires Inv(st) && Agrees(st, roots, job.base, job.mem, job.owner, job.counts) && p in st.procs && job.root == roots[p]
    requires job.goal.Unmap? && RangeUnmapped(job, mem', owner', counts') && job.lo <= job.hi < USER_PAGES
    ensures UserFrames(DropPages(st, p, PageRange(job.lo, job.hi + 1 - job.lo)), job.base, owner', counts')
  {
    hide RangeUnmapped, Inv, Entries, Uses, UserFrame, DropPages, PageRange, CountsAgree;
    var st' := DropPages(st, p, PageRange(job.lo, job.hi + 1 - job.lo));
    DropsRange(st, p, job.lo, job.hi + 1 - job.lo, job.mem, job.root);
    forall q, u | q in st'.procs && u in st'.procs[q].pt ensures UserFrame(job.base, owner', counts', st'.procs[q].pt[u].ppn) {
      StillUserFrame(st, roots, job, p, mem', owner', counts', q, u);
    }
  }

  /** remove_mapping, as in munmap, exec and exit. */
  lemma RemoveAgrees(st: State, roots: map<nat, nat>, job: Job, p: nat, mem': Memory, owner': Owners, counts': seq<nat>)
    requires Inv(st) && Agrees(st, roots, job.base, job.mem, job.owner, job.counts) && p in st.procs && job.root == roots[p]
    requires job.goal.Unmap? && RangeUnmapped(job, mem', owner', counts') && job.lo <= job.hi < USER_PAGES
    ensures Agrees(DropPages(st, p, PageRange(job.lo, job.hi + 1 - job.lo)), roots, job.base, mem', owner', counts')
  {
    hide Entries, DropPages, PageRange, RangeUnmapped, CountsAgree, UserFrame, UserFrames, Inv;
    RootsStay(st, roots, job, mem', owner', counts');
    RemoveIsDrop(job, mem', owner', counts', st, p);
    UserFramesAfterDrop(st, roots, job, p, mem', owner', counts');
  }

  // ----- a new process

  /** A copy of a table without user entries has none either, and nothing of the other trees' changes. */
  lemma CopiedEntries(mem: Memory, owner: Owners, src: nat, dst: nat, mem': Memory)
    requires Entries(mem, src) == map[] && IsRoot(owner, src)
    requires forall v: nat | v < VPNS :: Word(mem', dst, v) == Word(mem', src, v)
    requires forall r, v: nat | IsRoot(owner, r) && v < VPNS :: Word(mem', r, v) == Word(mem, r, v)
    ensures Entries(mem', dst) == map[]
    ensures forall r <- owner :: IsRoot(owner, r) ==> Entries(mem', r) == Entries(mem, r)
  {
    hide Word, IsValid, Decode;
    forall r | r in owner && IsRoot(owner, r) ensures Entries(mem', r) == Entries(mem, r) {
      SameEntries(mem, mem', r);
    }
    forall v: nat | v < USER_PAGES ensures !IsValid(Word(mem', dst, v)) {
      assert v in Entries(mem, src) <==> IsValid(Word(mem, src, v));
    }
  }

  lemma NewRoot(st: State, base: nat, owner: Owners, counts: seq<nat>, dst: nat)
    requires UserFrames(st, base, owner, counts) && CountsAgree(st, base, owner, counts)
    requires forall p <- st.procs, v <- st.procs[p].pt :: st.procs[p].pt[v].ppn != dst
    ensures UserFrames(st, base, owner[dst := Root], counts) && CountsAgree(st, base, owner[dst := Root], counts)
  {
    forall q, u | q in st.procs && u in st.procs[q].pt ensures UserFrame(base, owner[dst := Root], counts, st.procs[q].pt[u].ppn) {
      assert UserFrame(base, owner, counts, st.procs[q].pt[u].ppn);
    }
  }

  lemma NewProc(st: State, base: nat, owner: Owners, counts: seq<nat>, child: nat, vs: seq<Vma>)
    requires UserFrames(st, base, owner, counts) && CountsAgree(st, base, owner, counts) && child !in st.procs
    ensures UserFrames(st.(procs := st.procs[child := Proc(vs, map[], 0)]), base, owner, counts)
    ensures CountsAgree(st.(procs := st.procs[child := Proc(vs, map[], 0)]), base, owner, counts)
  {
    hide UserFrame;
    forall k | 0 <= k < |counts| && base + k !in owner
      ensures Counted(st.(procs := st.procs[child := Proc(vs, map[], 0)]), base + k, counts[k])
    {
      assert Counted(st, base + k, counts[k]);
    }
  }

  /** fork's copy_mapping of the kernel's table, which has no user entries, makes the child's empty map; dst is the
      page allocated for the child's root. */
  lemma CopyAgrees(st: State, roots: map<nat, nat>, base: nat, mem: Memory, owner: Owners, counts: seq<nat>,
                   src: nat, child: nat, dst: nat, vs: seq<Vma>, mem': Memory, owner': Owners, counts': seq<nat>)
    requires Agrees(st, roots, base, mem, owner, counts) && child !in st.procs && dst !in owner
    requires forall p <- st.procs, v <- st.procs[p].pt :: st.procs[p].pt[v].ppn != dst
    requires Entries(mem, src) == map[] && IsRoot(owner, src) && IsRoot(owner', dst)
    requires forall f <- owner :: f in owner' && owner'[f] == owner[f]
    requires forall v: nat | v < VPNS :: Word(mem', dst, v) == Word(mem', src, v)
    requires forall r, v: nat | IsRoot(owner, r) && v < VPNS :: Word(mem', r, v) == Word(mem, r, v)
    requires TablesAdded(base, owner[dst := Root], counts, owner', counts')
    ensures Agrees(st.(procs := st.procs[child := Proc(vs, map[], 0)]), roots[child := dst], base, mem', owner', counts')
  {
    hide Word, UserFrames, CountsAgree, TablesAdded, Entries;
    CopiedEntries(mem, owner, src, dst, mem');
    NewRoot(st, base, owner, counts, dst);
    UserFramesKept(st, base, owner[dst := Root], counts, owner', counts');
    CountsAfterTables(st, base, owner[dst := Root], counts, owner', counts');
    NewProc(st, base, owner', counts', child, vs);
  }
}
