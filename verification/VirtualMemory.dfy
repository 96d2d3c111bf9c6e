/** create_mapping, remove_mapping, copy_mapping and the walks (arch/riscv/kernel/vm.c) over real
    page-table frames taken from the page allocator. */
module PageTables {
  import opened Options
  import opened Words
  import opened Sv39
  import opened PageTree
  import opened PageAllocator
  import BuddyTree

  // ----- vpn ranges

  /** First and last entry of second-level table (i, j) that the range lo..hi touches. */
  function FirstJ(lo: nat, i: nat): nat { if i == I2(lo) then I1(lo) else 0 }

  function LastJ(hi: nat, i: nat): nat { if i == I2(hi) then I1(hi) else 511 }

  function FirstK(lo: nat, i: nat, j: nat): nat { if i == I2(lo) && j == I1(lo) then I0(lo) else 0 }

  function LastK(hi: nat, i: nat, j: nat): nat { if i == I2(hi) && j == I1(hi) then I0(hi) else 511 }

  function Begin(lo: nat, i: nat, j: nat): nat { Vpn(i, j, FirstK(lo, i, j)) }

  /** Page number that follows table (i, j) within the range. */
  function After(hi: nat, i: nat, j: nat): nat { Vpn(i, j, LastK(hi, i, j)) + 1 }

  lemma RangeOrder(lo: nat, hi: nat)
    requires lo <= hi < VPNS
    ensures I2(lo) <= I2(hi) && (I2(lo) == I2(hi) ==> I1(lo) <= I1(hi))
    ensures I2(lo) == I2(hi) && I1(lo) == I1(hi) ==> I0(lo) <= I0(hi)
  {
    VpnOfParts(lo);
    VpnOfParts(hi);
  }

  /** The ragged loops visit the range consecutively: each inner range starts where the last one ended. */
  lemma Consecutive(lo: nat, hi: nat, i: nat, j: nat)
    requires lo <= hi < VPNS && I2(lo) <= i <= I2(hi) && FirstJ(lo, i) <= j <= LastJ(hi, i)
    ensures i < 512 && j < 512 && FirstK(lo, i, j) <= LastK(hi, i, j) < 512
    ensures lo <= Begin(lo, i, j) < After(hi, i, j) <= hi + 1
    ensures i == I2(lo) && j == FirstJ(lo, i) ==> Begin(lo, i, j) == lo
    ensures j < LastJ(hi, i) ==> After(hi, i, j) == Begin(lo, i, j + 1)
    ensures j == LastJ(hi, i) && i < I2(hi) ==> After(hi, i, j) == Begin(lo, i + 1, FirstJ(lo, i + 1))
    ensures j == LastJ(hi, i) && i == I2(hi) ==> After(hi, i, j) == hi + 1
  {
    RangeOrder(lo, hi);
    VpnOfParts(lo);
    VpnOfParts(hi);
  }

  // ----- what a range operation writes

  datatype Goal = MapTo(first: nat, ppn: nat, perm: nat) | Unmap

  function GoalWord(goal: Goal, v: nat): nat {
    match goal
    case MapTo(first, ppn, perm) => if v >= first then MakePte(ppn + (v - first), perm) else 0
    case Unmap => 0
  }

  /** In every tree each translation is the old one, except that pages lo <= v < cur of `root` have the goal's word. */
  ghost predicate Done(mem0: Memory, owner: Owners, mem: Memory, root: nat, lo: nat, cur: nat, goal: Goal) {
    forall r, v: nat | IsRoot(owner, r) && v < VPNS ::
      Word(mem, r, v) == if r == root && lo <= v < cur then GoalWord(goal, v) else Word(mem0, r, v)
  }

  /** Tables are only ever added, and links once made stay. */
  ghost predicate Grows(mem: Memory, owner: Owners, mem': Memory, owner': Owners) {
    && (forall f <- owner :: f in owner' && owner'[f] == owner[f])
    && (forall f <- owner' :: f in owner || !owner'[f].Root?)
    && forall f <- owner, x: nat | !owner[f].Leaf? && IsValid(Entry(mem, f, x)) :: Entry(mem', f, x) == Entry(mem, f, x)
  }

  /** A range operation on `root`, and the state it started from. */
  datatype Job = Job(base: nat, mem: Memory, owner: Owners, counts: seq<nat>, root: nat, lo: nat, hi: nat, goal: Goal)

  ghost predicate MapsFrame(mem: Memory, root: nat, v: nat, f: nat) {
    IsValid(Word(mem, root, v)) && GetPpn(Word(mem, root, v)) == f
  }

  /** How many valid entries for pages lo <= v < cur map frame f. */
  ghost function Uses(mem: Memory, root: nat, f: nat, lo: nat, cur: nat): nat
    decreases cur
  {
    if cur <= lo then 0
    else Uses(mem, root, f, lo, cur - 1) + (if MapsFrame(mem, root, cur - 1, f) then 1 else 0)
  }

  ghost function Dropped(job: Job, f: nat, cur: nat): nat {
    if job.goal.Unmap? then Uses(job.mem, job.root, f, job.lo, cur) else 0
  }

  ghost predicate CountDone(job: Job, owner: Owners, count: nat, p: nat, cur: nat)
    requires p < |job.counts|
  {
    var f := job.base + p;
    if f in job.owner then count == job.counts[p]
    else if f in owner then count == 1 && job.counts[p] <= Dropped(job, f, cur)
    else job.counts[p] >= Dropped(job, f, cur) && count == job.counts[p] - Dropped(job, f, cur)
  }

  /** The state after the pages before cur have been treated: translations are done up to cur, tables
      only grew, and each count fell by the entries removed (a frame whose count fell to 0 may since
      have become a table, with count 1). */
  ghost predicate JobDone(job: Job, mem: Memory, owner: Owners, counts: seq<nat>, cur: nat) {
    && Grows(job.mem, job.owner, mem, owner)
    && Done(job.mem, job.owner, mem, job.root, job.lo, cur, job.goal)
    && |counts| == |job.counts|
    && forall p | 0 <= p < |counts| :: CountDone(job, owner, counts[p], p, cur)
  }

  ghost predicate RemovableEntry(job: Job, v: nat) {
    var w := Word(job.mem, job.root, v);
    IsValid(w) ==>
      && job.base <= GetPpn(w) < job.base + |job.counts| && GetPpn(w) !in job.owner
      && Uses(job.mem, job.root, GetPpn(w), job.lo, job.hi + 1) <= job.counts[GetPpn(w) - job.base]
  }

  /** RAM frames hold tables of words, the tables in use form a forest, and each of them is allocated. */
  ghost predicate FramesOk(base: nat, counts: seq<nat>, mem: Memory, owner: Owners) {
    && base + |counts| <= PPN_LIMIT
    && (forall f: nat | base <= f < base + |counts| :: f in mem && |mem[f]| == ENTRIES)
    && Forest(mem, owner)
    && forall f <- owner :: base <= f < base + |counts| && counts[f - base] > 0
  }

  /** What a range operation asks of its starting state. For unmapping: the entries map RAM frames that
      are not tables, and every frame's count covers the entries that will be removed. */
  ghost predicate JobOk(job: Job) {
    && FramesOk(job.base, job.counts, job.mem, job.owner) && IsRoot(job.owner, job.root) && job.lo <= job.hi < VPNS
    && (job.goal.Unmap? ==> forall v: nat | job.lo <= v <= job.hi :: RemovableEntry(job, v))
  }

  lemma OldForest(base: nat, counts: seq<nat>, mem: Memory, owner: Owners)
    requires FramesOk(base, counts, mem, owner)
    ensures Forest(mem, owner) && base + |counts| <= PPN_LIMIT && Vpn(0, 0, 0) == 0
  {
  }

  lemma ForestOf(base: nat, counts: seq<nat>, mem: Memory, owner: Owners)
    requires FramesOk(base, counts, mem, owner)
    ensures Forest(mem, owner)
  {
  }

  ghost predicate CopyRoots(owner0: Owners, src: nat, dst: nat) { IsRoot(owner0, src) && dst !in owner0 }

  /** Entries from x on of table f are invalid. */
  ghost predicate FreeFrom(mem: Memory, f: nat, x: nat) { forall y: nat | x <= y :: !IsValid(Entry(mem, f, y)) }

  /** Row i of dst is table m, empty from entry j on, and row i of src is table srcMid. */
  ghost predicate RowReady(mem0: Memory, owner0: Owners, mem: Memory, owner: Owners, src: nat, dst: nat,
                           i: nat, srcMid: nat, m: nat, j: nat) {
    && IsRoot(owner, dst) && Below(mem, dst, i) == Some(m) && Owned(owner, m, Mid(dst, i)) && m !in owner0
    && Below(mem0, src, i) == Some(srcMid) && Owned(owner0, srcMid, Mid(src, i))
    && FreeFrom(mem, m, j)
  }

  lemma DstIsRoot(mem0: Memory, owner0: Owners, mem: Memory, owner: Owners, src: nat, dst: nat,
                  i: nat, srcMid: nat, m: nat, j: nat)
    requires RowReady(mem0, owner0, mem, owner, src, dst, i, srcMid, m, j)
    ensures IsRoot(owner, dst)
  {
  }

  ghost predicate NoValidEntry(table: seq<nat>) { forall x | 0 <= x < |table| :: !IsValid(table[x]) }

  /** dst's translations before page cur are src's, from there on it has none; every earlier tree is as before. */
  ghost predicate CopyDone(mem0: Memory, owner0: Owners, mem: Memory, owner: Owners, src: nat, dst: nat, cur: nat) {
    && (forall f <- owner0 :: f in owner && owner[f] == owner0[f])
    && (forall f <- owner :: f in owner0 || f == dst || !owner[f].Root?)
    && (forall r, v: nat | IsRoot(owner0, r) && v < VPNS :: Word(mem, r, v) == Word(mem0, r, v))
    && (forall f <- owner0, x: nat :: Entry(mem, f, x) == Entry(mem0, f, x))
    && (forall v: nat | v < VPNS :: Word(mem, dst, v) == if v < cur then Word(mem0, src, v) else 0)
  }

  lemma CopyStart(base: nat, counts: seq<nat>, mem: Memory, owner: Owners, src: nat, dst: nat)
    requires FramesOk(base, counts, mem, owner) && CopyRoots(owner, src, dst)
    requires base <= dst < base + |counts| && counts[dst - base] > 0 && NoValidEntry(mem[dst])
    ensures FramesOk(base, counts, mem, owner[dst := Root]) && FreeFrom(mem, dst, 0)
    ensures CopyDone(mem, owner, mem, owner[dst := Root], src, dst, 0)
  {
    var owner' := owner[dst := Root];
    forall f, i: nat | f in owner' && i < ENTRIES ensures LinkOk(owner', f, i, mem[f][i]) {
      if f != dst { assert LinkOk(owner, f, i, mem[f][i]); }
    }
    forall v: nat | v < VPNS ensures Word(mem, dst, v) == 0 { }
  }

  lemma RootFacts(mem0: Memory, owner0: Owners, mem: Memory, owner: Owners, src: nat, dst: nat, i: nat)
    requires Forest(mem, owner) && CopyDone(mem0, owner0, mem, owner, src, dst, Vpn(i, 0, 0))
    requires CopyRoots(owner0, src, dst) && FreeFrom(mem, dst, i) && i < ENTRIES && IsRoot(owner, dst)
    ensures src in mem && |mem[src]| == ENTRIES && mem[src][i] == Entry(mem0, src, i) && IsRoot(owner, src)
    ensures !IsValid(Entry(mem, dst, i)) && (IsValid(mem[src][i]) ==> GetPerm(mem[src][i]) == 0x1)
  {
    LinkIsPointer(mem, owner, src, i);
  }

  lemma RowFacts(mem0: Memory, owner0: Owners, mem: Memory, owner: Owners, src: nat, dst: nat,
                 i: nat, srcMid: nat, m: nat, j: nat)
    requires Forest(mem, owner) && CopyDone(mem0, owner0, mem, owner, src, dst, Vpn(i, j, 0))
    requires CopyRoots(owner0, src, dst) && RowReady(mem0, owner0, mem, owner, src, dst, i, srcMid, m, j) && i < ENTRIES && j < ENTRIES
    ensures srcMid in mem && |mem[srcMid]| == ENTRIES && mem[srcMid][j] == Entry(mem0, srcMid, j) == Entry(mem, srcMid, j)
    ensures !IsValid(Entry(mem, m, j)) && Owned(owner, m, Mid(dst, i)) && Below(mem, dst, i) == Some(m) && m !in owner0
    ensures IsRoot(owner, src) && IsRoot(owner, dst) && src != dst
    ensures IsValid(mem[srcMid][j]) ==> var l := GetPpn(mem[srcMid][j]);
      LeafOf(mem, src, i, j) == Some(l) && l in owner && l in mem && |mem[l]| == ENTRIES && GetPerm(mem[srcMid][j]) == 0x1
  {
    assert Below(mem, src, i) == Below(mem0, src, i);
    LinkIsPointer(mem, owner, srcMid, j);
    LeafIsOwned(mem, owner, src, i, j);
  }

  lemma RowStep(mem0: Memory, owner0: Owners, mem: Memory, owner: Owners, src: nat, dst: nat,
                i: nat, srcMid: nat, m: nat, j: nat, g: nat, c: seq<nat>, perm: nat)
    requires Forest(mem, owner) && RowReady(mem0, owner0, mem, owner, src, dst, i, srcMid, m, j) && FreeFrom(mem, dst, i + 1)
    requires g !in owner && m in mem && j < |mem[m]| && m != g && dst != m
    ensures RowReady(mem0, owner0, Hung(mem, m, j, g, c, perm), owner[g := Leaf(dst, i, j)], src, dst, i, srcMid, m, j + 1)
    ensures FreeFrom(Hung(mem, m, j, g, c, perm), dst, i + 1)
  {
    var mem' := Hung(mem, m, j, g, c, perm);
    forall y: nat | j + 1 <= y ensures !IsValid(Entry(mem', m, y)) { assert !IsValid(Entry(mem, m, y)); }
    forall y: nat | i + 1 <= y ensures !IsValid(Entry(mem', dst, y)) { assert !IsValid(Entry(mem, dst, y)); }
  }

  lemma WordsSkipped(mem0: Memory, owner0: Owners, mem: Memory, owner: Owners, src: nat, dst: nat, cur: nat, next: nat)
    requires CopyDone(mem0, owner0, mem, owner, src, dst, cur) && cur <= next
    requires forall v: nat | cur <= v < next && v < VPNS :: Word(mem0, src, v) == 0
    ensures CopyDone(mem0, owner0, mem, owner, src, dst, next)
  {
  }

  lemma SkipLeaf(mem0: Memory, owner0: Owners, mem: Memory, owner: Owners, src: nat, dst: nat,
                 i: nat, srcMid: nat, m: nat, j: nat)
    requires CopyDone(mem0, owner0, mem, owner, src, dst, Vpn(i, j, 0)) && i < ENTRIES && j < ENTRIES
    requires RowReady(mem0, owner0, mem, owner, src, dst, i, srcMid, m, j) && !IsValid(Entry(mem0, srcMid, j))
    ensures CopyDone(mem0, owner0, mem, owner, src, dst, Vpn(i, j + 1, 0))
    ensures RowReady(mem0, owner0, mem, owner, src, dst, i, srcMid, m, j + 1)
  {
    forall v: nat | Vpn(i, j, 0) <= v < Vpn(i, j + 1, 0) && v < VPNS ensures Word(mem0, src, v) == 0 {
      VpnOfParts(v);
      assert I2(v) == i && I1(v) == j;
    }
    WordsSkipped(mem0, owner0, mem, owner, src, dst, Vpn(i, j, 0), Vpn(i, j + 1, 0));
  }

  lemma SkipRow(mem0: Memory, owner0: Owners, mem: Memory, owner: Owners, src: nat, dst: nat, i: nat)
    requires CopyDone(mem0, owner0, mem, owner, src, dst, Vpn(i, 0, 0)) && i < ENTRIES
    requires FreeFrom(mem, dst, i) && !IsValid(Entry(mem0, src, i))
    ensures CopyDone(mem0, owner0, mem, owner, src, dst, Vpn(i + 1, 0, 0)) && FreeFrom(mem, dst, i + 1)
  {
    forall v: nat | Vpn(i, 0, 0) <= v < Vpn(i + 1, 0, 0) && v < VPNS ensures Word(mem0, src, v) == 0 {
      VpnOfParts(v);
      assert I2(v) == i;
    }
    WordsSkipped(mem0, owner0, mem, owner, src, dst, Vpn(i, 0, 0), Vpn(i + 1, 0, 0));
  }

  lemma CopyMidDone(mem0: Memory, owner0: Owners, mem: Memory, owner: Owners, src: nat, dst: nat,
                    i: nat, m: nat, c: seq<nat>, perm: nat)
    requires Forest(mem, owner) && CopyDone(mem0, owner0, mem, owner, src, dst, Vpn(i, 0, 0))
    requires CopyRoots(owner0, src, dst) && IsRoot(owner, dst) && FreeFrom(mem, dst, i) && i < ENTRIES
    requires Forest(mem0, owner0) && IsValid(Entry(mem0, src, i))
    requires m !in owner && m < PPN_LIMIT && |c| == ENTRIES && NoValidEntry(c) && perm == 0x1
    ensures dst in mem && i < |mem[dst]| && dst != m
    ensures CopyDone(mem0, owner0, Hung(mem, dst, i, m, c, perm), owner[m := Mid(dst, i)], src, dst, Vpn(i, 0, 0))
    ensures RowReady(mem0, owner0, Hung(mem, dst, i, m, c, perm), owner[m := Mid(dst, i)], src, dst, i, GetPpn(Entry(mem0, src, i)), m, 0)
    ensures FreeFrom(Hung(mem, dst, i, m, c, perm), dst, i + 1)
  {
    hide Word;
    assert !IsValid(Entry(mem, dst, i));
    HangTable(mem, owner, dst, i, m, c, perm);
    BelowIsOwned(mem0, owner0, src, i);
    var mem' := Hung(mem, dst, i, m, c, perm);
    forall y: nat ensures !IsValid(Entry(mem', m, y)) { }
    forall y: nat | i + 1 <= y ensures !IsValid(Entry(mem', dst, y)) { assert !IsValid(Entry(mem, dst, y)); }
  }

  lemma CopyResult(mem0: Memory, owner0: Owners, mem: Memory, owner: Owners, src: nat, dst: nat)
    requires CopyDone(mem0, owner0, mem, owner, src, dst, Vpn(ENTRIES, 0, 0)) && CopyRoots(owner0, src, dst)
    ensures forall v: nat | v < VPNS :: Word(mem, dst, v) == Word(mem, src, v)
    ensures forall r, v: nat | IsRoot(owner0, r) && v < VPNS :: Word(mem, r, v) == Word(mem0, r, v)
    ensures forall f <- owner0 :: f in owner && owner[f] == owner0[f]
  {
  }

  /** No frame that the allocator could hand out holds a stale valid entry. */
  ghost predicate CleanFrames(base: nat, counts: seq<nat>, mem: Memory) {
    forall p | 0 <= p < |counts| && counts[p] == 0 && base + p in mem :: NoValidEntry(mem[base + p])
  }

  lemma ContentsOk(base: nat, counts: seq<nat>, mem: Memory, owner: Owners, f: nat, i: nat, g: nat, c: Option<nat>)
    requires FramesOk(base, counts, mem, owner) && CleanFrames(base, counts, mem)
    requires f in owner && !owner[f].Leaf? && base <= g < base + |counts| && counts[g - base] == 0
    requires if owner[f].Mid? then c.Some? && c.value in owner else c == None
    ensures c.Some? ==> c.value in mem && |mem[c.value]| == ENTRIES && TableFits(mem[c.value])
    ensures g in mem && |mem[g]| == ENTRIES && NoValidEntry(mem[g]) && TableFits(mem[g]) && g !in owner
  {
    assert base + (g - base) == g;
    if c.Some? { TablesFit(mem, owner, c.value); }
  }

  lemma CleanKept(base: nat, counts: seq<nat>, mem: Memory, owner: Owners, f: nat, i: nat, g: nat, c: seq<nat>, perm: nat)
    requires FramesOk(base, counts, mem, owner) && CleanFrames(base, counts, mem)
    requires f in owner && i < |mem[f]| && f != g && base <= g < base + |counts|
    ensures CleanFrames(base, counts[g - base := 1], Hung(mem, f, i, g, c, perm))
  {
  }

  /** One more table hangs under entry j of m; all other entries of tables in use are as before. */
  ghost predicate CopyLinks(mem: Memory, owner: Owners, mem': Memory, owner': Owners, m: nat, j: nat) {
    && (forall f <- owner :: f in owner' && owner'[f] == owner[f])
    && forall f: nat, x: nat | f in owner && (f != m || x != j) :: Entry(mem', f, x) == Entry(mem, f, x)
  }

  lemma HangOk(base: nat, counts: seq<nat>, mem: Memory, owner: Owners, f: nat, i: nat, g: nat, c: seq<nat>, perm: nat)
    requires FramesOk(base, counts, mem, owner) && f in owner && !owner[f].Leaf? && i < ENTRIES
    requires !IsValid(Entry(mem, f, i)) && g !in owner && base <= g < base + |counts| && counts[g - base] > 0
    requires |c| == ENTRIES && TableFits(c) && perm == 0x1
    requires owner[f].Root? ==> NoValidEntry(c)
    ensures f in mem && i < |mem[f]| && f != g
    ensures FramesOk(base, counts, Hung(mem, f, i, g, c, perm), owner[g := Child(owner, f, i)])
    ensures Below(Hung(mem, f, i, g, c, perm), f, i) == Some(g)
    ensures CopyLinks(mem, owner, Hung(mem, f, i, g, c, perm), owner[g := Child(owner, f, i)], f, i)
    ensures forall f' | f' in mem && f' != f && f' != g :: Hung(mem, f, i, g, c, perm)[f'] == mem[f']
  {
    HangTable(mem, owner, f, i, g, c, perm);
  }

  lemma TableShape(mem: Memory, owner: Owners, f: nat)
    requires Forest(mem, owner) && f in owner
    ensures f in mem && |mem[f]| == ENTRIES
  {
  }

  /** Only the 512 pages of table (i, j) of dst are reached through entry j of m. */
  lemma CopyLeafWord(mem: Memory, owner: Owners, src: nat, dst: nat, i: nat, j: nat, srcLeaf: nat, m: nat, r: nat, v: nat)
    requires Forest(mem, owner) && IsRoot(owner, dst) && IsRoot(owner, r) && v < VPNS && i < ENTRIES && j < ENTRIES
    requires Below(mem, dst, i) == Some(m) && Owned(owner, m, Mid(dst, i)) && LeafOf(mem, src, i, j) == Some(srcLeaf)
    ensures ReachedBy(mem, owner, m, j, r, v) <==> r == dst && Vpn(i, j, 0) <= v < Vpn(i, j, 0) + 512
    ensures ReachedBy(mem, owner, m, j, r, v) ==> Word(mem, src, v) == Entry(mem, srcLeaf, I0(v))
  {
    VpnOfParts(v);
    LeafIsOwned(mem, owner, r, I2(v), I1(v));
    assert I2(v) == i && I1(v) == j <==> Vpn(i, j, 0) <= v < Vpn(i, j, 0) + 512;
  }

  lemma CopyLeafDone(mem0: Memory, owner0: Owners, mem: Memory, owner: Owners, src: nat, dst: nat,
                     i: nat, j: nat, srcLeaf: nat, m: nat, g: nat, perm: nat)
    requires Forest(mem, owner) && CopyDone(mem0, owner0, mem, owner, src, dst, Vpn(i, j, 0))
    requires IsRoot(owner, dst) && IsRoot(owner0, src) && src != dst && dst !in owner0
    requires i < ENTRIES && j < ENTRIES && g !in owner && g < PPN_LIMIT && perm == 0x1
    requires Below(mem, dst, i) == Some(m) && Owned(owner, m, Mid(dst, i)) && !IsValid(Entry(mem, m, j))
    requires LeafOf(mem, src, i, j) == Some(srcLeaf) && srcLeaf in mem && |mem[srcLeaf]| == ENTRIES
    requires m !in owner0
    ensures m in mem && j < |mem[m]| && m != g
    ensures CopyDone(mem0, owner0, Hung(mem, m, j, g, mem[srcLeaf], perm), owner[g := Leaf(dst, i, j)], src, dst, Vpn(i, j, 0) + 512)
  {
    hide Forest, LeafOf, Word, Vpn, I1, I2, ReachedBy, MakePte, Hung;
    TableShape(mem, owner, m);
    LeafIsOwned(mem, owner, src, i, j);
    TablesFit(mem, owner, srcLeaf);
    HangTable(mem, owner, m, j, g, mem[srcLeaf], perm);
    var mem', owner' := Hung(mem, m, j, g, mem[srcLeaf], perm), owner[g := Leaf(dst, i, j)];
    forall r, v: nat | IsRoot(owner0, r) && v < VPNS ensures Word(mem', r, v) == Word(mem0, r, v) {
      CopyLeafWord(mem, owner, src, dst, i, j, srcLeaf, m, r, v);
      assert Word(mem, r, v) == Word(mem0, r, v);
    }
    forall v: nat | v < VPNS ensures Word(mem', dst, v) == if v < Vpn(i, j, 0) + 512 then Word(mem0, src, v) else 0 {
      CopyLeafWord(mem, owner, src, dst, i, j, srcLeaf, m, dst, v);
      assert Word(mem, src, v) == Word(mem0, src, v);
      assert Word(mem, dst, v) == if v < Vpn(i, j, 0) then Word(mem0, src, v) else 0;
    }
  }

  /** A non-empty range of 64-bit addresses whose 27-bit page numbers do not wrap. */
  predicate RangeFits(va: nat, sz: nat) {
    sz > 0 && va + sz - 1 < WORD && va / 0x1000 / VPNS == (va + sz - 1) / 0x1000 / VPNS
  }

  function FirstVpn(va: nat): nat { va / 0x1000 % VPNS }

  function LastVpn(va: nat, sz: nat): nat
    requires sz > 0
  {
    (va + sz - 1) / 0x1000 % VPNS
  }

  /** The permission word create_mapping installs: V and A always, D with W. */
  function MappedPerm(perm: nat): nat {
    var full := Or(Or(perm, 0x1), 0x40);
    if And(full, 0x4) != 0 then Or(full, 0x80) else full
  }

  ghost function MapJob(base: nat, mem: Memory, owner: Owners, counts: seq<nat>, root: nat, va: nat, pa: nat, sz: nat, perm: nat): Job
    requires sz > 0
  {
    Job(base, mem, owner, counts, root, FirstVpn(va), LastVpn(va, sz), MapTo(FirstVpn(va), pa / 0x1000, MappedPerm(perm)))
  }

  ghost function UnmapJob(base: nat, mem: Memory, owner: Owners, counts: seq<nat>, root: nat, va: nat, sz: nat): Job
    requires sz > 0
  {
    Job(base, mem, owner, counts, root, FirstVpn(va), LastVpn(va, sz), Unmap)
  }

  ghost predicate Removable(job: Job) {
    forall v: nat | job.lo <= v <= job.hi :: RemovableEntry(job, v)
  }

  ghost predicate CountAdded(owner: Owners, count: nat, owner': Owners, count': nat, f: nat) {
    if f in owner' && f !in owner then count == 0 && count' == 1 else count' == count
  }

  /** Frames only became tables, each from a free page that now has count 1; no other count changed. */
  ghost predicate TablesAdded(base: nat, owner: Owners, counts: seq<nat>, owner': Owners, counts': seq<nat>) {
    && |counts'| == |counts| && (forall f <- owner :: f in owner')
    && forall p | 0 <= p < |counts'| :: CountAdded(owner, counts[p], owner', counts'[p], base + p)
  }

  ghost predicate OthersKept(job: Job, mem: Memory) {
    forall r, v: nat | IsRoot(job.owner, r) && v < VPNS && (r != job.root || v < job.lo || job.hi < v) ::
      Word(mem, r, v) == Word(job.mem, r, v)
  }

  /** create_mapping's effect: page v of the range has frame ppn + (v - lo) and the permissions; every other
      page of every tree walks as before; tables were only added, each from a free page that now has count 1. */
  ghost predicate RangeMapped(job: Job, mem: Memory, owner: Owners, counts: seq<nat>)
    requires job.goal.MapTo?
  {
    && Grows(job.mem, job.owner, mem, owner)
    && (forall v: nat | job.lo <= v <= job.hi :: Word(mem, job.root, v) == MakePte(job.goal.ppn + (v - job.lo), job.goal.perm))
    && OthersKept(job, mem)
    && TablesAdded(job.base, job.owner, job.counts, owner, counts)
  }

  lemma AddedInSteps(base: nat, owner: Owners, counts: seq<nat>, owner1: Owners, counts1: seq<nat>, owner2: Owners, counts2: seq<nat>)
    requires TablesAdded(base, owner, counts, owner1, counts1) && TablesAdded(base, owner1, counts1, owner2, counts2)
    ensures TablesAdded(base, owner, counts, owner2, counts2)
  {
    forall p | 0 <= p < |counts2| ensures CountAdded(owner, counts[p], owner2, counts2[p], base + p) {
      assert CountAdded(owner, counts[p], owner1, counts1[p], base + p);
      assert CountAdded(owner1, counts1[p], owner2, counts2[p], base + p);
    }
  }

  lemma NothingAdded(base: nat, owner: Owners, counts: seq<nat>)
    ensures TablesAdded(base, owner, counts, owner, counts)
  {
  }

  lemma OneAdded(base: nat, owner: Owners, counts: seq<nat>, g: nat, place: Place)
    requires base <= g < base + |counts| && g !in owner && counts[g - base] == 0
    ensures TablesAdded(base, owner, counts, owner[g := place], counts[g - base := 1])
  {
  }

  /** remove_mapping's effect: the range is unmapped, every other page of every tree walks as before, and a
      frame's count fell by exactly the number of entries removed for it (a frame that was thereby freed
      may already serve as a new table, with count 1). */
  ghost predicate RangeUnmapped(job: Job, mem: Memory, owner: Owners, counts: seq<nat>) {
    && Grows(job.mem, job.owner, mem, owner)
    && (forall v: nat | job.lo <= v <= job.hi :: Word(mem, job.root, v) == 0)
    && OthersKept(job, mem)
    && |counts| == |job.counts|
    && forall p | 0 <= p < |counts| ::
         var removed := Uses(job.mem, job.root, job.base + p, job.lo, job.hi + 1);
         if job.base + p in job.owner then counts[p] == job.counts[p]
         else if job.base + p in owner then counts[p] == 1 && job.counts[p] <= removed
         else job.counts[p] >= removed && counts[p] == job.counts[p] - removed
  }

  /** extract_bits: the low bits, and the word shifted past them. */
  method ExtractBits(val: nat, numBits: nat) returns (ret: nat, rest: nat)
    ensures ret == val % Pow2(numBits) && rest == val / Pow2(numBits)
  {
    AndOnes(val, numBits);
    ShrIsDiv(val, numBits);
    ret := And(val, Pow2(numBits) - 1);
    rest := Shr(val, numBits);
  }

  /** The three extract_bits calls that cut a page number into table indices, lowest first. */
  method SplitVpn(vpn: nat) returns (parts: seq<nat>)
    ensures parts == [I0(vpn), I1(vpn), I2(vpn)]
  {
    assert Pow2(9) == 512;
    var p0, r0 := ExtractBits(vpn, 9);
    var p1, r1 := ExtractBits(r0, 9);
    var p2, r2 := ExtractBits(r1, 9);
    parts := [p0, p1, p2];
  }

  lemma IndicesOfLowBits(n: nat)
    ensures I0(n) == I0(n % VPNS) && I1(n) == I1(n % VPNS) && I2(n) == I2(n % VPNS)
  {
    var q, m := n / VPNS, n % VPNS;
    assert n == (q * 0x4_0000) * 512 + m;
    assert n / 512 == (q * 512) * 512 + m / 512;
    assert n / 512 / 512 == q * 512 + m / 512 / 512;
  }

  /** The walk does not see the bits of a page number above the lowest 27: pages that far apart share one entry. */
  lemma WalkDropsHighBits(mem: Memory, root: nat, v: nat)
    ensures Word(mem, root, v) == Word(mem, root, v % VPNS)
  {
    hide I0, I1, I2, LeafOf;
    IndicesOfLowBits(v);
  }

  lemma RangeParts(va: nat, sz: nat)
    requires RangeFits(va, sz)
    ensures FirstVpn(va) <= LastVpn(va, sz) < VPNS
    ensures I0(va / 0x1000) == I0(FirstVpn(va)) && I1(va / 0x1000) == I1(FirstVpn(va)) && I2(va / 0x1000) == I2(FirstVpn(va))
    ensures var end := (va + sz - 1) / 0x1000;
      I0(end) == I0(LastVpn(va, sz)) && I1(end) == I1(LastVpn(va, sz)) && I2(end) == I2(LastVpn(va, sz))
  {
    IndicesOfLowBits(va / 0x1000);
    IndicesOfLowBits((va + sz - 1) / 0x1000);
  }

  lemma MapResult(job: Job, mem: Memory, owner: Owners, counts: seq<nat>)
    requires job.goal.MapTo? && job.goal.first == job.lo && JobDone(job, mem, owner, counts, job.hi + 1)
    requires IsRoot(job.owner, job.root) && job.hi < VPNS
    ensures RangeMapped(job, mem, owner, counts)
  {
    forall p | 0 <= p < |counts| ensures CountAdded(job.owner, job.counts[p], owner, counts[p], job.base + p) {
      assert CountDone(job, owner, counts[p], p, job.hi + 1);
    }
  }

  lemma UnmapResult(job: Job, mem: Memory, owner: Owners, counts: seq<nat>)
    requires job.goal.Unmap? && JobDone(job, mem, owner, counts, job.hi + 1)
    requires IsRoot(job.owner, job.root) && job.hi < VPNS
    ensures RangeUnmapped(job, mem, owner, counts)
  {
    forall p | 0 <= p < |counts|
      ensures
         var removed := Uses(job.mem, job.root, job.base + p, job.lo, job.hi + 1);
         if job.base + p in job.owner then counts[p] == job.counts[p]
         else if job.base + p in owner then counts[p] == 1 && job.counts[p] <= removed
         else job.counts[p] >= removed && counts[p] == job.counts[p] - removed
    {
      assert CountDone(job, owner, counts[p], p, job.hi + 1);
    }
  }

  /** The page at which row i of the range starts, or the end of the range when i is past its last row. */
  ghost function RowPosition(job: Job, i: nat): nat {
    if i <= I2(job.hi) then Begin(job.lo, i, FirstJ(job.lo, i)) else job.hi + 1
  }

  lemma JBounds(lo: nat, hi: nat, i: nat)
    requires lo <= hi < VPNS && I2(lo) <= i <= I2(hi)
    ensures FirstJ(lo, i) == (if i == I2(lo) then I1(lo) else 0) && LastJ(hi, i) == (if i == I2(hi) then I1(hi) else 511)
    ensures i < 512 && FirstJ(lo, i) <= LastJ(hi, i) < 512
  {
    RangeOrder(lo, hi);
  }

  lemma RowPositions(job: Job, i: nat)
    requires job.lo <= job.hi < VPNS && I2(job.lo) <= i <= I2(job.hi)
    ensures i < 512 && job.lo <= RowPosition(job, i)
    ensures RowPosition(job, i) == Begin(job.lo, i, FirstJ(job.lo, i))
    ensures RowPosition(job, i + 1) == After(job.hi, i, LastJ(job.hi, i))
    ensures RowPosition(job, I2(job.lo)) == job.lo
  {
    RangeOrder(job.lo, job.hi);
    JBounds(job.lo, job.hi, i);
    Consecutive(job.lo, job.hi, i, LastJ(job.hi, i));
    Consecutive(job.lo, job.hi, i, FirstJ(job.lo, i));
    JBounds(job.lo, job.hi, I2(job.lo));
    Consecutive(job.lo, job.hi, I2(job.lo), FirstJ(job.lo, I2(job.lo)));
  }

  lemma RootStays(job: Job, mem: Memory, owner: Owners, counts: seq<nat>, cur: nat)
    requires JobOk(job) && JobDone(job, mem, owner, counts, cur)
    ensures IsRoot(owner, job.root)
  {
  }

  /** The page at which table (i, j) of the range starts, or the end of the row when j is past its last table. */
  ghost function Position(job: Job, i: nat, j: nat): nat {
    if j <= LastJ(job.hi, i) then Begin(job.lo, i, j) else After(job.hi, i, LastJ(job.hi, i))
  }

  lemma KBounds(job: Job, i: nat, j: nat, low: seq<nat>, high: seq<nat>)
    requires job.lo <= job.hi < VPNS && I2(job.lo) <= i <= I2(job.hi) && FirstJ(job.lo, i) <= j <= LastJ(job.hi, i)
    requires low == [I0(job.lo), I1(job.lo), I2(job.lo)] && high == [I0(job.hi), I1(job.hi), I2(job.hi)]
    ensures var kLow := if i == low[2] && j == low[1] then low[0] else 0;
      var kHigh := if i == high[2] && j == high[1] then high[0] else 511;
      && kLow <= kHigh < 512 && i < 512 && j < 512
      && Position(job, i, j) == Vpn(i, j, kLow) && job.lo <= Vpn(i, j, kLow) && Vpn(i, j, kHigh) <= job.hi
      && Vpn(i, j, kHigh) + 1 == Position(job, i, j + 1)
      && Vpn(i, j, kHigh) - Vpn(i, j, kLow) == kHigh - kLow
  {
    Consecutive(job.lo, job.hi, i, j);
  }

  lemma HoldsKept(mem: Memory, owner: Owners, mem': Memory, owner': Owners, root: nat, i: nat, m: nat, j: nat, l: nat)
    requires Grows(mem, owner, mem', owner') && IsRoot(owner, root)
    requires Below(mem, root, i) == Some(m) && Owned(owner, m, Mid(root, i)) && Below(mem', m, j) == Some(l)
    ensures IsRoot(owner', root) && Below(mem', root, i) == Some(m) && Owned(owner', m, Mid(root, i))
    ensures LeafOf(mem', root, i, j) == Some(l)
  {
  }

  /** Only leaf entries differ: every link of every tree is as before. */
  ghost predicate SameLinks(mem: Memory, owner: Owners, mem': Memory) {
    forall f <- owner, x: nat | !owner[f].Leaf? :: Entry(mem', f, x) == Entry(mem, f, x)
  }

  lemma SameLinksKeep(mem: Memory, owner: Owners, mem': Memory, root: nat, i: nat, m: nat)
    requires SameLinks(mem, owner, mem') && IsRoot(owner, root) && Below(mem, root, i) == Some(m)
    ensures Below(mem', root, i) == Some(m)
  {
  }

  /** What looking up or creating the table under entry i of f does: no translation changes, and at
      most one fresh frame becomes a table and gets count 1. */
  ghost predicate TableStep(mem: Memory, owner: Owners, counts: seq<nat>,
                            mem': Memory, owner': Owners, counts': seq<nat>,
                            base: nat, f: nat, i: nat, ok: bool, g: nat)
    requires f in owner && !owner[f].Leaf?
  {
    && Grows(mem, owner, mem', owner') && Done(mem, owner, mem', 0, 0, 0, Unmap)
    && (ok ==> Below(mem', f, i) == Some(g) && Owned(owner', g, Child(owner, f, i)))
    && (if ok && g !in owner then
          && owner' == owner[g := Child(owner, f, i)] && base <= g < base + |counts| && counts[g - base] == 0
          && counts' == counts[g - base := 1]
        else owner' == owner && counts' == counts)
  }

  lemma {:induction false} JobStart(job: Job)
    requires JobOk(job)
    ensures JobDone(job, job.mem, job.owner, job.counts, job.lo)
  {
    forall p | 0 <= p < |job.counts| ensures CountDone(job, job.owner, job.counts[p], p, job.lo) { }
  }

  lemma JobTable(job: Job, mem: Memory, owner: Owners, counts: seq<nat>, cur: nat,
                 mem': Memory, owner': Owners, counts': seq<nat>, f: nat, i: nat, ok: bool, g: nat)
    requires JobDone(job, mem, owner, counts, cur)
    requires f in owner && !owner[f].Leaf?
    requires TableStep(mem, owner, counts, mem', owner', counts', job.base, f, i, ok, g)
    ensures JobDone(job, mem', owner', counts', cur)
  {
    forall p | 0 <= p < |counts'| ensures CountDone(job, owner', counts'[p], p, cur) {
      assert CountDone(job, owner, counts[p], p, cur);
    }
  }

  /** Writing the goal's word for page Vpn(i, j, k) moves a range operation one page on. */
  lemma JobStore(job: Job, mem: Memory, owner: Owners, counts: seq<nat>, i: nat, j: nat, k: nat, l: nat)
    requires JobOk(job) && FramesOk(job.base, counts, mem, owner)
    requires Grows(job.mem, job.owner, mem, owner) && job.lo <= Vpn(i, j, k)
    requires Done(job.mem, job.owner, mem, job.root, job.lo, Vpn(i, j, k), job.goal)
    requires i < ENTRIES && j < ENTRIES && k < ENTRIES && LeafOf(mem, job.root, i, j) == Some(l)
    ensures l in mem && k < |mem[l]| && mem[l][k] == Word(job.mem, job.root, Vpn(i, j, k))
    ensures var mem' := Store(mem, l, k, GoalWord(job.goal, Vpn(i, j, k)));
      && FramesOk(job.base, counts, mem', owner)
      && LeafOf(mem', job.root, i, j) == Some(l)
      && SameLinks(mem, owner, mem')
      && Grows(job.mem, job.owner, mem', owner)
      && Done(job.mem, job.owner, mem', job.root, job.lo, Vpn(i, j, k) + 1, job.goal)
  {
    VpnParts(i, j, k);
    LeafIsOwned(mem, owner, job.root, i, j);
    StoreLeaf(mem, owner, job.root, i, j, k, l, GoalWord(job.goal, Vpn(i, j, k)));
  }

  /** A mapping run changes no count from page to page. */
  lemma MapKeepsCounts(job: Job, owner: Owners, counts: seq<nat>, v: nat)
    requires job.goal.MapTo? && |counts| == |job.counts|
    requires forall p | 0 <= p < |counts| :: CountDone(job, owner, counts[p], p, v)
    ensures forall p | 0 <= p < |counts| :: CountDone(job, owner, counts[p], p, v + 1)
  {
    forall p | 0 <= p < |counts| ensures CountDone(job, owner, counts[p], p, v + 1) {
      assert CountDone(job, owner, counts[p], p, v);
    }
  }

  function DropOne(counts: seq<nat>, p: int): seq<nat> {
    if 0 <= p < |counts| && counts[p] > 0 then counts[p := counts[p] - 1] else counts
  }

  ghost predicate Unmapped(job: Job, mem: Memory, owner: Owners, counts: seq<nat>, v: nat, i: nat, j: nat, l: nat, w: nat, mem': Memory)
  {
    var counts' := if IsValid(w) then DropOne(counts, GetPpn(w) - job.base) else counts;
    && (IsValid(w) ==> job.base <= GetPpn(w) < job.base + |counts| && counts[GetPpn(w) - job.base] > 0)
    && FramesOk(job.base, counts', mem', owner) && JobDone(job, mem', owner, counts', v + 1)
    && LeafOf(mem', job.root, i, j) == Some(l) && SameLinks(mem, owner, mem')
  }

  lemma OwnersGrow(job: Job, mem: Memory, owner: Owners)
    requires Grows(job.mem, job.owner, mem, owner)
    ensures forall f <- job.owner :: f in owner
  {
  }

  lemma {:induction false} UsesMonotone(mem: Memory, root: nat, f: nat, lo: nat, cur: nat, end: nat)
    requires cur <= end
    ensures Uses(mem, root, f, lo, cur) <= Uses(mem, root, f, lo, end)
    decreases end
  {
    if cur < end { UsesMonotone(mem, root, f, lo, cur, end - 1); }
  }

  /** A removable entry's frame is not a table and still has a reference to drop. */
  lemma EntryIsCounted(job: Job, owner: Owners, counts: seq<nat>, v: nat, w: nat)
    requires RemovableEntry(job, v) && job.goal.Unmap? && job.lo <= v <= job.hi
    requires w == Word(job.mem, job.root, v) && IsValid(w) && |counts| == |job.counts|
    requires forall p | 0 <= p < |counts| :: CountDone(job, owner, counts[p], p, v)
    ensures job.base <= GetPpn(w) < job.base + |counts| && GetPpn(w) !in owner
    ensures counts[GetPpn(w) - job.base] > 0
  {
    hide GetPpn, IsValid, Word;
    var f := GetPpn(w);
    UsesMonotone(job.mem, job.root, f, job.lo, v + 1, job.hi + 1);
    assert MapsFrame(job.mem, job.root, v, f);
    assert CountDone(job, owner, counts[f - job.base], f - job.base, v);
  }

  lemma DropCount(base: nat, counts: seq<nat>, mem: Memory, owner: Owners, f: nat)
    requires FramesOk(base, counts, mem, owner) && base <= f < base + |counts| && f !in owner && counts[f - base] > 0
    ensures FramesOk(base, DropOne(counts, f - base), mem, owner)
  {
  }

  lemma CountsStep(job: Job, owner: Owners, counts: seq<nat>, v: nat, w: nat)
    requires job.goal.Unmap? && job.lo <= v && w == Word(job.mem, job.root, v) && |counts| == |job.counts|
    requires forall p | 0 <= p < |counts| :: CountDone(job, owner, counts[p], p, v)
    requires forall f <- job.owner :: f in owner
    requires IsValid(w) ==> job.base <= GetPpn(w) < job.base + |counts| && GetPpn(w) !in owner && counts[GetPpn(w) - job.base] > 0
    ensures var counts' := if IsValid(w) then DropOne(counts, GetPpn(w) - job.base) else counts;
      forall p | 0 <= p < |counts'| :: CountDone(job, owner, counts'[p], p, v + 1)
  {
    hide IsValid, GetPpn, Word;
    var counts' := if IsValid(w) then DropOne(counts, GetPpn(w) - job.base) else counts;
    forall p | 0 <= p < |counts'| ensures CountDone(job, owner, counts'[p], p, v + 1) {
      assert CountDone(job, owner, counts[p], p, v);
      assert MapsFrame(job.mem, job.root, v, job.base + p) <==> IsValid(w) && GetPpn(w) == job.base + p;
    }
  }

  /** What dropping the reference and clearing the entry of page Vpn(i, j, k) leaves. */
  lemma UnmapFacts(job: Job, mem: Memory, owner: Owners, counts: seq<nat>, i: nat, j: nat, k: nat, l: nat)
    requires JobOk(job) && job.goal.Unmap? && FramesOk(job.base, counts, mem, owner)
    requires JobDone(job, mem, owner, counts, Vpn(i, j, k)) && job.lo <= Vpn(i, j, k) <= job.hi
    requires i < ENTRIES && j < ENTRIES && k < ENTRIES && LeafOf(mem, job.root, i, j) == Some(l)
    ensures l in mem && k < |mem[l]|
    ensures Unmapped(job, mem, owner, counts, Vpn(i, j, k), i, j, l, mem[l][k], Store(mem, l, k, 0))
  {
    hide Done, Grows, Forest, CountDone, FramesOk, Word, LeafOf, SameLinks, RemovableEntry, GetPpn;
    var v := Vpn(i, j, k);
    JobStore(job, mem, owner, counts, i, j, k, l);
    var w := mem[l][k];
    assert RemovableEntry(job, v);
    if IsValid(w) {
      EntryIsCounted(job, owner, counts, v, w);
      DropCount(job.base, counts, Store(mem, l, k, 0), owner, GetPpn(w));
    }
    OwnersGrow(job, mem, owner);
    CountsStep(job, owner, counts, v, w);
  }

  /** A zeroed root is a forest of its own, and maps nothing. */
  lemma EmptyRoot(base: nat, counts: seq<nat>, contents: Memory, mem: Memory, root: nat)
    requires base + |counts| <= PPN_LIMIT && base <= root < base + |counts| && counts[root - base] > 0
    requires forall f: nat | base <= f < base + |counts| :: f in contents && |contents[f]| == ENTRIES
    requires mem == contents[root := Zeros()]
    ensures FramesOk(base, counts, mem, map[root := Root]) && forall v: nat :: Word(mem, root, v) == 0
  {
  }

  lemma FreshFrame(base: nat, counts: seq<nat>, mem: Memory, owner: Owners, pfn: nat)
    requires FramesOk(base, counts, mem, owner) && pfn < |counts| && counts[pfn] == 0
    ensures FramesOk(base, counts[pfn := 1], mem, owner) && base + pfn !in owner
  {
  }

  lemma EntryPresent(base: nat, counts: seq<nat>, mem: Memory, owner: Owners, f: nat, i: nat)
    requires FramesOk(base, counts, mem, owner) && f in owner && i < ENTRIES
    ensures f in mem && i < |mem[f]| && Entry(mem, f, i) == mem[f][i]
  {
  }

  lemma LinkGrows(base: nat, counts: seq<nat>, mem: Memory, owner: Owners, f: nat, i: nat, g: nat)
    requires FramesOk(base, counts, mem, owner) && f in owner && !owner[f].Leaf? && i < ENTRIES
    requires f in mem && i < |mem[f]| && !IsValid(mem[f][i])
    requires g !in owner && base <= g < base + |counts| && counts[g - base] > 0
    ensures f != g
    ensures FramesOk(base, counts, Hung(mem, f, i, g, Zeros(), PTE_V), owner[g := Child(owner, f, i)])
    ensures Below(Hung(mem, f, i, g, Zeros(), PTE_V), f, i) == Some(g)
    ensures Grows(mem, owner, Hung(mem, f, i, g, Zeros(), PTE_V), owner[g := Child(owner, f, i)])
    ensures Done(mem, owner, Hung(mem, f, i, g, Zeros(), PTE_V), 0, 0, 0, Unmap)
  {
    LinkTable(mem, owner, f, i, g);
  }

  class VirtualMemory {
    const buddy: Buddy
    const base: nat  // frame number of the first page of RAM
    var mem: Memory
    ghost var owner: Owners

    predicate InRam(f: nat)
      reads this, buddy
    {
      base <= f < base + buddy.size
    }

    ghost predicate Valid()
      reads this, buddy, buddy.bitmap, buddy.refCnt
    {
      && buddy.Valid()
      && FramesOk(base, buddy.refCnt[..], mem, owner)
    }

    ghost function Count(f: nat): nat
      reads this, buddy, buddy.refCnt
    {
      if InRam(f) && f - base < buddy.refCnt.Length then buddy.refCnt[f - base] else 0
    }

    ghost predicate NoFreePage()
      reads this, buddy
    {
      forall p: nat :: !PageFree(buddy.size, buddy.live, p)
    }

    /** The state in which setup_vm_final starts: one zeroed root table in a reserved frame, and RAM with any contents. */
    constructor (b: Buddy, ramBase: nat, contents: Memory, root: nat)
      requires b.Valid() && ramBase + b.size <= PPN_LIMIT
      requires forall f: nat | ramBase <= f < ramBase + b.size :: f in contents && |contents[f]| == ENTRIES
      requires ramBase <= root < ramBase + b.size && b.refCnt[root - ramBase] > 0
      ensures Valid() && buddy == b && base == ramBase && owner == map[root := Root]
      ensures forall v: nat :: Word(mem, root, v) == 0
    {
      buddy, base := b, ramBase;
      mem := contents[root := Zeros()];
      owner := map[root := Root];
      new;
      hide FramesOk, Forest, Word, BuddyTree.Canonical, BuddyTree.LiveOk;
      EmptyRoot(ramBase, b.refCnt[..], contents, mem, root);
    }

    /** alloc_page for a table: a frame that no tree uses yet, whatever it holds. */
    method AllocFrame() returns (ok: bool, f: nat)
      requires Valid()
      modifies buddy.bitmap, buddy.refCnt, buddy`live
      ensures Valid()
      ensures !ok ==> NoFreePage() && buddy.refCnt[..] == old(buddy.refCnt[..])
      ensures ok ==> InRam(f) && f !in owner && old(buddy.refCnt[f - base]) == 0
      ensures ok ==> buddy.refCnt[..] == old(buddy.refCnt[..])[f - base := 1]
    {
      ghost var counts := buddy.refCnt[..];
      var pfn;
      ok, pfn := buddy.AllocPage();
      f := pfn + base;
      if ok { FreshFrame(base, counts, mem, owner, pfn); }
    }

    /** The missing-table branch: allocate, zero and link a table. */
    method NewTable(f: nat, i: nat) returns (ok: bool, g: nat)
      requires Valid() && f in owner && !owner[f].Leaf? && i < ENTRIES && !IsValid(Entry(mem, f, i))
      modifies this`mem, this`owner, buddy.bitmap, buddy.refCnt, buddy`live
      ensures Valid() && (!ok ==> NoFreePage())
      ensures TableStep(old(mem), old(owner), old(buddy.refCnt[..]), mem, owner, buddy.refCnt[..], base, f, i, ok, g)
    {
      hide Forest, FramesOk, Hung, BuddyTree.Canonical, BuddyTree.LiveOk;
      EntryPresent(base, buddy.refCnt[..], mem, owner, f, i);
      ghost var counts := buddy.refCnt[..];
      ok, g := AllocFrame();
      if ok {
        LinkGrows(base, buddy.refCnt[..], mem, owner, f, i, g);
        mem := Hung(mem, f, i, g, Zeros(), PTE_V);
        owner := owner[g := Child(owner, f, i)];
      }
    }

    /** One table-creating step: the table under entry i of table f, allocated and zeroed if missing. */
    method TableBelow(f: nat, i: nat) returns (ok: bool, g: nat)
      requires Valid() && f in owner && !owner[f].Leaf? && i < ENTRIES
      modifies this`mem, this`owner, buddy.bitmap, buddy.refCnt, buddy`live
      ensures Valid() && (!ok ==> NoFreePage())
      ensures TableStep(old(mem), old(owner), old(buddy.refCnt[..]), mem, owner, buddy.refCnt[..], base, f, i, ok, g)
    {
      var entry := mem[f][i];
      g := GetPpn(entry);
      ok := true;
      if IsValid(entry) {
        BelowIsOwned(mem, owner, f, i);
      } else {
        ok, g := NewTable(f, i);
      }
    }

    /** A range operation has treated exactly the pages before cur. */
    ghost predicate At(job: Job, cur: nat)
      reads this, buddy, buddy.bitmap, buddy.refCnt
    {
      Valid() && JobOk(job) && job.base == base && JobDone(job, mem, owner, buddy.refCnt[..], cur)
    }

    /** TableBelow within a range operation. */
    method TableFor(ghost job: Job, ghost cur: nat, f: nat, i: nat) returns (ok: bool, g: nat)
      requires At(job, cur) && f in owner && !owner[f].Leaf? && i < ENTRIES
      modifies this`mem, this`owner, buddy.bitmap, buddy.refCnt, buddy`live
      ensures At(job, cur) && (!ok ==> NoFreePage())
      ensures Grows(old(mem), old(owner), mem, owner)
      ensures ok ==> Below(mem, f, i) == Some(g) && Owned(owner, g, Child(old(owner), f, i))
    {
      ghost var mem0, owner0, counts0 := mem, owner, buddy.refCnt[..];
      ok, g := TableBelow(f, i);
      JobTable(job, mem0, owner0, counts0, cur, mem, owner, buddy.refCnt[..], f, i, ok, g);
    }

    /** create_mapping's innermost statement. */
    method MapEntry(ghost job: Job, ghost i: nat, ghost j: nat, k: nat, l: nat, ppn: nat, perm: nat)
      requires i < ENTRIES && j < ENTRIES && k < ENTRIES
      requires At(job, Vpn(i, j, k)) && LeafOf(mem, job.root, i, j) == Some(l) && job.lo <= Vpn(i, j, k)
      requires job.goal.MapTo? && MakePte(ppn, perm) == GoalWord(job.goal, Vpn(i, j, k))
      modifies this`mem
      ensures At(job, Vpn(i, j, k) + 1) && LeafOf(mem, job.root, i, j) == Some(l) && SameLinks(old(mem), owner, mem)
    {
      hide Done, Grows, Forest, CountDone, FramesOk, Word, LeafOf, SameLinks, JobOk, MakePte, BuddyTree.Canonical;
      ghost var v := Vpn(i, j, k);
      JobStore(job, mem, owner, buddy.refCnt[..], i, j, k, l);
      MapKeepsCounts(job, owner, buddy.refCnt[..], v);
      mem := Store(mem, l, k, MakePte(ppn, perm));
    }

    /** remove_mapping's innermost statements: drop the frame's reference, then clear the entry. */
    method UnmapEntry(ghost job: Job, ghost i: nat, ghost j: nat, k: nat, l: nat)
      requires i < ENTRIES && j < ENTRIES && k < ENTRIES
      requires At(job, Vpn(i, j, k)) && LeafOf(mem, job.root, i, j) == Some(l) && job.lo <= Vpn(i, j, k) <= job.hi
      requires job.goal.Unmap?
      modifies this`mem, buddy.bitmap, buddy.refCnt, buddy`live
      ensures At(job, Vpn(i, j, k) + 1) && LeafOf(mem, job.root, i, j) == Some(l) && SameLinks(old(mem), owner, mem)
    {
      hide JobOk, JobDone, Forest, FramesOk, Word, LeafOf, SameLinks, GetPpn, BuddyTree.Canonical, BuddyTree.LiveOk;
      ghost var counts := buddy.refCnt[..];
      UnmapFacts(job, mem, owner, counts, i, j, k, l);
      var w := mem[l][k];
      if IsValid(w) {
        var res := buddy.DerefPage(GetPpn(w) - base);
        assert buddy.refCnt[..] == DropOne(counts, GetPpn(w) - base);
      }
      mem := Store(mem, l, k, 0);
    }

    /** create_mapping's innermost loop: entries kLow..kHigh of leaf table l. */
    method FillLeaf(ghost job: Job, ghost i: nat, ghost j: nat, l: nat, kLow: nat, kHigh: nat, ppn: nat, perm: nat)
      returns (next: nat)
      requires i < ENTRIES && j < ENTRIES && kLow <= kHigh < ENTRIES && job.lo <= Vpn(i, j, kLow)
      requires job.goal.MapTo? && job.goal.first == job.lo && job.goal.perm == perm
      requires ppn == job.goal.ppn + (Vpn(i, j, kLow) - job.lo)
      requires At(job, Vpn(i, j, kLow)) && LeafOf(mem, job.root, i, j) == Some(l)
      modifies this`mem
      ensures At(job, Vpn(i, j, kHigh) + 1) && SameLinks(old(mem), owner, mem)
      ensures next == ppn + (kHigh - kLow) + 1
    {
      hide JobOk, JobDone, Valid, LeafOf, MakePte;
      next := ppn;
      var k := kLow;
      while k <= kHigh
        invariant kLow <= k <= kHigh + 1 && next == ppn + (k - kLow)
        invariant At(job, Vpn(i, j, k)) && LeafOf(mem, job.root, i, j) == Some(l) && SameLinks(old(mem), owner, mem)
      {
        MapEntry(job, i, j, k, l, next, perm);
        next := next + 1;
        k := k + 1;
      }
    }

    /** remove_mapping's innermost loop. */
    method ClearLeaf(ghost job: Job, ghost i: nat, ghost j: nat, l: nat, kLow: nat, kHigh: nat)
      requires i < ENTRIES && j < ENTRIES && kLow <= kHigh < ENTRIES
      requires job.lo <= Vpn(i, j, kLow) && Vpn(i, j, kHigh) <= job.hi && job.goal.Unmap?
      requires At(job, Vpn(i, j, kLow)) && LeafOf(mem, job.root, i, j) == Some(l)
      modifies this`mem, buddy.bitmap, buddy.refCnt, buddy`live
      ensures At(job, Vpn(i, j, kHigh) + 1) && SameLinks(old(mem), owner, mem)
    {
      hide JobOk, JobDone, Valid, LeafOf;
      var k := kLow;
      while k <= kHigh
        invariant kLow <= k <= kHigh + 1
        invariant At(job, Vpn(i, j, k)) && LeafOf(mem, job.root, i, j) == Some(l) && SameLinks(old(mem), owner, mem)
      {
        UnmapEntry(job, i, j, k, l);
        k := k + 1;
      }
    }

    /** Tables reached so far stay reachable. */
    ghost predicate Holds(job: Job, i: nat, m: nat)
      reads this
    {
      IsRoot(owner, job.root) && Below(mem, job.root, i) == Some(m) && Owned(owner, m, Mid(job.root, i))
    }

    /** create_mapping's middle loop: second-level table m of root entry i. */
    method FillMid(ghost job: Job, i: nat, m: nat, low: seq<nat>, high: seq<nat>, ppn: nat, perm: nat)
      returns (ok: bool, next: nat)
      requires job.lo <= job.hi < VPNS && I2(job.lo) <= i <= I2(job.hi)
      requires low == [I0(job.lo), I1(job.lo), I2(job.lo)] && high == [I0(job.hi), I1(job.hi), I2(job.hi)]
      requires job.goal.MapTo? && job.goal.first == job.lo && job.goal.perm == perm
      requires ppn == job.goal.ppn + (Begin(job.lo, i, FirstJ(job.lo, i)) - job.lo)
      requires At(job, Begin(job.lo, i, FirstJ(job.lo, i))) && Holds(job, i, m)
      modifies this`mem, this`owner, buddy.bitmap, buddy.refCnt, buddy`live
      ensures Valid() && (!ok ==> NoFreePage())
      ensures ok ==> At(job, After(job.hi, i, LastJ(job.hi, i))) && next == job.goal.ppn + (After(job.hi, i, LastJ(job.hi, i)) - job.lo)
    {
      hide JobOk, JobDone, Valid, Begin, After, FirstJ, LastJ, FirstK, LastK, Vpn, Grows, SameLinks, LeafOf, Below, I0,
           I1, I2;
      RangeOrder(job.lo, job.hi);
      var jLow := if i == low[2] then low[1] else 0;
      var jHigh := if i == high[2] then high[1] else 511;
      JBounds(job.lo, job.hi, i);
      ok, next := true, ppn;
      var j := jLow;
      while j <= jHigh
        invariant jLow <= j <= jHigh + 1 && Holds(job, i, m) && Valid()
        invariant At(job, Position(job, i, j)) && next == job.goal.ppn + (Position(job, i, j) - job.lo)
      {
        KBounds(job, i, j, low, high);
        ghost var mem0, owner0 := mem, owner;
        var l;
        ok, l := TableFor(job, Position(job, i, j), m, j);
        if !ok {
          return;
        }
        HoldsKept(mem0, owner0, mem, owner, job.root, i, m, j, l);
        var kLow := if i == low[2] && j == low[1] then low[0] else 0;
        var kHigh := if i == high[2] && j == high[1] then high[0] else 511;
        ghost var mem1 := mem;
        next := FillLeaf(job, i, j, l, kLow, kHigh, next, perm);
        SameLinksKeep(mem1, owner, mem, job.root, i, m);
        j := j + 1;
      }
    }

    /** remove_mapping's middle loop. */
    method ClearMid(ghost job: Job, i: nat, m: nat, low: seq<nat>, high: seq<nat>) returns (ok: bool)
      requires job.lo <= job.hi < VPNS && I2(job.lo) <= i <= I2(job.hi) && job.goal.Unmap?
      requires low == [I0(job.lo), I1(job.lo), I2(job.lo)] && high == [I0(job.hi), I1(job.hi), I2(job.hi)]
      requires At(job, Begin(job.lo, i, FirstJ(job.lo, i))) && Holds(job, i, m)
      modifies this`mem, this`owner, buddy.bitmap, buddy.refCnt, buddy`live
      ensures Valid() && (!ok ==> NoFreePage())
      ensures ok ==> At(job, After(job.hi, i, LastJ(job.hi, i)))
    {
      hide JobOk, JobDone, Valid, Begin, After, FirstJ, LastJ, FirstK, LastK, Vpn, Grows, SameLinks, LeafOf, Below, I0,
           I1, I2;
      RangeOrder(job.lo, job.hi);
      var jLow := if i == low[2] then low[1] else 0;
      var jHigh := if i == high[2] then high[1] else 511;
      JBounds(job.lo, job.hi, i);
      ok := true;
      var j := jLow;
      while j <= jHigh
        invariant jLow <= j <= jHigh + 1 && Holds(job, i, m) && Valid() && At(job, Position(job, i, j))
      {
        KBounds(job, i, j, low, high);
        ghost var mem0, owner0 := mem, owner;
        var l;
        ok, l := TableFor(job, Position(job, i, j), m, j);
        if !ok {
          return;
        }
        HoldsKept(mem0, owner0, mem, owner, job.root, i, m, j, l);
        var kLow := if i == low[2] && j == low[1] then low[0] else 0;
        var kHigh := if i == high[2] && j == high[1] then high[0] else 511;
        ghost var mem1 := mem;
        ClearLeaf(job, i, j, l, kLow, kHigh);
        SameLinksKeep(mem1, owner, mem, job.root, i, m);
        j := j + 1;
      }
    }

    /** create_mapping's outer loop. */
    method FillRoot(ghost job: Job, root: nat, low: seq<nat>, high: seq<nat>, ppn: nat, perm: nat) returns (ok: bool)
      requires job.lo <= job.hi < VPNS && root == job.root
      requires low == [I0(job.lo), I1(job.lo), I2(job.lo)] && high == [I0(job.hi), I1(job.hi), I2(job.hi)]
      requires job.goal == MapTo(job.lo, ppn, perm) && At(job, job.lo)
      modifies this`mem, this`owner, buddy.bitmap, buddy.refCnt, buddy`live
      ensures Valid() && (!ok ==> NoFreePage()) && (ok ==> At(job, job.hi + 1))
    {
      hide JobOk, JobDone, Valid, Begin, After, FirstJ, LastJ, FirstK, LastK;
      RangeOrder(job.lo, job.hi);
      RowPositions(job, low[2]);
      ok := true;
      var next, i := ppn, low[2];
      while i <= high[2]
        invariant low[2] <= i <= high[2] + 1 && Valid()
        invariant At(job, RowPosition(job, i)) && next == ppn + (RowPosition(job, i) - job.lo)
      {
        RowPositions(job, i);
        RootStays(job, mem, owner, buddy.refCnt[..], RowPosition(job, i));
        ghost var owner0 := owner;
        var m;
        ok, m := TableFor(job, RowPosition(job, i), root, i);
        if !ok {
          return;
        }
        ok, next := FillMid(job, i, m, low, high, next, perm);
        if !ok {
          return;
        }
        i := i + 1;
      }
    }

    /** remove_mapping's outer loop. */
    method ClearRoot(ghost job: Job, root: nat, low: seq<nat>, high: seq<nat>) returns (ok: bool)
      requires job.lo <= job.hi < VPNS && root == job.root && job.goal.Unmap?
      requires low == [I0(job.lo), I1(job.lo), I2(job.lo)] && high == [I0(job.hi), I1(job.hi), I2(job.hi)]
      requires At(job, job.lo)
      modifies this`mem, this`owner, buddy.bitmap, buddy.refCnt, buddy`live
      ensures Valid() && (!ok ==> NoFreePage()) && (ok ==> At(job, job.hi + 1))
    {
      hide JobOk, JobDone, Valid, Begin, After, FirstJ, LastJ, FirstK, LastK;
      RangeOrder(job.lo, job.hi);
      RowPositions(job, low[2]);
      ok := true;
      var i := low[2];
      while i <= high[2]
        invariant low[2] <= i <= high[2] + 1 && Valid() && At(job, RowPosition(job, i))
      {
        RowPositions(job, i);
        RootStays(job, mem, owner, buddy.refCnt[..], RowPosition(job, i));
        ghost var owner0 := owner;
        var m;
        ok, m := TableFor(job, RowPosition(job, i), root, i);
        if !ok {
          return;
        }
        ok := ClearMid(job, i, m, low, high);
        if !ok {
          return;
        }
        i := i + 1;
      }
    }

    /** create_mapping. `ok` is false when the allocator ran out of pages and the machine was shut down. */
    method CreateMapping(root: nat, va: nat, pa: nat, sz: nat, perm: nat) returns (ok: bool)
      requires Valid() && IsRoot(owner, root)
      requires RangeFits(va, sz) && pa < WORD && perm < 0x400
      modifies this`mem, this`owner, buddy.bitmap, buddy.refCnt, buddy`live
      ensures Valid() && (!ok ==> NoFreePage())
      ensures ok ==> RangeMapped(
        MapJob(base, old(mem), old(owner), old(buddy.refCnt[..]), root, va, pa, sz, perm), mem, owner, buddy.refCnt[..])
    {
      hide JobDone, FramesOk, RangeMapped, RangeUnmapped, Forest, BuddyTree.Canonical, BuddyTree.LiveOk;
      var low := SplitVpn(va / 0x1000);
      var high := SplitVpn((va + sz - 1) / 0x1000);
      var ppn := pa / 0x1000;
      var full := Or(Or(perm, 0x1), 0x40);
      if And(full, 0x4) != 0 {
        full := Or(full, 0x80);
      }
      ghost var job := MapJob(base, mem, owner, buddy.refCnt[..], root, va, pa, sz, perm);
      RangeParts(va, sz);
      JobStart(job);
      ok := FillRoot(job, root, low, high, ppn, full);
      if ok {
        MapResult(job, mem, owner, buddy.refCnt[..]);
      }
    }

    /** remove_mapping. */
    method RemoveMapping(root: nat, va: nat, sz: nat) returns (ok: bool)
      requires Valid() && IsRoot(owner, root) && RangeFits(va, sz)
      requires Removable(UnmapJob(base, mem, owner, buddy.refCnt[..], root, va, sz))
      modifies this`mem, this`owner, buddy.bitmap, buddy.refCnt, buddy`live
      ensures Valid() && (!ok ==> NoFreePage())
      ensures ok ==> RangeUnmapped(
        UnmapJob(base, old(mem), old(owner), old(buddy.refCnt[..]), root, va, sz), mem, owner, buddy.refCnt[..])
    {
      hide JobDone, FramesOk, RangeMapped, RangeUnmapped, Forest, BuddyTree.Canonical, BuddyTree.LiveOk;
      var low := SplitVpn(va / 0x1000);
      var high := SplitVpn((va + sz - 1) / 0x1000);
      ghost var job := UnmapJob(base, mem, owner, buddy.refCnt[..], root, va, sz);
      RangeParts(va, sz);
      JobStart(job);
      ok := ClearRoot(job, root, low, high);
      if ok {
        UnmapResult(job, mem, owner, buddy.refCnt[..]);
      }
    }

    /** walk_page_table_pte: the frame and index of v's leaf entry, when both upper levels are valid. */
    method WalkPageTablePte(root: nat, v: nat) returns (found: bool, frame: nat, index: nat)
      requires Valid() && IsRoot(owner, root)
      ensures found <==> LeafOf(mem, root, I2(v), I1(v)).Some?
      ensures found ==> LeafOf(mem, root, I2(v), I1(v)) == Some(frame) && index == I0(v) && Entry(mem, frame, index) == Word(mem, root, v)
      ensures !found ==> Word(mem, root, v) == 0
    {
      var vpn := SplitVpn(v);
      LeafIsOwned(mem, owner, root, I2(v), I1(v));
      found, frame, index := true, root, vpn[0];
      var i := 2;
      while i >= 1
        invariant 0 <= i <= 2 && frame in mem && |mem[frame]| == ENTRIES
        invariant i == 2 ==> frame == root
        invariant i == 1 ==> Below(mem, root, I2(v)) == Some(frame)
        invariant i == 0 ==> LeafOf(mem, root, I2(v), I1(v)) == Some(frame)
      {
        var pte := mem[frame][vpn[i]];
        if !IsValid(pte) {
          found := false;
          return;
        }
        frame := GetPpn(pte);
        i := i - 1;
      }
    }

    /** walk_page_table: the physical address of a mapped virtual address. */
    method WalkPageTable(root: nat, va: nat) returns (pa: Option<nat>)
      requires Valid() && IsRoot(owner, root)
      ensures pa == if IsValid(Word(mem, root, va / 0x1000)) then Some(GetPpn(Word(mem, root, va / 0x1000)) * 0x1000 + va % 0x1000) else None
    {
      hide Forest, FramesOk, BuddyTree.Canonical, BuddyTree.LiveOk, GetPpn;
      assert Pow2(12) == 0x1000;
      var offset, v := ExtractBits(va, 12);
      var found, frame, index := WalkPageTablePte(root, v);
      if !found {
        return None;
      }
      var pte := Entry(mem, frame, index);
      if !IsValid(pte) {
        return None;
      }
      return Some(GetPpn(pte) * 0x1000 + offset);
    }

    /** copy_mapping under way: everything outside dst is as it was, and dst agrees with src before page cur. */
    ghost predicate Copying(mem0: Memory, owner0: Owners, src: nat, dst: nat, cur: nat)
      reads this, buddy, buddy.bitmap, buddy.refCnt
    {
      Valid() && CleanFrames(base, buddy.refCnt[..], mem) && CopyDone(mem0, owner0, mem, owner, src, dst, cur)
    }

    /** Allocate a frame, give it contents c and hang it under the invalid entry i of table f. */
    method HangNew(f: nat, i: nat, c: Option<nat>, perm: nat) returns (ok: bool, g: nat)
      requires Valid() && CleanFrames(base, buddy.refCnt[..], mem)
      requires f in owner && !owner[f].Leaf? && i < ENTRIES && !IsValid(Entry(mem, f, i)) && perm == 0x1
      requires if owner[f].Mid? then c.Some? && c.value in owner else c == None
      modifies this`mem, this`owner, buddy.bitmap, buddy.refCnt, buddy`live
      ensures Valid() && (!ok ==> NoFreePage())
      ensures ok ==>
        && CleanFrames(base, buddy.refCnt[..], mem) && g !in old(owner) && g < PPN_LIMIT
        && f in old(mem) && i < |old(mem)[f]| && g in old(mem) && |old(mem)[g]| == ENTRIES && f != g
        && (c.Some? ==> c.value in old(mem)) && (c == None ==> NoValidEntry(old(mem)[g]))
        && mem == Hung(old(mem), f, i, g, if c.Some? then old(mem)[c.value] else old(mem)[g], perm)
        && owner == old(owner)[g := Child(old(owner), f, i)]
        && TablesAdded(base, old(owner), old(buddy.refCnt[..]), owner, buddy.refCnt[..])
    {
      hide Forest, FramesOk, CleanFrames, Hung, IsValid, NoValidEntry, Child, CopyLinks, TablesAdded,
           BuddyTree.Canonical, BuddyTree.LiveOk;
      ghost var counts := buddy.refCnt[..];
      ok, g := AllocFrame();
      if ok {
        ContentsOk(base, counts, mem, owner, f, i, g, c);
        var contents := if c.Some? then mem[c.value] else mem[g];
        HangOk(base, buddy.refCnt[..], mem, owner, f, i, g, contents, perm);
        CleanKept(base, counts, mem, owner, f, i, g, contents, perm);
        OneAdded(base, owner, counts, g, Child(owner, f, i));
        mem := Hung(mem, f, i, g, contents, perm);
        owner := owner[g := Child(owner, f, i)];
      }
    }

    /** copy_mapping's inner body: copy leaf table (i, j) of src, if there is one. */
    method CopyLeaf(ghost mem0: Memory, ghost owner0: Owners, ghost src: nat, ghost dst: nat, ghost i: nat, srcMid: nat, m: nat, j: nat)
      returns (ok: bool)
      requires i < ENTRIES && j < ENTRIES && CopyRoots(owner0, src, dst) && FreeFrom(mem, dst, i + 1)
      requires Copying(mem0, owner0, src, dst, Vpn(i, j, 0)) && RowReady(mem0, owner0, mem, owner, src, dst, i, srcMid, m, j)
      modifies this`mem, this`owner, buddy.bitmap, buddy.refCnt, buddy`live
      ensures Valid() && (!ok ==> NoFreePage())
      ensures ok ==> Copying(mem0, owner0, src, dst, Vpn(i, j + 1, 0)) && FreeFrom(mem, dst, i + 1)
      ensures ok ==> RowReady(mem0, owner0, mem, owner, src, dst, i, srcMid, m, j + 1)
      ensures ok ==> TablesAdded(base, old(owner), old(buddy.refCnt[..]), owner, buddy.refCnt[..])
    {
      hide TablesAdded, Forest, FramesOk, CleanFrames, CopyDone, Hung, IsValid, GetPpn, GetPerm, LeafOf,
           BuddyTree.Canonical, BuddyTree.LiveOk, RowReady, FreeFrom;
      ForestOf(base, buddy.refCnt[..], mem, owner);
      RowFacts(mem0, owner0, mem, owner, src, dst, i, srcMid, m, j);
      ok := true;
      var entry := mem[srcMid][j];
      if IsValid(entry) {
        ghost var mem1, owner1 := mem, owner;
        var g;
        ok, g := HangNew(m, j, Some(GetPpn(entry)), GetPerm(entry));
        if ok {
          CopyLeafDone(mem0, owner0, mem1, owner1, src, dst, i, j, GetPpn(entry), m, g, GetPerm(entry));
          RowStep(mem0, owner0, mem1, owner1, src, dst, i, srcMid, m, j, g, mem1[GetPpn(entry)], GetPerm(entry));
        }
      } else {
        SkipLeaf(mem0, owner0, mem, owner, src, dst, i, srcMid, m, j);
        NothingAdded(base, owner, buddy.refCnt[..]);
      }
    }

    /** copy_mapping's inner loop: second-level table i of src, whose counterpart m in dst is still empty. */
    method CopyRow(ghost mem0: Memory, ghost owner0: Owners, ghost src: nat, ghost dst: nat, ghost i: nat, srcMid: nat, m: nat)
      returns (ok: bool)
      requires i < ENTRIES && CopyRoots(owner0, src, dst) && FreeFrom(mem, dst, i + 1)
      requires Copying(mem0, owner0, src, dst, Vpn(i, 0, 0)) && RowReady(mem0, owner0, mem, owner, src, dst, i, srcMid, m, 0)
      modifies this`mem, this`owner, buddy.bitmap, buddy.refCnt, buddy`live
      ensures Valid() && (!ok ==> NoFreePage())
      ensures ok ==> Copying(mem0, owner0, src, dst, Vpn(i + 1, 0, 0)) && FreeFrom(mem, dst, i + 1) && IsRoot(owner, dst)
      ensures ok ==> TablesAdded(base, old(owner), old(buddy.refCnt[..]), owner, buddy.refCnt[..])
    {
      hide Valid, CopyDone, CleanFrames, RowReady, FreeFrom, TablesAdded;
      ok := true;
      var j := 0;
      NothingAdded(base, owner, buddy.refCnt[..]);
      while j < ENTRIES
        invariant TablesAdded(base, old(owner), old(buddy.refCnt[..]), owner, buddy.refCnt[..])
        invariant 0 <= j <= ENTRIES && Copying(mem0, owner0, src, dst, Vpn(i, j, 0)) && FreeFrom(mem, dst, i + 1)
        invariant RowReady(mem0, owner0, mem, owner, src, dst, i, srcMid, m, j)
      {
        ghost var owner1, counts1 := owner, buddy.refCnt[..];
        ok := CopyLeaf(mem0, owner0, src, dst, i, srcMid, m, j);
        if !ok {
          return;
        }
        AddedInSteps(base, old(owner), old(buddy.refCnt[..]), owner1, counts1, owner, buddy.refCnt[..]);
        j := j + 1;
      }
      DstIsRoot(mem0, owner0, mem, owner, src, dst, i, srcMid, m, ENTRIES);
    }

    /** copy_mapping's outer body: copy row i of src, if there is one. */
    method CopyRootEntry(ghost mem0: Memory, ghost owner0: Owners, src: nat, dst: nat, i: nat) returns (ok: bool)
      requires i < ENTRIES && CopyRoots(owner0, src, dst) && Forest(mem0, owner0) && IsRoot(owner, dst)
      requires Copying(mem0, owner0, src, dst, Vpn(i, 0, 0)) && FreeFrom(mem, dst, i)
      modifies this`mem, this`owner, buddy.bitmap, buddy.refCnt, buddy`live
      ensures Valid() && (!ok ==> NoFreePage())
      ensures ok ==> Copying(mem0, owner0, src, dst, Vpn(i + 1, 0, 0)) && FreeFrom(mem, dst, i + 1) && IsRoot(owner, dst)
      ensures ok ==> TablesAdded(base, old(owner), old(buddy.refCnt[..]), owner, buddy.refCnt[..])
    {
      hide TablesAdded, Forest, FramesOk, CleanFrames, CopyDone, Hung, IsValid, GetPpn, GetPerm, Word, NoValidEntry,
           BuddyTree.Canonical, BuddyTree.LiveOk, RowReady, FreeFrom;
      ForestOf(base, buddy.refCnt[..], mem, owner);
      RootFacts(mem0, owner0, mem, owner, src, dst, i);
      ok := true;
      var entry := mem[src][i];
      if IsValid(entry) {
        ghost var mem1, owner1 := mem, owner;
        var m;
        ok, m := HangNew(dst, i, None, GetPerm(entry));
        if ok {
          CopyMidDone(mem0, owner0, mem1, owner1, src, dst, i, m, mem1[m], GetPerm(entry));
          ghost var owner2, counts2 := owner, buddy.refCnt[..];
          ok := CopyRow(mem0, owner0, src, dst, i, GetPpn(entry), m);
          if ok { AddedInSteps(base, old(owner), old(buddy.refCnt[..]), owner2, counts2, owner, buddy.refCnt[..]); }
        }
      } else {
        SkipRow(mem0, owner0, mem, owner, src, dst, i);
        NothingAdded(base, owner, buddy.refCnt[..]);
      }
    }

    /** copy_mapping. dst is a frame of the caller's that no tree uses. Neither it nor the tables allocated here
        are zeroed by the code, so they must hold no stale valid entry. */
    method CopyMapping(dst: nat, src: nat) returns (ok: bool)
      requires Valid() && IsRoot(owner, src) && InRam(dst) && dst !in owner && Count(dst) > 0
      requires CleanFrames(base, buddy.refCnt[..], mem) && dst in mem && NoValidEntry(mem[dst])
      modifies this`mem, this`owner, buddy.bitmap, buddy.refCnt, buddy`live
      ensures Valid() && (!ok ==> NoFreePage())
      ensures ok ==> IsRoot(owner, dst) && forall f <- old(owner) :: f in owner && owner[f] == old(owner)[f]
      ensures ok ==> forall v: nat | v < VPNS :: Word(mem, dst, v) == Word(mem, src, v)
      ensures ok ==> forall r, v: nat | IsRoot(old(owner), r) && v < VPNS :: Word(mem, r, v) == old(Word(mem, r, v))
      ensures ok ==> TablesAdded(base, old(owner)[dst := Root], old(buddy.refCnt[..]), owner, buddy.refCnt[..])
    {
      hide Forest, FramesOk, CleanFrames, CopyDone, IsValid, Word, NoValidEntry, TablesAdded, BuddyTree.Canonical,
           BuddyTree.LiveOk, FreeFrom, Vpn;
      ghost var mem0, owner0 := mem, owner;
      OldForest(base, buddy.refCnt[..], mem, owner);
      CopyStart(base, buddy.refCnt[..], mem, owner, src, dst);
      owner := owner[dst := Root];
      ghost var owner1 := owner;
      ok := true;
      var i := 0;
      NothingAdded(base, owner, buddy.refCnt[..]);
      while i < ENTRIES
        invariant TablesAdded(base, owner1, old(buddy.refCnt[..]), owner, buddy.refCnt[..])
        invariant 0 <= i <= ENTRIES && Copying(mem0, owner0, src, dst, Vpn(i, 0, 0)) && FreeFrom(mem, dst, i)
        invariant IsRoot(owner, dst)
      {
        ghost var owner2, counts2 := owner, buddy.refCnt[..];
        ok := CopyRootEntry(mem0, owner0, src, dst, i);
        if !ok {
          return;
        }
        AddedInSteps(base, owner1, old(buddy.refCnt[..]), owner2, counts2, owner, buddy.refCnt[..]);
        i := i + 1;
      }
      CopyResult(mem0, owner0, mem, owner, src, dst);
    }
  }

  /** A frame whose count exceeds the entries that the range removes is not released on the way, so it is not
      taken for a new table either: its count falls by exactly those entries. */
  lemma FallIsExact(job: Job, mem: Memory, owner: Owners, counts: seq<nat>, p: nat)
    requires RangeUnmapped(job, mem, owner, counts) && p < |job.counts| && job.base + p !in job.owner
    requires job.counts[p] > Uses(job.mem, job.root, job.base + p, job.lo, job.hi + 1)
    ensures job.base + p !in owner
    ensures counts[p] == job.counts[p] - Uses(job.mem, job.root, job.base + p, job.lo, job.hi + 1)
  {
    hide Uses;
    assert counts[p] == counts[p];
  }

  lemma MappedPermBits(perm: nat)
    requires perm < 0x400
    ensures MappedPerm(perm) < 0x400 && MappedPerm(perm) % 2 == 1
    ensures PermOf(MappedPerm(perm)) == PermOf(perm).(v := true, a := true, d := PermOf(perm).d || PermOf(perm).w)
  {
    assert Pow2(0) == 0x1 && Pow2(2) == 0x4 && Pow2(6) == 0x40 && Pow2(7) == 0x80 && Pow2(10) == 0x400;
    var p1 := Or(perm, Pow2(0));
    var p2 := Or(p1, Pow2(6));
    OrNamedBits(perm, 0);
    OrNamedBits(p1, 6);
    OrNamedBits(p2, 7);
    OrBound(perm, Pow2(0), 10);
    OrBound(p1, Pow2(6), 10);
    OrBound(p2, Pow2(7), 10);
    AndBit(p2, 2);
    assert Bit(p2, 0) && Bit(Or(p2, Pow2(7)), 0);
  }

  /** What a walk finds on a freshly mapped page: the right frame, and the requested permissions plus V, A and D-with-W. */
  lemma MappedEntry(ppn: nat, perm: nat)
    requires perm < 0x400
    ensures GetPpn(MakePte(ppn, MappedPerm(perm))) == ppn % PPN_LIMIT
    ensures IsValid(MakePte(ppn, MappedPerm(perm)))
    ensures PermOf(MakePte(ppn, MappedPerm(perm))) == PermOf(perm).(v := true, a := true, d := PermOf(perm).d || PermOf(perm).w)
  {
    MappedPermBits(perm);
    PteRoundTrip(ppn, MappedPerm(perm), 0);
    LowBits(MakePte(ppn, MappedPerm(perm)), MappedPerm(perm));
  }

  lemma {:induction false} SameUses(mem: Memory, root: nat, mem': Memory, root': nat, f: nat, lo: nat, cur: nat)
    requires cur <= VPNS && forall v: nat | v < VPNS :: Word(mem', root', v) == Word(mem, root, v)
    ensures Uses(mem', root', f, lo, cur) == Uses(mem, root, f, lo, cur)
    decreases cur
  {
    hide Word;
    if cur > lo { SameUses(mem, root, mem', root', f, lo, cur - 1); }
  }

  /** Entries that could be removed from the source before a copy can be removed from either tree after it:
      the tables made for the copy were free frames, which no entry that is counted maps. */
  lemma RemovableAfterCopy(before: Job, dst: nat, after: Job)
    requires before.goal.Unmap? && Removable(before) && before.hi < VPNS
    requires forall v: nat | before.lo <= v <= before.hi :: !MapsFrame(before.mem, before.root, v, dst)
    requires after.goal.Unmap? && after.base == before.base && after.lo == before.lo && after.hi == before.hi
    requires TablesAdded(before.base, before.owner[dst := Root], before.counts, after.owner, after.counts)
    requires forall v: nat | v < VPNS :: Word(after.mem, after.root, v) == Word(before.mem, before.root, v)
    ensures Removable(after)
  {
    hide Word, IsValid, GetPpn;
    forall v: nat | after.lo <= v <= after.hi ensures RemovableEntry(after, v) {
      var w := Word(after.mem, after.root, v);
      assert RemovableEntry(before, v);
      if IsValid(w) {
        var f := GetPpn(w);
        UsesMonotone(before.mem, before.root, f, before.lo, v + 1, before.hi + 1);
        assert MapsFrame(before.mem, before.root, v, f);
        SameUses(before.mem, before.root, after.mem, after.root, f, before.lo, before.hi + 1);
        var p := f - before.base;
        assert CountAdded(before.owner[dst := Root], before.counts[p], after.owner, after.counts[p], before.base + p);
      }
    }
  }

  /** A copied table and its source are independent: mapping a range in either of them leaves every translation
      of the other, and every translation outside the range, as the source had them. */
  method CopyThenMap(vm: VirtualMemory, dst: nat, src: nat, inCopy: bool, va: nat, pa: nat, sz: nat, perm: nat) returns (ok: bool)
    requires vm.Valid() && IsRoot(vm.owner, src) && vm.InRam(dst) && dst !in vm.owner && vm.Count(dst) > 0
    requires CleanFrames(vm.base, vm.buddy.refCnt[..], vm.mem) && dst in vm.mem && NoValidEntry(vm.mem[dst])
    requires RangeFits(va, sz) && pa < WORD && perm < 0x400
    modifies vm`mem, vm`owner, vm.buddy.bitmap, vm.buddy.refCnt, vm.buddy`live
    ensures ok ==> forall v: nat | v < VPNS :: Word(vm.mem, if inCopy then src else dst, v) == old(Word(vm.mem, src, v))
    ensures ok ==> forall v: nat | v < VPNS ::
      Word(vm.mem, if inCopy then dst else src, v) ==
        (if FirstVpn(va) <= v <= LastVpn(va, sz)
         then MakePte(pa / 0x1000 + (v - FirstVpn(va)), MappedPerm(perm))
         else old(Word(vm.mem, src, v)))
  {
    hide Forest, FramesOk, CleanFrames, Word, MakePte, MappedPerm, TablesAdded, BuddyTree.Canonical, BuddyTree.LiveOk;
    ok := vm.CopyMapping(dst, src);
    if ok {
      ok := vm.CreateMapping(if inCopy then dst else src, va, pa, sz, perm);
    }
  }

  /** The same for unmapping a range, provided that the copy's root frame is not itself mapped there. */
  method CopyThenUnmap(vm: VirtualMemory, dst: nat, src: nat, inCopy: bool, va: nat, sz: nat) returns (ok: bool)
    requires vm.Valid() && IsRoot(vm.owner, src) && vm.InRam(dst) && dst !in vm.owner && vm.Count(dst) > 0
    requires CleanFrames(vm.base, vm.buddy.refCnt[..], vm.mem) && dst in vm.mem && NoValidEntry(vm.mem[dst])
    requires RangeFits(va, sz) && Removable(UnmapJob(vm.base, vm.mem, vm.owner, vm.buddy.refCnt[..], src, va, sz))
    requires forall v: nat | FirstVpn(va) <= v <= LastVpn(va, sz) :: !MapsFrame(vm.mem, src, v, dst)
    modifies vm`mem, vm`owner, vm.buddy.bitmap, vm.buddy.refCnt, vm.buddy`live
    ensures ok ==> forall v: nat | v < VPNS :: Word(vm.mem, if inCopy then src else dst, v) == old(Word(vm.mem, src, v))
    ensures ok ==> forall v: nat | v < VPNS ::
      Word(vm.mem, if inCopy then dst else src, v) ==
        (if FirstVpn(va) <= v <= LastVpn(va, sz) then 0 else old(Word(vm.mem, src, v)))
  {
    hide Forest, FramesOk, CleanFrames, Word, Removable, TablesAdded, BuddyTree.Canonical, BuddyTree.LiveOk, MapsFrame;
    ghost var before := UnmapJob(vm.base, vm.mem, vm.owner, vm.buddy.refCnt[..], src, va, sz);
    ok := vm.CopyMapping(dst, src);
    if ok {
      var root := if inCopy then dst else src;
      RangeParts(va, sz);
      RemovableAfterCopy(before, dst, UnmapJob(vm.base, vm.mem, vm.owner, vm.buddy.refCnt[..], root, va, sz));
      ok := vm.RemoveMapping(root, va, sz);
    }
  }
}
