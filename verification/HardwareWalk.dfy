/** The address translation that the hardware performs on the page tables, from the text of the RISC-V Privileged
    Architecture, sections 4.3.2 and 4.4: bits are given by their numbers, independently of the kernel's macros. */
module HardwareWalk {
  import opened Words
  import opened Sv39
  import opened PageTree
  import opened PageTables

  datatype Walked = PageFault | Reached(level: nat, pte: nat)

  predicate HasBit(pte: nat, mask: nat)
    requires mask > 0
  {
    pte / mask % 2 == 1
  }

  /** va.vpn[level]. */
  function VpnField(va: nat, level: nat): nat
    requires level <= 2
  {
    if level == 0 then va / 0x1000 % 0x200 else if level == 1 then va / 0x20_0000 % 0x200 else va / 0x4000_0000 % 0x200
  }

  /** Bits 63 to 39 equal bit 38. */
  predicate SignExtended(va: nat) { va / 0x40_0000_0000 == 0 || va / 0x40_0000_0000 == 0x3ff_ffff }

  /** Steps 2 to 4: V must be set, W needs R, bits 63 to 54 are reserved; R or X makes a leaf, else the entry points
      to the next table. */
  function Walk(mem: Memory, table: nat, va: nat, level: nat): Walked
    requires level <= 2
    decreases level
  {
    var pte := Entry(mem, table, VpnField(va, level));
    if !HasBit(pte, 0x1) || (!HasBit(pte, 0x2) && HasBit(pte, 0x4)) || pte / 0x40_0000_0000_0000 != 0 then PageFault
    else if HasBit(pte, 0x2) || HasBit(pte, 0x8) then Reached(level, pte)
    else if level == 0 then PageFault
    else Walk(mem, pte / 0x400 % 0x1000_0000_0000, va, level - 1)
  }

  /** Whether the hardware takes w for a leaf. */
  predicate LeafFor(w: nat) {
    HasBit(w, 0x1) && !(HasBit(w, 0x4) && !HasBit(w, 0x2)) && (HasBit(w, 0x2) || HasBit(w, 0x8))
  }

  lemma FieldsAreIndices(va: nat)
    ensures VpnField(va, 0) == I0(va / 0x1000) && VpnField(va, 1) == I1(va / 0x1000) && VpnField(va, 2) == I2(va / 0x1000)
  {
    var v := va / 0x1000;
    assert va / 0x20_0000 == v / 512;
    assert va / 0x4000_0000 == v / 512 / 512;
  }

  lemma PointerBits(pte: nat)
    ensures IsValid(pte) <==> HasBit(pte, 0x1)
    ensures IsPointer(pte) ==> HasBit(pte, 0x1) && !HasBit(pte, 0x2) && !HasBit(pte, 0x4) && !HasBit(pte, 0x8)
    ensures Unreserved(pte) <==> pte / 0x40_0000_0000_0000 == 0
    ensures GetPpn(pte) == pte / 0x400 % 0x1000_0000_0000
  {
  }

  /** The hardware walks on at a pointer, ... */
  lemma PointerStep(mem: Memory, owner: Owners, f: nat, va: nat, level: nat)
    requires Forest(mem, owner) && f in owner && !owner[f].Leaf? && 1 <= level <= 2
    ensures var i := VpnField(va, level);
      Walk(mem, f, va, level) == match Below(mem, f, i) case None => PageFault case Some(g) => Walk(mem, g, va, level - 1)
  {
    var i := VpnField(va, level);
    LinkIsPointer(mem, owner, f, i);
    PointerBits(mem[f][i]);
    TablesFit(mem, owner, f);
  }

  /** ... and stops at level 0. */
  lemma LeafStep(mem: Memory, owner: Owners, l: nat, va: nat)
    requires Forest(mem, owner) && l in owner
    ensures var w := Entry(mem, l, VpnField(va, 0)); Walk(mem, l, va, 0) == if LeafFor(w) then Reached(0, w) else PageFault
  {
    hide IsValid, Unreserved;
    TablesFit(mem, owner, l);
    PointerBits(Entry(mem, l, VpnField(va, 0)));
  }

  lemma FieldBound(va: nat)
    ensures VpnField(va, 0) < ENTRIES && VpnField(va, 1) < ENTRIES && VpnField(va, 2) < ENTRIES
  {
  }

  lemma ZeroIsNoLeaf()
    ensures !LeafFor(0)
  {
  }

  /** In every forest the hardware's walk passes both upper levels as pointers and ends at level 0, with the entry
      that `Word` gives, unless that is no leaf. */
  lemma WalkGivesWord(mem: Memory, owner: Owners, root: nat, va: nat)
    requires Forest(mem, owner) && IsRoot(owner, root)
    ensures var w := Word(mem, root, va / 0x1000); Walk(mem, root, va, 2) == if LeafFor(w) then Reached(0, w) else PageFault
  {
    hide Walk, VpnField, LeafFor, Forest, I0, I1, I2;
    FieldsAreIndices(va);
    FieldBound(va);
    ZeroIsNoLeaf();
    var i, j := VpnField(va, 2), VpnField(va, 1);
    PointerStep(mem, owner, root, va, 2);
    LeafIsOwned(mem, owner, root, i, j);
    if Below(mem, root, i).Some? {
      var m := Below(mem, root, i).value;
      PointerStep(mem, owner, m, va, 1);
      if Below(mem, m, j).Some? { LeafStep(mem, owner, Below(mem, m, j).value, va); }
    }
  }

  // ----- what create_mapping makes the hardware do

  /** The physical address: the leaf's frame and the offset within the page. */
  function Translate(mem: Memory, root: nat, va: nat): (pa: int) {
    match Walk(mem, root, va, 2)
    case PageFault => -1
    case Reached(level, pte) => pte / 0x400 % 0x1000_0000_0000 * 0x1000 + va % 0x1000
  }

  /** Permission bits that the hardware takes for a leaf's: R or X, and R where there is W. */
  predicate LeafPerm(perm: nat) { (HasBit(perm, 0x2) || HasBit(perm, 0x8)) && (HasBit(perm, 0x4) ==> HasBit(perm, 0x2)) }

  lemma BitByShift(n: nat)
    ensures Bit(n, 0) == HasBit(n, 0x1) && Bit(n, 1) == HasBit(n, 0x2) && Bit(n, 2) == HasBit(n, 0x4) && Bit(n, 3) == HasBit(n, 0x8)
    ensures Bit(n, 4) == HasBit(n, 0x10) && Bit(n, 5) == HasBit(n, 0x20) && Bit(n, 6) == HasBit(n, 0x40)
    ensures Bit(n, 7) == HasBit(n, 0x80) && Bit(n, 8) == HasBit(n, 0x100) && Bit(n, 9) == HasBit(n, 0x200)
  {
    SmallPowers();
    ShrIsDiv(n, 0);
    ShrIsDiv(n, 1);
    ShrIsDiv(n, 2);
    ShrIsDiv(n, 3);
    ShrIsDiv(n, 4);
    ShrIsDiv(n, 5);
    ShrIsDiv(n, 6);
    ShrIsDiv(n, 7);
    ShrIsDiv(n, 8);
    ShrIsDiv(n, 9);
  }

  /** Each permission's name stands for the bit that the architecture gives it. */
  lemma NamesAreBits(n: nat)
    ensures var p := PermOf(n);
      && p.v == HasBit(n, 0x1) && p.r == HasBit(n, 0x2) && p.w == HasBit(n, 0x4) && p.x == HasBit(n, 0x8) && p.u == HasBit(n, 0x10)
      && p.g == HasBit(n, 0x20) && p.a == HasBit(n, 0x40) && p.d == HasBit(n, 0x80) && p.s == HasBit(n, 0x100) && p.rsw == HasBit(n, 0x200)
  {
    hide HasBit, Bit;
    BitByShift(n);
  }

  /** What a mapped entry is to the hardware. */
  lemma MappedLeaf(ppn: nat, perm: nat)
    requires perm < 0x400 && LeafPerm(perm)
    ensures LeafFor(MakePte(ppn, MappedPerm(perm)))
    ensures MakePte(ppn, MappedPerm(perm)) / 0x400 % 0x1000_0000_0000 == ppn % PPN_LIMIT
  {
    hide HasBit, PermOf, MappedPerm, MakePte;
    MappedEntry(ppn, perm);
    NamesAreBits(MakePte(ppn, MappedPerm(perm)));
    NamesAreBits(perm);
    PointerBits(MakePte(ppn, MappedPerm(perm)));
  }

  lemma SameQuotient(lo: nat, n: nat, hi: nat, d: nat)
    requires d > 0 && lo <= n <= hi && lo / d == hi / d
    ensures n / d == lo / d && lo % d <= n % d <= hi % d < d && n % d - lo % d == n - lo
  {
    var q := lo / d;
    assert lo == q * d + lo % d && hi == q * d + hi % d;
    DivUnique(n, d, q, n - q * d);
  }

  /** Page numbers within a range that fits do not wrap. */
  lemma PageInRange(va: nat, sz: nat, a: nat)
    requires RangeFits(va, sz) && va / 0x1000 <= a / 0x1000 <= (va + sz - 1) / 0x1000
    ensures FirstVpn(va) <= a / 0x1000 % VPNS <= LastVpn(va, sz) < VPNS
    ensures a / 0x1000 % VPNS - FirstVpn(va) == a / 0x1000 - va / 0x1000
  {
    var lo, n, hi := va / 0x1000, a / 0x1000, (va + sz - 1) / 0x1000;
    SameQuotient(lo, n, hi, VPNS);
  }

  lemma RootGrows(base: nat, mem: Memory, owner: Owners, counts: seq<nat>, root: nat, va: nat, pa: nat, sz: nat, perm: nat,
                  mem': Memory, owner': Owners, counts': seq<nat>)
    requires sz > 0 && RangeMapped(MapJob(base, mem, owner, counts, root, va, pa, sz, perm), mem', owner', counts') && IsRoot(owner, root)
    ensures IsRoot(owner', root)
  {
    hide Word, OthersKept, TablesAdded;
  }

  lemma MappedWord(base: nat, mem: Memory, owner: Owners, counts: seq<nat>, root: nat, va: nat, pa: nat, sz: nat, perm: nat,
                   mem': Memory, owner': Owners, counts': seq<nat>, v: nat)
    requires sz > 0 && RangeMapped(MapJob(base, mem, owner, counts, root, va, pa, sz, perm), mem', owner', counts')
    requires FirstVpn(va) <= v <= LastVpn(va, sz)
    ensures Word(mem', root, v) == MakePte(pa / 0x1000 + (v - FirstVpn(va)), MappedPerm(perm))
  {
    hide Word, OthersKept, TablesAdded, Grows, MakePte, MappedPerm;
  }

  /** create_mapping's promise in the hardware's terms: every address of the range's pages is translated to its own
      place in the physical range, and to the address asked for exactly when va and pa agree in their page offset. */
  lemma RangeIsTranslated(base: nat, mem: Memory, owner: Owners, counts: seq<nat>, root: nat, va: nat, pa: nat, sz: nat, perm: nat,
                          mem': Memory, owner': Owners, counts': seq<nat>, a: nat)
    requires RangeFits(va, sz) && perm < 0x400 && LeafPerm(perm) && Forest(mem', owner') && IsRoot(owner, root)
    requires RangeMapped(MapJob(base, mem, owner, counts, root, va, pa, sz, perm), mem', owner', counts')
    requires va / 0x1000 <= a / 0x1000 <= (va + sz - 1) / 0x1000 && pa / 0x1000 + (a / 0x1000 - va / 0x1000) < PPN_LIMIT
    ensures Translate(mem', root, a) == (pa / 0x1000 + (a / 0x1000 - va / 0x1000)) * 0x1000 + a % 0x1000
    ensures Translate(mem', root, a) == pa + (a - va) <==> va % 0x1000 == pa % 0x1000
  {
    hide Walk, LeafFor, LeafPerm, MakePte, MappedPerm, Word, Forest, OthersKept, TablesAdded, FirstVpn, LastVpn;
    var ppn := pa / 0x1000 + (a / 0x1000 - va / 0x1000);
    PageInRange(va, sz, a);
    WalkDropsHighBits(mem', root, a / 0x1000);
    RootGrows(base, mem, owner, counts, root, va, pa, sz, perm, mem', owner', counts');
    MappedWord(base, mem, owner, counts, root, va, pa, sz, perm, mem', owner', counts', a / 0x1000 % VPNS);
    WalkGivesWord(mem', owner', root, a);
    MappedLeaf(ppn, perm);
  }
}
