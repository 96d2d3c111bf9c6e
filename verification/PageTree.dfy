/** Three-level Sv39 page tables in physical frames, as a theory on values
    (RISC-V Privileged Architecture, sections 4.3.2 and 4.4).

    `Owners` records, for every frame in use as a table, the one place in the one tree that it
    stands for. Tables of different places, or of different trees, can then never be the same frame. */
module PageTree {
  import opened Options
  import opened Sv39

  const ENTRIES: nat := 512

  const VPNS: nat := 0x800_0000  // 27-bit virtual page numbers

  type Memory = map<nat, seq<nat>>  // frame number to its 512 words

  datatype Place = Root | Mid(root: nat, i: nat) | Leaf(root: nat, i: nat, j: nat)

  type Owners = map<nat, Place>

  // ----- virtual page numbers

  function Vpn(i: nat, j: nat, k: nat): nat { (i * 512 + j) * 512 + k }

  function I2(v: nat): nat { v / 512 / 512 % 512 }

  function I1(v: nat): nat { v / 512 % 512 }

  function I0(v: nat): nat { v % 512 }

  lemma VpnParts(i: nat, j: nat, k: nat)
    requires j < 512 && k < 512 && i < 512
    ensures Vpn(i, j, k) < VPNS
    ensures I2(Vpn(i, j, k)) == i && I1(Vpn(i, j, k)) == j && I0(Vpn(i, j, k)) == k
  {
    assert Vpn(i, j, k) / 512 == i * 512 + j;
    assert (i * 512 + j) / 512 == i;
  }

  lemma VpnOfParts(v: nat)
    requires v < VPNS
    ensures v == Vpn(I2(v), I1(v), I0(v))
    ensures I2(v) < 512 && I1(v) < 512 && I0(v) < 512
  {
    var q := v / 512;
    assert v == q * 512 + v % 512;
    assert q == q / 512 * 512 + q % 512;
    assert q / 512 < 512;
  }

  // ----- the walk

  function Entry(mem: Memory, f: nat, i: nat): nat {
    if f in mem && i < |mem[f]| then mem[f][i] else 0
  }

  /** The table that entry i of frame f points to. */
  function Below(mem: Memory, f: nat, i: nat): Option<nat> {
    if IsValid(Entry(mem, f, i)) then Some(GetPpn(Entry(mem, f, i))) else None
  }

  function LeafOf(mem: Memory, root: nat, i: nat, j: nat): Option<nat> {
    match Below(mem, root, i)
    case None => None
    case Some(m) => Below(mem, m, j)
  }

  /** The leaf entry of v: what walk_page_table_pte's result points to, or 0 when it has none. */
  function Word(mem: Memory, root: nat, v: nat): nat {
    match LeafOf(mem, root, I2(v), I1(v))
    case None => 0
    case Some(l) => Entry(mem, l, I0(v))
  }

  // ----- forests

  ghost predicate Owned(owner: Owners, f: nat, place: Place) { f in owner && owner[f] == place }

  /** A pointer to the next level: of the ten permission bits V alone is set. With R, W or X the hardware would take
      the entry for a leaf. */
  predicate IsPointer(entry: nat) { entry % 0x400 == 0x1 }

  /** The bits above the frame number are reserved and clear. */
  predicate Unreserved(entry: nat) { entry < 0x40_0000_0000_0000 }

  predicate TableFits(table: seq<nat>) { forall x | 0 <= x < |table| :: IsValid(table[x]) ==> Unreserved(table[x]) }

  ghost predicate LinkOk(owner: Owners, f: nat, i: nat, entry: nat)
    requires f in owner
  {
    IsValid(entry) ==>
      && Unreserved(entry)
      && match owner[f]
         case Root => IsPointer(entry) && Owned(owner, GetPpn(entry), Mid(f, i))
         case Mid(r, i') => IsPointer(entry) && Owned(owner, GetPpn(entry), Leaf(r, i', i))
         case Leaf(_, _, _) => true
  }

  /** Every table entry leads to the table owned by exactly that place. */
  ghost predicate Forest(mem: Memory, owner: Owners) {
    && (forall f <- owner :: f in mem && |mem[f]| == ENTRIES)
    && (forall f <- owner, i: nat | i < ENTRIES :: LinkOk(owner, f, i, mem[f][i]))
  }

  lemma TablesFit(mem: Memory, owner: Owners, f: nat)
    requires Forest(mem, owner) && f in owner
    ensures f in mem && TableFits(mem[f])
  {
    forall x | 0 <= x < |mem[f]| && IsValid(mem[f][x]) ensures Unreserved(mem[f][x]) { assert LinkOk(owner, f, x, mem[f][x]); }
  }

  /** Every valid entry of an upper table is a pointer. */
  lemma LinkIsPointer(mem: Memory, owner: Owners, f: nat, i: nat)
    requires Forest(mem, owner) && f in owner && !owner[f].Leaf? && i < ENTRIES
    ensures f in mem && i < |mem[f]| && (IsValid(mem[f][i]) ==> IsPointer(mem[f][i]) && GetPerm(mem[f][i]) == 0x1)
  {
    assert LinkOk(owner, f, i, mem[f][i]);
  }

  ghost predicate IsRoot(owner: Owners, r: nat) { Owned(owner, r, Root) }

  lemma BelowIsOwned(mem: Memory, owner: Owners, f: nat, i: nat)
    requires Forest(mem, owner) && f in owner && i < ENTRIES && Below(mem, f, i).Some?
    ensures owner[f].Root? ==> Owned(owner, Below(mem, f, i).value, Mid(f, i))
    ensures owner[f].Mid? ==> Owned(owner, Below(mem, f, i).value, Leaf(owner[f].root, owner[f].i, i))
  {
    assert LinkOk(owner, f, i, mem[f][i]);
  }

  lemma LeafIsOwned(mem: Memory, owner: Owners, root: nat, i: nat, j: nat)
    requires Forest(mem, owner) && IsRoot(owner, root) && i < ENTRIES && j < ENTRIES
    ensures Below(mem, root, i).Some? ==> Owned(owner, Below(mem, root, i).value, Mid(root, i))
    ensures LeafOf(mem, root, i, j).Some? ==> Owned(owner, LeafOf(mem, root, i, j).value, Leaf(root, i, j))
  {
    if Below(mem, root, i).Some? {
      BelowIsOwned(mem, owner, root, i);
      if LeafOf(mem, root, i, j).Some? { BelowIsOwned(mem, owner, Below(mem, root, i).value, j); }
    }
  }

  lemma WordIsUnreserved(mem: Memory, owner: Owners, root: nat, v: nat)
    requires Forest(mem, owner) && IsRoot(owner, root) && IsValid(Word(mem, root, v))
    ensures Unreserved(Word(mem, root, v))
  {
    LeafIsOwned(mem, owner, root, I2(v), I1(v));
    TablesFit(mem, owner, LeafOf(mem, root, I2(v), I1(v)).value);
  }

  /** No table frame is shared: distinct places, in one tree or in two, have distinct frames. */
  lemma TablesAreUnshared(mem: Memory, owner: Owners, r: nat, i: nat, j: nat, r': nat, i': nat, j': nat)
    requires Forest(mem, owner) && IsRoot(owner, r) && IsRoot(owner, r')
    requires i < ENTRIES && j < ENTRIES && i' < ENTRIES && j' < ENTRIES
    ensures Below(mem, r, i).Some? && Below(mem, r, i) == Below(mem, r', i') ==> r == r' && i == i'
    ensures LeafOf(mem, r, i, j).Some? && LeafOf(mem, r, i, j) == LeafOf(mem, r', i', j') ==> r == r' && i == i' && j == j'
    ensures Below(mem, r, i).Some? && LeafOf(mem, r', i', j').Some? ==>
      r != Below(mem, r, i).value && r != LeafOf(mem, r', i', j').value && Below(mem, r, i) != LeafOf(mem, r', i', j')
  {
    LeafIsOwned(mem, owner, r, i, j);
    LeafIsOwned(mem, owner, r', i', j');
  }

  // ----- the two writes that page-table code performs

  function Store(mem: Memory, f: nat, k: nat, w: nat): Memory
    requires f in mem && k < |mem[f]|
  {
    var table: seq<nat> := mem[f][k := w];
    mem[f := table]
  }

  function Zeros(): (z: seq<nat>)
    ensures |z| == ENTRIES && forall k | 0 <= k < ENTRIES :: z[k] == 0
  {
    seq(ENTRIES, _ => 0)
  }

  /** Writing a leaf entry changes exactly the translation of that entry's page. */
  lemma StoreLeaf(mem: Memory, owner: Owners, root: nat, i: nat, j: nat, k: nat, l: nat, w: nat)
    requires Forest(mem, owner) && IsRoot(owner, root) && i < ENTRIES && j < ENTRIES && k < ENTRIES
    requires LeafOf(mem, root, i, j) == Some(l) && (IsValid(w) ==> Unreserved(w))
    ensures Owned(owner, l, Leaf(root, i, j))
    ensures var mem' := Store(mem, l, k, w);
      && Forest(mem', owner)
      && (forall f <- owner, x: nat | !owner[f].Leaf? :: Entry(mem', f, x) == Entry(mem, f, x))
      && forall r, v: nat | IsRoot(owner, r) && v < VPNS ::
           Word(mem', r, v) == if r == root && v == Vpn(i, j, k) then w else Word(mem, r, v)
  {
    LeafIsOwned(mem, owner, root, i, j);
    var mem' := Store(mem, l, k, w);
    forall f, x: nat | f in owner && x < ENTRIES ensures LinkOk(owner, f, x, mem'[f][x]) {
      assert LinkOk(owner, f, x, mem[f][x]);
    }
    forall r, v: nat | IsRoot(owner, r) && v < VPNS
      ensures Word(mem', r, v) == if r == root && v == Vpn(i, j, k) then w else Word(mem, r, v)
    {
      VpnOfParts(v);
      VpnParts(i, j, k);
      LeafIsOwned(mem, owner, r, I2(v), I1(v));
      assert LeafOf(mem', r, I2(v), I1(v)) == LeafOf(mem, r, I2(v), I1(v));
    }
  }

  function Child(owner: Owners, f: nat, i: nat): Place
    requires f in owner && !owner[f].Leaf?
  {
    match owner[f]
    case Root => Mid(f, i)
    case Mid(r, i') => Leaf(r, i', i)
  }

  /** Memory after table g with contents c is hung under entry i of f. */
  function Hung(mem: Memory, f: nat, i: nat, g: nat, c: seq<nat>, perm: nat): Memory
    requires f in mem && i < |mem[f]| && f != g
  {
    Store(mem[g := c], f, i, MakePte(g, perm))
  }

  /** A pointer is valid, and all its permission bits are V. */
  lemma PointerIsValid(entry: nat)
    requires entry % 0x400 == 0x1
    ensures IsValid(entry) && GetPerm(entry) == 0x1
  {
  }

  lemma PackedLink(g: nat, perm: nat)
    requires g < PPN_LIMIT && perm == 0x1
    ensures GetPpn(MakePte(g, perm)) == g && IsValid(MakePte(g, perm)) && IsPointer(MakePte(g, perm)) && Unreserved(MakePte(g, perm))
  {
    hide MakePte, GetPpn, IsValid;
    PteRoundTrip(g, perm, 0);
    PointerIsValid(MakePte(g, perm));
  }

  lemma HangForest(mem: Memory, owner: Owners, f: nat, i: nat, g: nat, c: seq<nat>, perm: nat)
    requires Forest(mem, owner) && f in owner && !owner[f].Leaf? && i < ENTRIES
    requires !IsValid(mem[f][i]) && g !in owner && |c| == ENTRIES
    requires owner[f].Root? ==> forall x: nat | x < ENTRIES :: !IsValid(c[x])
    requires IsValid(MakePte(g, perm)) && IsPointer(MakePte(g, perm)) && Unreserved(MakePte(g, perm))
    requires GetPpn(MakePte(g, perm)) == g && TableFits(c)
    ensures Forest(Hung(mem, f, i, g, c, perm), owner[g := Child(owner, f, i)])
  {
    hide MakePte, GetPpn, GetPerm, IsValid, IsPointer, Unreserved;
    var mem', owner' := Hung(mem, f, i, g, c, perm), owner[g := Child(owner, f, i)];
    forall f', x: nat | f' in owner' && x < ENTRIES ensures LinkOk(owner', f', x, mem'[f'][x]) {
      if f' in owner { assert LinkOk(owner, f', x, mem[f'][x]); }
    }
  }

  /** The walk for v in tree r ends at entry i of the second-level table f. */
  ghost predicate ReachedBy(mem: Memory, owner: Owners, f: nat, i: nat, r: nat, v: nat)
    requires f in owner
  {
    owner[f].Mid? && Below(mem, r, I2(v)) == Some(f) && I1(v) == i
  }

  lemma HangKeepsWord(mem: Memory, owner: Owners, f: nat, i: nat, g: nat, c: seq<nat>, perm: nat, r: nat, v: nat)
    requires Forest(mem, owner) && f in owner && !owner[f].Leaf? && i < ENTRIES
    requires !IsValid(mem[f][i]) && g !in owner && |c| == ENTRIES
    requires owner[f].Root? ==> forall x: nat | x < ENTRIES :: !IsValid(c[x])
    requires GetPpn(MakePte(g, perm)) == g && IsValid(MakePte(g, perm))
    requires IsRoot(owner, r) && v < VPNS
    ensures Word(Hung(mem, f, i, g, c, perm), r, v) ==
      if ReachedBy(mem, owner, f, i, r, v) then c[I0(v)] else Word(mem, r, v)
  {
    hide MakePte, GetPpn, IsValid;
    var mem' := Hung(mem, f, i, g, c, perm);
    var a, b, k := I2(v), I1(v), I0(v);
    VpnOfParts(v);
    LeafIsOwned(mem, owner, r, a, b);
    if r == f && a == i {
      assert Below(mem', r, a) == Some(g) && Entry(mem', g, b) == c[b];
      assert LeafOf(mem', r, a, b) == None;
    } else {
      assert Below(mem', r, a) == Below(mem, r, a);
      if m: nat :| Below(mem, r, a) == Some(m) {
        if m == f && b == i {
          assert LeafOf(mem', r, a, b) == Some(g) && Entry(mem', g, k) == c[k];
        } else {
          assert LeafOf(mem', r, a, b) == LeafOf(mem, r, a, b);
          assert LeafOf(mem, r, a, b).Some? ==>
            Entry(mem', LeafOf(mem, r, a, b).value, k) == Entry(mem, LeafOf(mem, r, a, b).value, k);
        }
      }
    }
  }

  /** Hanging a fresh table under an invalid entry: only pages reached through that entry change, and
      only when the new table is a leaf table. A second-level table must come without valid entries. */
  lemma HangTable(mem: Memory, owner: Owners, f: nat, i: nat, g: nat, c: seq<nat>, perm: nat)
    requires Forest(mem, owner) && f in owner && !owner[f].Leaf? && i < ENTRIES
    requires !IsValid(mem[f][i]) && g !in owner && g < PPN_LIMIT
    requires |c| == ENTRIES && TableFits(c) && perm == 0x1
    requires owner[f].Root? ==> forall x: nat | x < ENTRIES :: !IsValid(c[x])
    ensures f in mem && i < |mem[f]| && f != g
    ensures var mem', owner' := Hung(mem, f, i, g, c, perm), owner[g := Child(owner, f, i)];
      && Forest(mem', owner')
      && Below(mem', f, i) == Some(g)
      && (forall f': nat, x: nat | f' in owner && (f' != f || x != i) :: Entry(mem', f', x) == Entry(mem, f', x))
      && forall r, v: nat | IsRoot(owner, r) && v < VPNS ::
           Word(mem', r, v) == if ReachedBy(mem, owner, f, i, r, v) then c[I0(v)] else Word(mem, r, v)
  {
    hide MakePte, GetPpn, GetPerm, IsValid, Word, ReachedBy;
    PackedLink(g, perm);
    HangForest(mem, owner, f, i, g, c, perm);
    forall r, v: nat | IsRoot(owner, r) && v < VPNS
      ensures Word(Hung(mem, f, i, g, c, perm), r, v) == if ReachedBy(mem, owner, f, i, r, v) then c[I0(v)] else Word(mem, r, v)
    {
      HangKeepsWord(mem, owner, f, i, g, c, perm, r, v);
    }
  }

  /** Hanging a zeroed fresh table under an invalid entry changes no translation anywhere. */
  lemma LinkTable(mem: Memory, owner: Owners, f: nat, i: nat, g: nat)
    requires Forest(mem, owner) && f in owner && !owner[f].Leaf? && i < ENTRIES
    requires !IsValid(mem[f][i]) && g !in owner && g < PPN_LIMIT
    ensures f in mem && i < |mem[f]| && f != g
    ensures var mem', owner' := Hung(mem, f, i, g, Zeros(), PTE_V), owner[g := Child(owner, f, i)];
      && Forest(mem', owner')
      && Below(mem', f, i) == Some(g)
      && (forall f': nat, x: nat | f' in owner && (f' != f || x != i) :: Entry(mem', f', x) == Entry(mem, f', x))
      && forall r, v: nat | IsRoot(owner, r) && v < VPNS :: Word(mem', r, v) == Word(mem, r, v)
  {
    HangTable(mem, owner, f, i, g, Zeros(), PTE_V);
    forall r, v: nat | IsRoot(owner, r) && v < VPNS && ReachedBy(mem, owner, f, i, r, v) ensures Word(mem, r, v) == 0 { }
  }
}
