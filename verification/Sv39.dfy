/** Sv39 page-table entries (arch/riscv/include/vm.h): packing, unpacking and single-bit updates. */
module Sv39 {
  import opened Words

  const PPN_LIMIT: nat := 0x1000_0000_0000  // 2^44

  const PTE_LIMIT: nat := 0x40_0000_0000_0000  // 2^54

  const PTE_V: nat := 0x1

  // ----- the macros, bit by bit

  /** GET_SUBBITMAP(bitmap, low, high). */
  function SubBitmap(bitmap: nat, low: nat, high: nat): nat
    requires low <= high
  {
    And(Shr(bitmap, low), Pow2(high - low + 1) - 1)
  }

  /** TRUNCATE(bitmap, num_bits). */
  function Truncate(bitmap: nat, numBits: nat): nat {
    And(bitmap, Pow2(numBits) - 1)
  }

  /** SV39_PTE(ppn, perm) on 64-bit registers. */
  function MakePteBits(ppn: nat, perm: nat): nat {
    Truncate(Or(ppn * 0x400 % WORD, perm), 54)
  }

  // ----- the same, arithmetically

  function MakePte(ppn: nat, perm: nat): nat {
    ppn % PPN_LIMIT * 0x400 + perm % 0x400
  }

  function GetPpn(pte: nat): nat { pte / 0x400 % PPN_LIMIT }

  function GetPerm(pte: nat): nat { pte % 0x400 }

  predicate IsValid(pte: nat) { pte % 2 == 1 }

  lemma ModHalf(x: nat, d: nat)
    requires d > 0
    ensures x % (2 * d) == 2 * (x / 2 % d) + x % 2
  {
    var q, m := x / 2 / d, x / 2 % d;
    assert x / 2 == q * d + m;
    PullTwo(q, d);
    DivUnique(x, 2 * d, q, 2 * m + x % 2);
  }

  lemma AndHalf(x: nat, y: nat)
    ensures And(x, y) == 2 * And(x / 2, y / 2) + (if x % 2 == 1 && y % 2 == 1 then 1 else 0)
  {
  }

  lemma {:induction false} AndOnes(x: nat, k: nat)
    ensures And(x, Pow2(k) - 1) == x % Pow2(k)
    decreases k
  {
    if k > 0 {
      assert (Pow2(k) - 1) / 2 == Pow2(k - 1) - 1 && (Pow2(k) - 1) % 2 == 1;
      AndHalf(x, Pow2(k) - 1);
      AndOnes(x / 2, k - 1);
      ModHalf(x, Pow2(k - 1));
    } else {
      assert x % 1 == 0;
    }
  }

  lemma Powers()
    ensures Pow2(10) == 0x400 && Pow2(44) == PPN_LIMIT && Pow2(54) == PTE_LIMIT
  {
    assert Pow2(4) == 16;
    Pow2Add(4, 4);
    assert Pow2(8) == 0x100;
    assert Pow2(10) == 4 * Pow2(8);
    Pow2Add(10, 10);
    Pow2Add(20, 20);
    Pow2Add(40, 4);
    Pow2Add(44, 10);
  }

  lemma SumOfParts(shifted: nat, perm: nat)
    requires shifted % 0x400 == 0 && perm < 0x400
    ensures Or(shifted, perm) == shifted + perm
  {
    Powers();
    OrDisjoint(shifted, perm, 10);
  }

  lemma TruncateIsMod(x: nat)
    ensures Truncate(x, 54) == x % PTE_LIMIT
  {
    Powers();
    AndOnes(x, 54);
  }

  lemma LowTenClear(ppn: nat)
    ensures ppn * 0x400 % WORD % 0x400 == 0
  {
    assert ppn * 0x400 % WORD == ppn % 0x40_0000_0000_0000 * 0x400;
  }

  /** The low 44 bits of a number, with what the shift by ten keeps of the rest. */
  lemma ShiftedParts(ppn: nat) returns (high: nat)
    ensures ppn * 0x400 % WORD == high * PTE_LIMIT + ppn % PPN_LIMIT * 0x400
  {
    var q, low := ppn / PPN_LIMIT, ppn % PPN_LIMIT;
    high := q % 0x400;
    assert ppn == q * PPN_LIMIT + low && q == q / 0x400 * 0x400 + high;
    assert ppn * 0x400 == q / 0x400 * WORD + (high * PTE_LIMIT + low * 0x400);
  }

  lemma DropHighBits(ppn: nat, perm: nat)
    requires perm < 0x400
    ensures (ppn * 0x400 % WORD + perm) % PTE_LIMIT == ppn % PPN_LIMIT * 0x400 + perm
  {
    var high := ShiftedParts(ppn);
    DivUnique(ppn * 0x400 % WORD + perm, PTE_LIMIT, high, ppn % PPN_LIMIT * 0x400 + perm);
  }

  /** The macros compute the arithmetic forms. */
  lemma PackIsArithmetic(ppn: nat, perm: nat)
    requires perm < 0x400
    ensures MakePteBits(ppn, perm) == MakePte(ppn, perm)
  {
    hide Or, And, Pow2, Truncate;
    var shifted := ppn * 0x400 % WORD;
    LowTenClear(ppn);
    SumOfParts(shifted, perm);
    TruncateIsMod(shifted + perm);
    DropHighBits(ppn, perm);
  }

  lemma UnpackIsArithmetic(pte: nat)
    ensures SubBitmap(pte, 10, 53) == GetPpn(pte)
    ensures Truncate(pte, 10) == GetPerm(pte)
  {
    Powers();
    ShrIsDiv(pte, 10);
    AndOnes(Shr(pte, 10), 44);
    AndOnes(pte, 10);
  }

  lemma UnpackPacked(frame: nat, perm: nat)
    requires frame < PPN_LIMIT && perm < 0x400
    ensures var pte := frame * 0x400 + perm; pte / 0x400 % PPN_LIMIT == frame && pte % 0x400 == perm && pte < PTE_LIMIT
  {
    DivUnique(frame * 0x400 + perm, 0x400, frame, perm);
  }

  lemma PackUnpacked(pte: nat)
    requires pte < PTE_LIMIT
    ensures pte / 0x400 < PPN_LIMIT && pte == pte / 0x400 * 0x400 + pte % 0x400
  {
  }

  /** Packing then unpacking gives the fields back, and unpacking then packing gives the entry back. */
  lemma PteRoundTrip(ppn: nat, perm: nat, pte: nat)
    requires perm < 0x400 && pte < PTE_LIMIT
    ensures GetPpn(MakePte(ppn, perm)) == ppn % PPN_LIMIT
    ensures GetPerm(MakePte(ppn, perm)) == perm
    ensures MakePte(ppn, perm) < PTE_LIMIT
    ensures MakePte(GetPpn(pte), GetPerm(pte)) == pte
  {
    UnpackPacked(ppn % PPN_LIMIT, perm);
    PackUnpacked(pte);
  }

  // ----- permission bits by name

  datatype Perm = Perm(v: bool, r: bool, w: bool, x: bool, u: bool, g: bool, a: bool, d: bool, s: bool, rsw: bool)

  /** Bit k of a word. */
  predicate Bit(n: nat, k: nat) { Shr(n, k) % 2 == 1 }

  /** Testing a single bit with &. */
  lemma {:induction false} AndBit(x: nat, k: nat)
    ensures And(x, Pow2(k)) != 0 <==> Bit(x, k)
    decreases k
  {
    if k > 0 {
      AndHalf(x, Pow2(k));
      AndBit(x / 2, k - 1);
    } else {
      AndHalf(x, 1);
    }
  }

  /** Bits, lowest first, to a number. */
  function FromBits(bs: seq<bool>): nat {
    if bs == [] then 0 else (if bs[0] then 1 else 0) + 2 * FromBits(bs[1..])
  }

  function BitList(p: Perm): (bs: seq<bool>)
    ensures |bs| == 10
  {
    [p.v, p.r, p.w, p.x, p.u, p.g, p.a, p.d, p.s, p.rsw]
  }

  function PermBits(p: Perm): nat { FromBits(BitList(p)) }

  /** The low ten bits of a word, by name. */
  function PermOf(n: nat): Perm {
    Perm(Bit(n, 0), Bit(n, 1), Bit(n, 2), Bit(n, 3), Bit(n, 4), Bit(n, 5), Bit(n, 6), Bit(n, 7), Bit(n, 8), Bit(n, 9))
  }

  /** Each name stands for the mask that the header gives it. */
  lemma NamesAreMasks(n: nat)
    ensures var p := PermOf(n);
      && (p.v <==> And(n, 0x1) != 0) && (p.r <==> And(n, 0x2) != 0) && (p.w <==> And(n, 0x4) != 0) && (p.x <==> And(n, 0x8) != 0)
      && (p.u <==> And(n, 0x10) != 0) && (p.g <==> And(n, 0x20) != 0) && (p.a <==> And(n, 0x40) != 0) && (p.d <==> And(n, 0x80) != 0)
      && (p.s <==> And(n, 0x100) != 0)
  {
    hide And, Bit;
    SmallPowers();
    AndBit(n, 0);
    AndBit(n, 1);
    AndBit(n, 2);
    AndBit(n, 3);
    AndBit(n, 4);
    AndBit(n, 5);
    AndBit(n, 6);
    AndBit(n, 7);
    AndBit(n, 8);
  }

  function Weight(b: bool, mask: nat): nat { if b then mask else 0 }

  lemma FromTail(bs: seq<bool>, k: nat, mask: nat)
    requires k < |bs|
    ensures mask * FromBits(bs[k..]) == Weight(bs[k], mask) + 2 * mask * FromBits(bs[k + 1..])
  {
    var rest := FromBits(bs[k + 1..]);
    assert FromBits(bs[k..]) == Weight(bs[k], 1) + 2 * rest;
    assert mask * (2 * rest) == 2 * mask * rest;
  }

  lemma NoTail(bs: seq<bool>)
    ensures FromBits(bs[|bs|..]) == 0 && bs[0..] == bs
  {
  }

  lemma TenBits(bs: seq<bool>)
    requires |bs| == 10
    ensures FromBits(bs) == Weight(bs[0], 0x1) + Weight(bs[1], 0x2) + Weight(bs[2], 0x4) + Weight(bs[3], 0x8) + Weight(bs[4], 0x10)
      + Weight(bs[5], 0x20) + Weight(bs[6], 0x40) + Weight(bs[7], 0x80) + Weight(bs[8], 0x100) + Weight(bs[9], 0x200)
  {
    hide FromBits, Weight;
    FromTail(bs, 0, 0x1);
    FromTail(bs, 1, 0x2);
    FromTail(bs, 2, 0x4);
    FromTail(bs, 3, 0x8);
    FromTail(bs, 4, 0x10);
    FromTail(bs, 5, 0x20);
    FromTail(bs, 6, 0x40);
    FromTail(bs, 7, 0x80);
    FromTail(bs, 8, 0x100);
    FromTail(bs, 9, 0x200);
    NoTail(bs);
  }

  /** So a set of permissions is the sum of its masks. */
  lemma PermBitsAre(p: Perm)
    ensures PermBits(p) == Weight(p.v, 0x1) + Weight(p.r, 0x2) + Weight(p.w, 0x4) + Weight(p.x, 0x8) + Weight(p.u, 0x10)
      + Weight(p.g, 0x20) + Weight(p.a, 0x40) + Weight(p.d, 0x80) + Weight(p.s, 0x100) + Weight(p.rsw, 0x200)
  {
    hide FromBits, Weight;
    TenBits(BitList(p));
  }

  lemma {:induction false} FromBitsBit(bs: seq<bool>, k: nat)
    requires k < |bs|
    ensures Bit(FromBits(bs), k) == bs[k]
    decreases k
  {
    if k > 0 {
      FromBitsBit(bs[1..], k - 1);
      assert FromBits(bs) / 2 == FromBits(bs[1..]);
    }
  }

  lemma {:induction false} FromBitsBound(bs: seq<bool>)
    ensures FromBits(bs) < Pow2(|bs|)
  {
    if bs != [] { FromBitsBound(bs[1..]); }
  }

  /** Numbers of k bits that agree on every bit are equal. */
  lemma {:induction false} BitsDetermine(x: nat, y: nat, k: nat)
    requires x < Pow2(k) && y < Pow2(k) && forall i | 0 <= i < k :: Bit(x, i) == Bit(y, i)
    ensures x == y
    decreases k
  {
    if k > 0 {
      forall i | 0 <= i < k - 1 ensures Bit(x / 2, i) == Bit(y / 2, i) {
        assert Bit(x, i + 1) == Bit(y, i + 1);
      }
      assert Bit(x, 0) == Bit(y, 0);
      BitsDetermine(x / 2, y / 2, k - 1);
    }
  }

  lemma NamedBit(n: nat, k: nat)
    requires k < 10
    ensures BitList(PermOf(n))[k] == Bit(n, k)
  {
  }

  lemma PermBitsOf(n: nat)
    requires n < 0x400
    ensures PermBits(PermOf(n)) == n
  {
    Powers();
    var bs := BitList(PermOf(n));
    FromBitsBound(bs);
    forall k | 0 <= k < 10 ensures Bit(PermBits(PermOf(n)), k) == Bit(n, k) {
      FromBitsBit(bs, k);
      NamedBit(n, k);
    }
    BitsDetermine(PermBits(PermOf(n)), n, 10);
  }

  lemma PermRoundTrip(p: Perm, n: nat)
    requires n < 0x400
    ensures PermBits(p) < 0x400 && PermOf(PermBits(p)) == p
    ensures PermBits(PermOf(n)) == n
  {
    Powers();
    var bs := BitList(p);
    FromBitsBound(bs);
    forall k | 0 <= k < 10 ensures Bit(PermBits(p), k) == bs[k] { FromBitsBit(bs, k); }
    PermBitsOf(n);
  }

  /** A page-table entry with its permission bits by name. */
  datatype Pte = Pte(ppn: nat, perm: Perm)

  function Decode(pte: nat): Pte { Pte(GetPpn(pte), PermOf(pte)) }

  function Encode(p: Pte): nat { MakePte(p.ppn, PermBits(p.perm)) }

  lemma LowHalf(x: nat, y: nat, d: nat)
    requires d > 0 && y == x % (2 * d)
    ensures y % 2 == x % 2 && y / 2 == x / 2 % d
  {
    var half := x / 2 % d;
    ModHalf(x, d);
    assert y == 2 * half + x % 2;
  }

  lemma Pow2Half(n: nat)
    requires n > 0
    ensures Pow2(n) == 2 * Pow2(n - 1) && Pow2(n - 1) > 0
  {
  }

  lemma BitStep(x: nat, k: nat)
    ensures Bit(x, 0) <==> x % 2 == 1
    ensures k > 0 ==> Bit(x, k) == Bit(x / 2, k - 1)
  {
  }

  lemma {:induction false} LowBit(x: nat, y: nat, n: nat, k: nat)
    requires k < n && y == x % Pow2(n)
    ensures Bit(x, k) == Bit(y, k)
    decreases k
  {
    hide Bit, Pow2;
    Pow2Half(n);
    LowHalf(x, y, Pow2(n - 1));
    BitStep(x, k);
    BitStep(y, k);
    if k > 0 { LowBit(x / 2, y / 2, n - 1, k - 1); }
  }

  /** The named bits only depend on the low ten bits. */
  lemma LowBits(pte: nat, perm: nat)
    requires GetPerm(pte) == perm
    ensures PermOf(pte) == PermOf(perm)
  {
    forall k | 0 <= k < 10 ensures Bit(pte, k) == Bit(perm, k) {
      Powers();
      assert Pow2(10) == 0x400;
      LowBit(pte, perm, 10, k);
    }
  }

  lemma DecodeEncode(p: Pte)
    requires p.ppn < PPN_LIMIT
    ensures Decode(Encode(p)) == p
  {
    PermRoundTrip(p.perm, 0);
    var n := PermBits(p.perm);
    PteRoundTrip(p.ppn, n, 0);
    LowBits(Encode(p), n);
  }

  // ----- single-bit updates: pte |= S, pte &= ~W and their kind

  function AndNot(x: nat, y: nat): nat {
    if x == 0 then 0
    else 2 * AndNot(x / 2, y / 2) + (if x % 2 == 1 && y % 2 == 0 then 1 else 0)
  }

  lemma {:induction false} BitOfPow2(j: nat, k: nat)
    ensures Bit(Pow2(j), k) == (j == k)
    decreases k
  {
    if k > 0 {
      if j > 0 { BitOfPow2(j - 1, k - 1); } else { ShrZero(k - 1); }
    }
  }

  lemma {:induction false} OrBits(x: nat, y: nat, k: nat)
    ensures Bit(Or(x, y), k) == (Bit(x, k) || Bit(y, k))
    decreases k
  {
    OrHalf(x, y);
    if k > 0 { OrBits(x / 2, y / 2, k - 1); }
  }

  lemma AndNotHalf(x: nat, y: nat)
    ensures AndNot(x, y) / 2 == AndNot(x / 2, y / 2)
    ensures AndNot(x, y) % 2 == if x % 2 == 1 && y % 2 == 0 then 1 else 0
  {
  }

  lemma {:induction false} AndNotBits(x: nat, y: nat, k: nat)
    ensures Bit(AndNot(x, y), k) == (Bit(x, k) && !Bit(y, k))
    decreases k
  {
    AndNotHalf(x, y);
    if k > 0 { AndNotBits(x / 2, y / 2, k - 1); }
  }

  lemma {:induction false} AndNotShift(x: nat, y: nat, k: nat)
    ensures Shr(AndNot(x, y), k) == AndNot(Shr(x, k), Shr(y, k))
    decreases k
  {
    AndNotHalf(x, y);
    if k > 0 { AndNotShift(x / 2, y / 2, k - 1); }
  }

  lemma {:induction false} AndNotBelow(x: nat, y: nat)
    ensures AndNot(x, y) <= x
  {
    if x > 0 { AndNotBelow(x / 2, y / 2); }
  }

  /** Single-bit updates leave the bits above the frame number clear. */
  lemma BitsStayLow(pte: nat, j: nat)
    requires pte < PTE_LIMIT && j < 10
    ensures Or(pte, Pow2(j)) < PTE_LIMIT && AndNot(pte, Pow2(j)) < PTE_LIMIT
  {
    hide Or, AndNot;
    Powers();
    Pow2Mono(j, 10);
    OrBound(pte, Pow2(j), 54);
    AndNotBelow(pte, Pow2(j));
  }

  lemma {:induction false} AndNotZero(x: nat)
    ensures AndNot(x, 0) == x
  {
    if x > 0 { AndNotZero(x / 2); }
  }

  lemma {:induction false} ShrOfPow2(j: nat, k: nat)
    requires j < k
    ensures Shr(Pow2(j), k) == 0
    decreases k
  {
    if j > 0 { ShrOfPow2(j - 1, k - 1); } else { ShrZero(k - 1); }
  }

  /** Setting or clearing bit j < 10 leaves the frame number alone. */
  lemma PpnKept(pte: nat, j: nat)
    requires j < 10
    ensures GetPpn(Or(pte, Pow2(j))) == GetPpn(pte) == GetPpn(AndNot(pte, Pow2(j)))
  {
    Powers();
    ShrIsDiv(pte, 10);
    ShrIsDiv(Or(pte, Pow2(j)), 10);
    ShrIsDiv(AndNot(pte, Pow2(j)), 10);
    ShrOfPow2(j, 10);
    OrShift(pte, Pow2(j), 10);
    AndNotShift(pte, Pow2(j), 10);
    OrZero(Shr(pte, 10));
    AndNotZero(Shr(pte, 10));
  }

  const S_BIT: nat := 8

  const W_BIT: nat := 2

  lemma OrNamedBits(pte: nat, j: nat)
    requires j < 10
    ensures GetPpn(Or(pte, Pow2(j))) == GetPpn(pte)
    ensures forall k | 0 <= k < 10 :: Bit(Or(pte, Pow2(j)), k) == (Bit(pte, k) || k == j)
  {
    PpnKept(pte, j);
    forall k | 0 <= k < 10 ensures Bit(Or(pte, Pow2(j)), k) == (Bit(pte, k) || k == j) {
      OrBits(pte, Pow2(j), k);
      BitOfPow2(j, k);
    }
  }

  /** fork's `|= S` and the fault handler's `|= W`, in terms of the named bits. */
  lemma SetBits(pte: nat)
    ensures Decode(Or(pte, Pow2(S_BIT))) == Pte(GetPpn(pte), PermOf(pte).(s := true))
    ensures Decode(Or(pte, Pow2(W_BIT))) == Pte(GetPpn(pte), PermOf(pte).(w := true))
  {
    OrNamedBits(pte, S_BIT);
    OrNamedBits(pte, W_BIT);
  }

  lemma AndNotNamedBits(pte: nat, j: nat)
    requires j < 10
    ensures GetPpn(AndNot(pte, Pow2(j))) == GetPpn(pte)
    ensures forall k | 0 <= k < 10 :: Bit(AndNot(pte, Pow2(j)), k) == (Bit(pte, k) && k != j)
  {
    PpnKept(pte, j);
    forall k | 0 <= k < 10 ensures Bit(AndNot(pte, Pow2(j)), k) == (Bit(pte, k) && k != j) {
      AndNotBits(pte, Pow2(j), k);
      BitOfPow2(j, k);
    }
  }

  /** fork's `&= ~W` and the fault handler's `&= ~S`. */
  lemma ClearBits(pte: nat)
    ensures Decode(AndNot(pte, Pow2(S_BIT))) == Pte(GetPpn(pte), PermOf(pte).(s := false))
    ensures Decode(AndNot(pte, Pow2(W_BIT))) == Pte(GetPpn(pte), PermOf(pte).(w := false))
  {
    AndNotNamedBits(pte, S_BIT);
    AndNotNamedBits(pte, W_BIT);
  }
}
