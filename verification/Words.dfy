/** 64-bit words as natural numbers: powers of two and the bitwise operators the kernel uses. */
module Words {

  const WORD: nat := 0x1_0000_0000_0000_0000

  function Pow2(n: nat): (r: nat)
    ensures r >= 1
  {
    if n == 0 then 1 else 2 * Pow2(n - 1)
  }

  /** x is a power of two, read off by halving. */
  predicate IsPow2(x: nat) {
    x == 1 || (x > 1 && x % 2 == 0 && IsPow2(x / 2))
  }

  function Or(x: nat, y: nat): nat
    decreases x + y
  {
    if x == 0 then y else if y == 0 then x
    else 2 * Or(x / 2, y / 2) + (if x % 2 == 1 || y % 2 == 1 then 1 else 0)
  }

  function And(x: nat, y: nat): nat {
    if x == 0 || y == 0 then 0
    else 2 * And(x / 2, y / 2) + (if x % 2 == 1 && y % 2 == 1 then 1 else 0)
  }

  lemma Pow2IsPow2(n: nat)
    ensures IsPow2(Pow2(n))
  {
  }

  lemma {:induction false} Pow2Exponent(x: nat) returns (n: nat)
    requires IsPow2(x)
    ensures x == Pow2(n)
  {
    if x == 1 {
      n := 0;
    } else {
      n := Pow2Exponent(x / 2);
      n := n + 1;
    }
  }

  lemma {:induction false} Pow2Add(m: nat, n: nat)
    ensures Pow2(m + n) == Pow2(m) * Pow2(n)
  {
    if m > 0 {
      Pow2Add(m - 1, n);
      assert Pow2(m + n) == 2 * Pow2(m - 1 + n);
    }
  }

  lemma {:induction false} Pow2Mono(m: nat, n: nat)
    requires m <= n
    ensures Pow2(m) <= Pow2(n)
    decreases n
  {
    if m < n { Pow2Mono(m, n - 1); }
  }

  lemma {:induction false} OrZero(x: nat)
    ensures Or(x, 0) == x && Or(0, x) == x
  {
  }

  /** One unfolding of Or, also where an operand is zero. */
  lemma OrHalf(x: nat, y: nat)
    ensures Or(x, y) / 2 == Or(x / 2, y / 2)
    ensures Or(x, y) % 2 == if x % 2 == 1 || y % 2 == 1 then 1 else 0
  {
  }

  /** x >> k. */
  function Shr(x: nat, k: nat): nat
    decreases k, x
  {
    if k == 0 then x else Shr(x / 2, k - 1)
  }

  lemma {:induction false} ShrZero(k: nat)
    ensures Shr(0, k) == 0
  {
    if k > 0 { ShrZero(k - 1); }
  }

  lemma {:induction false} AtLeastFactor(k: int, d: int)
    requires k >= 1 && d >= 0
    ensures k * d >= d
    decreases k
  {
    if k > 1 {
      assert k * d == (k - 1) * d + d;
      AtLeastFactor(k - 1, d);
    }
  }

  lemma SmallMultiple(k: int, d: int)
    requires -d < k * d < d
    ensures k == 0
  {
    if k >= 1 {
      AtLeastFactor(k, d);
    } else if k <= -1 {
      assert (-k) * d == -(k * d);
      AtLeastFactor(-k, d);
    }
  }

  lemma DivUnique(x: nat, d: nat, q: nat, rem: nat)
    requires d > 0 && x == q * d + rem && rem < d
    ensures x / d == q && x % d == rem
  {
    var q', r' := x / d, x % d;
    assert x == q' * d + r';
    assert (q' - q) * d == rem - r';
    SmallMultiple(q' - q, d);
  }

  lemma DivDiv(x: nat, k: nat)
    requires k > 0
    ensures x / Pow2(k) == x / 2 / Pow2(k - 1)
  {
    var d := Pow2(k - 1);
    var q := x / 2 / d;
    assert x / 2 == q * d + x / 2 % d;
    var rem := x % 2 + 2 * (x / 2 % d);
    assert x == q * (2 * d) + rem;
    DivUnique(x, 2 * d, q, rem);
  }

  lemma {:induction false} ShrIsDiv(x: nat, k: nat)
    ensures Shr(x, k) == x / Pow2(k)
    decreases k
  {
    if k > 0 {
      ShrIsDiv(x / 2, k - 1);
      DivDiv(x, k);
    }
  }

  lemma {:induction false} ShrAdd(x: nat, j: nat, k: nat)
    ensures Shr(Shr(x, j), k) == Shr(x, j + k)
    decreases j
  {
    if j > 0 { ShrAdd(x / 2, j - 1, k); }
  }

  lemma {:induction false} OrShift(x: nat, y: nat, k: nat)
    ensures Shr(Or(x, y), k) == Or(Shr(x, k), Shr(y, k))
    decreases k
  {
    if k > 0 {
      OrHalf(x, y);
      OrShift(x / 2, y / 2, k - 1);
    }
  }

  /** Or of words with no bit in common is their sum. */
  lemma {:induction false} OrDisjoint(x: nat, y: nat, k: nat)
    requires x % Pow2(k) == 0 && y < Pow2(k)
    ensures Or(x, y) == x + y
    decreases k
  {
    if k == 0 {
    } else if x == 0 || y == 0 {
    } else {
      var d := Pow2(k - 1);
      var q := x / Pow2(k);
      assert x == q * (2 * d) == 2 * (q * d);
      assert x / 2 == q * d;
      DivUnique(x / 2, d, q, 0);
      OrDisjoint(x / 2, y / 2, k - 1);
    }
  }

  lemma {:induction false} OrBound(x: nat, y: nat, k: nat)
    requires x < Pow2(k) && y < Pow2(k)
    ensures Or(x, y) < Pow2(k)
    decreases k
  {
    if k > 0 && x > 0 && y > 0 {
      OrBound(x / 2, y / 2, k - 1);
    }
  }

  lemma {:induction false} OrAtLeast(x: nat, y: nat)
    ensures Or(x, y) >= x && Or(x, y) >= y
    decreases x + y
  {
    if x > 0 && y > 0 { OrAtLeast(x / 2, y / 2); }
  }

  lemma PullTwo(q: int, d: int)
    ensures q * (2 * d) == 2 * (q * d)
  {
  }

  /** Or-ing in k low ones sets exactly the k low bits. */
  lemma {:induction false} OrOnes(x: nat, k: nat)
    ensures Or(x, Pow2(k) - 1) == Shr(x, k) * Pow2(k) + Pow2(k) - 1
    decreases k
  {
    if k == 0 {
      OrZero(x);
    } else {
      var ones := Pow2(k) - 1;
      assert ones / 2 == Pow2(k - 1) - 1 && ones % 2 == 1;
      OrHalf(x, ones);
      OrOnes(x / 2, k - 1);
      PullTwo(Shr(x, k), Pow2(k - 1));
    }
  }

  lemma SmallPowers()
    ensures Pow2(0) == 0x1 && Pow2(1) == 0x2 && Pow2(2) == 0x4 && Pow2(3) == 0x8 && Pow2(4) == 0x10
    ensures Pow2(5) == 0x20 && Pow2(6) == 0x40 && Pow2(7) == 0x80 && Pow2(8) == 0x100 && Pow2(9) == 0x200
  {
    assert Pow2(4) == 16;
    assert Pow2(8) == 0x100;
  }

  lemma Pow2Values()
    ensures Pow2(63) == WORD / 2 && Pow2(64) == WORD
  {
    assert Pow2(4) == 16;
    Pow2Add(4, 4);
    assert Pow2(8) == 0x100;
    Pow2Add(8, 8);
    assert Pow2(16) == 0x1_0000;
    Pow2Add(16, 16);
    assert Pow2(32) == 0x1_0000_0000;
    Pow2Add(32, 32);
    assert Pow2(64) == 2 * Pow2(63);
  }

  lemma {:induction false} AndSelf(x: nat)
    ensures And(x, x) == x
  {
    if x > 0 { AndSelf(x / 2); }
  }

  /** The test !(x & (x - 1)) recognises exactly the powers of two among positive words. */
  lemma {:induction false} PowerOfTwoTest(x: nat)
    requires x > 0
    ensures And(x, x - 1) == 0 <==> IsPow2(x)
  {
    if x == 1 {
    } else if x % 2 == 0 {
      assert (x - 1) / 2 == x / 2 - 1;
      PowerOfTwoTest(x / 2);
      assert And(x, x - 1) == 2 * And(x / 2, x / 2 - 1);
    } else {
      assert (x - 1) / 2 == x / 2;
      AndSelf(x / 2);
    }
  }
}
