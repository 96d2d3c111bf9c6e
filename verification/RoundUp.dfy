/** fixsize (arch/riscv/kernel/mm.c): round a page count up to a power of two by smearing its top bit. */
module RoundUp {
  import opened Words

  /** x has `len` bits and its top `s` bits (or all of them) are ones. */
  predicate TopOnes(x: nat, len: nat, s: nat) {
    && len >= 1 && Pow2(len - 1) <= x < Pow2(len)
    && (if s >= len then x == Pow2(len) - 1 else Shr(x, len - s) == Pow2(s) - 1)
  }

  lemma {:induction false} BitLength(x: nat) returns (len: nat)
    requires x > 0
    ensures TopOnes(x, len, 1)
  {
    if x == 1 {
      len := 1;
    } else {
      len := BitLength(x / 2);
      len := len + 1;
      if len > 2 { assert Shr(x, len - 1) == Shr(x / 2, len - 2); }
    }
  }

  lemma {:induction false} ShrOnes(n: nat, k: nat)
    requires k <= n
    ensures Shr(Pow2(n) - 1, k) == Pow2(n - k) - 1
    decreases k
  {
    if k > 0 {
      assert (Pow2(n) - 1) / 2 == Pow2(n - 1) - 1;
      ShrOnes(n - 1, k - 1);
    }
  }

  lemma DropOne(a: int, b: int)
    ensures (a - 1) * b + b - 1 == a * b - 1
  {
  }

  /** Or-ing ones below a value whose upper part is all ones gives all ones. */
  lemma OrFillsOnes(x: nat, upper: nat, lower: nat)
    requires Shr(x, lower) == Pow2(upper) - 1
    ensures Or(x, Pow2(lower) - 1) == Pow2(upper + lower) - 1
  {
    OrOnes(x, lower);
    Pow2Add(upper, lower);
    DropOne(Pow2(upper), Pow2(lower));
  }

  lemma SmearRest(x: nat, len: nat, s: nat)
    requires s < len < 2 * s && Shr(x, len - s) == Pow2(s) - 1
    ensures Or(x, Shr(x, s)) == Pow2(len) - 1
  {
    ShrAdd(x, len - s, 2 * s - len);
    ShrOnes(s, 2 * s - len);
    OrFillsOnes(x, s, len - s);
  }

  lemma SmearHalf(x: nat, len: nat, s: nat)
    requires 2 * s <= len && Shr(x, len - s) == Pow2(s) - 1
    ensures Shr(Or(x, Shr(x, s)), len - 2 * s) == Pow2(2 * s) - 1
  {
    var x' := Shr(x, len - 2 * s);
    ShrAdd(x, len - 2 * s, s);
    ShrAdd(x, s, len - 2 * s);
    OrShift(x, Shr(x, s), len - 2 * s);
    OrFillsOnes(x', s, s);
  }

  lemma {:induction false} ShrAtMost(x: nat, k: nat)
    ensures Shr(x, k) <= x
    decreases k
  {
    if k > 0 { ShrAtMost(x / 2, k - 1); }
  }

  /** One `size |= size >> s` doubles the run of leading ones. */
  lemma SmearDoubles(x: nat, len: nat, s: nat)
    requires TopOnes(x, len, s) && s >= 1
    ensures TopOnes(Or(x, Shr(x, s)), len, 2 * s)
  {
    if s >= len {
      ShrOnes(len, len);
      ShrAdd(x, len, s - len);
      ShrZero(s - len);
      OrZero(x);
    } else {
      OrAtLeast(x, Shr(x, s));
      ShrAtMost(x, s);
      OrBound(x, Shr(x, s), len);
      if 2 * s <= len {
        SmearHalf(x, len, s);
        assert 2 * s == len ==> Shr(Or(x, Shr(x, s)), 0) == Or(x, Shr(x, s));
      } else {
        SmearRest(x, len, s);
      }
    }
  }

  lemma {:induction false} NoPow2Between(p: nat, len: nat)
    requires IsPow2(p) && p > Pow2(len)
    ensures p >= Pow2(len + 1)
  {
    var n := Pow2Exponent(p);
    if n <= len { Pow2Mono(n, len); } else { Pow2Mono(len + 1, n); }
  }

  /** The smears by s, 2s, 4s, ... up to 32. */
  function SmearFrom(x: nat, s: nat): nat
    requires s >= 1
    decreases 64 - s
  {
    if s >= 64 then x else SmearFrom(Or(x, Shr(x, s)), 2 * s)
  }

  lemma {:induction false} SmearedIsAllOnes(x: nat, len: nat, s: nat)
    requires 1 <= s && len <= 64 && TopOnes(x, len, s)
    ensures SmearFrom(x, s) == Pow2(len) - 1
    decreases 64 - s
  {
    if s < 64 {
      SmearDoubles(x, len, s);
      SmearedIsAllOnes(Or(x, Shr(x, s)), len, 2 * s);
    }
  }

  lemma {:induction false} SmearZero(s: nat)
    requires s >= 1
    ensures SmearFrom(0, s) == 0
    decreases 64 - s
  {
    if s < 64 {
      ShrZero(s);
      SmearZero(2 * s);
    }
  }

  lemma LeastAbove(request: nat, len: nat)
    requires 1 <= len && Pow2(len - 1) <= request - 1 < Pow2(len)
    ensures IsPow2(Pow2(len)) && Pow2(len) >= request
    ensures forall p: nat :: IsPow2(p) && p >= request ==> Pow2(len) <= p
  {
    Pow2IsPow2(len);
    forall p: nat | IsPow2(p) && p >= request ensures Pow2(len) <= p {
      NoPow2Between(p, len - 1);
    }
  }

  /** size is what fixsize promises for request: the least power of two at or above it, or 0 on wrap. */
  ghost predicate IsRounded(request: nat, size: nat) {
    && (1 <= request <= WORD / 2 ==>
      IsPow2(size) && size >= request && forall p: nat :: IsPow2(p) && p >= request ==> size <= p)
    && (size == 0 <==> request == 0 || request > WORD / 2)
  }

  lemma OnePage()
    ensures IsRounded(1, 1)
  {
    assert IsPow2(1);
  }

  lemma LengthOfWord(x: nat) returns (len: nat)
    requires 0 < x < WORD
    ensures len <= 64 && TopOnes(x, len, 1)
  {
    len := BitLength(x);
    Pow2Values();
    if len > 64 { Pow2Mono(64, len - 1); }
  }

  lemma RoundedFromLength(request: nat, x: nat, len: nat)
    requires request < WORD && x == (if request == 0 then WORD - 1 else request - 1)
    requires 1 <= len <= 64 && Pow2(len - 1) <= x < Pow2(len)
    ensures IsRounded(request, Pow2(len) % WORD)
  {
    Pow2Values();
    if len == 64 {
      assert Pow2(len) % WORD == 0;
    } else {
      Pow2Mono(len, 63);
      assert Pow2(len) % WORD == Pow2(len);
      LeastAbove(request, len);
    }
  }

  lemma RoundedUp(request: nat)
    requires request < WORD
    ensures IsRounded(request, (SmearFrom((request + WORD - 1) % WORD, 1) + 1) % WORD)
  {
    hide SmearFrom, IsRounded, Pow2;
    var x := if request == 0 then WORD - 1 else request - 1;
    assert (request + WORD - 1) % WORD == x;
    if x == 0 {
      SmearZero(1);
      OnePage();
    } else {
      var len := LengthOfWord(x);
      SmearedIsAllOnes(x, len, 1);
      RoundedFromLength(request, x, len);
    }
  }

  /** fixsize: the least power of two at or above `request`; 0 when the 64-bit register wraps. */
  method FixSize(request: nat) returns (size: nat)
    requires request < WORD
    ensures IsRounded(request, size)
  {
    size := (request + WORD - 1) % WORD;
    ghost var x := size;
    size := Or(size, Shr(size, 1));
    size := Or(size, Shr(size, 2));
    assert SmearFrom(x, 1) == SmearFrom(size, 4);
    size := Or(size, Shr(size, 4));
    size := Or(size, Shr(size, 8));
    assert SmearFrom(x, 1) == SmearFrom(size, 16);
    size := Or(size, Shr(size, 16));
    size := Or(size, Shr(size, 32));
    assert SmearFrom(x, 1) == SmearFrom(size, 64) == size;
    RoundedUp(request);
    size := (size + 1) % WORD;
  }
}
