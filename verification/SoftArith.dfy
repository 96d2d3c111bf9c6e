/** Division and multiplication without the M extension (lib/div.S, lib/muldi3.S), on 64-bit registers.
    The results are those the M extension's instructions are to give (RISC-V Unprivileged ISA, version
    20191213, section 7.2). */
module SoftArith {
  import opened Words

  const HALF: int := 0x8000_0000_0000_0000  // 2^63

  const WORD32: nat := 0x1_0000_0000

  const HALF32: int := 0x8000_0000

  type Register = x: nat | x < WORD

  /** A register read as a signed number. */
  function Signed(x: Register): int { if x < HALF then x else x - WORD }

  /** The low half of a register, unsigned and signed. */
  function Low(x: Register): nat { x % WORD32 }

  function SignedLow(x: Register): int { if Low(x) < HALF32 then Low(x) else Low(x) - WORD32 }

  function Neg(x: Register): Register { (WORD - x) % WORD }

  /** sext.w. */
  function SextW(x: Register): (r: Register)
    ensures Low(r) == Low(x) && Signed(r) == SignedLow(x)
  {
    if Low(x) < HALF32 then Low(x) else Low(x) + WORD - WORD32
  }

  /** A 32-bit signed argument or result, as the calling convention passes it. */
  predicate Is32(x: Register) { SextW(x) == x }

  // ----- truncating division

  function Abs(x: int): nat { if x < 0 then -x else x }

  function TruncQuot(n: int, d: int): int
    requires d != 0
  {
    if (n < 0) == (d < 0) then Abs(n) / Abs(d) else -(Abs(n) / Abs(d))
  }

  function TruncRem(n: int, d: int): int
    requires d != 0
  {
    if n < 0 then -(Abs(n) % Abs(d)) else Abs(n) % Abs(d)
  }

  /** Rounding toward zero: the remainder is smaller than the divisor and has the dividend's sign. */
  ghost predicate Truncates(n: int, d: int, q: int, r: int) {
    n == q * d + r && Abs(r) < Abs(d) && (r == 0 || (r < 0) == (n < 0))
  }

  lemma SameSign(n: int, d: int, r: int, r0: int)
    requires Abs(r) < Abs(d) && Abs(r0) < Abs(d)
    requires (r == 0 || (r < 0) == (n < 0)) && (r0 == 0 || (r0 < 0) == (n < 0))
    ensures Abs(r0 - r) < Abs(d)
  {
  }

  lemma Distribute(a: int, b: int, d: int)
    ensures (a + b) * d == a * d + b * d
  {
  }

  lemma SignsOfProduct(a: int, d: int)
    ensures a * Abs(d) == (if d < 0 then -(a * d) else a * d)
    ensures (-a) * d == -(a * d)
  {
  }

  lemma NoMultiple(k: int, d: int)
    requires d != 0 && Abs(k * d) < Abs(d)
    ensures k == 0
  {
    SignsOfProduct(k, d);
    SmallMultiple(k, Abs(d));
  }

  lemma TwoTruncations(n: int, d: int, q: int, r: int, q0: int, r0: int)
    requires d != 0 && Truncates(n, d, q, r) && Truncates(n, d, q0, r0)
    ensures q == q0 && r == r0
  {
    hide Abs;
    assert (q - q0) * d == r0 - r by { Distribute(q - q0, q0, d); }
    SameSign(n, d, r, r0);
    NoMultiple(q - q0, d);
  }

  lemma WithSigns(n: int, d: int, a: int, b: int)
    requires d != 0 && a >= 0 && b >= 0 && Abs(n) == a * Abs(d) + b && b < Abs(d)
    ensures Truncates(n, d, if (n < 0) == (d < 0) then a else -a, if n < 0 then -b else b)
  {
    SignsOfProduct(a, d);
  }

  lemma TruncationExists(n: int, d: int, a: nat, b: nat)
    requires d != 0 && a == Abs(n) / Abs(d) && b == Abs(n) % Abs(d)
    ensures Truncates(n, d, TruncQuot(n, d), TruncRem(n, d))
  {
    hide Truncates;
    assert Abs(n) == a * Abs(d) + b;
    WithSigns(n, d, a, b);
  }

  lemma TruncationIsUnique(n: int, d: int, q: int, r: int)
    requires d != 0
    ensures Truncates(n, d, q, r) <==> q == TruncQuot(n, d) && r == TruncRem(n, d)
  {
    hide TruncQuot, TruncRem, Truncates;
    var q0, r0 := TruncQuot(n, d), TruncRem(n, d);
    TruncationExists(n, d, Abs(n) / Abs(d), Abs(n) % Abs(d));
    if Truncates(n, d, q, r) { TwoTruncations(n, d, q, r, q0, r0); }
  }

  // ----- __udivdi3

  /** The unsigned results: for divisor 0 the quotient has all bits set and the remainder is the dividend. */
  function Quotient(n: nat, d: nat): nat { if d == 0 then WORD - 1 else n / d }

  function Remainder(n: nat, d: nat): nat { if d == 0 then n else n % d }

  /** The divisor, shifted left by k bits. */
  function Shifted(d: nat, k: nat): nat { d * Pow2(k) }

  lemma FirstShift(d: nat)
    ensures Pow2(0) == 1 && Shifted(d, 0) == d
  {
  }

  lemma Halved(d: nat, p: nat)
    ensures d * (2 * p) / 2 == d * p
    ensures d * (2 * p) == 2 * (d * p)
  {
    assert d * (2 * p) == 2 * (d * p);
  }

  lemma ShiftedBound(d: nat, k: nat)
    requires d > 0
    ensures 0 < Pow2(k) <= Shifted(d, k)
  {
    AtLeastFactor(d, Pow2(k));
  }

  lemma BelowHalf(k: nat)
    requires Pow2(k) < HALF
    ensures k < 63
  {
    if k >= 63 {
      Pow2Values();
      Pow2Mono(63, k);
    }
  }

  /** slli by one. */
  function Doubled(x: nat): nat { x * 2 % WORD }

  /** A register that reads as positive is below 2^63. */
  lemma Positive(x: Register)
    ensures Signed(x) > 0 <==> 0 < x < HALF
  {
  }

  lemma DoubledBelow(x: nat)
    requires x < HALF
    ensures Doubled(x) == 2 * x < WORD
  {
  }

  lemma ShiftedNext(d: nat, k: nat)
    ensures Shifted(d, k + 1) == 2 * Shifted(d, k) && Pow2(k + 1) == 2 * Pow2(k)
  {
    Halved(d, Pow2(k));
  }

  lemma NextShift(d: nat, k: nat)
    requires d > 0 && Shifted(d, k) < HALF
    ensures k < 63 && Shifted(d, k) < Shifted(d, k + 1) == Doubled(Shifted(d, k)) == 2 * Shifted(d, k) < WORD
    ensures Pow2(k + 1) == Doubled(Pow2(k))
  {
    hide Shifted, Doubled, Pow2;
    ShiftedBound(d, k);
    BelowHalf(k);
    ShiftedNext(d, k);
    DoubledBelow(Shifted(d, k));
    DoubledBelow(Pow2(k));
  }

  /** The first loop: shift the divisor left until it reaches the dividend or its top bit is set. */
  method AlignDivisor(n: Register, d: Register) returns (a2: nat, a3: nat, ghost k: nat)
    requires d != 0
    ensures k < 64 && a3 == Pow2(k) && a2 == Shifted(d, k) < WORD && n < 2 * a2
  {
    hide Pow2, Shifted, Doubled, Signed;
    a2, a3, k := d, 1, 0;
    FirstShift(d);
    if a2 < n {
      while true
        invariant k < 64 && a3 == Pow2(k) && a2 == Shifted(d, k) < n
        decreases n - a2
      {
        Positive(a2);
        if Signed(a2) <= 0 {
          break;
        }
        NextShift(d, k);
        a2 := Doubled(a2);
        a3 := Doubled(a3);
        k := k + 1;
        if n <= a2 {
          break;
        }
      }
    }
  }

  lemma BitSet(n: nat, d: nat, a0: nat, a1: nat, a3: nat, m: nat)
    requires d > 0 && a0 == m * (2 * a3) && n == a0 * d + a1
    ensures a0 == 2 * m * a3 && a0 + a3 == (2 * m + 1) * a3
    ensures a1 >= d * a3 ==> n == (a0 + a3) * d + (a1 - d * a3) && a0 + a3 <= n
  {
    Distribute(2 * m, 1, a3);
    Distribute(a0, a3, d);
    if a0 + a3 > 0 { AtLeastFactor(d, a0 + a3); }
    assert d * (a0 + a3) == (a0 + a3) * d;
  }

  /** The body of the second loop: whether or not the bit is set, the division identity is kept. */
  lemma QuotientBit(n: Register, d: nat, a0: nat, a1: nat, k: nat, m: nat)
    requires d > 0 && k < 64 && a0 == m * Pow2(k + 1) && n == a0 * d + a1
    ensures a0 == 2 * m * Pow2(k)
    ensures a1 >= Shifted(d, k) ==>
      var a0' := Or(a0, Pow2(k)); a0' < WORD && a0' == (2 * m + 1) * Pow2(k) && n == a0' * d + (a1 - Shifted(d, k))
    ensures if k == 0 then Pow2(k) == 1 && Shifted(d, k) == d
            else Pow2(k) / 2 == Pow2(k - 1) && Shifted(d, k) / 2 == Shifted(d, k - 1) && Shifted(d, k) == 2 * Shifted(d, k - 1)
  {
    var a3 := Pow2(k);
    DivUnique(a0, Pow2(k + 1), m, 0);
    OrDisjoint(a0, a3, k + 1);
    BitSet(n, d, a0, a1, a3, m);
    if k > 0 { Halved(d, Pow2(k - 1)); }
  }

  /** __udivdi3: quotient in a0 and remainder in a1; for divisor 0 the quotient has all bits set and the remainder is the dividend. */
  method Udivdi3(n: Register, d: Register) returns (a0: Register, a1: Register)
    ensures a0 == Quotient(n, d) && a1 == Remainder(n, d)
  {
    hide Or, Pow2, Shifted;
    a1 := n;
    a0 := WORD - 1;
    if d == 0 {
      return;
    }
    var a2, a3;
    ghost var k;
    a2, a3, k := AlignDivisor(n, d);
    a0 := 0;
    ghost var m := 0;
    while true
      invariant k < 64 && a3 == Pow2(k) && a2 == Shifted(d, k) && a1 < 2 * a2
      invariant a0 == m * Pow2(k + 1) && n == a0 * d + a1
      decreases k
    {
      QuotientBit(n, d, a0, a1, k, m);
      if a1 >= a2 {
        a1 := a1 - a2;
        a0 := Or(a0, a3);
        m := 2 * m + 1;
      } else {
        m := 2 * m;
      }
      a3 := a3 / 2;
      a2 := a2 / 2;
      if a3 == 0 {
        break;
      }
      k := k - 1;
    }
    DivUnique(n, d, a0, a1);
  }

  method Umoddi3(n: Register, d: Register) returns (r: Register)
    ensures r == Remainder(n, d)
  {
    hide Quotient, Remainder;
    var a0, a1 := Udivdi3(n, d);
    r := a1;
  }

  // ----- the signed routines

  /** The 64-bit signed results, with the two cases that have no exact quotient. */
  ghost predicate QuotientOk(n: int, d: int, q: Register) {
    if d == 0 then q == WORD - 1
    else if n == -HALF && d == -1 then q == HALF
    else Signed(q) == TruncQuot(n, d)
  }

  ghost predicate RemainderOk(n: int, d: int, r: Register) {
    Signed(r) == if d == 0 then n else TruncRem(n, d)
  }

  lemma QuotientFits(n: nat, d: nat)
    ensures d > 0 ==> n / d <= n
    ensures d > 1 && n > 0 ==> n / d < n
    ensures d == 1 ==> n / d == n
  {
    if d > 0 {
      var q := n / d;
      assert n == q * d + n % d;
      if q > 0 { AtLeastFactor(d, q); assert d * q == q * d; }
      if d > 1 && q > 0 { Distribute(d - 1, 1, q); AtLeastFactor(d - 1, q); }
    }
  }

  lemma QuotientFromMagnitudes(n: int, d: int, v: Register, q: Register)
    requires -HALF <= n < HALF && -HALF <= d < HALF
    requires v == Quotient(Abs(n), Abs(d))
    requires q == if d == 0 || (n < 0) == (d < 0) then v else Neg(v)
    ensures QuotientOk(n, d, q)
  {
    QuotientFits(Abs(n), Abs(d));
  }

  method Divdi3(a: Register, b: Register) returns (q: Register)
    ensures QuotientOk(Signed(a), Signed(b), q)
  {
    hide TruncQuot, QuotientOk, Quotient;
    ghost var n, d := Signed(a), Signed(b);
    var v, rem;
    if Signed(a) < 0 {
      var a0 := Neg(a);
      if Signed(b) > 0 {
        v, rem := Udivdi3(a0, b);
        q := Neg(v);
      } else {
        v, rem := Udivdi3(a0, Neg(b));
        q := v;
      }
    } else if Signed(b) < 0 {
      v, rem := Udivdi3(a, Neg(b));
      q := Neg(v);
    } else {
      v, rem := Udivdi3(a, b);
      q := v;
    }
    QuotientFromMagnitudes(n, d, v, q);
  }

  lemma RemainderFromMagnitudes(n: int, d: int, v: Register, r: Register)
    requires -HALF <= n < HALF && -HALF <= d < HALF
    requires v == Remainder(Abs(n), Abs(d))
    requires r == if n < 0 then Neg(v) else v
    ensures RemainderOk(n, d, r)
  {
    if d != 0 { assert v < Abs(d); }
  }

  method Moddi3(a: Register, b: Register) returns (r: Register)
    ensures RemainderOk(Signed(a), Signed(b), r)
  {
    hide TruncRem, RemainderOk, Remainder, Quotient;
    var a0, a1 := a, b;
    var q, v;
    if Signed(b) < 0 {
      a1 := Neg(a1);
      if Signed(a) >= 0 {
        q, r := Udivdi3(a0, a1);
        RemainderFromMagnitudes(Signed(a), Signed(b), r, r);
        return;
      }
    } else if Signed(a) >= 0 {
      q, r := Udivdi3(a0, a1);
      RemainderFromMagnitudes(Signed(a), Signed(b), r, r);
      return;
    }
    a0 := Neg(a0);
    q, v := Udivdi3(a0, a1);
    r := Neg(v);
    RemainderFromMagnitudes(Signed(a), Signed(b), v, r);
  }

  // ----- the 32-bit routines

  lemma ShiftLow(x: Register)
    ensures x * WORD32 % WORD == Low(x) * WORD32
  {
  }

  lemma ScaledDivision(n: nat, d: nat, c: nat)
    requires d > 0 && c > 0
    ensures d * c > 0 && n * c / (d * c) == n / d
  {
    var q, r := n / d, n % d;
    assert n == q * d + r;
    assert n * c == q * (d * c) + r * c by {
      Distribute(q * d, r, c);
      assert q * d * c == q * (d * c);
    }
    assert r * c < d * c by {
      Distribute(d - r, r, c);
      AtLeastFactor(d - r, c);
    }
    DivUnique(n * c, d * c, q, r * c);
  }

  /** slli by 32, and back by srli. */
  function ToHigh(x: Register): Register { x * WORD32 % WORD }

  function ToLow(x: Register): Register { x / WORD32 }

  lemma HighQuotient(a: Register, b: Register)
    ensures Quotient(ToHigh(a), ToHigh(b)) == Quotient(Low(a), Low(b))
  {
    ShiftLow(a);
    ShiftLow(b);
    if Low(b) != 0 { ScaledDivision(Low(a), Low(b), WORD32); }
  }

  lemma LowQuotient(n: nat, d: nat)
    requires n < WORD32
    ensures n < WORD && Quotient(n, d) < WORD && Low(Quotient(n, d)) == if d == 0 then WORD32 - 1 else n / d
  {
    if d != 0 { QuotientFits(n, d); }
  }

  lemma HighAndBack(x: Register)
    ensures ToLow(ToHigh(x)) == Low(x)
  {
    ShiftLow(x);
  }

  lemma LowRemainder(n: nat, d: nat)
    requires n < WORD32 && d < WORD32
    ensures Remainder(n, d) < WORD32 && Remainder(n, d) == if d == 0 then n else n % d
  {
  }

  lemma SmallIsLow(x: nat)
    requires x < WORD32
    ensures x < WORD && Low(x) == x
  {
  }

  lemma Extended(x: Register)
    ensures Is32(SextW(x)) && Low(SextW(x)) == Low(x)
  {
  }

  lemma LowIsSmall(x: Register)
    ensures Low(x) < WORD32
  {
  }

  method Udivsi3(a: Register, b: Register) returns (q: Register)
    ensures Is32(q) && Low(q) == if Low(b) == 0 then WORD32 - 1 else Low(a) / Low(b)
  {
    hide Quotient, Remainder, ToHigh, Low, Is32;
    var r;
    q, r := Udivdi3(ToHigh(a), ToHigh(b));
    HighQuotient(a, b);
    LowIsSmall(a);
    LowQuotient(Low(a), Low(b));
    Extended(q);
    q := SextW(q);
  }

  method Umodsi3(a: Register, b: Register) returns (r: Register)
    ensures Is32(r) && Low(r) == if Low(b) == 0 then Low(a) else Low(a) % Low(b)
  {
    hide Quotient, Remainder, ToHigh, ToLow, Low, Is32;
    HighAndBack(a);
    HighAndBack(b);
    LowIsSmall(a);
    LowIsSmall(b);
    var q, rem := Udivdi3(ToLow(ToHigh(a)), ToLow(ToHigh(b)));
    LowRemainder(Low(a), Low(b));
    SmallIsLow(rem);
    Extended(rem);
    r := SextW(rem);
  }

  /** The 32-bit signed results, in the form the calling convention returns them. */
  ghost predicate QuotientOk32(n: int, d: int, q: Register) {
    && Is32(q)
    && Signed(q) == if d == 0 then -1 else if n == -HALF32 && d == -1 then -HALF32 else TruncQuot(n, d)
  }

  lemma LeastByMinusOne()
    ensures QuotientOk32(-HALF32, -1, WORD - HALF32)
  {
  }

  lemma QuotientBound(n: int, d: int)
    requires d != 0 && -HALF32 <= n < HALF32 && !(n == -HALF32 && d == -1)
    ensures -HALF32 <= TruncQuot(n, d) < HALF32
  {
    QuotientFits(Abs(n), Abs(d));
  }

  lemma InRange32(q: Register)
    requires -HALF32 <= Signed(q) < HALF32
    ensures Is32(q)
  {
  }

  lemma QuotientFits32(n: int, d: int, q: Register)
    requires -HALF32 <= n < HALF32 && -HALF32 <= d < HALF32 && !(n == -HALF32 && d == -1)
    requires QuotientOk(n, d, q)
    ensures QuotientOk32(n, d, q)
  {
    hide TruncQuot, Is32;
    if d != 0 { QuotientBound(n, d); }
    InRange32(q);
  }

  method Divsi3(a: Register, b: Register) returns (q: Register)
    requires Is32(a) && Is32(b)
    ensures QuotientOk32(SignedLow(a), SignedLow(b), q)
  {
    hide TruncQuot, QuotientOk, QuotientOk32;
    var t0: Register := WORD - 1;
    if b == t0 {
      t0 := t0 * HALF32 % WORD;
      if a == t0 {
        LeastByMinusOne();
        return a;
      }
    }
    q := Divdi3(a, b);
    QuotientFits32(SignedLow(a), SignedLow(b), q);
  }

  lemma RegisterIsLow(x: Register)
    requires Is32(x)
    ensures Signed(x) == SignedLow(x)
  {
  }

  lemma RemainderFits32(n: int, d: int, r: Register)
    requires -HALF32 <= n < HALF32 && -HALF32 <= d < HALF32 && RemainderOk(n, d, r)
    ensures Is32(r)
  {
    hide Is32;
    InRange32(r);
  }

  /** __modsi3 is __moddi3 under another name. */
  method Modsi3(a: Register, b: Register) returns (r: Register)
    requires Is32(a) && Is32(b)
    ensures Is32(r) && RemainderOk(SignedLow(a), SignedLow(b), r)
  {
    hide TruncRem, RemainderOk, Is32;
    r := Moddi3(a, b);
    RegisterIsLow(a);
    RegisterIsLow(b);
    RemainderFits32(SignedLow(a), SignedLow(b), r);
  }

  // ----- __muldi3

  /** Accumulator plus product, modulo the word size: what every step keeps. */
  ghost function MulAdd(acc: nat, x: nat, y: nat): nat { (acc + x * y) % WORD }

  lemma MulAddEnds(acc: Register, x: nat, a: nat, b: nat)
    ensures MulAdd(acc, x, 0) == acc && MulAdd(0, a, b) == a * b % WORD
  {
  }

  lemma HalvedFactor(x: nat, y: nat)
    ensures x * y == x * 2 * (y / 2) + (if y % 2 != 0 then x else 0)
  {
    var h := y / 2;
    assert x * (2 * h) == x * 2 * h;
    assert x * (2 * h + 1) == x * (2 * h) + x;
  }

  lemma LowAndHigh(low: nat, c: nat, h: nat)
    ensures (low + c * WORD) * h == low * h + c * h * WORD
  {
    Distribute(low, c * WORD, h);
  }

  lemma WordsApart(x: int, y: int, k: int)
    requires y == x + k * WORD
    ensures x % WORD == y % WORD
  {
  }

  lemma ProductBit(a0: nat, a1: nat, a2: nat)
    ensures MulAdd(if a1 % 2 != 0 then (a0 + a2) % WORD else a0, a2 * 2 % WORD, a1 / 2) == MulAdd(a0, a2, a1)
  {
    var acc := if a1 % 2 != 0 then a0 + a2 else a0;
    var acc' := if a1 % 2 != 0 then acc % WORD else acc;
    var h, t := a1 / 2, a2 * 2;
    assert a2 * a1 == t * h + (if a1 % 2 != 0 then a2 else 0) by { HalvedFactor(a2, a1); }
    var low, c := t % WORD, t / WORD;
    assert t * h == low * h + c * h * WORD by { LowAndHigh(low, c, h); }
    var c' := if a1 % 2 != 0 then acc / WORD else 0;
    assert acc == acc' + c' * WORD;
    Distribute(c', c * h, WORD);
    WordsApart(acc' + low * h, acc + t * h, c' + c * h);
  }

  lemma SignedProduct(a: Register, b: Register)
    ensures Signed(a) * Signed(b) % WORD == a * b % WORD
  {
    var s, t := if a < HALF then 0 else 1, if b < HALF then 0 else 1;
    var k := s * b + t * a - s * t * WORD;
    assert (a - s * WORD) * (b - t * WORD) == a * b - k * WORD;
    WordsApart(Signed(a) * Signed(b), a * b, k);
  }

  method Muldi3(a: Register, b: Register) returns (a0: Register)
    ensures a0 == a * b % WORD
    ensures a0 == Signed(a) * Signed(b) % WORD
  {
    hide Signed, MulAdd;
    var a1: nat, a2: nat := b, a;
    a0 := 0;
    while true
      invariant a1 < WORD && a2 < WORD && MulAdd(a0, a2, a1) == MulAdd(0, a, b)
      decreases a1
    {
      ProductBit(a0, a1, a2);
      var a3 := a1 % 2;
      if a3 != 0 {
        a0 := (a0 + a2) % WORD;
      }
      a1 := a1 / 2;
      a2 := a2 * 2 % WORD;
      if a1 == 0 {
        break;
      }
    }
    MulAddEnds(a0, a2, a, b);
    SignedProduct(a, b);
  }
}
