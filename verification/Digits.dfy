/** The digit writers of printf (lib/vfprintf.c): fmt_x, fmt_o and fmt_u fill a buffer backwards. */
module Digits {
  import opened Words

  const BUF_SIZE: nat := 24  // sizeof(uintmax_t) * 3

  function DigitChar(d: nat, lower: bool): char
    requires d < 16
  {
    if d < 10 then ('0' as int + d) as char else ((if lower then 'a' else 'A') as int + d - 10) as char
  }

  function DigitValue(c: char): nat {
    if '0' <= c <= '9' then c as int - '0' as int
    else if 'A' <= c <= 'F' then c as int - 'A' as int + 10
    else if 'a' <= c <= 'f' then c as int - 'a' as int + 10
    else 0
  }

  /** The digits of x, most significant first; none for zero. */
  function Text(x: nat, base: nat, lower: bool): string
    requires 2 <= base <= 16
  {
    if x == 0 then "" else Text(x / base, base, lower) + [DigitChar(x % base, lower)]
  }

  /** The number that a digit string denotes. */
  function Value(s: string, base: nat): nat {
    if s == "" then 0 else Value(s[..|s| - 1], base) * base + DigitValue(s[|s| - 1])
  }

  lemma DigitOfChar(d: nat, lower: bool)
    requires d < 16
    ensures DigitValue(DigitChar(d, lower)) == d
  {
  }

  lemma QuotientBelow(x: nat, base: nat, q: nat, d: nat)
    requires base >= 2 && x > 0 && x == q * base + d
    ensures q < x
  {
    assert q * base == q * 2 + q * (base - 2);
  }

  lemma LastDigit(x: nat, base: nat, lower: bool) returns (q: nat, d: nat)
    requires 2 <= base <= 16 && x > 0
    ensures q == x / base && d == x % base && x == q * base + d && q < x
    ensures Text(x, base, lower) == Text(q, base, lower) + [DigitChar(d, lower)]
  {
    hide DigitChar;
    q, d := x / base, x % base;
    QuotientBelow(x, base, q, d);
  }

  lemma ValueOfAppend(s: string, c: char, base: nat)
    ensures Value(s + [c], base) == Value(s, base) * base + DigitValue(c)
  {
    hide DigitValue;
    assert (s + [c])[..|s|] == s;
  }

  /** The digits denote the number they were made from. */
  lemma {:induction false} TextDenotes(x: nat, base: nat, lower: bool)
    requires 2 <= base <= 16
    ensures Value(Text(x, base, lower), base) == x
    decreases x
  {
    hide DigitChar, DigitValue;
    if x > 0 {
      var q, d := LastDigit(x, base, lower);
      var init, c := Text(q, base, lower), DigitChar(d, lower);
      TextDenotes(q, base, lower);
      DigitOfChar(d, lower);
      ValueOfAppend(init, c, base);
    }
  }

  lemma NoDigits(base: nat, lower: bool)
    requires 2 <= base <= 16
    ensures Text(0, base, lower) == ""
  {
  }

  /** There is no leading zero. */
  lemma {:induction false} NoLeadingZero(x: nat, base: nat, lower: bool)
    requires 2 <= base <= 16 && x > 0
    ensures Text(x, base, lower) != "" && DigitValue(Text(x, base, lower)[0]) > 0
    decreases x
  {
    hide DigitChar, DigitValue, Text;
    var q, d := LastDigit(x, base, lower);
    DigitOfChar(d, lower);
    if q > 0 { NoLeadingZero(q, base, lower); } else { NoDigits(base, lower); }
  }

  /** In base 10 only decimal digits appear. */
  lemma {:induction false} DecimalOnly(x: nat)
    ensures forall c <- Text(x, 10, false) :: '0' <= c <= '9'
    decreases x
  {
    if x > 0 { DecimalOnly(x / 10); }
  }

  lemma Pow2Next(n: nat)
    ensures Pow2(n + 1) == 2 * Pow2(n)
  {
  }

  lemma EightTimes(n: nat)
    ensures Pow2(n + 3) == 8 * Pow2(n)
  {
    hide Pow2;
    Pow2Next(n + 2);
    Pow2Next(n + 1);
    Pow2Next(n);
  }

  lemma Pow2Zero()
    ensures Pow2(0) == 1
  {
  }

  lemma BaseAtLeastEight(x: nat, base: nat, q: nat, d: nat)
    requires base >= 8 && x == q * base + d
    ensures x >= q * 8
  {
    assert q * base == q * 8 + q * (base - 8);
  }

  lemma SmallerQuotient(x: nat, base: nat, p: nat)
    requires base >= 8 && x < 8 * p
    ensures x / base < p
  {
    var q, d := x / base, x % base;
    BaseAtLeastEight(x, base, q, d);
  }

  lemma {:induction false} TextFits(x: nat, base: nat, lower: bool, k: nat)
    requires 8 <= base <= 16 && x < Pow2(3 * k)
    ensures |Text(x, base, lower)| <= k
    decreases k
  {
    hide DigitChar, Pow2;
    if x > 0 {
      Pow2Zero();
      var p := Pow2(3 * (k - 1));
      EightTimes(3 * (k - 1));
      SmallerQuotient(x, base, p);
      TextFits(x / base, base, lower, k - 1);
    }
  }

  /** A 64-bit number has at most 22 digits in base 8 or above. */
  lemma WordFits(x: nat, base: nat, lower: bool)
    requires 8 <= base <= 16 && x < WORD
    ensures |Text(x, base, lower)| <= 22
  {
    Pow2Values();
    Pow2Mono(64, 66);
    TextFits(x, base, lower, 22);
  }

  /** The writers' common contract: the digits of x end at z, inside the buffer, and nothing else is touched. */
  twostate predicate Written(buf: array<char>, s: nat, z: nat, text: string)
    reads buf
  {
    s <= z <= buf.Length && buf[s..z] == text && buf[..s] == old(buf[..s]) && buf[z..] == old(buf[z..])
  }

  method FmtX(x: nat, buf: array<char>, z: nat, lower: bool) returns (s: nat)
    requires x < WORD && BUF_SIZE <= z <= buf.Length
    modifies buf
    ensures Written(buf, s, z, Text(x, 16, lower))
  {
    hide Text, Pow2, DigitChar;
    WordFits(x, 16, lower);
    NoDigits(16, lower);
    var rest := x;
    s := z;
    while rest != 0
      invariant s <= z && Text(x, 16, lower) == Text(rest, 16, lower) + buf[s..z]
      invariant buf[..s] == old(buf[..s]) && buf[z..] == old(buf[z..])
    {
      ghost var q, d := LastDigit(rest, 16, lower);
      s := s - 1;
      buf[s] := DigitChar(rest % 16, lower);
      rest := rest / 16;
    }
  }

  method FmtO(x: nat, buf: array<char>, z: nat) returns (s: nat)
    requires x < WORD && BUF_SIZE <= z <= buf.Length
    modifies buf
    ensures Written(buf, s, z, Text(x, 8, false))
  {
    hide Text, Pow2, DigitChar;
    WordFits(x, 8, false);
    NoDigits(8, false);
    var rest := x;
    s := z;
    while rest != 0
      invariant s <= z && Text(x, 8, false) == Text(rest, 8, false) + buf[s..z]
      invariant buf[..s] == old(buf[..s]) && buf[z..] == old(buf[z..])
    {
      ghost var q, d := LastDigit(rest, 8, false);
      s := s - 1;
      buf[s] := DigitChar(rest % 8, false);
      rest := rest / 8;
    }
  }

  /** unsigned long holds every uintmax_t here, so fmt_u's first loop, for larger numbers, has no turn. */
  method FmtU(x: nat, buf: array<char>, z: nat) returns (s: nat)
    requires x < WORD && BUF_SIZE <= z <= buf.Length
    modifies buf
    ensures Written(buf, s, z, Text(x, 10, false))
  {
    hide Text, Pow2, DigitChar;
    WordFits(x, 10, false);
    NoDigits(10, false);
    var y := x;
    s := z;
    while y != 0
      invariant s <= z && Text(x, 10, false) == Text(y, 10, false) + buf[s..z]
      invariant buf[..s] == old(buf[..s]) && buf[z..] == old(buf[z..])
    {
      ghost var q, d := LastDigit(y, 10, false);
      s := s - 1;
      buf[s] := DigitChar(y % 10, false);
      y := y / 10;
    }
  }
}
