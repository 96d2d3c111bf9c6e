/** What printf writes, said of the written text itself: the number that an argument stands for, the parts of a field,
    and the counts that %n stores (section 7.21.6.1 of C11, as lib/vfprintf.c does it). */
module PrintfText {
  import opened Words
  import opened Options
  import opened Digits
  import opened Printf

  // ----- arguments

  /** 2 to the number of bits that an argument has for the modifier and letter: int is 32 bits, long and pointers 64. */
  function Modulus(p: Prefix, letter: char): nat {
    if letter == 'p' || letter == 's' || letter == 'n' then 0x1_0000_0000_0000_0000
    else
      match p
      case Bare => 0x1_0000_0000
      case H => 0x1_0000
      case HH => 0x100
      case _ => 0x1_0000_0000_0000_0000
  }

  predicate IsSigned(letter: char) { letter == 'd' || letter == 'i' }

  /** A 64-bit word read as the number that the letter prints. */
  function Reading(letter: char, x: nat): int {
    if IsSigned(letter) && x >= 0x8000_0000_0000_0000 then x - 0x1_0000_0000_0000_0000 else x
  }

  /** The number that an argument stands for: congruent to the raw word, and in the range of its type. */
  predicate StandsFor(p: Prefix, letter: char, raw: nat, v: int) {
    var m: int := Modulus(p, letter);
    && (v - raw) % m == 0
    && if IsSigned(letter) then -m <= 2 * v < m else 0 <= v < m
  }

  lemma MultipleOf(k: int, m: int)
    requires m > 0
    ensures (k * m) % m == 0
  {
    var q, r := k * m / m, (k * m) % m;
    assert k * m == q * m + r;
    assert (k - q) * m == r;
    SmallMultiple(k - q, m);
  }

  /** Numbers that differ by a multiple of m. */
  lemma Shifted(v: int, x: int, k: int, m: int)
    requires m > 0 && v == x + k * m
    ensures (v - x) % m == 0
  {
    MultipleOf(k, m);
  }

  lemma RemainderIs(x: int, m: int)
    requires m > 0
    ensures (x % m - x) % m == 0 && 0 <= x % m < m
  {
    assert x == x / m * m + x % m;
    assert x % m == x + (-(x / m)) * m;
    Shifted(x % m, x, -(x / m), m);
  }

  lemma SignedIs(x: int, half: nat)
    requires half > 0
    ensures (SignedBits(x, half) - x) % (2 * half) == 0 && -(half as int) <= SignedBits(x, half) < half
  {
    var m := 2 * half;
    RemainderIs(x, m);
    assert x == x / m * m + x % m;
    if x % m >= half {
      assert SignedBits(x, half) == x + (-(x / m) - 1) * m;
      Shifted(SignedBits(x, half), x, -(x / m) - 1, m);
    }
  }

  lemma ReadBack(v: int)
    requires -0x8000_0000_0000_0000 <= v < 0x8000_0000_0000_0000
    ensures 0 <= v % WORD < WORD && Reading('d', v % WORD) == v == Reading('i', v % WORD)
  {
  }

  lemma PoppedSigned(p: Prefix, letter: char, raw: nat, half: nat)
    requires IsSigned(letter) && 2 * half == Modulus(p, letter)
    ensures StandsFor(p, letter, raw, Reading(letter, SignedBits(raw, half) % WORD))
  {
    hide SignedBits, Reading;
    SignedIs(raw, half);
    ReadBack(SignedBits(raw, half));
  }

  lemma PoppedUnsigned(p: Prefix, letter: char, raw: nat)
    requires !IsSigned(letter)
    ensures StandsFor(p, letter, raw, Reading(letter, raw % Modulus(p, letter)))
  {
    RemainderIs(raw, Modulus(p, letter));
  }

  lemma WholeWord(raw: nat)
    ensures SignedBits(raw, 0x8000_0000_0000_0000) % WORD == raw % WORD
  {
  }

  lemma PoppedAs(p: Prefix, letter: char, raw: nat)
    requires NextState(p, letter).Take? && letter != 'c'
    ensures IsSigned(letter) ==> PopArg(NextState(p, letter).ty, raw) == SignedBits(raw, Modulus(p, letter) / 2) % WORD
    ensures !IsSigned(letter) ==> PopArg(NextState(p, letter).ty, raw) == raw % Modulus(p, letter)
  {
    hide SignedBits;
    WholeWord(raw);
  }

  /** The word popped for each conversion stands for its argument. */
  lemma PoppedWord(p: Prefix, letter: char, raw: nat)
    requires NextState(p, letter).Take? && letter != 'c'
    ensures StandsFor(p, letter, raw, Reading(letter, PopArg(NextState(p, letter).ty, raw)))
  {
    hide SignedBits, PopArg, NextState, Reading, StandsFor;
    PoppedAs(p, letter, raw);
    if IsSigned(letter) { PoppedSigned(p, letter, raw, Modulus(p, letter) / 2); } else { PoppedUnsigned(p, letter, raw); }
  }

  lemma SameRemainder(a: int, b: int, k: int, m: int)
    requires m > 0 && a == b + k * m
    ensures a % m == b % m
  {
    var d := a / m - b / m - k;
    assert a == a / m * m + a % m && b == b / m * m + b % m;
    assert d * m == b % m - a % m;
    SmallMultiple(d, m);
  }

  lemma LowByteOf(x: int, c: int)
    requires c > 0
    ensures x % (c * 0x100) % 0x100 == x % 0x100
  {
    var m := c * 0x100;
    assert x == x / m * m + x % m;
    assert x % m == x + (-(x / m) * c) * 0x100;
    SameRemainder(x % m, x, -(x / m) * c, 0x100);
  }

  lemma LowByte(x: int)
    ensures x % 0x1_0000_0000 % 0x100 == x % 0x100 && x % WORD % 0x100 == x % 0x100
  {
    LowByteOf(x, 0x100_0000);
    LowByteOf(x, 0x100_0000_0000_0000);
  }

  /** %c only prints its argument's low byte. */
  lemma PoppedByte(p: Prefix, raw: nat)
    requires NextState(p, 'c').Take?
    ensures PopArg(NextState(p, 'c').ty, raw) % 0x100 == raw % 0x100
  {
    LowByte(raw);
    LowByte(Int(raw));
    LowByte(raw - 0x1_0000_0000);
  }

  /** Only one number is such. */
  lemma ArgumentIsUnique(p: Prefix, letter: char, raw: nat, v: int, w: int)
    requires StandsFor(p, letter, raw, v) && StandsFor(p, letter, raw, w)
    ensures v == w
  {
    var m: int := Modulus(p, letter);
    var k := (v - raw) / m - (w - raw) / m;
    assert v - w == k * m;
    SmallMultiple(k, m);
  }

  // ----- fields

  predicate AllAre(s: string, c: char) { forall k | 0 <= k < |s| :: s[k] == c }

  /** The digits that a letter may print, in its case. */
  function DigitSet(letter: char): string {
    if letter == 'o' then "01234567" else if letter == 'X' then "0123456789ABCDEF"
    else if letter == 'x' || letter == 'p' then "0123456789abcdef" else "0123456789"
  }

  /** What stands before the digits of v. */
  function Sign(letter: char, v: int, fl: Flags): string {
    if IsSigned(letter) then if v < 0 then "-" else if fl.plus then "+" else if fl.space then " " else ""
    else if v == 0 then ""
    else if letter == 'p' || (letter == 'x' && fl.alt) then "0x"
    else if letter == 'X' && fl.alt then "0X"
    else ""
  }

  /** How many digits are asked for: one if no precision is given, 16 at least for %p with one. */
  function Wanted(letter: char, p: int): nat { if p < 0 then 1 else if letter == 'p' && p < 16 then 16 else p }

  /** How many digits are printed for a number that has n of them: `#` makes an octal number start with a zero. */
  function Count(letter: char, p: int, fl: Flags, n: nat): nat {
    var least := if letter == 'o' && fl.alt then n + 1 else n;
    if Wanted(letter, p) < least then least else Wanted(letter, p)
  }

  function AtLeast(x: int, y: int): int { if x < y then y else x }

  /** A precision, even one past INT_MAX, cancels `0`. */
  function Effective(fl: Flags, given: bool): Flags { if given then fl.(zero := false) else fl }

  /** The text of a number v: blanks, sign or prefix, zeros, digits, blanks. Zeros fill the precision, and the width
      too with `0`; blanks fill the width otherwise, on the right with `-`. */
  ghost predicate NumberText(s: string, letter: char, v: int, fl: Flags, w: int, p: int,
                             lead: string, zeros: string, digits: string, trail: string) {
    && s == lead + Sign(letter, v, fl) + zeros + digits + trail
    && AllAre(lead, ' ') && AllAre(zeros, '0') && AllAre(trail, ' ')
    && Value(digits, Base(letter)) == (if v < 0 then -v else v)
    && (digits != "" ==> digits[0] != '0') && (forall c <- digits :: c in DigitSet(letter))
    && |s| == AtLeast(w, |Sign(letter, v, fl)| + Count(letter, p, fl, |digits|))
    && (if fl.left then lead == "" else trail == "")
    && (if fl.zero then lead == "" else |zeros| + |digits| == Count(letter, p, fl, |digits|))
  }

  lemma LowerDigit(d: nat, lower: bool, base: nat)
    requires d < base && (base == 8 || base == 10 || base == 16)
    ensures base == 8 ==> DigitChar(d, lower) in "01234567"
    ensures base == 10 ==> DigitChar(d, lower) in "0123456789"
    ensures base == 16 ==> DigitChar(d, lower) in if lower then "0123456789abcdef" else "0123456789ABCDEF"
    ensures d > 0 ==> DigitChar(d, lower) != '0'
  {
    var s8, s10, s16, u16 := "01234567", "0123456789", "0123456789abcdef", "0123456789ABCDEF";
    if base == 8 { assert s8[d] == DigitChar(d, lower); }
    if base == 10 { assert s10[d] == DigitChar(d, lower); }
    if base == 16 { if lower { assert s16[d] == DigitChar(d, lower); } else { assert u16[d] == DigitChar(d, lower); } }
  }

  predicate Lower(letter: char) { letter == 'x' || letter == 'p' }

  function Abs(v: int): nat { if v < 0 then -v else v }

  lemma InSet(letter: char, d: nat)
    requires d < Base(letter)
    ensures DigitChar(d, Lower(letter)) in DigitSet(letter)
  {
    LowerDigit(d, Lower(letter), Base(letter));
  }

  lemma BaseIs(letter: char)
    ensures 8 <= Base(letter) <= 16
  {
  }

  lemma {:induction false} DigitsInSet(letter: char, x: nat)
    ensures forall c <- Text(x, Base(letter), Lower(letter)) :: c in DigitSet(letter)
    decreases x
  {
    hide DigitChar, Text, Base, Lower, DigitSet;
    BaseIs(letter);
    if x == 0 {
      NoDigits(Base(letter), Lower(letter));
    } else {
      var q, d := LastDigit(x, Base(letter), Lower(letter));
      DigitsInSet(letter, q);
      InSet(letter, d);
    }
  }

  lemma FirstDigit(letter: char, x: nat)
    ensures var digits := Text(x, Base(letter), Lower(letter)); digits != "" ==> digits[0] != '0'
  {
    BaseIs(letter);
    if x > 0 { NoLeadingZero(x, Base(letter), Lower(letter)); }
  }

  lemma NumberItemIs(prefix: string, body: string, x: nat, p: int, given: bool, fl: Flags)
    requires (body == "" <==> x == 0) && NumberItem(prefix, body, x, p, given, fl).Some?
    ensures var it := NumberItem(prefix, body, x, p, given, fl).value;
      && it.prefix == prefix && it.body == body && it.p == AtLeast(if p < 0 then 1 else p, |body|)
      && it.fl == Effective(fl, given)
  {
  }

  lemma TextEmpty(x: nat, base: nat, lower: bool)
    requires 2 <= base <= 16
    ensures Text(x, base, lower) == "" <==> x == 0
  {
  }

  /** The item that a number conversion makes: sign, digits, and how many of them are wanted. */
  ghost predicate ItemShape(letter: char, v: int, p: int, fl: Flags, it: Item) {
    && it.prefix == Sign(letter, v, fl) && it.body == Text(Abs(v), Base(letter), Lower(letter))
    && it.p == Count(letter, p, fl, |it.body|) && it.fl.left == fl.left && it.fl.zero == fl.zero
  }

  lemma DecimalShape(letter: char, x: nat, p: int, given: bool, fl: Flags)
    requires x < WORD && letter in "diu" && (p >= 0 ==> given) && NumberFor(letter, x, p, given, fl).Some?
    ensures ItemShape(letter, Reading(letter, x), p, Effective(fl, given), NumberFor(letter, x, p, given, fl).value)
  {
    hide Text, NumberItem;
    var v := Reading(letter, x);
    assert IsSigned(letter) && v < 0 ==> (WORD - x) % WORD == -v;
    TextEmpty(Abs(v), 10, false);
    NumberItemIs(Sign(letter, v, fl), Text(Abs(v), 10, false), Abs(v), p, given, fl);
  }

  lemma OctalShape(x: nat, p: int, given: bool, fl: Flags)
    requires x < WORD && (p >= 0 ==> given) && NumberFor('o', x, p, given, fl).Some?
    ensures ItemShape('o', x, p, Effective(fl, given), NumberFor('o', x, p, given, fl).value)
  {
    hide Text, NumberItem;
    var body := Text(x, 8, false);
    TextEmpty(x, 8, false);
    NumberItemIs("", body, x, if fl.alt && p < |body| + 1 then |body| + 1 else p, given, fl);
  }

  lemma HexShape(letter: char, x: nat, p: int, given: bool, fl: Flags)
    requires x < WORD && (letter == 'x' || letter == 'X') && (p >= 0 ==> given) && NumberFor(letter, x, p, given, fl).Some?
    ensures ItemShape(letter, x, p, Effective(fl, given), NumberFor(letter, x, p, given, fl).value)
  {
    hide Text, NumberItem;
    TextEmpty(x, 16, Lower(letter));
    NumberItemIs(Sign(letter, x, fl), Text(x, 16, Lower(letter)), x, p, given, fl);
  }

  lemma PointerShape(x: nat, p: int, given: bool, fl: Flags)
    requires x < WORD && (p >= 0 ==> given) && -0x8000_0000 <= p <= INT_MAX && NumberFor('p', x, p, given, fl).Some?
    ensures ItemShape('p', x, p, Effective(fl, given), NumberFor('p', x, p, given, fl).value)
  {
    hide Text, NumberItem, PointerPrecision;
    PointerPrecisionIs(p);
    TextEmpty(x, 16, true);
    NumberItemIs(if x != 0 then "0x" else "", Text(x, 16, true), x, PointerPrecision(p), given, fl.(alt := true));
  }

  lemma RepIs(c: char, n: nat)
    ensures AllAre(Rep(c, n), c) && |Rep(c, n)| == n
  {
  }

  lemma Joined(a: string, b: string, c: char)
    requires AllAre(a, c) && AllAre(b, c)
    ensures AllAre(a + b, c)
  {
  }

  lemma FieldParts(it: Item, w: int) returns (lead: string, zeros: string, trail: string)
    requires |it.prefix| + it.p <= w && |it.body| <= it.p && Settled(it.fl)
    ensures FieldOf(it, w) == lead + it.prefix + zeros + it.body + trail && |FieldOf(it, w)| == w
    ensures AllAre(lead, ' ') && AllAre(zeros, '0') && AllAre(trail, ' ')
    ensures if it.fl.left then lead == "" else trail == ""
    ensures if it.fl.zero then lead == "" else |zeros| + |it.body| == it.p
  {
    hide Rep, AllAre;
    var fill, more := w - (|it.prefix| + it.p), it.p - |it.body|;
    RepIs(' ', fill);
    RepIs('0', fill);
    RepIs('0', more);
    RepIs(' ', 0);
    RepIs('0', 0);
    lead := if it.fl.left || it.fl.zero then Rep(' ', 0) else Rep(' ', fill);
    zeros := (if it.fl.zero then Rep('0', fill) else Rep('0', 0)) + Rep('0', more);
    trail := if it.fl.left then Rep(' ', fill) else Rep(' ', 0);
    Joined(if it.fl.zero then Rep('0', fill) else Rep('0', 0), Rep('0', more), '0');
    assert FieldOf(it, w) == lead + it.prefix + zeros + it.body + trail;
  }

  lemma CountIs(letter: char, p: int, fl: Flags, n: nat)
    ensures Count(letter, p, fl, n) >= n
  {
  }

  lemma ShapeOf(letter: char, x: nat, p: int, given: bool, fl: Flags)
    requires x < WORD && letter in "diuoxXp" && (p >= 0 ==> given) && -0x8000_0000 <= p <= INT_MAX
    requires NumberFor(letter, x, p, given, fl).Some?
    ensures ItemShape(letter, Reading(letter, x), p, Effective(fl, given), NumberFor(letter, x, p, given, fl).value)
  {
    hide ItemShape, NumberFor;
    if letter == 'o' {
      OctalShape(x, p, given, fl);
    } else if letter == 'x' || letter == 'X' {
      HexShape(letter, x, p, given, fl);
    } else if letter == 'p' {
      PointerShape(x, p, given, fl);
    } else {
      DecimalShape(letter, x, p, given, fl);
    }
  }

  lemma FieldFits(it: Item, w: int, cnt: int)
    requires 0 <= cnt <= INT_MAX && Settled(it.fl) && it.p >= |it.body| && Field(it, w, cnt).Some?
    ensures Field(it, w, cnt).value == FieldOf(it, AtLeast(w, |it.prefix| + it.p))
  {
    hide FieldOf;
    assert it.(p := Max(it.p, |it.body|)) == it;
  }

  /** Every number conversion writes the text of the number that it reads. */
  lemma NumberField(env: Env, letter: char, x: nat, fl: Flags, w: int, p: int, given: bool, cnt: int)
    returns (lead: string, zeros: string, digits: string, trail: string)
    requires x < WORD && letter in "diuoxXp" && (p >= 0 ==> given) && -0x8000_0000 <= p <= INT_MAX
    requires 0 <= cnt <= INT_MAX && Settled(fl) && FieldFor(env, letter, x, fl, w, p, given, cnt).Some?
    ensures NumberText(FieldFor(env, letter, x, fl, w, p, given, cnt).value, letter, Reading(letter, x), Effective(fl, given), w, p,
                       lead, zeros, digits, trail)
  {
    hide FieldOf, Field, NumberFor, Text, Value, AllAre, DigitSet, Sign, Count, Base, Lower;
    var v := Reading(letter, x);
    assert ItemFor(env, letter, x, p, given, fl) == NumberFor(letter, x, p, given, fl);
    var it := NumberFor(letter, x, p, given, fl).value;
    ShapeOf(letter, x, p, given, fl);
    digits := it.body;
    CountIs(letter, p, Effective(fl, given), |digits|);
    FieldFits(it, w, cnt);
    lead, zeros, trail := FieldParts(it, AtLeast(w, |it.prefix| + it.p));
    BaseIs(letter);
    DigitsDenote(Abs(v), Base(letter), Lower(letter));
    FirstDigit(letter, Abs(v));
    DigitsInSet(letter, Abs(v));
  }

  lemma DigitInSet(letter: char, c: char)
    requires c in DigitSet(letter)
    ensures DigitValue(c) < Base(letter) && (c != '0' ==> DigitValue(c) > 0)
  {
  }

  lemma CharOfDigit(letter: char, c: char)
    requires c in DigitSet(letter)
    ensures DigitValue(c) < 16 && c == DigitChar(DigitValue(c), Lower(letter))
  {
  }

  lemma SameDigit(letter: char, c: char, d: char)
    requires c in DigitSet(letter) && d in DigitSet(letter) && DigitValue(c) == DigitValue(d)
    ensures c == d
  {
    hide DigitSet, DigitValue, DigitChar;
    CharOfDigit(letter, c);
    CharOfDigit(letter, d);
  }

  ghost predicate Canonical(letter: char, s: string) { (s != "" ==> s[0] != '0') && forall c <- s :: c in DigitSet(letter) }

  lemma InitCanonical(letter: char, s: string)
    requires Canonical(letter, s) && s != ""
    ensures Canonical(letter, s[..|s| - 1]) && s[|s| - 1] in DigitSet(letter)
  {
    forall c | c in s[..|s| - 1] ensures c in DigitSet(letter) { assert c in s; }
  }

  lemma ValueStep(s: string, base: nat)
    requires s != ""
    ensures Value(s, base) == Value(s[..|s| - 1], base) * base + DigitValue(s[|s| - 1])
  {
  }

  lemma {:induction false} CanonicalPositive(letter: char, s: string)
    requires Canonical(letter, s) && s != ""
    ensures Value(s, Base(letter)) > 0
    decreases |s|
  {
    hide DigitSet, DigitValue, Base;
    BaseIs(letter);
    InitCanonical(letter, s);
    ValueStep(s, Base(letter));
    DigitInSet(letter, s[|s| - 1]);
    if |s| > 1 { CanonicalPositive(letter, s[..|s| - 1]); }
  }

  lemma SplitUnique(a: nat, b: nat, c: nat, d: nat, base: nat)
    requires b < base && d < base && a * base + b == c * base + d
    ensures a == c && b == d
  {
    DivUnique(a * base + b, base, a, b);
    DivUnique(c * base + d, base, c, d);
  }

  lemma NoValueOf(base: nat)
    ensures Value("", base) == 0
  {
  }

  /** The digits of a number are the only ones without a leading zero. */
  lemma {:induction false} DigitsAreUnique(letter: char, s: string, t: string)
    requires Canonical(letter, s) && Canonical(letter, t) && Value(s, Base(letter)) == Value(t, Base(letter))
    ensures s == t
    decreases |s|
  {
    hide DigitSet, DigitValue, Base, Value;
    NoValueOf(Base(letter));
    if s == "" {
      if t != "" { CanonicalPositive(letter, t); }
    } else if t == "" {
      CanonicalPositive(letter, s);
    } else {
      var base, s', t', c, d := Base(letter), s[..|s| - 1], t[..|t| - 1], s[|s| - 1], t[|t| - 1];
      InitCanonical(letter, s);
      InitCanonical(letter, t);
      ValueStep(s, base);
      ValueStep(t, base);
      DigitInSet(letter, c);
      DigitInSet(letter, d);
      SplitUnique(Value(s', base), DigitValue(c), Value(t', base), DigitValue(d), base);
      DigitsAreUnique(letter, s', t');
      SameDigit(letter, c, d);
      assert s == s' + [c] && t == t' + [d];
    }
  }

  lemma SameRun(s: string, t: string, c: char)
    requires AllAre(s, c) && AllAre(t, c) && |s| == |t|
    ensures s == t
  {
  }

  /** So number, flags, width and precision determine the text. */
  lemma NumberTextIsUnique(s: string, s': string, letter: char, v: int, fl: Flags, w: int, p: int,
                           lead: string, zeros: string, digits: string, trail: string,
                           lead': string, zeros': string, digits': string, trail': string)
    requires Settled(fl) && NumberText(s, letter, v, fl, w, p, lead, zeros, digits, trail)
    requires NumberText(s', letter, v, fl, w, p, lead', zeros', digits', trail')
    ensures s == s'
  {
    hide DigitSet, Value, Sign, Count, Base, AllAre;
    DigitsAreUnique(letter, digits, digits');
    assert |s| == |lead| + |Sign(letter, v, fl)| + |zeros| + |digits| + |trail|;
    assert |s'| == |lead'| + |Sign(letter, v, fl)| + |zeros'| + |digits'| + |trail'|;
    SameRun(lead, lead', ' ');
    SameRun(zeros, zeros', '0');
    SameRun(trail, trail', ' ');
  }

  /** A precision past INT_MAX, which reads as -1, overflows, but not in `%#o`. */
  predicate BadPrecision(letter: char, p: int, given: bool, fl: Flags) { given && p < 0 && !(letter == 'o' && fl.alt) }

  lemma NoItemIff(letter: char, x: nat, p: int, given: bool, fl: Flags)
    requires x < WORD && letter in "diuoxXp" && -0x8000_0000 <= p <= INT_MAX
    ensures NumberFor(letter, x, p, given, fl) == None <==> BadPrecision(letter, p, given, fl)
  {
    hide Text, PointerPrecision;
    PointerPrecisionIs(p);
  }

  lemma NoFieldIff(it: Item, w: int, cnt: int)
    requires 0 <= cnt <= INT_MAX && Settled(it.fl) && it.p >= |it.body|
    ensures Field(it, w, cnt) == None <==> AtLeast(w, |it.prefix| + it.p) > INT_MAX - cnt
  {
    hide FieldOf;
  }

  /** A number conversion fails exactly for such a precision, or if the bytes written would pass INT_MAX. */
  lemma NumberFailsIff(env: Env, letter: char, x: nat, fl: Flags, w: int, p: int, given: bool, cnt: int)
    requires x < WORD && letter in "diuoxXp" && (p >= 0 ==> given) && -0x8000_0000 <= p <= INT_MAX
    requires 0 <= cnt <= INT_MAX && Settled(fl)
    ensures var v, eff := Reading(letter, x), Effective(fl, given);
      FieldFor(env, letter, x, fl, w, p, given, cnt) == None <==>
        || BadPrecision(letter, p, given, fl)
        || AtLeast(w, |Sign(letter, v, eff)| + Count(letter, p, eff, |Text(Abs(v), Base(letter), Lower(letter))|)) > INT_MAX - cnt
  {
    hide Field, NumberFor, Text, Sign, Count, Base, Lower, Reading;
    assert ItemFor(env, letter, x, p, given, fl) == NumberFor(letter, x, p, given, fl);
    NoItemIff(letter, x, p, given, fl);
    if NumberFor(letter, x, p, given, fl).Some? {
      var it := NumberFor(letter, x, p, given, fl).value;
      ShapeOf(letter, x, p, given, fl);
      CountIs(letter, p, Effective(fl, given), |it.body|);
      NoFieldIff(it, w, cnt);
    }
  }

  // ----- a whole directive

  predicate Plain(c: char) { c != '%' && c != '$' }

  lemma FlagsPlain(s: string)
    requires forall c <- s :: IsFlag(c)
    ensures forall c <- s :: Plain(c)
  {
  }

  lemma AmountPlain(a: Amount)
    requires a.Number? ==> AllDigits(a.digits)
    ensures forall c <- AmountText(a) :: Plain(c)
  {
  }

  lemma PrecisionPlain(a: Option<Amount>)
    requires a.Some? && a.value.Number? ==> AllDigits(a.value.digits)
    ensures forall c <- PrecisionText(a) :: Plain(c)
  {
    if a.Some? { AmountPlain(a.value); }
  }

  lemma EndingPlain(d: Spec, p: Prefix)
    requires ModifierIs(d.modifier, p) && NextState(p, d.letter).Take?
    ensures forall c <- d.modifier + [d.letter] :: Plain(c)
    ensures !IsDigit(d.letter)
  {
  }

  lemma RenderPlain(d: Spec, p: Prefix)
    requires SpecOk(d, p)
    ensures |Render(d)| > 0 && Render(d)[|Render(d)| - 1] == d.letter && !IsDigit(d.letter)
    ensures forall k | 0 <= k < |Render(d)| :: Plain(Render(d)[k])
  {
    hide Plain, IsFlag, AllDigits, AmountText, PrecisionText, ModifierIs, NextState;
    FlagsPlain(d.flags);
    AmountPlain(d.width);
    PrecisionPlain(d.precision);
    EndingPlain(d, p);
    forall k | 0 <= k < |Render(d)| ensures Plain(Render(d)[k]) {
      var c := Render(d)[k];
      assert c in d.flags || c in AmountText(d.width) || c in PrecisionText(d.precision) || c in d.modifier + [d.letter];
    }
  }

  /** A written directive is neither a `%%` nor a positional one. */
  lemma DirectiveStarts(fmt: CString, i: nat, j: nat, cnt: int, d: Spec, p: Prefix)
    requires SpecOk(d, p) && i < |fmt| && fmt[i] == '%' && At(fmt, i + 1, Render(d)) && 0 <= cnt <= INT_MAX
    ensures !PositionalAt(fmt, i) && TextTurn(fmt, i, j, cnt) == Go("", [], i, j)
  {
    hide SpecOk, Render;
    RenderPlain(d, p);
    var s := Render(d);
    assert fmt[i + 1] == s[0];
    if |s| > 1 { assert fmt[i + 2] == s[1]; }
    assert TextEnd(fmt, i) == i && Pairs(fmt, i) == 0;
  }

  lemma PrecisionRange(env: Env, d: Spec, j: nat)
    ensures var prec := PrecisionOf(env, d.precision, j); (prec.0 >= 0 ==> prec.1) && -0x8000_0000 <= prec.0 <= INT_MAX
  {
    hide Value;
  }

  lemma LetterTaken(d: Spec, p: Prefix)
    requires SpecOk(d, p)
    ensures NextState(p, d.letter).Take?
  {
  }

  /** %c and %s write their characters, with blanks up to the width, on the right with `-`; never zeros. */
  lemma TextField(env: Env, letter: char, x: nat, fl: Flags, w: int, p: int, given: bool, cnt: int)
    returns (lead: string, body: string, trail: string)
    requires x < WORD && (letter == 'c' || letter == 's') && 0 <= cnt <= INT_MAX && Settled(fl)
    requires FieldFor(env, letter, x, fl, w, p, given, cnt).Some?
    ensures var s := FieldFor(env, letter, x, fl, w, p, given, cnt).value;
      && s == lead + body + trail && AllAre(lead, ' ') && AllAre(trail, ' ') && |s| == AtLeast(w, |body|)
      && (if fl.left then lead == "" else trail == "")
      && body == if letter == 'c' then [(x % 0x100) as char]
                 else
                   var text: string := if x == 0 then "(null)" else env.strings(x);
                   if p < 0 || |text| < p then text else text[..p]
  {
    hide FieldOf, Field, AllAre;
    var it := ItemFor(env, letter, x, p, given, fl).value;
    body := it.body;
    FieldFits(it, w, cnt);
    var zeros;
    lead, zeros, trail := FieldParts(it, AtLeast(w, |it.prefix| + it.p));
    assert zeros == "" && it.prefix == "";
    assert lead + "" + "" + body + trail == lead + body + trail;
  }

  // ----- %n

  /** %n stores the number of bytes written so far, modulo the size of the type that the modifier names: 32 bits
      without one, 8 for hh, 16 for h, else 64. */
  lemma CountStored(at: nat, p: Prefix, cnt: nat)
    requires cnt <= INT_MAX
    ensures var s, m := StoreCount(at, p, cnt), Modulus(p, 'u');
      && s.at == at && s.value == cnt % m
      && s.width == if m == 0x100 then 1 else if m == 0x1_0000 then 2 else if m == 0x1_0000_0000 then 4 else 8
  {
  }
}
