/** printf_core (lib/vfprintf.c) for directives without positional arguments: what it writes and what it returns. */
module Printf {
  import opened Words
  import opened Options
  import opened Digits

  const INT_MAX: int := 0x7fff_ffff

  type CString = s: string | '\0' !in s

  /** Variable arguments as raw 64-bit words, and the strings that pointer words point to. */
  datatype Env = Env(args: nat -> nat, strings: nat -> CString)

  /** The low bits of a word read as a signed number; half is the value of the sign bit. */
  function SignedBits(x: int, half: nat): int
    requires half > 0
  {
    if x % (2 * half) < half then x % (2 * half) else x % (2 * half) - 2 * half
  }

  function Int(x: int): int { SignedBits(x, 0x8000_0000) }

  function CharAt(fmt: CString, i: nat): char { if i < |fmt| then fmt[i] else '\0' }

  predicate IsDigit(c: char) { '0' <= c <= '9' }

  // ----- directives

  datatype Flags = Flags(alt: bool, zero: bool, left: bool, space: bool, plus: bool)

  const NO_FLAGS: Flags := Flags(false, false, false, false, false)

  /** `-` has cancelled `0`. */
  predicate Settled(fl: Flags) { fl.left ==> !fl.zero }

  function Settle(fl: Flags): (r: Flags)
    ensures Settled(r)
  {
    if fl.left then fl.(zero := false) else fl
  }

  predicate IsFlag(c: char) { c == '#' || c == '0' || c == '-' || c == ' ' || c == '+' }

  function AddFlag(fl: Flags, c: char): Flags {
    if c == '#' then fl.(alt := true)
    else if c == '0' then fl.(zero := true)
    else if c == '-' then fl.(left := true)
    else if c == ' ' then fl.(space := true)
    else if c == '+' then fl.(plus := true)
    else fl
  }

  function FlagsAt(fmt: CString, i: nat, fl: Flags): (r: (Flags, nat))
    ensures r.1 >= i && (i <= |fmt| ==> r.1 <= |fmt|)
    decreases |fmt| - i
  {
    if i < |fmt| && IsFlag(fmt[i]) then FlagsAt(fmt, i + 1, AddFlag(fl, fmt[i])) else (fl, i)
  }

  function NextInt(acc: int, d: int): int {
    if acc > INT_MAX / 10 || d > Int(INT_MAX - 10 * acc) then -1 else 10 * acc + d
  }

  /** getint: once the number passes INT_MAX the result is -1 (and stays so, the subtraction wrapping). */
  function IntAt(fmt: CString, i: nat, acc: int): (r: (int, nat))
    ensures r.1 >= i && (i <= |fmt| ==> r.1 <= |fmt|)
    decreases |fmt| - i
  {
    if i < |fmt| && IsDigit(fmt[i]) then IntAt(fmt, i + 1, NextInt(acc, fmt[i] as int - '0' as int)) else (acc, i)
  }

  /** `*` or `%` followed by a digit and `$`: a positional argument. */
  predicate PositionalAt(fmt: CString, i: nat) { IsDigit(CharAt(fmt, i + 1)) && CharAt(fmt, i + 2) == '$' }

  datatype Prefix = Bare | L | LL | H | HH | ZT | J

  datatype ArgType = Ptr | IntArg | UInt | ULLong | Long | ULong | Short | UShort | Char | UChar | LLong | SizeT | IMax | UMax | PDiff | UIPtr

  datatype St = Bad | More(prefix: Prefix) | Take(ty: ArgType)

  function Integer(c: char, signed: ArgType, unsigned: ArgType): St {
    if c == 'd' || c == 'i' then Take(signed)
    else if c == 'o' || c == 'u' || c == 'x' || c == 'X' then Take(unsigned)
    else if c == 'n' then Take(Ptr)
    else Bad
  }

  /** The table of length modifiers and conversions. */
  function NextState(p: Prefix, c: char): St {
    match p
    case Bare =>
      if c == 'd' || c == 'i' || c == 'c' then Take(IntArg)
      else if c == 'o' || c == 'u' || c == 'x' || c == 'X' then Take(UInt)
      else if c == 's' || c == 'n' then Take(Ptr)
      else if c == 'p' then Take(UIPtr)
      else if c == 'l' then More(L)
      else if c == 'h' then More(H)
      else if c == 'z' || c == 't' then More(ZT)
      else if c == 'j' then More(J)
      else Bad
    case L => if c == 'c' then Take(UInt) else if c == 's' then Take(Ptr) else if c == 'l' then More(LL) else Integer(c, Long, ULong)
    case LL => Integer(c, LLong, ULLong)
    case H => if c == 'h' then More(HH) else Integer(c, Short, UShort)
    case HH => Integer(c, Char, UChar)
    case ZT => Integer(c, PDiff, SizeT)
    case J => Integer(c, IMax, UMax)
  }

  const LETTERS: string := "diuoxXpcsn"

  function Rank(p: Prefix): nat {
    match p
    case Bare => 2
    case L => 1
    case H => 1
    case LL => 0
    case HH => 0
    case ZT => 0
    case J => 0
  }

  datatype Conv = NoConv | Conv(ty: ArgType, prefix: Prefix, letter: char, next: nat)

  function ConvAt(fmt: CString, i: nat, p: Prefix): (r: Conv)
    ensures r.Conv? ==> i < r.next && (i <= |fmt| ==> r.next <= |fmt|) && r.letter in LETTERS
    decreases Rank(p)
  {
    match NextState(p, CharAt(fmt, i))
    case Bad => NoConv
    case More(p') => ConvAt(fmt, i + 1, p')
    case Take(ty) => Conv(ty, p, fmt[i], i + 1)
  }

  /** pop_arg: the argument as a 64-bit word. */
  function PopArg(ty: ArgType, raw: nat): (x: nat)
    ensures x < WORD
  {
    match ty
    case IntArg => Int(raw) % WORD
    case UInt => raw % 0x1_0000_0000
    case Short => SignedBits(raw, 0x8000) % WORD
    case UShort => raw % 0x1_0000
    case Char => SignedBits(raw, 0x80) % WORD
    case UChar => raw % 0x100
    case _ => raw % WORD
  }

  datatype Width = Width(fl: Flags, w: int, next: nat, j: nat) | WidthTooBig | WidthPositional

  function WidthAt(env: Env, fmt: CString, i: nat, fl: Flags, j: nat): (r: Width)
    ensures r.Width? ==> r.next >= i && (i <= |fmt| ==> r.next <= |fmt|)
  {
    if CharAt(fmt, i) == '*' then
      if PositionalAt(fmt, i) then WidthPositional
      else
        var w := Int(env.args(j));
        if w < 0 then Width(fl.(left := true), Int(-w), i + 1, j + 1) else Width(fl, w, i + 1, j + 1)
    else
      var (w, next) := IntAt(fmt, i, 0);
      if w < 0 then WidthTooBig else Width(fl, w, next, j)
  }

  datatype Precision = Precision(p: int, given: bool, next: nat, j: nat) | PrecisionPositional

  function PrecisionAt(env: Env, fmt: CString, i: nat, j: nat): (r: Precision)
    ensures r.Precision? ==> r.next >= i && (i <= |fmt| ==> r.next <= |fmt|)
  {
    if CharAt(fmt, i) == '.' && CharAt(fmt, i + 1) == '*' then
      if PositionalAt(fmt, i + 1) then PrecisionPositional
      else
        var p := Int(env.args(j));
        Precision(p, p >= 0, i + 2, j + 1)
    else if CharAt(fmt, i) == '.' then
      var (p, next) := IntAt(fmt, i + 1, 0);
      Precision(p, true, next, j)
    else Precision(-1, false, i, j)
  }

  // ----- one conversion

  /** What a conversion prints, before padding: sign or base prefix, then body, extended by zeros to p characters. */
  datatype Item = Item(prefix: string, body: string, p: int, fl: Flags)

  function Max(x: int, y: int): int { if x > y then x else y }

  /** The common end of the number conversions. */
  function NumberItem(prefix: string, body: string, x: nat, p: int, given: bool, fl: Flags): (it: Option<Item>)
    ensures it.Some? && Settled(fl) ==> Settled(it.value.fl)
  {
    if given && p < 0 then None
    else
      var fl' := if given then fl.(zero := false) else fl;
      if x == 0 && p == 0 then Some(Item(prefix, "", p, fl'))
      else Some(Item(prefix, body, Max(p, |body| + if x == 0 then 1 else 0), fl'))
  }

  function HexItem(x: nat, lower: bool, p: int, given: bool, fl: Flags): (it: Option<Item>)
    ensures it.Some? && Settled(fl) ==> Settled(it.value.fl)
  {
    NumberItem(if x != 0 && fl.alt then (if lower then "0x" else "0X") else "", Text(x, 16, lower), x, p, given, fl)
  }

  function OctItem(x: nat, p: int, given: bool, fl: Flags): (it: Option<Item>)
    ensures it.Some? && Settled(fl) ==> Settled(it.value.fl)
  {
    var body := Text(x, 8, false);
    NumberItem("", body, x, if fl.alt && p < |body| + 1 then |body| + 1 else p, given, fl)
  }

  function SignedItem(x: nat, p: int, given: bool, fl: Flags): (it: Option<Item>)
    ensures it.Some? && Settled(fl) ==> Settled(it.value.fl)
  {
    if x > WORD / 2 - 1 then var y := (WORD - x) % WORD; NumberItem("-", Text(y, 10, false), y, p, given, fl)
    else NumberItem(if fl.plus then "+" else if fl.space then " " else "", Text(x, 10, false), x, p, given, fl)
  }

  /** %p's precision is the larger of (size_t)p and 16, converted back to int. */
  function PointerPrecision(p: int): int { Int(Max(p % WORD, 16)) }

  /** It is at least 16 digits, unless no precision is given: -1 is the largest size_t. */
  lemma PointerPrecisionIs(p: int)
    requires -0x8000_0000 <= p <= INT_MAX
    ensures PointerPrecision(p) == if p < 0 then p else Max(p, 16)
  {
  }

  /** At most n bytes of a string; n < 0 stands for INT_MAX, and a longer string is then an overflow. */
  function StringItem(s: string, p: int, fl: Flags): (it: Option<Item>)
    ensures it.Some? && Settled(fl) ==> Settled(it.value.fl)
  {
    var n := if p < 0 then INT_MAX else p;
    var body := if |s| < n then s else s[..n];
    if p < 0 && |s| > |body| then None else Some(Item("", body, |body|, fl.(zero := false)))
  }

  function NumberFor(letter: char, x: nat, p: int, given: bool, fl: Flags): (it: Option<Item>)
    requires x < WORD
    ensures it.Some? && Settled(fl) ==> Settled(it.value.fl)
  {
    if letter == 'd' || letter == 'i' then SignedItem(x, p, given, fl)
    else if letter == 'u' then NumberItem("", Text(x, 10, false), x, p, given, fl)
    else if letter == 'o' then OctItem(x, p, given, fl)
    else if letter == 'x' then HexItem(x, true, p, given, fl)
    else if letter == 'X' then HexItem(x, false, p, given, fl)
    else HexItem(x, true, PointerPrecision(p), given, fl.(alt := true))
  }

  function ItemFor(env: Env, letter: char, x: nat, p: int, given: bool, fl: Flags): (it: Option<Item>)
    requires x < WORD
    ensures it.Some? && Settled(fl) ==> Settled(it.value.fl)
  {
    if letter == 'c' then Some(Item("", [(x % 0x100) as char], 1, fl.(zero := false)))
    else if letter == 's' then StringItem(if x == 0 then "(null)" else env.strings(x), p, fl)
    else NumberFor(letter, x, p, given, fl)
  }

  // ----- padding

  function Rep(c: char, n: nat): string { seq(n, _ => c) }

  /** A field: w characters, the item at the right after blanks or zeros, or at the left before blanks. */
  function FieldOf(it: Item, w: int): (s: string)
    requires |it.prefix| + it.p <= w && |it.body| <= it.p
    ensures |s| == w
  {
    var fill := w - (|it.prefix| + it.p);
    var number := Rep('0', it.p - |it.body|) + it.body;
    if it.fl.left then it.prefix + number + Rep(' ', fill)
    else if it.fl.zero then it.prefix + Rep('0', fill) + number
    else Rep(' ', fill) + it.prefix + number
  }

  /** The field that printf_core writes, unless a length would pass INT_MAX. */
  function Field(it: Item, w: int, cnt: int): (s: Option<string>)
    requires 0 <= cnt <= INT_MAX && Settled(it.fl)
    ensures s.Some? ==> cnt + |s.value| <= INT_MAX && |s.value| >= w
  {
    var p := Max(it.p, |it.body|);
    if p > INT_MAX - |it.prefix| then None
    else
      var w' := Max(w, |it.prefix| + p);
      if w' > INT_MAX - cnt then None else Some(FieldOf(it.(p := p), w'))
  }

  function Base(letter: char): nat {
    if letter == 'o' then 8 else if letter == 'x' || letter == 'X' || letter == 'p' then 16 else 10
  }

  predicate Negative(letter: char, x: nat) { (letter == 'd' || letter == 'i') && x > WORD / 2 - 1 }

  lemma DigitsDenote(x: nat, base: nat, lower: bool)
    requires 2 <= base <= 16
    ensures Value(Text(x, base, lower), base) == x && (x > 0 ==> Text(x, base, lower) != "")
  {
    TextDenotes(x, base, lower);
    if x > 0 { NoLeadingZero(x, base, lower); }
  }

  lemma ItemDenotes(prefix: string, body: string, x: nat, p: int, given: bool, fl: Flags, base: nat)
    requires Value(body, base) == x && (x > 0 ==> body != "") && NumberItem(prefix, body, x, p, given, fl).Some?
    ensures var it := NumberItem(prefix, body, x, p, given, fl).value;
      it.prefix == prefix && Value(it.body, base) == x && it.p >= p && (it.body == "" && it.p == 0 ==> x == 0)
  {
    assert Value("", base) == 0;
  }

  /** Every number conversion prints digits that denote its argument, with a minus sign exactly for negative
      ones; it prints at least the given precision's digits, and none only for zero with precision 0. */
  lemma NumberDenotes(letter: char, x: nat, p: int, given: bool, fl: Flags)
    requires x < WORD && letter in "diuoxXp" && NumberFor(letter, x, p, given, fl).Some?
    ensures var it := NumberFor(letter, x, p, given, fl).value;
      && Value(it.body, Base(letter)) == (if Negative(letter, x) then WORD - x else x)
      && (it.prefix == "-" <==> Negative(letter, x))
      && (letter != 'p' ==> it.p >= p) && (letter == 'p' && 0 <= p <= INT_MAX ==> it.p >= p && it.p >= 16)
      && (it.body == "" && it.p == 0 ==> x == 0)
  {
    hide Text, Value, NumberItem, PointerPrecision;
    var lower := letter == 'x' || letter == 'p';
    if 0 <= p <= INT_MAX { PointerPrecisionIs(p); }
    if letter == 'd' || letter == 'i' || letter == 'u' {
      var m := if Negative(letter, x) then WORD - x else x;
      assert Negative(letter, x) ==> (WORD - x) % WORD == m;
      DigitsDenote(m, 10, false);
      ItemDenotes(if Negative(letter, x) then "-" else if letter == 'u' then "" else if fl.plus then "+" else if fl.space then " " else "",
                  Text(m, 10, false), m, p, given, fl, 10);
    } else if letter == 'o' {
      DigitsDenote(x, 8, false);
      var n := |Text(x, 8, false)|;
      ItemDenotes("", Text(x, 8, false), x, if fl.alt && p < n + 1 then n + 1 else p, given, fl, 8);
    } else {
      DigitsDenote(x, 16, lower);
      var fl', p' := if letter == 'p' then fl.(alt := true) else fl, if letter == 'p' then PointerPrecision(p) else p;
      ItemDenotes(if x != 0 && fl'.alt then (if lower then "0x" else "0X") else "", Text(x, 16, lower), x, p', given, fl', 16);
    }
  }

  // ----- the whole format

  /** A store by %n: how many bytes wide, where, and what. */
  datatype Store = Store(at: nat, width: nat, value: nat)

  function StoreWidth(p: Prefix): nat {
    match p
    case Bare => 4
    case H => 2
    case HH => 1
    case _ => 8
  }

  datatype Result = Printed(n: int) | Failed | Positional

  datatype Outcome = Outcome(bytes: string, stores: seq<Store>, result: Result)

  datatype Directive = Directive(fl: Flags, w: int, p: int, given: bool, conv: Conv, j: nat) | BadDirective | PositionalDirective

  predicate DirectiveOk(fmt: CString, i: nat, d: Directive)
    requires d.Directive?
  {
    && Settled(d.fl) && d.conv.Conv? && d.conv.letter in LETTERS
    && i < d.conv.next && (i <= |fmt| ==> d.conv.next <= |fmt|)
  }

  function AfterFlags(env: Env, fmt: CString, i: nat, fl: Flags, j: nat): (d: Directive)
    ensures d.Directive? ==> DirectiveOk(fmt, i, d)
  {
    match WidthAt(env, fmt, i, fl, j)
    case WidthTooBig => BadDirective
    case WidthPositional => PositionalDirective
    case Width(fl', w, i2, j2) =>
      match PrecisionAt(env, fmt, i2, j2)
      case PrecisionPositional => PositionalDirective
      case Precision(p, given, i3, j3) =>
        var conv := ConvAt(fmt, i3, Bare);
        if conv == NoConv then BadDirective else Directive(Settle(fl'), w, p, given, conv, j3)
  }

  /** Everything between `%` and the conversion letter. */
  function DirectiveAt(env: Env, fmt: CString, i: nat, j: nat): (d: Directive)
    ensures d.Directive? ==> DirectiveOk(fmt, i, d)
  {
    var (fl, next) := FlagsAt(fmt, i, NO_FLAGS);
    AfterFlags(env, fmt, next, fl, j)
  }

  /** End of the run of ordinary characters from i on. */
  function TextEnd(fmt: CString, i: nat): (e: nat)
    requires i <= |fmt|
    ensures i <= e <= |fmt| && (e < |fmt| ==> fmt[e] == '%')
    decreases |fmt| - i
  {
    if i < |fmt| && fmt[i] != '%' then TextEnd(fmt, i + 1) else i
  }

  /** Number of `%%` pairs from i on. */
  function Pairs(fmt: CString, i: nat): (n: nat)
    requires i <= |fmt|
    ensures i + 2 * n <= |fmt|
    decreases |fmt| - i
  {
    if CharAt(fmt, i) == '%' && CharAt(fmt, i + 1) == '%' then 1 + Pairs(fmt, i + 2) else 0
  }

  /** One turn of the loop: stop, or write some bytes, perhaps store a count, and go on further along the format. */
  datatype Turn = Stop(result: Result) | Go(bytes: string, stores: seq<Store>, next: nat, j: nat)

  function TextTurn(fmt: CString, i: nat, j: nat, cnt: int): (t: Turn)
    requires i <= |fmt|
    ensures t.Go? ==> i <= t.next <= |fmt| && cnt + |t.bytes| <= INT_MAX && (t.bytes != "" ==> i < t.next)
    ensures t.Stop? ==> !t.result.Printed?
    ensures t.Go? ==> t.j == j && t.stores == [] && (t.bytes == "" ==> t.next == i)
  {
    var e := TextEnd(fmt, i);
    var k := Pairs(fmt, e);
    if e + k - i > INT_MAX - cnt then Stop(Failed) else Go(fmt[i..e + k], [], e + 2 * k, j)
  }

  function StoreCount(at: nat, p: Prefix, cnt: nat): Store {
    Store(at, StoreWidth(p), if p == H then cnt % 0x1_0000 else if p == HH then cnt % 0x100 else cnt)
  }

  function FieldFor(env: Env, letter: char, x: nat, fl: Flags, w: int, p: int, given: bool, cnt: int): (s: Option<string>)
    requires x < WORD && 0 <= cnt <= INT_MAX && Settled(fl)
    ensures s.Some? ==> cnt + |s.value| <= INT_MAX && |s.value| >= w
  {
    hide ItemFor;
    var it := ItemFor(env, letter, x, p, given, fl);
    if it == None then None else Field(it.value, w, cnt)
  }

  function DirectiveTurn(env: Env, fmt: CString, i: nat, j: nat, cnt: int): (t: Turn)
    requires i < |fmt| && 0 <= cnt <= INT_MAX
    ensures if t.Go? then i < t.next <= |fmt| && cnt + |t.bytes| <= INT_MAX else !t.result.Printed?
  {
    if PositionalAt(fmt, i) then Stop(Positional)
    else
      match DirectiveAt(env, fmt, i + 1, j)
      case BadDirective => Stop(Failed)
      case PositionalDirective => Stop(Positional)
      case Directive(fl, w, p, given, conv, j') =>
        var x := PopArg(conv.ty, env.args(j'));
        if conv.letter == 'n' then Go("", [StoreCount(x, conv.prefix, cnt)], conv.next, j' + 1)
        else
          match FieldFor(env, conv.letter, x, fl, w, p, given, cnt)
          case None => Stop(Failed)
          case Some(s) => Go(s, [], conv.next, j' + 1)
  }

  function TurnAt(env: Env, fmt: CString, i: nat, j: nat, cnt: int): (t: Turn)
    requires i < |fmt| && 0 <= cnt <= INT_MAX
    ensures if t.Go? then i < t.next <= |fmt| && cnt + |t.bytes| <= INT_MAX else !t.result.Printed?
  {
    var t := TextTurn(fmt, i, j, cnt);
    if t.Stop? || t.bytes != "" then t else DirectiveTurn(env, fmt, i, j, cnt)
  }

  /** printf_core from format position i and argument j on, cnt bytes having been counted and l more written. */
  function Run(env: Env, fmt: CString, i: nat, j: nat, cnt: int, l: int): Outcome
    requires i <= |fmt| && 0 <= cnt <= INT_MAX && l >= 0
    decreases |fmt| - i
  {
    if l > INT_MAX - cnt then Outcome("", [], Failed)
    else if i == |fmt| then Outcome("", [], Printed(cnt + l))
    else
      match TurnAt(env, fmt, i, j, cnt + l)
      case Stop(result) => Outcome("", [], result)
      case Go(bytes, stores, next, j') =>
        var rest := Run(env, fmt, next, j', cnt + l, |bytes|);
        Outcome(bytes + rest.bytes, stores + rest.stores, rest.result)
  }

  /** A non-negative result is the number of bytes written. */
  lemma {:induction false} ResultCountsBytes(env: Env, fmt: CString, i: nat, j: nat, cnt: int, l: int)
    requires i <= |fmt| && 0 <= cnt <= INT_MAX && l >= 0
    ensures var o := Run(env, fmt, i, j, cnt, l); o.result.Printed? ==> o.result.n == cnt + l + |o.bytes| <= INT_MAX
    decreases |fmt| - i
  {
    hide TurnAt;
    if l <= INT_MAX - cnt && i < |fmt| {
      var t := TurnAt(env, fmt, i, j, cnt + l);
      if t.Go? {
        ResultCountsBytes(env, fmt, t.next, t.j, cnt + l, |t.bytes|);
        var rest := Run(env, fmt, t.next, t.j, cnt + l, |t.bytes|);
        assert Run(env, fmt, i, j, cnt, l) == Outcome(t.bytes + rest.bytes, t.stores + rest.stores, rest.result);
      }
    }
  }

  /** Run, one turn at a time. */
  lemma RunStep(env: Env, fmt: CString, i: nat, j: nat, cnt: int, l: int)
    requires i <= |fmt| && 0 <= cnt <= INT_MAX && l >= 0
    ensures Run(env, fmt, i, j, cnt, l) ==
      if l > INT_MAX - cnt then Outcome("", [], Failed)
      else if i == |fmt| then Outcome("", [], Printed(cnt + l))
      else
        var t := TurnAt(env, fmt, i, j, cnt + l);
        if t.Stop? then Outcome("", [], t.result)
        else
          var rest := Run(env, fmt, t.next, t.j, cnt + l, |t.bytes|);
          Outcome(t.bytes + rest.bytes, t.stores + rest.stores, rest.result)
  {
    hide TurnAt;
  }

  // ----- what the scans recognise

  /** The number that a run of digits stands for in a directive: its value, or -1 past INT_MAX. */
  function Saturated(v: nat): int { if v <= INT_MAX then v else -1 }

  ghost predicate AllDigits(s: string) { forall c <- s :: IsDigit(c) }

  lemma DigitOfDecimal(c: char)
    requires IsDigit(c)
    ensures DigitValue(c) == c as int - '0' as int && 0 <= DigitValue(c) <= 9
  {
  }

  lemma NextSaturated(v: nat, d: nat)
    requires d <= 9
    ensures NextInt(Saturated(v), d) == Saturated(v * 10 + d)
  {
  }

  lemma NoValue()
    ensures Value("", 10) == 0 && Saturated(0) == 0
  {
  }

  /** getint reads the whole run of digits, as a decimal number. */
  lemma {:induction false} IntIsDecimal(fmt: CString, i: nat, e: nat)
    requires i <= e <= |fmt| && AllDigits(fmt[i..e])
    ensures IntAt(fmt, i, 0) == IntAt(fmt, e, Saturated(Value(fmt[i..e], 10)))
    ensures !IsDigit(CharAt(fmt, e)) ==> IntAt(fmt, i, 0) == (Saturated(Value(fmt[i..e], 10)), e)
    decreases e
  {
    hide NextInt, DigitValue, Saturated;
    if i < e {
      var c := fmt[e - 1];
      assert fmt[i..e] == fmt[i..e - 1] + [c];
      IntIsDecimal(fmt, i, e - 1);
      DigitOfDecimal(c);
      ValueOfAppend(fmt[i..e - 1], c, 10);
      NextSaturated(Value(fmt[i..e - 1], 10), DigitValue(c));
    } else {
      NoValue();
    }
  }

  /** A number in a directive: written out, possibly with no digit at all, or taken from the arguments. */
  datatype Amount = Number(digits: string) | FromArgument

  /** A directive as one writes it, without its `%`. */
  datatype Spec = Spec(flags: string, width: Amount, precision: Option<Amount>, modifier: string, letter: char)

  function AmountText(a: Amount): string { if a.FromArgument? then "*" else a.digits }

  function PrecisionText(a: Option<Amount>): string { if a == None then "" else "." + AmountText(a.value) }

  function Render(d: Spec): string {
    d.flags + (AmountText(d.width) + (PrecisionText(d.precision) + (d.modifier + [d.letter])))
  }

  predicate ModifierIs(m: string, p: Prefix) {
    match p
    case Bare => m == ""
    case L => m == "l"
    case LL => m == "ll"
    case H => m == "h"
    case HH => m == "hh"
    case ZT => m == "z" || m == "t"
    case J => m == "j"
  }

  /** A width does not start with 0, which would be a flag. */
  ghost predicate SpecOk(d: Spec, p: Prefix) {
    && (forall c <- d.flags :: IsFlag(c))
    && (d.width.Number? ==> AllDigits(d.width.digits) && (d.width.digits == "" || d.width.digits[0] != '0'))
    && (d.precision.Some? && d.precision.value.Number? ==> AllDigits(d.precision.value.digits))
    && ModifierIs(d.modifier, p) && NextState(p, d.letter).Take?
  }

  /** s stands in fmt at i. */
  predicate At(fmt: CString, i: nat, s: string) { i + |s| <= |fmt| && fmt[i..i + |s|] == s }

  lemma AtParts(fmt: CString, i: nat, s: string, t: string)
    requires At(fmt, i, s + t)
    ensures At(fmt, i, s) && At(fmt, i + |s|, t)
    ensures t != "" ==> CharAt(fmt, i + |s|) == t[0]
  {
    assert (s + t)[..|s|] == s && (s + t)[|s|..] == t;
    assert fmt[i..i + |s + t|][..|s|] == fmt[i..i + |s|];
    assert fmt[i..i + |s + t|][|s|..] == fmt[i + |s|..i + |s| + |t|];
    if t != "" { assert fmt[i + |s|..i + |s| + |t|][0] == t[0]; }
  }

  function FlagSet(s: string): Flags { Flags('#' in s, '0' in s, '-' in s, ' ' in s, '+' in s) }

  function Union(a: Flags, b: Flags): Flags {
    Flags(a.alt || b.alt, a.zero || b.zero, a.left || b.left, a.space || b.space, a.plus || b.plus)
  }

  lemma FlagRunEnd(fmt: CString, i: nat, s: string, fl: Flags)
    requires At(fmt, i, s)
    ensures i + |s| <= |fmt| && (s == "" ==> Union(fl, FlagSet(s)) == fl)
    ensures i + |s| < |fmt| ==> CharAt(fmt, i + |s|) == fmt[i + |s|]
  {
  }

  lemma AtHead(fmt: CString, i: nat, s: string)
    requires At(fmt, i, s) && s != ""
    ensures i < |fmt| && fmt[i] == s[0] == CharAt(fmt, i) && At(fmt, i + 1, s[1..])
  {
    assert s == [s[0]] + s[1..];
    AtParts(fmt, i, [s[0]], s[1..]);
    assert fmt[i..i + |s|][0] == s[0];
  }

  lemma InTail(c: char, s: string)
    requires s != ""
    ensures c in s <==> c == s[0] || c in s[1..]
  {
    assert s == [s[0]] + s[1..];
  }

  lemma OneMoreFlag(fl: Flags, s: string)
    requires s != ""
    ensures Union(AddFlag(fl, s[0]), FlagSet(s[1..])) == Union(fl, FlagSet(s))
  {
    InTail('#', s);
    InTail('0', s);
    InTail('-', s);
    InTail(' ', s);
    InTail('+', s);
  }

  lemma {:induction false} FlagsRecognised(fmt: CString, i: nat, s: string, fl: Flags)
    requires At(fmt, i, s) && (forall c <- s :: IsFlag(c)) && !IsFlag(CharAt(fmt, i + |s|))
    ensures FlagsAt(fmt, i, fl) == (Union(fl, FlagSet(s)), i + |s|)
    decreases |s|
  {
    hide IsFlag, AddFlag, FlagSet, Union, At, CharAt;
    FlagRunEnd(fmt, i, s, fl);
    if s != "" {
      AtHead(fmt, i, s);
      FlagsRecognised(fmt, i + 1, s[1..], AddFlag(fl, s[0]));
      OneMoreFlag(fl, s);
    }
  }

  /** A letter or modifier: what may follow a number in a directive. */
  predicate Closes(c: char) { c in "hlzjt" || c in LETTERS }

  lemma ClosingChar(c: char)
    requires Closes(c)
    ensures !IsDigit(c) && !IsFlag(c) && c != '*' && c != '.'
  {
  }

  lemma EndingCloses(d: Spec, p: Prefix)
    requires SpecOk(d, p)
    ensures Closes((d.modifier + [d.letter])[0])
  {
  }

  lemma NumberRecognised(fmt: CString, i: nat, s: string)
    requires At(fmt, i, s) && AllDigits(s) && !IsDigit(CharAt(fmt, i + |s|))
    ensures IntAt(fmt, i, 0) == (Saturated(Value(s, 10)), i + |s|)
  {
    IntIsDecimal(fmt, i, i + |s|);
  }

  lemma ModifierStates()
    ensures NextState(Bare, 'l') == More(L) && NextState(L, 'l') == More(LL)
    ensures NextState(Bare, 'h') == More(H) && NextState(H, 'h') == More(HH)
    ensures NextState(Bare, 'z') == NextState(Bare, 't') == More(ZT) && NextState(Bare, 'j') == More(J)
  {
  }

  lemma ConvRecognised(fmt: CString, i: nat, d: Spec, p: Prefix)
    requires SpecOk(d, p) && At(fmt, i, d.modifier + [d.letter])
    ensures ConvAt(fmt, i, Bare) == Conv(NextState(p, d.letter).ty, p, d.letter, i + |d.modifier| + 1)
  {
    hide NextState;
    AtParts(fmt, i, d.modifier, [d.letter]);
    ModifierStates();
    var n := |d.modifier|;
    if n > 0 { assert fmt[i] == fmt[i..i + n][0] == d.modifier[0]; }
    if n > 1 { assert fmt[i + 1] == fmt[i..i + n][1] == d.modifier[1]; }
    assert n <= 2;
    if n == 0 {
      assert p == Bare;
    } else if n == 1 {
      assert ConvAt(fmt, i, Bare) == ConvAt(fmt, i + 1, p);
    } else {
      assert ConvAt(fmt, i, Bare) == ConvAt(fmt, i + 1, if p == LL then L else H) == ConvAt(fmt, i + 2, p);
    }
  }

  /** The meaning of a written width at argument j: too big, or flags, number and next argument. */
  function WidthOf(env: Env, a: Amount, fl: Flags, j: nat): Option<(Flags, int, nat)> {
    match a
    case FromArgument =>
      var w := Int(env.args(j));
      Some(if w < 0 then (fl.(left := true), Int(-w), j + 1) else (fl, w, j + 1))
    case Number(digits) => if Value(digits, 10) > INT_MAX then None else Some((fl, Value(digits, 10), j))
  }

  /** The meaning of a written precision: the number, whether it counts as given, and the next argument. */
  function PrecisionOf(env: Env, a: Option<Amount>, j: nat): (int, bool, nat) {
    match a
    case None => (-1, false, j)
    case Some(FromArgument) => (Int(env.args(j)), Int(env.args(j)) >= 0, j + 1)
    case Some(Number(digits)) => (Saturated(Value(digits, 10)), true, j)
  }

  lemma SaturatedIs(v: nat)
    ensures Saturated(v) == if v > INT_MAX then -1 else v
  {
  }

  function WidthFrom(m: Option<(Flags, int, nat)>, next: nat): Width {
    if m == None then WidthTooBig else Width(m.value.0, m.value.1, next, m.value.2)
  }

  lemma WidthRecognised(env: Env, fmt: CString, i: nat, a: Amount, rest: string, fl: Flags, j: nat)
    requires At(fmt, i, AmountText(a) + rest) && rest != "" && !IsDigit(rest[0]) && (a.Number? ==> AllDigits(a.digits) && rest[0] != '*')
    ensures WidthAt(env, fmt, i, fl, j) == WidthFrom(WidthOf(env, a, fl, j), i + |AmountText(a)|)
  {
    hide Int, At, IntAt, Value, Saturated;
    AtParts(fmt, i, AmountText(a), rest);
    if a.Number? {
      NumberRecognised(fmt, i, a.digits);
      if a.digits != "" {
        AtHead(fmt, i, a.digits);
        assert IsDigit(a.digits[0]);
      }
      SaturatedIs(Value(a.digits, 10));
    } else {
      AtHead(fmt, i, "*");
    }
  }

  lemma GivenNumber(env: Env, fmt: CString, i: nat, digits: string, rest: string, j: nat)
    requires At(fmt, i, "." + digits + rest) && rest != "" && !IsDigit(rest[0]) && rest[0] != '*' && AllDigits(digits)
    ensures PrecisionAt(env, fmt, i, j) == Precision(Saturated(Value(digits, 10)), true, i + 1 + |digits|, j)
  {
    hide Int, At, IntAt, Value, Saturated;
    assert "." + digits + rest == "." + (digits + rest);
    AtParts(fmt, i, ".", digits + rest);
    AtHead(fmt, i, ".");
    AtParts(fmt, i + 1, digits, rest);
    NumberRecognised(fmt, i + 1, digits);
    if digits != "" {
      AtHead(fmt, i + 1, digits);
      assert IsDigit(digits[0]);
    } else {
      AtHead(fmt, i + 1, rest);
    }
  }

  lemma GivenByArgument(env: Env, fmt: CString, i: nat, rest: string, j: nat)
    requires At(fmt, i, ".*" + rest) && rest != "" && !IsDigit(rest[0])
    ensures PrecisionAt(env, fmt, i, j) == Precision(Int(env.args(j)), Int(env.args(j)) >= 0, i + 2, j + 1)
  {
    hide Int, At, IntAt;
    assert ".*" + rest == "." + ("*" + rest);
    AtParts(fmt, i, ".", "*" + rest);
    AtHead(fmt, i, ".");
    AtParts(fmt, i + 1, "*", rest);
    AtHead(fmt, i + 1, "*");
    AtHead(fmt, i + 2, rest);
  }

  lemma NotGiven(env: Env, fmt: CString, i: nat, rest: string, j: nat)
    requires At(fmt, i, rest) && rest != "" && rest[0] != '.'
    ensures PrecisionAt(env, fmt, i, j) == Precision(-1, false, i, j)
  {
    hide Int, At, IntAt;
    AtHead(fmt, i, rest);
  }

  lemma PrecisionRecognised(env: Env, fmt: CString, i: nat, a: Option<Amount>, rest: string, j: nat)
    requires At(fmt, i, PrecisionText(a) + rest) && rest != "" && Closes(rest[0])
    requires a.Some? && a.value.Number? ==> AllDigits(a.value.digits)
    ensures var m := PrecisionOf(env, a, j);
      PrecisionAt(env, fmt, i, j) == Precision(m.0, m.1, i + |PrecisionText(a)|, m.2)
  {
    hide Int, At, IntAt, Value, Saturated, Closes, PrecisionAt, AllDigits, IsDigit;
    ClosingChar(rest[0]);
    match a
    case None =>
      assert PrecisionText(a) + rest == rest;
      NotGiven(env, fmt, i, rest, j);
    case Some(Number(digits)) =>
      GivenNumber(env, fmt, i, digits, rest, j);
    case Some(FromArgument) =>
      assert PrecisionText(a) == ".*";
      GivenByArgument(env, fmt, i, rest, j);
  }

  lemma NoFlagsUnion(fl: Flags)
    ensures Union(NO_FLAGS, fl) == fl
  {
  }

  lemma WidthHead(d: Spec)
    requires d.width.Number? ==> AllDigits(d.width.digits) && (d.width.digits == "" || d.width.digits[0] != '0')
    requires !IsFlag((PrecisionText(d.precision) + (d.modifier + [d.letter]))[0])
    ensures !IsFlag((AmountText(d.width) + (PrecisionText(d.precision) + (d.modifier + [d.letter])))[0])
  {
    if d.width.Number? && d.width.digits != "" { assert IsDigit(d.width.digits[0]); }
  }

  lemma FlagsEnd(d: Spec, p: Prefix)
    requires SpecOk(d, p)
    ensures (forall c <- d.flags :: IsFlag(c))
    ensures var rest := AmountText(d.width) + (PrecisionText(d.precision) + (d.modifier + [d.letter]));
      rest != "" && !IsFlag(rest[0])
  {
    EndingCloses(d, p);
    ClosingChar((d.modifier + [d.letter])[0]);
    WidthHead(d);
  }

  lemma PrecisionHead(a: Option<Amount>, ending: string)
    requires ending != "" && !IsDigit(ending[0]) && ending[0] != '*'
    ensures var rest := PrecisionText(a) + ending; rest != "" && !IsDigit(rest[0]) && rest[0] != '*'
  {
  }

  lemma AfterFlagsRecognised(env: Env, fmt: CString, i: nat, fl: Flags, j: nat, d: Spec, p: Prefix)
    requires SpecOk(d, p) && At(fmt, i, AmountText(d.width) + (PrecisionText(d.precision) + (d.modifier + [d.letter])))
    ensures var w := WidthOf(env, d.width, fl, j);
      if w == None then AfterFlags(env, fmt, i, fl, j) == BadDirective
      else
        var prec := PrecisionOf(env, d.precision, w.value.2);
        AfterFlags(env, fmt, i, fl, j) == Directive(Settle(w.value.0), w.value.1, prec.0, prec.1,
          Conv(NextState(p, d.letter).ty, p, d.letter,
               i + |AmountText(d.width)| + |PrecisionText(d.precision)| + |d.modifier| + 1), prec.2)
  {
    hide WidthAt, PrecisionAt, ConvAt, NextState, WidthOf, PrecisionOf, Settle, At, AmountText, PrecisionText, Closes;
    var ending := d.modifier + [d.letter];
    var rest := PrecisionText(d.precision) + ending;
    EndingCloses(d, p);
    ClosingChar(ending[0]);
    PrecisionHead(d.precision, ending);
    WidthRecognised(env, fmt, i, d.width, rest, fl, j);
    AtParts(fmt, i, AmountText(d.width), rest);
    var w := WidthOf(env, d.width, fl, j);
    if w.Some? {
      var i2 := i + |AmountText(d.width)|;
      PrecisionRecognised(env, fmt, i2, d.precision, ending, w.value.2);
      AtParts(fmt, i2, PrecisionText(d.precision), ending);
      ConvRecognised(fmt, i2 + |PrecisionText(d.precision)|, d, p);
    }
  }

  /** Reading a written directive gives back its flags, width, precision, modifier and letter. */
  lemma DirectiveRecognised(env: Env, fmt: CString, i: nat, j: nat, d: Spec, p: Prefix)
    requires SpecOk(d, p) && At(fmt, i, Render(d))
    ensures var w := WidthOf(env, d.width, FlagSet(d.flags), j);
      if w == None then DirectiveAt(env, fmt, i, j) == BadDirective
      else
        var prec := PrecisionOf(env, d.precision, w.value.2);
        DirectiveAt(env, fmt, i, j) == Directive(Settle(w.value.0), w.value.1, prec.0, prec.1,
          Conv(NextState(p, d.letter).ty, p, d.letter, i + |Render(d)|), prec.2)
  {
    hide FlagsAt, AfterFlags, FlagSet, Union, At, WidthOf, PrecisionOf, Settle, NextState, SpecOk, IsFlag;
    var rest := AmountText(d.width) + (PrecisionText(d.precision) + (d.modifier + [d.letter]));
    FlagsEnd(d, p);
    AtParts(fmt, i, d.flags, rest);
    FlagsRecognised(fmt, i, d.flags, NO_FLAGS);
    NoFlagsUnion(FlagSet(d.flags));
    AfterFlagsRecognised(env, fmt, i + |d.flags|, FlagSet(d.flags), j, d, p);
  }

  /** %s prints the longest prefix of its string that has at most the precision's length, all of it if none is
      given, without sign or zeros; only a string longer than INT_MAX fails. */
  lemma StringDenotes(env: Env, x: nat, p: int, given: bool, fl: Flags)
    requires x < WORD
    ensures var s: string := if x == 0 then "(null)" else env.strings(x);
      var it := ItemFor(env, 's', x, p, given, fl);
      && (it == None <==> p < 0 && |s| > INT_MAX)
      && (it.Some? ==>
            && it.value.prefix == "" && it.value.body <= s && it.value.p == |it.value.body| && !it.value.fl.zero
            && (p < 0 ==> it.value.body == s)
            && (p >= 0 ==> |it.value.body| <= p && forall t: string :: t <= s && |t| <= p ==> |t| <= |it.value.body|))
  {
  }

  /** %c prints its argument's low byte. */
  lemma CharDenotes(env: Env, x: nat, p: int, given: bool, fl: Flags)
    requires x < WORD
    ensures var it := ItemFor(env, 'c', x, p, given, fl);
      it.Some? && it.value.prefix == "" && it.value.p == 1 && |it.value.body| == 1
      && it.value.body[0] as int == x % 0x100 && !it.value.fl.zero
  {
  }

  // ----- the program, in place

  const PREFIXES: string := "-+   0X0x"

  /** The scanning loops, each moving along the format. */
  method ReadFlags(fmt: CString, i: nat) returns (fl: Flags, next: nat)
    requires i <= |fmt|
    ensures (fl, next) == FlagsAt(fmt, i, NO_FLAGS)
  {
    fl, next := NO_FLAGS, i;
    while next < |fmt| && IsFlag(fmt[next])
      invariant i <= next <= |fmt| && FlagsAt(fmt, i, NO_FLAGS) == FlagsAt(fmt, next, fl)
    {
      fl := AddFlag(fl, fmt[next]);
      next := next + 1;
    }
  }

  method GetInt(fmt: CString, start: nat) returns (i: int, next: nat)
    requires start <= |fmt|
    ensures (i, next) == IntAt(fmt, start, 0)
    ensures start <= next <= |fmt| && AllDigits(fmt[start..next]) && !IsDigit(CharAt(fmt, next))
    ensures i == Saturated(Value(fmt[start..next], 10))
  {
    hide NextInt, Value;
    i, next := 0, start;
    while next < |fmt| && IsDigit(fmt[next])
      invariant start <= next <= |fmt| && IntAt(fmt, start, 0) == IntAt(fmt, next, i) && AllDigits(fmt[start..next])
    {
      i := NextInt(i, fmt[next] as int - '0' as int);
      next := next + 1;
    }
    IntIsDecimal(fmt, start, next);
  }

  lemma NoConvPastEnd(fmt: CString, i: nat, p: Prefix)
    ensures NextState(p, CharAt(fmt, i)) != Bad ==> i < |fmt|
    ensures NextState(p, CharAt(fmt, i)).More? ==> Rank(NextState(p, CharAt(fmt, i)).prefix) < Rank(p)
  {
  }

  method ReadConv(fmt: CString, start: nat) returns (c: Conv)
    requires start <= |fmt|
    ensures c == ConvAt(fmt, start, Bare)
  {
    hide NextState;
    var ps, s: nat := Bare, start;
    while true
      invariant s <= |fmt| && ConvAt(fmt, start, Bare) == ConvAt(fmt, s, ps)
      decreases Rank(ps)
    {
      NoConvPastEnd(fmt, s, ps);
      var st := NextState(ps, CharAt(fmt, s));
      if st == Bad {
        return NoConv;
      }
      s := s + 1;
      if st.Take? {
        return Conv(st.ty, ps, fmt[s - 1], s);
      }
      ps := st.prefix;
    }
  }

  /** The width: `*` takes an argument, whose sign asks for padding on the right, else a number is read. */
  method ReadWidth(env: Env, fmt: CString, start: nat, fl: Flags, j: nat) returns (width: Width)
    requires start <= |fmt|
    ensures width == WidthAt(env, fmt, start, fl, j)
  {
    hide IntAt, Int;
    var w, s := 0, start;
    if CharAt(fmt, s) == '*' {
      if PositionalAt(fmt, s) {
        return WidthPositional;
      }
      w := Int(env.args(j));
      s := s + 1;
      if w < 0 {
        return Width(fl.(left := true), Int(-w), s, j + 1);
      }
      return Width(fl, w, s, j + 1);
    }
    w, s := GetInt(fmt, s);
    if w < 0 {
      return WidthTooBig;
    }
    return Width(fl, w, s, j);
  }

  method ReadPrecision(env: Env, fmt: CString, start: nat, j: nat) returns (precision: Precision)
    requires start <= |fmt|
    ensures precision == PrecisionAt(env, fmt, start, j)
  {
    hide IntAt, Int;
    var p, s := -1, start;
    if CharAt(fmt, s) == '.' && CharAt(fmt, s + 1) == '*' {
      if PositionalAt(fmt, s + 1) {
        return PrecisionPositional;
      }
      p := Int(env.args(j));
      return Precision(p, p >= 0, s + 2, j + 1);
    } else if CharAt(fmt, s) == '.' {
      p, s := GetInt(fmt, s + 1);
      return Precision(p, true, s, j);
    }
    return Precision(p, false, s, j);
  }

  method ReadDirective(env: Env, fmt: CString, i: nat, j: nat) returns (d: Directive)
    requires i <= |fmt|
    ensures d == DirectiveAt(env, fmt, i, j)
  {
    hide FlagsAt, WidthAt, PrecisionAt, ConvAt;
    var fl, s := ReadFlags(fmt, i);
    var width := ReadWidth(env, fmt, s, fl, j);
    if width == WidthPositional {
      return PositionalDirective;
    }
    if width == WidthTooBig {
      return BadDirective;
    }
    var precision := ReadPrecision(env, fmt, width.next, width.j);
    if precision == PrecisionPositional {
      return PositionalDirective;
    }
    var conv := ReadConv(fmt, precision.next);
    if conv == NoConv {
      return BadDirective;
    }
    fl := width.fl;
    if fl.left {
      fl := fl.(zero := false);
    }
    return Directive(fl, width.w, precision.p, precision.given, conv, precision.j);
  }

  lemma PrefixParts()
    ensures |PREFIXES| == 9 && PREFIXES[0..1] == "-" && PREFIXES[1..2] == "+" && PREFIXES[2..3] == " "
    ensures PREFIXES[5..7] == "0X" && PREFIXES[7..9] == "0x"
  {
  }

  lemma NoPrefix()
    ensures PREFIXES[0..0] == ""
  {
  }

  method TakeSign(arg: nat, fl: Flags) returns (i: nat, prefix: nat, pl: nat)
    requires arg < WORD
    ensures i < WORD && prefix + pl <= |PREFIXES|
    ensures forall p, given :: SignedItem(arg, p, given, fl) == NumberItem(PREFIXES[prefix..prefix + pl], Text(i, 10, false), i, p, given, fl)
  {
    PrefixParts();
    NoPrefix();
    i, prefix, pl := arg, 0, 1;
    if i > WORD / 2 - 1 {
      i := (WORD - i) % WORD;
    } else if fl.plus {
      prefix := prefix + 1;
    } else if fl.space {
      prefix := prefix + 2;
    } else {
      pl := 0;
    }
  }

  /** What follows the digits in every number conversion. */
  method FinishNumber(prefix: string, body: string, i: nat, prec: int, xp: bool, flags: Flags) returns (it: Option<Item>)
    ensures it == NumberItem(prefix, body, i, prec, xp, flags)
  {
    assert body[0..|body|] == body && body[|body|..|body|] == "";
    var p, fl, a, z := prec, flags, 0, |body|;
    if xp && p < 0 {
      return None;
    }
    if xp {
      fl := fl.(zero := false);
    }
    if i == 0 && p == 0 {
      a := z;
    } else {
      p := Max(p, z - a + if i == 0 then 1 else 0);
    }
    it := Some(Item(prefix, body[a..z], p, fl));
  }

  /** The number conversions: digits into a local buffer, then the precision rules. */
  method ConvertNumber(letter: char, arg: nat, prec: int, xp: bool, flags: Flags) returns (it: Option<Item>)
    requires arg < WORD && letter in "diuoxXp"
    ensures it == NumberFor(letter, arg, prec, xp, flags)
  {
    hide Text, NumberItem, Int;
    PrefixParts();
    NoPrefix();
    var buf := new char[BUF_SIZE](_ => '\0');
    var z: nat := BUF_SIZE;
    var a, t, i, p, fl, prefix, pl := z, letter, arg, prec, flags, 0, 0;
    if t == 'p' {
      p := Int(if p % WORD > 16 then p % WORD else 16);
      t := 'x';
      fl := fl.(alt := true);
    }
    if t == 'x' || t == 'X' {
      a := FmtX(i, buf, z, t == 'x');
      if i != 0 && fl.alt {
        prefix, pl := t as int / 16, 2;
      }
    } else if t == 'o' {
      a := FmtO(i, buf, z);
      if fl.alt && p < z - a + 1 {
        p := z - a + 1;
      }
    } else {
      if t != 'u' {
        i, prefix, pl := TakeSign(i, fl);
      }
      a := FmtU(i, buf, z);
    }
    it := FinishNumber(PREFIXES[prefix..prefix + pl], buf[a..z], i, p, xp, fl);
  }

  method Convert(env: Env, letter: char, arg: nat, prec: int, xp: bool, flags: Flags) returns (it: Option<Item>)
    requires arg < WORD && letter in "diuoxXpcs"
    ensures it == ItemFor(env, letter, arg, prec, xp, flags)
  {
    if letter == 'c' {
      it := Some(Item("", [(arg % 0x100) as char], 1, flags.(zero := false)));
    } else if letter == 's' {
      var a := if arg != 0 then env.strings(arg) else "(null)";
      var n := if prec < 0 then INT_MAX else prec;
      var z := if |a| < n then |a| else n;
      assert a[..|a|] == a;
      if prec < 0 && z < |a| {
        return None;
      }
      it := Some(Item("", a[..z], z, flags.(zero := false)));
    } else {
      it := ConvertNumber(letter, arg, prec, xp, flags);
    }
  }

  function PadText(c: char, w: nat, l: nat, fl: Flags): string {
    if fl.left || fl.zero || l >= w then "" else Rep(c, w - l)
  }

  lemma NoReps(c: char)
    ensures Rep(c, 0) == ""
  {
  }

  /** The six writes make up the field. */
  lemma PadsMakeField(it: Item, w: nat, l: nat)
    requires it.p >= |it.body| && l == |it.prefix| + it.p <= w && Settled(it.fl)
    ensures PadText(' ', w, l, it.fl) + it.prefix + PadText('0', w, l, it.fl.(zero := !it.fl.zero))
      + PadText('0', it.p, |it.body|, NO_FLAGS) + it.body + PadText(' ', w, l, it.fl.(left := !it.fl.left)) == FieldOf(it, w)
  {
    hide Rep;
    NoReps('0');
    NoReps(' ');
    var fill, zeros := w - l, PadText('0', it.p, |it.body|, NO_FLAGS);
    assert zeros == Rep('0', it.p - |it.body|);
  }

  lemma Together(s: string, a: string, b: string, c: string, d: string, e: string, f: string)
    ensures s + a + b + c + d + e + f == s + (a + b + c + d + e + f)
  {
  }

  /** Ordinary text and `%%` pairs: the text to copy is fmt[i..z], and scanning goes on at s. */
  method ReadText(fmt: CString, i: nat) returns (s: nat, z: nat)
    requires i <= |fmt|
    ensures z == TextEnd(fmt, i) + Pairs(fmt, TextEnd(fmt, i)) && s == z + Pairs(fmt, TextEnd(fmt, i))
  {
    s := i;
    while s < |fmt| && fmt[s] != '%'
      invariant i <= s <= |fmt| && TextEnd(fmt, i) == TextEnd(fmt, s)
    {
      s := s + 1;
    }
    z := s;
    ghost var e := s;
    while CharAt(fmt, s) == '%' && CharAt(fmt, s + 1) == '%'
      invariant e <= z && s == e + 2 * (z - e) <= |fmt| && Pairs(fmt, e) == z - e + Pairs(fmt, s)
      decreases |fmt| - s
    {
      z, s := z + 1, s + 2;
    }
  }

  class Stream {
    var written: string
    var stores: seq<Store>

    constructor ()
      ensures written == "" && stores == []
    {
      written, stores := "", [];
    }

    method Out(s: string)
      modifies this`written
      ensures written == old(written) + s
    {
      written := written + s;
    }

    method Pad(c: char, w: nat, l: nat, fl: Flags)
      modifies this`written
      ensures written == old(written) + PadText(c, w, l, fl)
    {
      if fl.left || fl.zero || l >= w {
        return;
      }
      assert Rep(c, 0) == "" && written + "" == written;
      var pad := new char[256];
      var rest := w - l;
      var m := 0;
      while m < (if rest > 256 then 256 else rest)
        invariant 0 <= m <= 256 && m <= rest && written == old(written) && forall k | 0 <= k < m :: pad[k] == c
      {
        pad[m] := c;
        m := m + 1;
      }
      assert Rep(c, w - l - rest) == "";
      while rest >= 256
        invariant 0 <= rest <= w - l && (if w - l > 256 then m == 256 else m == w - l)
        invariant forall k | 0 <= k < m :: pad[k] == c
        invariant written == old(written) + Rep(c, w - l - rest)
      {
        assert pad[..256] == Rep(c, 256);
        assert Rep(c, w - l - rest) + Rep(c, 256) == Rep(c, w - l - (rest - 256));
        Out(pad[..256]);
        rest := rest - 256;
      }
      assert pad[..rest] == Rep(c, rest);
      assert Rep(c, w - l - rest) + Rep(c, rest) == Rep(c, w - l);
      Out(pad[..rest]);
    }

    /** Blanks, prefix, zeros, body and blanks, in order. */
    method PutPieces(it: Item, w: int)
      requires it.p >= |it.body| && |it.prefix| + it.p <= w <= INT_MAX && Settled(it.fl)
      modifies this`written
      ensures written == old(written) + FieldOf(it, w)
    {
      hide PadText, FieldOf;
      var l, n := |it.prefix| + it.p, |it.body|;
      ghost var before := written;
      PadsMakeField(it, w, l);
      Pad(' ', w, l, it.fl);
      Out(it.prefix);
      Pad('0', w, l, it.fl.(zero := !it.fl.zero));
      Pad('0', it.p, n, NO_FLAGS);
      Out(it.body);
      Pad(' ', w, l, it.fl.(left := !it.fl.left));
      Together(before, PadText(' ', w, l, it.fl), it.prefix, PadText('0', w, l, it.fl.(zero := !it.fl.zero)),
               PadText('0', it.p, n, NO_FLAGS), it.body, PadText(' ', w, l, it.fl.(left := !it.fl.left)));
    }

    /** The end of the directive loop: settle the lengths, then write the pieces. */
    method PutField(it: Item, width: int, cnt: int) returns (ok: bool, l: int)
      requires 0 <= cnt <= INT_MAX && Settled(it.fl)
      modifies this`written
      ensures ok == Field(it, width, cnt).Some?
      ensures ok ==> written == old(written) + Field(it, width, cnt).value && l == |Field(it, width, cnt).value|
      ensures !ok ==> written == old(written)
    {
      hide FieldOf;
      var p, w, pl, n := it.p, width, |it.prefix|, |it.body|;
      if p < n {
        p := n;
      }
      if p > INT_MAX - pl {
        return false, 0;
      }
      if w < pl + p {
        w := pl + p;
      }
      if w > INT_MAX - cnt {
        return false, 0;
      }
      PutPieces(it.(p := p), w);
      return true, w;
    }

    /** A turn that starts with ordinary text. */
    method PutText(fmt: CString, i: nat, ghost j: nat, cnt: int) returns (ok: bool, next: nat, l: nat)
      requires i <= |fmt| && 0 <= cnt <= INT_MAX
      modifies this`written
      ensures ok == TextTurn(fmt, i, j, cnt).Go?
      ensures if ok then TextTurn(fmt, i, j, cnt).next == next && l == |TextTurn(fmt, i, j, cnt).bytes|
                         && written == old(written) + TextTurn(fmt, i, j, cnt).bytes
              else TextTurn(fmt, i, j, cnt) == Stop(Failed) && written == old(written)
    {
      hide TextEnd, Pairs;
      var z;
      next, z := ReadText(fmt, i);
      l := z - i;
      ok := z - i <= INT_MAX - cnt;
      if ok {
        Out(fmt[i..z]);
      }
    }

    /** A turn at a directive. */
    method PutDirective(env: Env, fmt: CString, i: nat, j: nat, cnt: int) returns (stop: Option<Result>, next: nat, j': nat, l: int)
      requires i < |fmt| && 0 <= cnt <= INT_MAX
      modifies this
      ensures match DirectiveTurn(env, fmt, i, j, cnt)
        case Stop(r) => stop == Some(r) && written == old(written) && stores == old(stores)
        case Go(b, st, n, k) =>
          stop == None && next == n && j' == k && l == |b| && written == old(written) + b && stores == old(stores) + st
    {
      hide ItemFor, Field, DirectiveAt, PopArg, PositionalAt;
      stop, next, j', l := None, i, j, 0;
      if PositionalAt(fmt, i) {
        stop := Some(Positional);
        return;
      }
      var d := ReadDirective(env, fmt, i + 1, j);
      if d == BadDirective {
        stop := Some(Failed);
        return;
      }
      if d == PositionalDirective {
        stop := Some(Positional);
        return;
      }
      var x := PopArg(d.conv.ty, env.args(d.j));
      next, j' := d.conv.next, d.j + 1;
      if d.conv.letter == 'n' {
        stores := stores + [StoreCount(x, d.conv.prefix, cnt)];
        return;
      }
      var it := Convert(env, d.conv.letter, x, d.p, d.given, d.fl);
      if it == None {
        stop := Some(Failed);
        return;
      }
      var ok;
      ok, l := PutField(it.value, d.w, cnt);
      if !ok {
        stop := Some(Failed);
      }
    }

    /** What is left to do, put after what has been done, is the whole outcome. */
    ghost predicate Ahead(o: Outcome, written0: string, stores0: seq<Store>, rest: Outcome)
      reads this
    {
      written0 + o.bytes == written + rest.bytes && stores0 + o.stores == stores + rest.stores && o.result == rest.result
    }

    /** printf_core with a stream. It stops at the first positional directive. */
    method PrintfCore(env: Env, fmt: CString) returns (res: Result)
      modifies this
      ensures var o := Run(env, fmt, 0, 0, 0, 0);
        res == o.result && written == old(written) + o.bytes && stores == old(stores) + o.stores
      ensures res.Printed? ==> res.n == |written| - |old(written)|
    {
      hide TextTurn, DirectiveTurn, Run;
      ghost var o := Run(env, fmt, 0, 0, 0, 0);
      ResultCountsBytes(env, fmt, 0, 0, 0, 0);
      var s: nat, j: nat, cnt: int, l: int := 0, 0, 0, 0;
      while true
        invariant s <= |fmt| && 0 <= cnt <= INT_MAX && 0 <= l
        invariant Ahead(o, old(written), old(stores), Run(env, fmt, s, j, cnt, l))
        decreases |fmt| - s
      {
        RunStep(env, fmt, s, j, cnt, l);
        if l > INT_MAX - cnt {
          return Failed;
        }
        cnt := cnt + l;
        if s == |fmt| {
          return Printed(cnt);
        }
        var ok, next, textLen := PutText(fmt, s, j, cnt);
        if !ok {
          return Failed;
        }
        l := textLen;
        if l != 0 {
          s := next;
          continue;
        }
        var stop;
        stop, s, j, l := PutDirective(env, fmt, s, j, cnt);
        if stop.Some? {
          return stop.value;
        }
      }
    }
  }
}
