/** The `%d` branch of scanf_core (lib/vfscanf.c), and its round trip with printf's `%d`. */
module Scanf {
  import opened Words
  import opened Options
  import opened Digits
  import opened Printf
  import opened PrintfText

  const BACKSPACE: char := '\U{0008}'

  const DELETE: char := '\U{007f}'

  predicate Ends(c: char) { c == '\n' || c == '\r' || c == ' ' || c == BACKSPACE || c == DELETE || c == '\0' }

  /** On success the value; the input position after the last character read; what stdout received. */
  datatype Scanned = Scanned(value: Option<int>, next: nat, echo: string)

  function Echo(s: string, r: Scanned): Scanned { r.(echo := s + r.echo) }

  /** scanf_core's loop for `%d` from input position i on. */
  function Scan(input: string, i: nat, num: int, sign: int, flag: bool): Scanned
    requires i <= |input|
    decreases |input| - i
  {
    if i == |input| then Scanned(None, i, "EOF\n")
    else
      var ch := input[i];
      if IsDigit(ch) then Echo([ch], Scan(input, i + 1, Int(num * 10 + DigitValue(ch)), sign, flag))
      else if ch == '-' && num == 0 && !flag then Echo([ch], Scan(input, i + 1, num, -1, true))
      else if ch == '+' && num == 0 && !flag then Echo([ch], Scan(input, i + 1, num, sign, true))
      else if Ends(ch) then Scanned(Some(Int(num * sign)), i + 1, [ch])
      else Scanned(None, i + 1, [ch] + [ch] + "Not a digit\n")
  }

  /** One turn of the loop, with what has been echoed so far in front. */
  lemma EchoAgain(s: string, input: string, i: nat, num: int, sign: int, flag: bool)
    requires i <= |input|
    ensures Echo(s, Scan(input, i, num, sign, flag)) ==
      if i == |input| then Scanned(None, i, s + "EOF\n")
      else
        var ch := input[i];
        if IsDigit(ch) then Echo(s + [ch], Scan(input, i + 1, Int(num * 10 + DigitValue(ch)), sign, flag))
        else if ch == '-' && num == 0 && !flag then Echo(s + [ch], Scan(input, i + 1, num, -1, true))
        else if ch == '+' && num == 0 && !flag then Echo(s + [ch], Scan(input, i + 1, num, sign, true))
        else if Ends(ch) then Scanned(Some(Int(num * sign)), i + 1, s + [ch])
        else Scanned(None, i + 1, s + [ch] + [ch] + "Not a digit\n")
  {
    hide Int, DigitValue;
    assert forall c: string, d: string :: s + (c + d) == (s + c) + d;
  }

  class Console {
    const input: string
    var pos: nat
    var stdout: string

    constructor (input: string)
      ensures this.input == input && pos == 0 && stdout == ""
    {
      this.input, this.pos, this.stdout := input, 0, "";
    }

    /** The `%d` branch: a number, or None where scanf_core returns -1. */
    method ScanInt() returns (r: Option<int>)
      requires pos <= |input|
      modifies this`pos, this`stdout
      ensures pos <= |input|
      ensures Scanned(r, pos, stdout) == Echo(old(stdout), Scan(input, old(pos), 0, 1, false))
    {
      hide Int, DigitValue;
      ghost var o, stdout0 := Scan(input, pos, 0, 1, false), stdout;
      var num, sign, flag := 0, 1, false;
      while true
        invariant pos <= |input|
        invariant Echo(stdout0, o) == Echo(stdout, Scan(input, pos, num, sign, flag))
        decreases |input| - pos
      {
        EchoAgain(stdout, input, pos, num, sign, flag);
        if pos == |input| {
          stdout := stdout + "EOF\n";
          return None;
        }
        var ch := input[pos];
        pos := pos + 1;
        stdout := stdout + [ch];
        if !IsDigit(ch) {
          if ch == '-' && num == 0 && !flag {
            flag, sign := true, -1;
            continue;
          } else if ch == '+' && num == 0 && !flag {
            flag := true;
            continue;
          } else if Ends(ch) {
            break;
          } else {
            stdout := stdout + [ch] + "Not a digit\n";
            return None;
          }
        }
        num := Int(num * 10 + DigitValue(ch));
      }
      return Some(Int(num * sign));
    }
  }

  // ----- what printf writes for %d

  function Magnitude(v: int): nat { if v < 0 then -v else v }

  /** A number in decimal: a minus sign if it is negative, then its digits, one of them at least. */
  function Decimal(v: int): string {
    (if v < 0 then "-" else "") + if v == 0 then "0" else Text(Magnitude(v), 10, false)
  }

  const PERCENT_D: CString := "%d"

  lemma ParsePercentD(env: Env)
    ensures DirectiveAt(env, PERCENT_D, 1, 0) == Directive(NO_FLAGS, 0, -1, false, Conv(IntArg, Bare, 'd', 2), 0)
    ensures TextTurn(PERCENT_D, 0, 0, 0) == Go("", [], 0, 0) && !PositionalAt(PERCENT_D, 0)
  {
    assert FlagsAt(PERCENT_D, 1, NO_FLAGS) == (NO_FLAGS, 1);
    assert IntAt(PERCENT_D, 1, 0) == (0, 1);
    assert ConvAt(PERCENT_D, 1, Bare) == Conv(IntArg, Bare, 'd', 2);
  }

  /** The word that printf pops for an int argument v. */
  lemma PoppedInt(v: int, raw: nat)
    requires -0x8000_0000 <= v <= INT_MAX && Int(raw) == v
    ensures PopArg(IntArg, raw) == if v < 0 then WORD + v else v
  {
  }

  /** The item for an int: its sign, its digits, and at least one of them. */
  function DecimalItem(v: int): Item {
    var body := Text(Magnitude(v), 10, false);
    Item(if v < 0 then "-" else "", body, if v == 0 then 1 else |body|, NO_FLAGS)
  }

  lemma ItemOfInt(v: int)
    requires -0x8000_0000 <= v <= INT_MAX
    ensures SignedItem(if v < 0 then WORD + v else v, -1, false, NO_FLAGS) == Some(DecimalItem(v))
  {
    hide Text;
    NoDigits(10, false);
    if v != 0 { NoLeadingZero(Magnitude(v), 10, false); }
    assert v < 0 ==> (WORD - (WORD + v)) % WORD == -v;
  }

  lemma OneRep(c: char)
    ensures Rep(c, 1) == [c]
  {
  }

  lemma DecimalField(v: int)
    requires -0x8000_0000 <= v <= INT_MAX
    ensures |Decimal(v)| <= 23 && Field(DecimalItem(v), 0, 0) == Some(Decimal(v))
  {
    hide Text, Rep;
    var it := DecimalItem(v);
    NoDigits(10, false);
    WordFits(Magnitude(v), 10, false);
    NoReps('0');
    NoReps(' ');
    OneRep('0');
    assert FieldOf(it, |it.prefix| + it.p) == "" + it.prefix + (if v == 0 then "0" + "" else "" + it.body);
    assert it.(p := Max(it.p, |it.body|)) == it;
    assert v == 0 ==> "" + it.prefix + ("0" + "") == Decimal(v);
    assert v != 0 ==> "" + it.prefix + ("" + it.body) == Decimal(v);
  }

  /** Printing an int with `%d` writes its decimal form. */
  lemma PrintsDecimal(env: Env, v: int)
    requires -0x8000_0000 <= v <= INT_MAX && Int(env.args(0)) == v
    ensures Run(env, PERCENT_D, 0, 0, 0, 0) == Outcome(Decimal(v), [], Printed(|Decimal(v)|))
  {
    hide Field, SignedItem, DirectiveAt, TextTurn, PopArg, Text, Run;
    ParsePercentD(env);
    PoppedInt(v, env.args(0));
    ItemOfInt(v);
    DecimalField(v);
    RunStep(env, PERCENT_D, 0, 0, 0, 0);
    RunStep(env, PERCENT_D, 2, 1, 0, |Decimal(v)|);
    assert Decimal(v) + "" == Decimal(v);
  }

  // ----- scanning it back

  lemma SmallInt(x: int)
    requires -0x8000_0000 <= x <= INT_MAX
    ensures Int(x) == x
  {
  }

  lemma EchoTwice(s: string, t: string, r: Scanned)
    ensures Echo(s, Echo(t, r)) == Echo(s + t, r) && Echo("", r) == r
  {
    assert s + (t + r.echo) == (s + t) + r.echo;
  }

  lemma SameInt(x: int, y: int, k: int)
    requires x == y + k * 0x1_0000_0000
    ensures Int(x) == Int(y)
  {
    SameRemainder(x, y, k, 0x1_0000_0000);
  }

  /** Wrapping early or late makes no difference. */
  lemma IntOfLinear(a: int, m: int, d: int)
    ensures Int(Int(a) * m + d) == Int(a * m + d)
  {
    var k := if a % 0x1_0000_0000 < 0x8000_0000 then -(a / 0x1_0000_0000) else -(a / 0x1_0000_0000) - 1;
    assert Int(a) == a + k * 0x1_0000_0000;
    assert Int(a) * m + d == (a * m + d) + (k * m) * 0x1_0000_0000;
    SameInt(Int(a) * m + d, a * m + d, k * m);
  }

  lemma OneDigit(input: string, i: nat, v: nat, sign: int, flag: bool)
    requires i < |input| && IsDigit(input[i])
    ensures Scan(input, i, Int(v), sign, flag) ==
      Echo([input[i]], Scan(input, i + 1, Int(v * 10 + DigitValue(input[i])), sign, flag))
  {
    hide Int, DigitValue;
    IntOfLinear(v, 10, DigitValue(input[i]));
  }

  lemma MoreDigits(input: string, i: nat, e: nat)
    requires i < e <= |input|
    ensures input[i..e] == input[i..e - 1] + [input[e - 1]]
    ensures Value(input[i..e], 10) == Value(input[i..e - 1], 10) * 10 + DigitValue(input[e - 1])
  {
    hide Value, DigitValue;
    assert input[i..e] == input[i..e - 1] + [input[e - 1]];
    ValueOfAppend(input[i..e - 1], input[e - 1], 10);
  }

  /** Reading a run of digits echoes it and accumulates the number it denotes, as an int. */
  lemma {:induction false} ScanDigits(input: string, i: nat, e: nat, sign: int, flag: bool)
    requires i <= e <= |input| && forall k | i <= k < e :: IsDigit(input[k])
    ensures Scan(input, i, 0, sign, flag) == Echo(input[i..e], Scan(input, e, Int(Value(input[i..e], 10)), sign, flag))
    decreases e
  {
    hide Value, DigitValue, Int, Scan, Echo, IsDigit;
    if i < e {
      ScanDigits(input, i, e - 1, sign, flag);
      MoreDigits(input, i, e);
      OneDigit(input, e - 1, Value(input[i..e - 1], 10), sign, flag);
      EchoTwice(input[i..e - 1], [input[e - 1]], Scan(input, e, Int(Value(input[i..e], 10)), sign, flag));
    } else {
      NoValue();
      SmallInt(0);
      assert input[i..e] == "";
      EchoTwice("", "", Scan(input, e, 0, sign, flag));
    }
  }

  /** End of the run of digits from i on. */
  function DigitsEnd(input: string, i: nat): (e: nat)
    requires i <= |input|
    ensures i <= e <= |input| && (forall k | i <= k < e :: IsDigit(input[k])) && (e < |input| ==> !IsDigit(input[e]))
    decreases |input| - i
  {
    if i < |input| && IsDigit(input[i]) then DigitsEnd(input, i + 1) else i
  }

  lemma DigitsEndIs(input: string, i: nat, e: nat)
    requires i <= e < |input| && (forall k | i <= k < e :: IsDigit(input[k])) && !IsDigit(input[e])
    ensures DigitsEnd(input, i) == e
  {
    var e' := DigitsEnd(input, i);
  }

  /** A sign at e, behind digits that make 0 so far. */
  predicate SignAt(input: string, e: nat) {
    e < |input| && (input[e] == '-' || input[e] == '+') && Int(Value(input[..e], 10)) == 0
  }

  /** What the branch does at position e, where the digits end: white space, backspace, delete and the zero byte
      end the number v, which is consumed and echoed with its terminator. */
  function Stopped(input: string, e: nat, v: int): Scanned
    requires e <= |input|
  {
    if e == |input| then Scanned(None, e, input + "EOF\n")
    else if input[e] as int in {0, 8, 10, 13, 32, 127} then Scanned(Some(Int(v)), e + 1, input[..e + 1])
    else Scanned(None, e + 1, input[..e + 1] + [input[e]] + "Not a digit\n")
  }

  lemma StopsAt(input: string, e: nat, num: int, sign: int, flag: bool)
    requires e <= |input| && (e < |input| ==> !IsDigit(input[e]))
    requires e < |input| && (input[e] == '-' || input[e] == '+') ==> flag || num != 0
    ensures Echo(input[..e], Scan(input, e, num, sign, flag)) == Stopped(input, e, num * sign)
  {
    hide Int;
    if e < |input| {
      assert input[..e] + [input[e]] == input[..e + 1];
      assert input[..e] + ([input[e]] + [input[e]] + "Not a digit\n") == input[..e + 1] + [input[e]] + "Not a digit\n";
    } else {
      assert input[..e] == input;
    }
  }

  lemma ScanSign(input: string, i: nat)
    requires i < |input| && (input[i] == '-' || input[i] == '+')
    ensures Scan(input, i, 0, 1, false) == Echo([input[i]], Scan(input, i + 1, 0, if input[i] == '-' then -1 else 1, true))
  {
  }

  lemma SameStop(input: string, e: nat, v: int, w: int)
    requires e <= |input| && Int(v) == Int(w)
    ensures Stopped(input, e, v) == Stopped(input, e, w)
  {
  }

  /** Digits from i to e, with what has been echoed in front. */
  lemma DigitsMean(input: string, i: nat, e: nat, s: int, flag: bool)
    requires i <= e <= |input| && (forall k | i <= k < e :: IsDigit(input[k])) && (e < |input| ==> !IsDigit(input[e]))
    requires s == 1 || s == -1
    requires e < |input| && (input[e] == '-' || input[e] == '+') ==> flag || Int(Value(input[i..e], 10)) != 0
    ensures Echo(input[..i], Scan(input, i, 0, s, flag)) == Stopped(input, e, Value(input[i..e], 10) * s)
  {
    hide Int, Value, Scan, IsDigit;
    var v := Value(input[i..e], 10);
    ScanDigits(input, i, e, s, flag);
    EchoTwice(input[..i], input[i..e], Scan(input, e, Int(v), s, flag));
    assert input[..i] + input[i..e] == input[..e];
    StopsAt(input, e, Int(v), s, flag);
    IntOfLinear(v, s, 0);
    assert Int(v) * s + 0 == Int(v) * s && v * s + 0 == v * s;
    SameStop(input, e, Int(v) * s, v * s);
  }

  /** Behind a sign at e come the number's digits. */
  lemma SignedMeans(input: string, e: nat, s: int)
    requires SignAt(input, e) && s == if input[e] == '-' then -1 else 1
    ensures var e' := DigitsEnd(input, e + 1);
      Echo(input[..e], Scan(input, e, 0, 1, false)) == Stopped(input, e', Value(input[e + 1..e'], 10) * s)
  {
    hide Int, Value, Scan, DigitsEnd, IsDigit, Stopped;
    ScanSign(input, e);
    EchoTwice(input[..e], [input[e]], Scan(input, e + 1, 0, s, true));
    assert input[..e] + [input[e]] == input[..e + 1];
    DigitsMean(input, e + 1, DigitsEnd(input, e + 1), s, true);
  }

  /** What the %d branch makes of any input: digits that make 0 and a sign may come first, and then digits, whose
      number counts; whatever is not a digit then ends it or is refused. */
  lemma ScanMeans(input: string)
    ensures var e := DigitsEnd(input, 0);
      Scan(input, 0, 0, 1, false) ==
        if SignAt(input, e)
        then
          var e' := DigitsEnd(input, e + 1);
          Stopped(input, e', Value(input[e + 1..e'], 10) * if input[e] == '-' then -1 else 1)
        else Stopped(input, e, Value(input[..e], 10))
  {
    hide Int, Value, Scan, DigitsEnd, IsDigit, Stopped;
    var e := DigitsEnd(input, 0);
    assert input[0..e] == input[..e];
    if SignAt(input, e) {
      ScanDigits(input, 0, e, 1, false);
      SignedMeans(input, e, if input[e] == '-' then -1 else 1);
    } else {
      assert input[..0] == "";
      EchoTwice("", "", Scan(input, 0, 0, 1, false));
      DigitsMean(input, 0, e, 1, false);
    }
  }

  lemma DigitsOf(m: nat, digits: string)
    requires digits == if m == 0 then "0" else Text(m, 10, false)
    ensures digits != "" && Value(digits, 10) == m && forall c <- digits :: IsDigit(c)
  {
    DecimalOnly(m);
    TextDenotes(m, 10, false);
    if m > 0 {
      NoLeadingZero(m, 10, false);
    } else {
      ValueOfAppend("", '0', 10);
    }
  }

  lemma InputParts(sign: string, digits: string, end: char, rest: string)
    requires (forall c <- digits :: IsDigit(c)) && !IsDigit(end)
    ensures var input, n, e := sign + digits + [end] + rest, |sign|, |sign| + |digits|;
      && e < |input| && input[..n] == sign && input[n..e] == digits && input[e] == end && input[..e + 1] == sign + digits + [end]
      && DigitsEnd(input, n) == e
  {
    hide IsDigit;
    var input, n, e := sign + digits + [end] + rest, |sign|, |sign| + |digits|;
    forall k | n <= k < e ensures IsDigit(input[k]) { assert input[k] == digits[k - n]; }
    DigitsEndIs(input, n, e);
  }

  /** The decimal form of v, followed by a terminator, scans as v; all of it is consumed and echoed. */
  lemma ScansDecimal(v: int, end: char, rest: string)
    requires -INT_MAX <= v <= INT_MAX && Ends(end)
    ensures Scan(Decimal(v) + [end] + rest, 0, 0, 1, false) == Scanned(Some(v), |Decimal(v)| + 1, Decimal(v) + [end])
  {
    hide Text, Int, DigitValue, Scan, Value, DigitsEnd;
    var m: int, input := Magnitude(v), Decimal(v) + [end] + rest;
    var sign, digits := if v < 0 then "-" else "", if v == 0 then "0" else Text(Magnitude(v), 10, false);
    DigitsOf(Magnitude(v), digits);
    ScanMeans(input);
    SmallInt(v);
    InputParts(sign, digits, end, rest);
    if v < 0 {
      NoValue();
      SmallInt(0);
      assert input[0] == '-' && input[..0] == "";
      DigitsEndIs(input, 0, 0);
      assert m * -1 == v;
    }
  }

  /** printf then scanf. */
  method PrintThenScan(v: int, end: char) returns (r: Option<int>)
    requires -INT_MAX <= v <= INT_MAX && Ends(end)
    ensures r == Some(v)
  {
    hide Run, Scan, Decimal, Int, Ends;
    var word := v % WORD;
    var env := Env(_ => word, _ => "");
    var stream := new Stream();
    SmallInt(v);
    SameInt(v % WORD, v, if v < 0 then 0x1_0000_0000 else 0);
    PrintsDecimal(env, v);
    var res := stream.PrintfCore(env, PERCENT_D);
    var console := new Console(stream.written + [end]);
    ScansDecimal(v, end, "");
    assert Decimal(v) + [end] + "" == stream.written + [end];
    r := console.ScanInt();
  }
}
