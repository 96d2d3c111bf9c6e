/** What printf does with a whole format: texts and directives as one writes them, one after another. */
module PrintfFormat {
  import opened Options
  import opened Printf
  import opened PrintfText

  /** Text and directives in turn; the last text may be empty, as may those between two directives. */
  datatype Format = Last(text: string) | Before(text: string, d: Spec, p: Prefix, rest: Format)

  /** Text as one writes it in a format: each `%` doubled. */
  function Escaped(s: string): string {
    if s == "" then "" else (if s[0] == '%' then "%%" else [s[0]]) + Escaped(s[1..])
  }

  function Written(f: Format): string {
    match f
    case Last(text) => Escaped(text)
    case Before(text, d, _, rest) => Escaped(text) + ("%" + Render(d) + Written(rest))
  }

  ghost predicate FormatOk(f: Format) { f.Before? ==> SpecOk(f.d, f.p) && FormatOk(f.rest) }

  /** What one directive contributes, and the next argument. */
  datatype Piece = Piece(bytes: string, stores: seq<Store>, j: nat)

  /** A directive at argument j, cnt bytes having been written. */
  function PieceFor(env: Env, d: Spec, p: Prefix, j: nat, cnt: int): (r: Option<Piece>)
    requires 0 <= cnt <= INT_MAX && NextState(p, d.letter).Take?
    ensures r.Some? ==> cnt + |r.value.bytes| <= INT_MAX
  {
    var w := WidthOf(env, d.width, FlagSet(d.flags), j);
    if w == None then None
    else
      var prec := PrecisionOf(env, d.precision, w.value.2);
      var x := PopArg(NextState(p, d.letter).ty, env.args(prec.2));
      if d.letter == 'n' then Some(Piece("", [StoreCount(x, p, cnt)], prec.2 + 1))
      else
        match FieldFor(env, d.letter, x, Settle(w.value.0), w.value.1, prec.0, prec.1, cnt)
        case None => None
        case Some(s) => Some(Piece(s, [], prec.2 + 1))
  }

  lemma WidthStands(env: Env, d: Spec, p: Prefix, j: nat, cnt: int)
    requires 0 <= cnt <= INT_MAX && NextState(p, d.letter).Take? && PieceFor(env, d, p, j, cnt).Some?
    ensures WidthOf(env, d.width, FlagSet(d.flags), j).Some?
  {
    hide WidthOf, PrecisionOf, FlagSet, PopArg, NextState, FieldFor;
  }

  /** A number conversion writes the text of the one number that its argument stands for, with the written flags, of
      which `-` and a precision cancel `0`, and the written width and precision. */
  lemma NumberPiece(env: Env, d: Spec, p: Prefix, j: nat, cnt: int)
    returns (v: int, lead: string, zeros: string, digits: string, trail: string)
    requires 0 <= cnt <= INT_MAX && NextState(p, d.letter).Take? && d.letter in "diuoxXp" && PieceFor(env, d, p, j, cnt).Some?
    ensures WidthOf(env, d.width, FlagSet(d.flags), j).Some?
    ensures var w := WidthOf(env, d.width, FlagSet(d.flags), j).value;
      var prec := PrecisionOf(env, d.precision, w.2);
      var piece := PieceFor(env, d, p, j, cnt).value;
      && piece.stores == [] && piece.j == prec.2 + 1
      && StandsFor(p, d.letter, env.args(prec.2), v)
      && NumberText(piece.bytes, d.letter, v, w.0.(zero := w.0.zero && !w.0.left && !prec.1), w.1, prec.0, lead, zeros, digits, trail)
  {
    hide WidthOf, PrecisionOf, NextState, PopArg, FieldFor, StandsFor, NumberText, Reading, FlagSet;
    WidthStands(env, d, p, j, cnt);
    var w := WidthOf(env, d.width, FlagSet(d.flags), j).value;
    var prec := PrecisionOf(env, d.precision, w.2);
    PrecisionRange(env, d, w.2);
    var x := PopArg(NextState(p, d.letter).ty, env.args(prec.2));
    PoppedWord(p, d.letter, env.args(prec.2));
    v := Reading(d.letter, x);
    lead, zeros, digits, trail := NumberField(env, d.letter, x, Settle(w.0), w.1, prec.0, prec.1, cnt);
  }

  /** The characters of a %c or %s: its argument's low byte, or its string up to the precision. */
  function Characters(env: Env, letter: char, raw: nat, p: int): string {
    if letter == 'c' then [(raw % 0x100) as char]
    else
      var text: string := if raw % 0x1_0000_0000_0000_0000 == 0 then "(null)" else env.strings(raw % 0x1_0000_0000_0000_0000);
      if p < 0 || |text| < p then text else text[..p]
  }

  lemma PoppedPointer(p: Prefix, letter: char, raw: nat)
    requires NextState(p, letter).Take? && (letter == 's' || letter == 'n')
    ensures PopArg(NextState(p, letter).ty, raw) == raw % 0x1_0000_0000_0000_0000
  {
  }

  /** %c and %s write those characters, with blanks up to the width, on the right with `-`; never zeros. */
  lemma TextPiece(env: Env, d: Spec, p: Prefix, j: nat, cnt: int) returns (lead: string, trail: string)
    requires 0 <= cnt <= INT_MAX && NextState(p, d.letter).Take? && d.letter in "cs" && PieceFor(env, d, p, j, cnt).Some?
    ensures WidthOf(env, d.width, FlagSet(d.flags), j).Some?
    ensures var w := WidthOf(env, d.width, FlagSet(d.flags), j).value;
      var prec := PrecisionOf(env, d.precision, w.2);
      var piece, body := PieceFor(env, d, p, j, cnt).value, Characters(env, d.letter, env.args(prec.2), prec.0);
      && piece.stores == [] && piece.j == prec.2 + 1
      && piece.bytes == lead + body + trail && AllAre(lead, ' ') && AllAre(trail, ' ')
      && |piece.bytes| == AtLeast(w.1, |body|) && (if w.0.left then lead == "" else trail == "")
  {
    hide WidthOf, PrecisionOf, PopArg, FieldFor, FlagSet, NextState;
    WidthStands(env, d, p, j, cnt);
    var w := WidthOf(env, d.width, FlagSet(d.flags), j).value;
    var prec := PrecisionOf(env, d.precision, w.2);
    var raw := env.args(prec.2);
    var x := PopArg(NextState(p, d.letter).ty, raw);
    var body;
    lead, body, trail := TextField(env, d.letter, x, Settle(w.0), w.1, prec.0, prec.1, cnt);
    if d.letter == 'c' { PoppedByte(p, raw); } else { PoppedPointer(p, d.letter, raw); }
  }

  /** They fail exactly if the bytes written would pass INT_MAX. */
  lemma TextFailsIff(env: Env, d: Spec, p: Prefix, j: nat, cnt: int)
    requires 0 <= cnt <= INT_MAX && NextState(p, d.letter).Take? && d.letter in "cs" && WidthOf(env, d.width, FlagSet(d.flags), j).Some?
    ensures var w := WidthOf(env, d.width, FlagSet(d.flags), j).value;
      var prec := PrecisionOf(env, d.precision, w.2);
      var body := Characters(env, d.letter, env.args(prec.2), prec.0);
      PieceFor(env, d, p, j, cnt) == None <==> AtLeast(w.1, |body|) > INT_MAX - cnt
  {
    hide WidthOf, PrecisionOf, PopArg, FlagSet, NextState, FieldOf;
    var w := WidthOf(env, d.width, FlagSet(d.flags), j).value;
    var prec := PrecisionOf(env, d.precision, w.2);
    var raw := env.args(prec.2);
    var x := PopArg(NextState(p, d.letter).ty, raw);
    if d.letter == 'c' { PoppedByte(p, raw); } else { PoppedPointer(p, d.letter, raw); }
    var it := ItemFor(env, d.letter, x, prec.0, prec.1, Settle(w.0));
    if it.Some? { NoFieldIff(it.value, w.1, cnt); }
  }

  /** %n writes nothing, and stores the number of bytes written before it, modulo the size of the type that the modifier
      names: 32 bits without one, 8 for hh, 16 for h, else 64. */
  lemma CountPiece(env: Env, d: Spec, p: Prefix, j: nat, cnt: int)
    requires 0 <= cnt <= INT_MAX && NextState(p, d.letter).Take? && d.letter == 'n' && PieceFor(env, d, p, j, cnt).Some?
    ensures WidthOf(env, d.width, FlagSet(d.flags), j).Some?
    ensures var prec := PrecisionOf(env, d.precision, WidthOf(env, d.width, FlagSet(d.flags), j).value.2);
      var at, m := env.args(prec.2) % 0x1_0000_0000_0000_0000, Modulus(p, 'u');
      var bytes := if m == 0x100 then 1 else if m == 0x1_0000 then 2 else if m == 0x1_0000_0000 then 4 else 8;
      PieceFor(env, d, p, j, cnt) == Some(Piece("", [Store(at, bytes, cnt % m)], prec.2 + 1))
  {
    hide WidthOf, PrecisionOf, FlagSet, PopArg, NextState;
    WidthStands(env, d, p, j, cnt);
    var prec := PrecisionOf(env, d.precision, WidthOf(env, d.width, FlagSet(d.flags), j).value.2);
    PoppedPointer(p, 'n', env.args(prec.2));
    CountStored(env.args(prec.2) % 0x1_0000_0000_0000_0000, p, cnt);
  }

  /** What the format means: bytes and stores, or None where it cannot be printed. */
  function Meaning(env: Env, f: Format, j: nat, cnt: int): Option<(string, seq<Store>)>
    requires 0 <= cnt <= INT_MAX && FormatOk(f)
  {
    if |f.text| > INT_MAX - cnt then None
    else
      match f
      case Last(text) => Some((text, []))
      case Before(text, d, p, rest) =>
        match PieceFor(env, d, p, j, cnt + |text|)
        case None => None
        case Some(piece) =>
          match Meaning(env, rest, piece.j, cnt + |text| + |piece.bytes|)
          case None => None
          case Some(m) => Some((text + piece.bytes + m.0, piece.stores + m.1))
  }

  // ----- text

  /** The run from position i on, c bytes having been written. */
  function From(env: Env, fmt: CString, i: nat, j: nat, c: int): Outcome
    requires i <= |fmt| && 0 <= c <= INT_MAX
  {
    Run(env, fmt, i, j, c, 0)
  }

  /** o prints what o' does with s in front. */
  predicate Prints(o: Outcome, s: string, o': Outcome) {
    && (o.result.Printed? <==> o'.result.Printed?)
    && (o.result.Printed? ==> o == Outcome(s + o'.bytes, o'.stores, o'.result))
  }

  lemma FromStep(env: Env, fmt: CString, i: nat, j: nat, c: int)
    requires i <= |fmt| && 0 <= c <= INT_MAX
    ensures From(env, fmt, i, j, c) ==
      if i == |fmt| then Outcome("", [], Printed(c))
      else
        var t := TurnAt(env, fmt, i, j, c);
        if t.Stop? then Outcome("", [], t.result)
        else
          var rest := From(env, fmt, t.next, t.j, c + |t.bytes|);
          Outcome(t.bytes + rest.bytes, t.stores + rest.stores, rest.result)
  {
    hide TurnAt, Run;
    RunStep(env, fmt, i, j, c, 0);
    if i < |fmt| {
      var t := TurnAt(env, fmt, i, j, c);
      if t.Go? {
        RunStep(env, fmt, t.next, t.j, c, |t.bytes|);
        RunStep(env, fmt, t.next, t.j, c + |t.bytes|, 0);
      }
    }
  }

  lemma TextStep(env: Env, fmt: CString, i: nat, j: nat, c: int)
    requires i < |fmt| && 0 <= c <= INT_MAX && TextTurn(fmt, i, j, c) != Go("", [], i, j)
    ensures var t := TextTurn(fmt, i, j, c);
      if t.Stop? then !From(env, fmt, i, j, c).result.Printed?
      else Prints(From(env, fmt, i, j, c), t.bytes, From(env, fmt, t.next, j, c + |t.bytes|))
  {
    hide TextTurn, DirectiveTurn, From;
    FromStep(env, fmt, i, j, c);
  }

  lemma PrintsMore(a: Outcome, s: string, b: Outcome, t: string, c: Outcome)
    requires Prints(a, s, b) && Prints(b, t, c)
    ensures Prints(a, s + t, c)
  {
    assert s + (t + c.bytes) == s + t + c.bytes;
  }

  /** Two turns that end at the same place, the first writing one character more, are one after the other. */
  lemma OneCharMore(env: Env, fmt: CString, i: nat, i': nat, ch: char, j: nat, c: int)
    requires i < i' <= |fmt| && 0 <= c < INT_MAX
    requires var t, t' := TextTurn(fmt, i, j, c), TextTurn(fmt, i', j, c + 1);
      if t.Stop? then i' < |fmt| && t'.Stop?
      else t == Go([ch], [], i', j) || (i' < |fmt| && t'.Go? && t'.bytes != "" && t == Go([ch] + t'.bytes, [], t'.next, j))
    ensures Prints(From(env, fmt, i, j, c), [ch], From(env, fmt, i', j, c + 1))
  {
    hide TextTurn, From;
    var t, t' := TextTurn(fmt, i, j, c), TextTurn(fmt, i', j, c + 1);
    TextStep(env, fmt, i, j, c);
    if t != Go([ch], [], i', j) {
      TextStep(env, fmt, i', j, c + 1);
      if t.Go? { assert [ch] + t'.bytes != "" && forall s: string :: [ch] + (t'.bytes + s) == [ch] + t'.bytes + s; }
    }
  }

  lemma {:induction false} PairsArePercents(fmt: CString, e: nat)
    requires e <= |fmt|
    ensures forall k | e <= k < e + 2 * Pairs(fmt, e) :: fmt[k] == '%'
    decreases |fmt| - e
  {
    if CharAt(fmt, e) == '%' && CharAt(fmt, e + 1) == '%' { PairsArePercents(fmt, e + 2); }
  }

  /** An ordinary character is written. */
  lemma OrdinaryChar(env: Env, fmt: CString, i: nat, j: nat, c: int)
    requires i < |fmt| && fmt[i] != '%' && 0 <= c <= INT_MAX
    ensures if c == INT_MAX then !From(env, fmt, i, j, c).result.Printed?
            else Prints(From(env, fmt, i, j, c), [fmt[i]], From(env, fmt, i + 1, j, c + 1))
  {
    hide From, TurnAt, Pairs;
    var e := TextEnd(fmt, i);
    var z := e + Pairs(fmt, e);
    assert TextEnd(fmt, i + 1) == e;
    assert fmt[i..z] == [fmt[i]] + fmt[i + 1..z];
    if c == INT_MAX {
      TextStep(env, fmt, i, j, c);
    } else {
      if z == i + 1 { assert fmt[i + 1..z] == ""; }
      OneCharMore(env, fmt, i, i + 1, fmt[i], j, c);
    }
  }

  /** A `%%` is written as `%`. */
  lemma DoublePercent(env: Env, fmt: CString, i: nat, j: nat, c: int)
    requires i + 1 < |fmt| && fmt[i] == '%' && fmt[i + 1] == '%' && 0 <= c <= INT_MAX
    ensures if c == INT_MAX then !From(env, fmt, i, j, c).result.Printed?
            else Prints(From(env, fmt, i, j, c), "%", From(env, fmt, i + 2, j, c + 1))
  {
    hide From, TurnAt;
    var k := Pairs(fmt, i);
    assert TextEnd(fmt, i) == i && k == 1 + Pairs(fmt, i + 2);
    PairsArePercents(fmt, i);
    if c == INT_MAX {
      TextStep(env, fmt, i, j, c);
    } else {
      assert fmt[i..i + k] == ['%'] + fmt[i + 2..i + 1 + k];
      if k == 1 { assert fmt[i..i + k] == ['%']; } else { assert TextEnd(fmt, i + 2) == i + 2; }
      OneCharMore(env, fmt, i, i + 2, '%', j, c);
    }
  }

  predicate TextEndsAt(fmt: CString, i: nat) {
    i == |fmt| || (i < |fmt| && fmt[i] == '%' && CharAt(fmt, i + 1) != '%')
  }

  lemma NothingAt(fmt: CString, i: nat)
    requires At(fmt, i, "")
    ensures i <= |fmt|
  {
  }

  lemma NothingPrinted(o: Outcome)
    ensures Prints(o, "", o)
  {
    assert "" + o.bytes == o.bytes;
  }

  /** Text is written as it is meant. */
  lemma {:induction false} TextPrints(env: Env, fmt: CString, i: nat, j: nat, c: int, s: string)
    requires At(fmt, i, Escaped(s)) && TextEndsAt(fmt, i + |Escaped(s)|) && 0 <= c <= INT_MAX
    ensures if |s| > INT_MAX - c then !From(env, fmt, i, j, c).result.Printed?
            else Prints(From(env, fmt, i, j, c), s, From(env, fmt, i + |Escaped(s)|, j, c + |s|))
    decreases |s|
  {
    hide From, At, TextEndsAt;
    if s == "" {
      NothingAt(fmt, i);
      NothingPrinted(From(env, fmt, i, j, c));
    } else {
      var first, rest := if s[0] == '%' then "%%" else [s[0]], Escaped(s[1..]);
      AtParts(fmt, i, first, rest);
      AtHead(fmt, i, first);
      if s[0] == '%' {
        AtHead(fmt, i + 1, first[1..]);
        DoublePercent(env, fmt, i, j, c);
      } else {
        OrdinaryChar(env, fmt, i, j, c);
      }
      assert s == [s[0]] + s[1..];
      if c < INT_MAX {
        var i' := i + |first|;
        TextPrints(env, fmt, i', j, c + 1, s[1..]);
        if |s| <= INT_MAX - c {
          PrintsMore(From(env, fmt, i, j, c), [s[0]], From(env, fmt, i', j, c + 1), s[1..],
                     From(env, fmt, i' + |rest|, j, c + 1 + |s[1..]|));
        }
      }
    }
  }

  // ----- directives

  /** A directive's turn gives its piece, or stops. */
  lemma DirectiveGives(env: Env, fmt: CString, i: nat, j: nat, c: int, d: Spec, p: Prefix)
    requires SpecOk(d, p) && NextState(p, d.letter).Take? && i < |fmt| && fmt[i] == '%' && At(fmt, i + 1, Render(d)) && 0 <= c <= INT_MAX
    ensures var t, piece := TurnAt(env, fmt, i, j, c), PieceFor(env, d, p, j, c);
      if piece == None then t.Stop?
      else t == Go(piece.value.bytes, piece.value.stores, i + 1 + |Render(d)|, piece.value.j)
  {
    hide TextTurn, DirectiveAt, WidthOf, PrecisionOf, SpecOk, At, NextState, PopArg, FieldFor, Settle, Render, FlagSet;
    DirectiveStarts(fmt, i, j, c, d, p);
    DirectiveRecognised(env, fmt, i + 1, j, d, p);
  }

  /** Where a directive and the rest of the format stand, i being the place of its `%`. */
  ghost predicate DirectiveStands(fmt: CString, i: nat, f: Format)
    requires f.Before?
  {
    && i < |fmt| && fmt[i] == '%' && CharAt(fmt, i + 1) != '%' && At(fmt, i + 1, Render(f.d))
    && At(fmt, i + 1 + |Render(f.d)|, Written(f.rest)) && NextState(f.p, f.d.letter).Take?
  }

  lemma PlainIs(c: char)
    requires Plain(c)
    ensures c != '%'
  {
  }

  lemma SplitDirective(fmt: CString, i: nat, f: Format)
    requires f.Before? && At(fmt, i, "%" + Render(f.d) + Written(f.rest)) && SpecOk(f.d, f.p)
    ensures DirectiveStands(fmt, i, f)
  {
    hide At, SpecOk, Render, NextState, Written, CharAt, Plain;
    var s, t := Render(f.d), Written(f.rest);
    AtParts(fmt, i, "%" + s, t);
    AtParts(fmt, i, "%", s);
    AtHead(fmt, i, "%");
    RenderPlain(f.d, f.p);
    AtHead(fmt, i + 1, s);
    LetterTaken(f.d, f.p);
    PlainIs(s[0]);
  }

  lemma SplitWritten(fmt: CString, i: nat, f: Format)
    requires At(fmt, i, Written(f)) && i + |Written(f)| == |fmt| && FormatOk(f)
    ensures var i' := i + |Escaped(f.text)|;
      && At(fmt, i, Escaped(f.text)) && TextEndsAt(fmt, i') && (f.Last? ==> i' == |fmt|)
      && (f.Before? ==> DirectiveStands(fmt, i', f) && i' + 1 + |Render(f.d)| + |Written(f.rest)| == |fmt|)
  {
    hide At, SpecOk, Escaped, Render, NextState, CharAt, Plain;
    if f.Before? {
      AtParts(fmt, i, Escaped(f.text), "%" + Render(f.d) + Written(f.rest));
      SplitDirective(fmt, i + |Escaped(f.text)|, f);
    }
  }

  lemma {:induction false} FormatPrints(env: Env, fmt: CString, i: nat, j: nat, c: int, f: Format)
    requires At(fmt, i, Written(f)) && i + |Written(f)| == |fmt| && FormatOk(f) && 0 <= c <= INT_MAX
    ensures var o, m := From(env, fmt, i, j, c), Meaning(env, f, j, c);
      && (o.result.Printed? <==> m.Some?)
      && (m.Some? ==> o.bytes == m.value.0 && o.stores == m.value.1)
    decreases f
  {
    hide From, At, SpecOk, Escaped, Render, TurnAt, PieceFor, NextState, Written;
    SplitWritten(fmt, i, f);
    TextPrints(env, fmt, i, j, c, f.text);
    var i' := i + |Escaped(f.text)|;
    if |f.text| <= INT_MAX - c {
      var c' := c + |f.text|;
      FromStep(env, fmt, i', j, c');
      if f.Last? {
        assert f.text + "" == f.text;
      } else {
        DirectiveGives(env, fmt, i', j, c', f.d, f.p);
        var piece := PieceFor(env, f.d, f.p, j, c');
        if piece.Some? {
          FormatPrints(env, fmt, i' + 1 + |Render(f.d)|, piece.value.j, c' + |piece.value.bytes|, f.rest);
          assert forall s: string :: f.text + (piece.value.bytes + s) == f.text + piece.value.bytes + s;
        }
      }
    }
  }

  /** printf prints every format that one can write: the texts and the directives' fields in order, taking the arguments in
      order and storing at each %n the bytes written before it; it fails exactly where a piece cannot be printed. */
  lemma FormatMeans(env: Env, fmt: CString, f: Format)
    requires fmt == Written(f) && FormatOk(f)
    ensures var o, m := Run(env, fmt, 0, 0, 0, 0), Meaning(env, f, 0, 0);
      && (o.result.Printed? <==> m.Some?)
      && (m.Some? ==> o == Outcome(m.value.0, m.value.1, Printed(|m.value.0|)))
  {
    hide Run, Meaning, Written;
    FormatPrints(env, fmt, 0, 0, 0, f);
    ResultCountsBytes(env, fmt, 0, 0, 0, 0);
  }
}
