/** kernel/kprint.c: `kprintf`. */
module Printf {
  import opened Digits
  import opened Words
  import opened Numerals
  import opened Terminal
  import opened Printer
  import opened Strings

  const PERCENT: Byte := 37
  const LETTER_S: Byte := 115
  const LETTER_D: Byte := 100
  const LETTER_P: Byte := 112
  const LETTER_C: Byte := 99

  /** What a caller passes: a string in memory, an `int`, a pointer or a character. */
  datatype Arg = Str(s: seq<Byte>) | Num(n: int) | Ptr(p: nat) | Chr(c: Byte)

  predicate IsConversion(c: Byte) {
    c == LETTER_S || c == LETTER_D || c == LETTER_P || c == LOWER_X || c == LETTER_C
  }

  /** The argument is of the kind that the conversion reads. */
  ghost predicate Suits(c: Byte, arg: Arg) {
    if c == LETTER_S then arg.Str? && Terminated(arg.s, 0)
    else if c == LETTER_D || c == LOWER_X then arg.Num? && -0x8000_0000 <= arg.n < 0x8000_0000
    else if c == LETTER_P then arg.Ptr? && arg.p < LIMIT_64
    else arg.Chr?
  }

  /** A negative `int` becomes a 64-bit number. */
  function Unsigned64(n: int): (u: nat)
    requires -0x8000_0000 <= n < 0x8000_0000
    ensures u < LIMIT_64
  {
    if n < 0 then n + LIMIT_64 else n
  }

  function Converted(c: Byte, arg: Arg): seq<Byte>
    requires Suits(c, arg)
  {
    if c == LETTER_S then CString(arg.s, 0)
    else if c == LETTER_D then Spelled(Unsigned64(arg.n), 10)
    else if c == LETTER_P then SpelledPointer(arg.p)
    else if c == LOWER_X then Spelled(arg.n % 0x1_0000, 16)
    else [arg.c]
  }

  /** The arguments are those that the format asks for, in order. */
  ghost predicate Matches(format: seq<Byte>, args: seq<Arg>) {
    if |format| < 2 then true
    else if format[0] != PERCENT then Matches(format[1..], args)
    else if format[1] == PERCENT then Matches(format[2..], args)
    else if IsConversion(format[1]) then args != [] && Suits(format[1], args[0]) && Matches(format[2..], args[1..])
    else Matches(format[1..], args)
  }

  /** The text that a format stands for. A percent sign before any other character is dropped,
      and one at the end prints nothing. */
  ghost function Render(format: seq<Byte>, args: seq<Arg>): seq<Byte>
    requires Matches(format, args)
  {
    if format == [] then []
    else if format[0] != PERCENT then [format[0]] + (if |format| == 1 then [] else Render(format[1..], args))
    else if |format| == 1 then []
    else if format[1] == PERCENT then [PERCENT] + Render(format[2..], args)
    else if IsConversion(format[1]) then Converted(format[1], args[0]) + Render(format[2..], args[1..])
    else Render(format[1..], args)
  }

  /** Text with its percent signs doubled. */
  function Escape(text: seq<Byte>): seq<Byte> {
    if text == [] then []
    else EscapeOne(text[0]) + Escape(text[1..])
  }

  /** Doubling percent signs makes any text print as itself. */
  lemma {:induction false} EscapeRenders(text: seq<Byte>)
    ensures Matches(Escape(text), []) && Render(Escape(text), []) == text
  {
    if text != [] {
      var e, rest := Escape(text), Escape(text[1..]);
      EscapeRenders(text[1..]);
      if text[0] == PERCENT {
        assert e[2..] == rest;
      } else {
        assert e[1..] == rest;
        assert |e| == 1 ==> rest == [];
      }
    }
  }

  /** The text still to be printed after a percent sign has been read, or not. */
  ghost predicate Ahead(format: seq<Byte>, flag: bool, args: seq<Arg>) {
    Matches(if flag then [PERCENT] + format else format, args)
  }

  ghost function ToPrint(format: seq<Byte>, flag: bool, args: seq<Arg>): seq<Byte>
    requires Ahead(format, flag, args)
  {
    Render(if flag then [PERCENT] + format else format, args)
  }

  /** An ordinary character. */
  lemma Plain(format: seq<Byte>, args: seq<Arg>)
    requires format != [] && format[0] != PERCENT && Ahead(format, false, args)
    ensures Ahead(format[1..], false, args)
    ensures ToPrint(format, false, args) == [format[0]] + ToPrint(format[1..], false, args)
  {
  }

  /** The percent sign that opens a conversion. */
  lemma Opening(format: seq<Byte>, args: seq<Arg>)
    requires format != [] && format[0] == PERCENT && Ahead(format, false, args)
    ensures Ahead(format[1..], true, args) && ToPrint(format, false, args) == ToPrint(format[1..], true, args)
  {
    assert [PERCENT] + format[1..] == format;
  }

  /** The character after it. */
  lemma Closing(format: seq<Byte>, args: seq<Arg>)
    requires format != [] && Ahead(format, true, args)
    ensures format[0] == PERCENT ==>
      Ahead(format[1..], false, args) && ToPrint(format, true, args) == [PERCENT] + ToPrint(format[1..], false, args)
    ensures IsConversion(format[0]) ==>
      && args != [] && Suits(format[0], args[0]) && Ahead(format[1..], false, args[1..])
      && ToPrint(format, true, args) == Converted(format[0], args[0]) + ToPrint(format[1..], false, args[1..])
    ensures format[0] != PERCENT && !IsConversion(format[0]) ==>
      Ahead(format, false, args) && ToPrint(format, true, args) == ToPrint(format, false, args)
  {
    var whole := [PERCENT] + format;
    assert whole[1..] == format && whole[2..] == format[1..];
  }

  method Convert(t: Vga, c: Byte, arg: Arg)
    requires t.Valid() && IsConversion(c) && Suits(c, arg)
    modifies t, t.term
    ensures t.Valid() && t.page == PutAll(old(t.page), Converted(c, arg))
  {
    hide Put, Shows, PutAll, CString, Spelled;
    if c == LETTER_S {
      KprintS(t, arg.s, 0);
    } else if c == LETTER_D {
      KprintD(t, Unsigned64(arg.n));
    } else if c == LETTER_P {
      KprintP(t, arg.p);
    } else if c == LOWER_X {
      KprintX(t, arg.n % 0x1_0000);
    } else {
      ValidPage(t);
      Single(t.page, arg.c);
      t.PutChar(arg.c);
    }
  }

  method Kprintf(t: Vga, format: seq<Byte>, args: seq<Arg>)
    requires t.Valid() && Matches(format, args)
    modifies t, t.term
    ensures t.Valid() && t.page == PutAll(old(t.page), Render(format, args))
  {
    hide Put, Shows, PutAll, Render, Matches, Converted, ToPrint, Ahead, Suits;
    var i, next, flag := 0, 0, false;
    ghost var printed: seq<Byte> := [];
    StartFormat(t, format, args);
    while i < |format|
      invariant i <= |format| && next <= |args|
      invariant Ahead(format[i..], flag, args[next..])
      invariant t.Valid() && t.page == PutAll(old(t.page), printed)
      invariant Render(format, args) == printed + ToPrint(format[i..], flag, args[next..])
      decreases |format| - i, if flag then 1 else 0
    {
      var c := format[i];
      ghost var f, a := format[i..], args[next..];
      assert f[1..] == format[i + 1..];
      ValidPage(t);
      if c != PERCENT && !flag {
        Plain(f, a);
        PrintOne(old(t.page), printed, c, ToPrint(f[1..], false, a));
        t.PutChar(c);
        printed := printed + [c];
      } else if c == PERCENT && !flag {
        Opening(f, a);
        flag := true;
      } else if c == PERCENT {
        Closing(f, a);
        PrintOne(old(t.page), printed, PERCENT, ToPrint(f[1..], false, a));
        t.PutChar(PERCENT);
        printed := printed + [PERCENT];
        flag := false;
      } else {
        Closing(f, a);
        if !IsConversion(c) {
          flag := false;
          continue;
        }
        assert a[1..] == args[next + 1..];
        ghost var text := Converted(c, args[next]);
        PrintMore(old(t.page), printed, text, ToPrint(f[1..], false, a[1..]));
        Convert(t, c, args[next]);
        printed := printed + text;
        next := next + 1;
        flag := false;
      }
      i := i + 1;
    }
    EndFormat(format[i..], flag, args[next..], printed);
  }

  lemma StartFormat(t: Vga, format: seq<Byte>, args: seq<Arg>)
    requires t.Valid() && Matches(format, args)
    ensures format[0..] == format && args[0..] == args && Ahead(format, false, args)
    ensures Proper(t.page) && t.page == PutAll(t.page, []) && Render(format, args) == [] + ToPrint(format, false, args)
  {
  }

  lemma EndFormat(format: seq<Byte>, flag: bool, args: seq<Arg>, printed: seq<Byte>)
    requires format == [] && Ahead(format, flag, args)
    ensures printed + ToPrint(format, flag, args) == printed
  {
  }

  lemma PrintOne(p: Page, printed: seq<Byte>, c: Byte, rest: seq<Byte>)
    requires Proper(p)
    ensures PutAll(p, printed + [c]) == Put(PutAll(p, printed), c)
    ensures printed + ([c] + rest) == (printed + [c]) + rest
  {
    hide Put;
    assert (printed + [c])[..|printed + [c]| - 1] == printed;
    Regroup(printed, [c], rest);
  }

  lemma PrintMore(p: Page, printed: seq<Byte>, text: seq<Byte>, rest: seq<Byte>)
    requires Proper(p)
    ensures PutAll(p, printed + text) == PutAll(PutAll(p, printed), text)
    ensures printed + (text + rest) == (printed + text) + rest
  {
    hide PutAll;
    PutTwice(p, printed, text);
    Regroup(printed, text, rest);
  }

  lemma Regroup(a: seq<Byte>, b: seq<Byte>, c: seq<Byte>)
    ensures a + (b + c) == (a + b) + c
  {
  }

  // ---- what a format stands for, piece by piece ----

  /** Literal text, in which percent signs are doubled, or a conversion with its argument. */
  datatype Piece = Literal(text: seq<Byte>) | Conversion(c: Byte, arg: Arg)

  ghost predicate Suitable(piece: Piece) {
    piece.Conversion? ==> IsConversion(piece.c) && Suits(piece.c, piece.arg)
  }

  function FormatOf(pieces: seq<Piece>): seq<Byte> {
    if pieces == [] then []
    else (match pieces[0] case Literal(text) => Escape(text) case Conversion(c, _) => [37, c]) + FormatOf(pieces[1..])
  }

  function ArgsOf(pieces: seq<Piece>): seq<Arg> {
    if pieces == [] then []
    else (match pieces[0] case Literal(_) => [] case Conversion(_, arg) => [arg]) + ArgsOf(pieces[1..])
  }

  /** The text is the numeral of n in this base, with digits 0 to 9 and A to F. */
  ghost predicate Spells(text: seq<Byte>, n: nat, base: Base) {
    exists ds: seq<nat> :: Canonical(ds, base) && Evaluate(ds, base) == n && HasDigits(text, ds)
  }

  ghost predicate HasDigits(text: seq<Byte>, ds: seq<nat>) {
    |text| == |ds| && forall i :: 0 <= i < |ds| ==> ds[i] < 16 && text[i] == HexDigit(ds[i])
  }

  function HexDigit(d: nat): int
    requires d < 16
  {
    "0123456789ABCDEF"[d] as int
  }

  lemma DigitLiteral(d: nat)
    requires d < 16
    ensures DigitChar(d) == HexDigit(d)
  {
    assert d == 0 || d == 1 || d == 2 || d == 3 || d == 4 || d == 5 || d == 6 || d == 7 || d == 8 || d == 9
        || d == 10 || d == 11 || d == 12 || d == 13 || d == 14 || d == 15;
  }

  /** What a conversion prints: a string (s) up to its terminator; an int in decimal (d), a negative one as the
      64-bit number it is congruent to; the low 16 bits of an int in hexadecimal (x); a pointer (p) in hexadecimal
      after 0x; a character (c) as it is. */
  ghost predicate Prints(c: Byte, arg: Arg, text: seq<Byte>) {
    match arg
    case Str(s) => c == 's' as int && |text| < |s| && text == s[..|text|] && 0 !in text && s[|text|] == 0
    case Num(n) =>
      if c == 'd' as int then Spells(text, n % 0x1_0000_0000_0000_0000, 10)
      else c == 'x' as int && Spells(text, n % 0x1_0000, 16)
    case Ptr(p) => c == 'p' as int && |text| >= 2 && text[..2] == [48, 120] && Spells(text[2..], p, 16)
    case Chr(x) => c == 'c' as int && text == [x]
  }

  /** The texts of the pieces, one for each. */
  ghost predicate Texts(pieces: seq<Piece>, texts: seq<seq<Byte>>) {
    && |texts| == |pieces|
    && forall i :: 0 <= i < |pieces| ==>
         if pieces[i].Literal? then texts[i] == pieces[i].text else Prints(pieces[i].c, pieces[i].arg, texts[i])
  }

  function Concat(texts: seq<seq<Byte>>): seq<Byte> {
    if texts == [] then [] else texts[0] + Concat(texts[1..])
  }

  lemma {:induction false} TextDigits(ds: seq<nat>)
    requires AreDigits(ds, 16)
    ensures HasDigits(Text(ds), ds)
  {
    hide HexDigit, DigitChar;
    if ds != [] {
      var n := |ds| - 1;
      TextDigits(ds[..n]);
      DigitLiteral(ds[n]);
      assert forall i :: 0 <= i < n ==> ds[..n][i] == ds[i];
    }
  }

  lemma SpelledSpells(n: nat, base: Base)
    requires base == 10 || base == 16
    ensures Spells(Spelled(n, base), n, base)
  {
    hide Numeral, Evaluate, Text;
    NumeralEvaluates(n, base);
    TextDigits(Numeral(n, base));
  }

  lemma ConvertedPrints(c: Byte, arg: Arg)
    requires IsConversion(c) && Suits(c, arg)
    ensures Prints(c, arg, Converted(c, arg))
  {
    hide Spelled, Spells, CString;
    match arg
    case Str(s) =>
      CStringPrefix(s, 0);
    case Num(n) =>
      if c == LETTER_D {
        SpelledSpells(Unsigned64(n), 10);
      } else {
        SpelledSpells(n % 0x1_0000, 16);
      }
    case Ptr(p) =>
      SpelledSpells(p, 16);
      assert SpelledPointer(p)[..2] == PREFIX && SpelledPointer(p)[2..] == Spelled(p, 16);
    case Chr(_) =>
  }

  lemma {:induction false} EscapeThen(text: seq<Byte>, format: seq<Byte>, args: seq<Arg>)
    requires Matches(format, args)
    ensures Matches(Escape(text) + format, args) && Render(Escape(text) + format, args) == text + Render(format, args)
  {
    hide Matches, Render, Escape;
    EscapeUnfold(text);
    if text == [] {
      assert [] + format == format;
      assert [] + Render(format, args) == Render(format, args);
    } else {
      var head, more := EscapeOne(text[0]), Escape(text[1..]);
      EscapeThen(text[1..], format, args);
      Regroup(head, more, format);
      Regroup([text[0]], text[1..], Render(format, args));
      if text[0] == PERCENT {
        RenderPercent(more + format, args);
      } else {
        RenderPlain(text[0], more + format, args);
      }
    }
  }

  function EscapeOne(c: Byte): seq<Byte> { if c == PERCENT then [PERCENT, PERCENT] else [c] }

  lemma EscapeUnfold(text: seq<Byte>)
    ensures text == [] ==> Escape(text) == []
    ensures text != [] ==> Escape(text) == EscapeOne(text[0]) + Escape(text[1..]) && text == [text[0]] + text[1..]
  {
  }

  lemma RenderPlain(c: Byte, rest: seq<Byte>, args: seq<Arg>)
    requires c != PERCENT && Matches(rest, args)
    ensures Matches([c] + rest, args) && Render([c] + rest, args) == [c] + Render(rest, args)
  {
    assert ([c] + rest)[1..] == rest;
  }

  lemma RenderPercent(rest: seq<Byte>, args: seq<Arg>)
    requires Matches(rest, args)
    ensures Matches([PERCENT, PERCENT] + rest, args)
    ensures Render([PERCENT, PERCENT] + rest, args) == [PERCENT] + Render(rest, args)
  {
    assert ([PERCENT, PERCENT] + rest)[2..] == rest;
  }

  /** A format prints its pieces in order: text as it is, each conversion its argument. */
  lemma {:induction false} PieceByPiece(pieces: seq<Piece>) returns (texts: seq<seq<Byte>>)
    requires forall i :: 0 <= i < |pieces| ==> Suitable(pieces[i])
    ensures Matches(FormatOf(pieces), ArgsOf(pieces)) && Texts(pieces, texts)
    ensures Render(FormatOf(pieces), ArgsOf(pieces)) == Concat(texts)
  {
    hide Prints, Converted, Escape;
    if pieces == [] {
      texts := [];
    } else {
      var more := PieceByPiece(pieces[1..]);
      var format, args := FormatOf(pieces[1..]), ArgsOf(pieces[1..]);
      var text;
      match pieces[0] {
        case Literal(t) =>
          EscapeThen(t, format, args);
          text := t;
          assert ArgsOf(pieces) == args;
        case Conversion(c, arg) =>
          ConvertedPrints(c, arg);
          var whole := [PERCENT, c] + format;
          assert whole[2..] == format && ([arg] + args)[1..] == args;
          text := Converted(c, arg);
      }
      texts := [text] + more;
      assert texts[1..] == more;
      assert forall i :: 1 <= i < |pieces| ==> pieces[i] == pieces[1..][i - 1] && texts[i] == more[i - 1];
    }
  }

  /** A percent sign before any other character is dropped, and so is one at the end. */
  lemma StrayPercent(c: Byte, format: seq<Byte>, args: seq<Arg>)
    requires c != '%' as int && c !in [115, 100, 112, 120, 99] && Matches([37, c] + format, args)
    ensures Matches([c] + format, args) && Render([37, c] + format, args) == Render([c] + format, args)
    ensures Render([37], []) == []
  {
    assert ([37, c] + format)[1..] == [c] + format;
  }
}
