/** kernel/kprint.c: printing strings and numbers to the terminal. */
module Printer {
  import opened Digits
  import opened Words
  import opened Numerals
  import opened Terminal

  const NUL: Byte := 0
  const ZERO_CHAR: Byte := 48
  const UPPER_A: Byte := 65
  const LOWER_X: Byte := 120

  /** The C string that starts at this index: up to the first NUL. */
  function CString(s: seq<Byte>, start: nat): (text: seq<Byte>)
    decreases |s| - start
  {
    if start < |s| && s[start] != NUL then [s[start]] + CString(s, start + 1) else []
  }

  ghost predicate Terminated(s: seq<Byte>, start: nat) {
    exists i :: start <= i < |s| && s[i] == NUL
  }

  lemma {:induction false} CStringIs(s: seq<Byte>, start: nat, end: nat)
    requires start <= end < |s| && s[end] == NUL && NUL !in s[start..end]
    ensures CString(s, start) == s[start..end]
    decreases end - start
  {
    if start < end {
      assert s[start..end] == [s[start]] + s[start + 1..end];
      CStringIs(s, start + 1, end);
    }
  }

  function DigitChar(d: nat): (c: Byte)
    requires d < 16
    ensures c != NUL
  {
    if d < 10 then ZERO_CHAR + d else UPPER_A + (d - 10)
  }

  /** A numeral spelled out. */
  function Text(ds: seq<nat>): (text: seq<Byte>)
    requires AreDigits(ds, 16)
    ensures |text| == |ds| && NUL !in text
  {
    if ds == [] then [] else Text(ds[..|ds| - 1]) + [DigitChar(ds[|ds| - 1])]
  }

  /** How a number is printed in base 10 or 16. */
  function Spelled(n: nat, base: Base): (text: seq<Byte>)
    requires base <= 16
    ensures |text| > 0 && NUL !in text
  {
    Text(Numeral(n, base))
  }

  /** What remains to be converted when the quotient is n: nothing if it is zero. */
  function Remaining(n: nat, base: Base): (text: seq<Byte>)
    requires base <= 16
    ensures n > 0 ==> |text| > 0
    ensures NUL !in text
  {
    if n == 0 then [] else Spelled(n, base)
  }

  lemma NextDigit(n: nat, base: Base)
    requires base <= 16 && n > 0
    ensures Remaining(n, base) == Remaining(n / base, base) + [DigitChar(n % base)]
  {
    if n < base {
      SmallDigit(n, base);
      assert Numeral(n, base)[..0] == [];
    } else {
      QuotientPositive(n, base);
      assert Numeral(n, base)[..|Numeral(n, base)| - 1] == Numeral(n / base, base);
    }
  }

  lemma SmallDigit(n: nat, base: Base)
    requires n < base
    ensures n / base == 0 && n % base == n
  {
  }

  const BUFFER := 21
  const LIMIT_64 := 0x1_0000_0000_0000_0000

  /** 64-bit numbers fit the buffer: 20 decimal digits or 16 hexadecimal ones. */
  lemma FitsBuffer(n: nat, base: Base)
    requires n < LIMIT_64 && (base == 10 || base == 16)
    ensures |Spelled(n, base)| <= 20
  {
    if base == 10 {
      DecimalRange();
      NumeralLength(n, 10, 20);
    } else {
      HexRange();
      NumeralLength(n, 16, 16);
    }
  }

  // ---- the code ----

  method KprintS(t: Vga, s: seq<Byte>, start: nat)
    requires t.Valid() && Terminated(s, start)
    modifies t, t.term
    ensures t.Valid() && t.page == PutAll(old(t.page), CString(s, start))
  {
    hide Put, Shows;
    var i := start;
    ghost var text: seq<Byte> := [];
    while s[i] != NUL
      invariant start <= i && Terminated(s, i)
      invariant t.Valid() && t.page == PutAll(old(t.page), text)
      invariant CString(s, start) == text + CString(s, i)
      decreases |s| - i
    {
      assert (text + [s[i]])[..|text + [s[i]]| - 1] == text;
      assert CString(s, i) == [s[i]] + CString(s, i + 1);
      assert text + CString(s, i) == (text + [s[i]]) + CString(s, i + 1);
      t.PutChar(s[i]);
      text := text + [s[i]];
      i := i + 1;
    }
    assert text + CString(s, i) == text;
  }

  /** The buffer holds the digits converted so far at its end, and is still empty before them. */
  ghost predicate Filling(buffer: seq<Byte>, curr: int, value: nat, base: Base, all: seq<Byte>) {
    && |buffer| == BUFFER && base <= 16 && -1 <= curr < 20 && buffer[20] == NUL
    && all == Remaining(value, base) + buffer[curr + 1..20]
    && (forall i :: 0 <= i <= curr ==> buffer[i] == NUL)
    && |all| <= 20
  }

  lemma FillNext(buffer: seq<Byte>, curr: int, value: nat, base: Base, all: seq<Byte>)
    requires Filling(buffer, curr, value, base, all) && value > 0
    ensures curr >= 0
    ensures Filling(buffer[curr := DigitChar(value % base)], curr - 1, value / base, base, all)
  {
    hide Remaining, DigitChar;
    NextDigit(value, base);
    var next := buffer[curr := DigitChar(value % base)];
    assert next[curr..20] == [DigitChar(value % base)] + buffer[curr + 1..20];
  }

  /** The conversion is over: the text starts at the first byte that is not NUL. */
  lemma Filled(buffer: seq<Byte>, curr: int, base: Base, all: seq<Byte>)
    requires Filling(buffer, curr, 0, base, all) && |all| > 0 && NUL !in all
    ensures curr + 1 < 20 && buffer[curr + 1] != NUL && CString(buffer, curr + 1) == all
    ensures Terminated(buffer, curr + 1)
  {
    assert all == buffer[curr + 1..20];
    assert buffer[curr + 1] == all[0];
    CStringIs(buffer, curr + 1, 20);
  }

  /** Skips the unused front of the buffer. */
  method Strip(buffer: array<Byte>, ghost first: nat) returns (str: nat)
    requires first < buffer.Length && buffer[first] != NUL && forall i :: 0 <= i < first ==> buffer[i] == NUL
    ensures str == first
  {
    str := 0;
    while buffer[str] == NUL
      invariant str <= first
      decreases first - str
    {
      str := str + 1;
    }
  }

  lemma Single(p: Page, c: Byte)
    requires Proper(p)
    ensures PutAll(p, [c]) == Put(p, c)
  {
    assert [c][..0] == [];
    assert PutAll(p, []) == p;
  }

  method KprintD(t: Vga, value: nat)
    requires t.Valid() && value < LIMIT_64
    modifies t, t.term
    ensures t.Valid() && t.page == PutAll(old(t.page), Spelled(value, 10))
  {
    hide Put, Shows, PutAll, Filling, Remaining, CString, Terminated;
    var buffer := new Byte[BUFFER](_ => NUL);
    var curr := 19;
    if value == 0 {
      SpelledZero(10);
      Single(t.page, ZERO_CHAR);
      t.PutChar(ZERO_CHAR);
      return;
    }
    ghost var all := Spelled(value, 10);
    FitsBuffer(value, 10);
    StartFilling(buffer[..], value, 10);
    var rest := value;
    while rest > 0
      invariant Filling(buffer[..], curr, rest, 10, all)
      invariant t.Valid() && t.page == old(t.page)
    {
      FillNext(buffer[..], curr, rest, 10, all);
      var d := rest % 10;
      rest := rest / 10;
      var c := d + 48;
      buffer[curr] := c;
      curr := curr - 1;
    }
    Filled(buffer[..], curr, 10, all);
    FrontEmpty(buffer[..], curr, 10, all);
    var str := Strip(buffer, curr + 1);
    KprintS(t, buffer[..], str);
  }

  method KprintX(t: Vga, value: nat)
    requires t.Valid() && value < LIMIT_64
    modifies t, t.term
    ensures t.Valid() && t.page == PutAll(old(t.page), Spelled(value, 16))
  {
    hide Put, Shows, PutAll, Filling, Remaining, CString, Terminated;
    var buffer := new Byte[BUFFER](_ => NUL);
    var curr := 19;
    if value == 0 {
      SpelledZero(16);
      Single(t.page, ZERO_CHAR);
      t.PutChar(ZERO_CHAR);
      return;
    }
    ghost var all := Spelled(value, 16);
    FitsBuffer(value, 16);
    StartFilling(buffer[..], value, 16);
    var rest := value;
    while rest > 0
      invariant Filling(buffer[..], curr, rest, 16, all)
      invariant t.Valid() && t.page == old(t.page)
    {
      FillNext(buffer[..], curr, rest, 16, all);
      var d := rest % 16;
      var c: Byte;
      if d == 10 {
        c := 65;
      } else if d == 11 {
        c := 66;
      } else if d == 12 {
        c := 67;
      } else if d == 13 {
        c := 68;
      } else if d == 14 {
        c := 69;
      } else if d == 15 {
        c := 70;
      } else {
        c := d + 48;
      }
      rest := rest / 16;
      buffer[curr] := c;
      curr := curr - 1;
    }
    Filled(buffer[..], curr, 16, all);
    FrontEmpty(buffer[..], curr, 16, all);
    var str := Strip(buffer, curr + 1);
    KprintS(t, buffer[..], str);
  }

  lemma SpelledZero(base: Base)
    requires base <= 16
    ensures Spelled(0, base) == [ZERO_CHAR]
  {
    assert Numeral(0, base) == [0] && [0][..0] == [];
    assert Text([0]) == Text([]) + [DigitChar(0)];
  }

  lemma StartFilling(buffer: seq<Byte>, value: nat, base: Base)
    requires |buffer| == BUFFER && (forall i :: 0 <= i < BUFFER ==> buffer[i] == NUL)
    requires base <= 16 && value > 0 && |Spelled(value, base)| <= 20
    ensures Filling(buffer, 19, value, base, Spelled(value, base))
  {
    assert buffer[20..20] == [];
  }

  lemma FrontEmpty(buffer: seq<Byte>, curr: int, base: Base, all: seq<Byte>)
    requires Filling(buffer, curr, 0, base, all)
    ensures -1 <= curr < 20 && |buffer| == BUFFER && forall i :: 0 <= i < curr + 1 ==> buffer[i] == NUL
  {
  }

  const PREFIX: seq<Byte> := [ZERO_CHAR, LOWER_X]

  /** How a pointer is printed. */
  function SpelledPointer(n: nat): seq<Byte> { PREFIX + Spelled(n, 16) }

  method KprintP(t: Vga, pointer: nat)
    requires t.Valid() && pointer < LIMIT_64
    modifies t, t.term
    ensures t.Valid() && t.page == PutAll(old(t.page), SpelledPointer(pointer))
  {
    hide Put, Shows, PutAll, Spelled;
    CStringIs(PREFIX + [NUL], 0, 2);
    assert (PREFIX + [NUL])[0..2] == PREFIX;
    assert (PREFIX + [NUL])[2] == NUL;
    ValidPage(t);
    PutTwice(t.page, PREFIX, Spelled(pointer, 16));
    KprintS(t, PREFIX + [NUL], 0);
    KprintX(t, pointer);
  }

  lemma ValidPage(t: Vga)
    requires t.Valid()
    ensures Proper(t.page)
  {
  }
}
