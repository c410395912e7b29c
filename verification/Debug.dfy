/** kernel/debug.c: reading an address back from its printed form. */
module Debug {
  import opened Digits
  import opened Words
  import opened Numerals
  import opened Printer
  import opened Strings

  predicate IsHex(c: Byte) { 48 <= c <= 57 || 65 <= c <= 70 || 97 <= c <= 102 }

  /** The value of a hexadecimal digit. For any other character the function ends without a
      return statement: `junk` stands for whatever the caller then sees. */
  function TranslateHexChar(c: Byte, junk: int): (d: int)
    ensures IsHex(c) ==> 0 <= d < 16
  {
    if 48 <= c <= 57 then c - 48
    else if 65 <= c <= 70 then c - 65 + 10
    else if 97 <= c <= 102 then c - 97 + 10
    else junk
  }

  ghost predicate AllHex(text: seq<Byte>) { forall i :: 0 <= i < |text| ==> IsHex(text[i]) }

  function HexDigits(text: seq<Byte>): (ds: seq<nat>)
    requires AllHex(text)
    ensures |ds| == |text| && AreDigits(ds, 16)
    ensures forall i :: 0 <= i < |text| ==> ds[i] == TranslateHexChar(text[i], 0)
  {
    if text == [] then [] else HexDigits(text[..|text| - 1]) + [TranslateHexChar(text[|text| - 1], 0)]
  }

  /** The number that a string of hexadecimal digits stands for. */
  function HexValue(text: seq<Byte>): nat
    requires AllHex(text)
  {
    Evaluate(HexDigits(text), 16)
  }

  /** The digits of an address: what follows the two characters `0x`. */
  function AddressDigits(text: seq<Byte>): seq<Byte> {
    if |text| < 2 then [] else text[2..]
  }

  lemma {:induction false} LeadingDigit(ds: seq<nat>)
    requires ds != []
    ensures Evaluate(ds, 16) == ds[0] * Power(16, |ds| - 1) + Evaluate(ds[1..], 16)
  {
    if |ds| == 1 {
      assert ds[..0] == [] && Evaluate(ds, 16) == ds[0];
      assert Power(16, 0) == 1;
    } else {
      var n := |ds| - 1;
      LeadingDigit(ds[..n]);
      assert ds[..n][1..] == ds[1..][..n - 1];
      Sixteen(ds[0], Power(16, n - 1));
    }
  }

  lemma Sixteen(d: nat, p: nat)
    ensures 16 * (d * p) == d * (16 * p)
  {
  }

  lemma {:induction false} EvaluateBound(ds: seq<nat>)
    requires AreDigits(ds, 16)
    ensures Evaluate(ds, 16) < Power(16, |ds|)
  {
    if ds != [] {
      EvaluateBound(ds[..|ds| - 1]);
      ScaleMonotone(16, Evaluate(ds[..|ds| - 1], 16), Power(16, |ds| - 1));
    }
  }

  lemma {:induction false} PowerMonotone(m: nat, n: nat)
    requires m <= n
    ensures Power(16, m) <= Power(16, n)
  {
    if m < n {
      PowerMonotone(m, n - 1);
    }
  }

  /** One step of the summation: digit i of an address of at most 15 digits. */
  lemma SumStep(ds: seq<nat>, i: nat)
    requires AreDigits(ds, 16) && i < |ds| <= 15
    ensures Evaluate(ds[i..], 16) == ds[i] * Power(16, |ds| - 1 - i) + Evaluate(ds[i + 1..], 16)
    ensures Evaluate(ds[i..], 16) < LIMIT_64 && 16 * Power(16, |ds| - 1 - i) < LIMIT_64
    ensures ds[i] * Power(16, |ds| - 1 - i) < LIMIT_64
    ensures Power(16, |ds| - i) == 16 * Power(16, |ds| - 1 - i)
  {
    var rest := ds[i..];
    LeadingDigit(rest);
    assert rest[1..] == ds[i + 1..];
    EvaluateBound(rest);
    PowerMonotone(|rest|, 15);
    HexRange();
  }

  /** Adds up the digits from the last to the first, in 64-bit arithmetic. */
  method SumDigits(nums: array<int>, last: int, ghost ds: seq<nat>) returns (addr: nat)
    requires nums.Length == 16 && |ds| <= 15 && AreDigits(ds, 16)
    requires if ds == [] then last < 0 else last == |ds| - 1
    requires forall k :: 0 <= k < |ds| ==> nums[k] == ds[k]
    ensures addr == Evaluate(ds, 16)
  {
    hide Evaluate, Power, AreDigits;
    addr := 0;
    var currMultiple: nat := 1;
    var i := last;
    NoDigits(ds);
    while i >= 0
      invariant ds == [] ==> i == last && addr == 0
      invariant ds != [] ==> -1 <= i <= last && addr == Evaluate(ds[i + 1..], 16)
      invariant ds != [] ==> currMultiple == Power(16, |ds| - 1 - i)
    {
      SumStep(ds, i);
      addr := (addr + nums[i] * currMultiple) % LIMIT_64;
      currMultiple := currMultiple * 16 % LIMIT_64;
      i := i - 1;
    }
    assert ds != [] ==> ds[0..] == ds;
    assert ds == [] ==> ds[|ds|..] == ds;
  }

  lemma NoDigits(ds: seq<nat>)
    ensures Evaluate(ds[|ds|..], 16) == 0 && Power(16, 0) == 1
  {
  }

  /** Reads an address of at most 15 digits (one more would be written past the array). What is
      taken for the digit value of the terminator is never used. */
  method ConvAddr(in': seq<Byte>, junk: int) returns (addr: nat)
    requires Terminated(in', 0) && |CString(in', 0)| <= 17
    requires AllHex(AddressDigits(CString(in', 0)))
    ensures addr == HexValue(AddressDigits(CString(in', 0)))
  {
    hide Evaluate, HexDigits, AllHex, CString, Terminated, TranslateHexChar, AddressDigits;
    ghost var text := CString(in', 0);
    ghost var digits := AddressDigits(text);
    ghost var ds := HexDigits(digits);
    CStringPrefix(in', 0);
    DigitCount(text);
    var nums := new int[16](_ => 0);
    var length := Strlen(in');
    var i := length - 1;
    while i >= 2
      invariant i <= length - 1
      invariant forall k :: 0 <= k < |digits| && k >= i - 1 ==> nums[k] == ds[k]
    {
      if i < length - 1 {
        ReadDigit(text, i, junk);
        assert in'[i] == in'[0..|text|][i];
      }
      nums[i - 2] := TranslateHexChar(in'[i], junk);
      i := i - 1;
    }
    addr := SumDigits(nums, length - 4, ds);
  }

  lemma DigitCount(text: seq<Byte>)
    ensures |AddressDigits(text)| == if |text| < 2 then 0 else |text| - 2
  {
  }

  lemma ReadDigit(text: seq<Byte>, i: nat, junk: int)
    requires 2 <= i < |text| && AllHex(AddressDigits(text))
    ensures TranslateHexChar(text[i], junk) == HexDigits(AddressDigits(text))[i - 2]
  {
    assert text[i] == AddressDigits(text)[i - 2];
  }

  // ---- printing and reading back ----

  lemma DigitRead(d: nat, junk: int)
    requires d < 16
    ensures IsHex(DigitChar(d)) && TranslateHexChar(DigitChar(d), junk) == d
  {
  }

  lemma {:induction false} TextRead(ds: seq<nat>)
    requires AreDigits(ds, 16)
    ensures AllHex(Text(ds)) && HexDigits(Text(ds)) == ds
  {
    if ds != [] {
      var n := |ds| - 1;
      TextRead(ds[..n]);
      DigitRead(ds[n], 0);
      assert Text(ds)[..n] == Text(ds[..n]) && Text(ds)[n] == DigitChar(ds[n]);
    }
  }

  /** A printed pointer, read back, is the pointer; it is short enough to be read exactly if it is
      below 16^15. */
  lemma PointerRoundTrip(v: nat)
    requires v < LIMIT_64
    ensures |SpelledPointer(v)| <= 17 <==> v < 0x1000_0000_0000_0000
    ensures AllHex(AddressDigits(SpelledPointer(v))) && HexValue(AddressDigits(SpelledPointer(v))) == v
  {
    hide Numeral, Evaluate, HexDigits, Text, Power;
    assert SpelledPointer(v)[2..] == Spelled(v, 16);
    TextRead(Numeral(v, 16));
    NumeralEvaluates(v, 16);
    HexRange();
    NumeralLength(v, 16, 15);
  }

  /** As a C string the printed pointer is itself: no character of it is NUL. */
  lemma PrintedString(v: nat)
    ensures Terminated(SpelledPointer(v) + [NUL], 0) && CString(SpelledPointer(v) + [NUL], 0) == SpelledPointer(v)
  {
    var text := SpelledPointer(v);
    var s := text + [NUL];
    assert s[|text|] == NUL && s[0..|text|] == text;
    assert text == PREFIX + Spelled(v, 16) && NUL !in PREFIX;
    CStringIs(s, 0, |text|);
  }

  /** Reading back what `kprint_p` prints for an address below 16^15. */
  method ReadPrinted(v: nat, junk: int) returns (addr: nat)
    requires v < 0x1000_0000_0000_0000
    ensures addr == v
  {
    hide Spelled, HexValue, AllHex, SpelledPointer;
    PointerRoundTrip(v);
    PrintedString(v);
    addr := ConvAddr(SpelledPointer(v) + [NUL], junk);
  }

  // ---- which digits there are ----

  /** The digit of value d, of either case. */
  predicate IsDigit(c: int, d: nat)
    requires d < 16
  {
    c == "0123456789ABCDEF"[d] as int || c == "0123456789abcdef"[d] as int
  }

  lemma DigitValue(c: Byte, d: nat, junk: int)
    requires d < 16 && IsDigit(c, d)
    ensures IsHex(c) && TranslateHexChar(c, junk) == d
  {
    assert d == 0 || d == 1 || d == 2 || d == 3 || d == 4 || d == 5 || d == 6 || d == 7 || d == 8 || d == 9
        || d == 10 || d == 11 || d == 12 || d == 13 || d == 14 || d == 15;
  }

  /** Text that spells digits of either case has the value of the digits. */
  lemma {:induction false} ValueOf(text: seq<Byte>, ds: seq<nat>)
    requires |text| == |ds| && forall i :: 0 <= i < |ds| ==> ds[i] < 16 && IsDigit(text[i], ds[i])
    ensures AllHex(text) && HexDigits(text) == ds && HexValue(text) == Evaluate(ds, 16)
  {
    hide IsDigit, TranslateHexChar, IsHex;
    if text != [] {
      var n := |text| - 1;
      ValueOf(text[..n], ds[..n]);
      DigitValue(text[n], ds[n], 0);
      assert text == text[..n] + [text[n]] && ds == ds[..n] + [ds[n]];
      forall i | 0 <= i < |text| ensures IsHex(text[i]) {
        DigitValue(text[i], ds[i], 0);
      }
    }
  }
}
