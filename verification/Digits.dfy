/** Positional numerals: digits in any base, least significant first. */
module Digits {

  /** The bases the kernel uses: bits, decimal, hexadecimal and bytes. */
  type Base = b: nat | b == 2 || b == 10 || b == 16 || b == 256 witness 2

  function Power(base: Base, k: nat): (p: nat)
    ensures p > 0
  {
    if k == 0 then 1 else Scale(base, Power(base, k - 1))
  }

  /** base * n, written so that every product has a constant factor. */
  function Scale(base: Base, n: nat): (p: nat)
    ensures p >= n
  {
    if base == 2 then 2 * n else if base == 10 then 10 * n else if base == 16 then 16 * n else 256 * n
  }

  predicate AreDigits(digits: seq<nat>, base: Base) {
    forall i :: 0 <= i < |digits| ==> digits[i] < base
  }

  function Value(digits: seq<nat>, base: Base): nat {
    if digits == [] then 0 else digits[0] + Scale(base, Value(digits[1..], base))
  }

  /** The lowest `count` digits of `n`. */
  function Expand(n: nat, base: Base, count: nat): (digits: seq<nat>)
    ensures |digits| == count && AreDigits(digits, base)
  {
    if count == 0 then [] else [n % base] + Expand(n / base, base, count - 1)
  }

  lemma DivideOut(d: nat, base: Base, m: nat)
    requires d < base
    ensures (d + Scale(base, m)) % base == d && (d + Scale(base, m)) / base == m
  {
  }

  lemma Reassemble(n: nat, base: Base)
    ensures n == n % base + Scale(base, n / base)
  {
  }

  lemma ScaleMonotone(base: Base, m: nat, n: nat)
    requires m < n
    ensures Scale(base, m) + base <= Scale(base, n)
  {
  }

  lemma {:induction false} DigitsRoundTrip(digits: seq<nat>, base: Base)
    requires AreDigits(digits, base)
    ensures Value(digits, base) < Power(base, |digits|)
    ensures Expand(Value(digits, base), base, |digits|) == digits
  {
    if digits != [] {
      var rest := digits[1..];
      DigitsRoundTrip(rest, base);
      DivideOut(digits[0], base, Value(rest, base));
      ScaleMonotone(base, Value(rest, base), Power(base, |rest|));
    }
  }

  lemma {:induction false} NumberRoundTrip(n: nat, base: Base, count: nat)
    requires n < Power(base, count)
    ensures Value(Expand(n, base, count), base) == n
  {
    if count > 0 {
      Reassemble(n, base);
      NumberRoundTrip(n / base, base, count - 1);
      assert Expand(n, base, count)[1..] == Expand(n / base, base, count - 1);
    }
  }
}
