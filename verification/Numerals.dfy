/** Numerals as people read them: most significant digit first, no leading zeros. */
module Numerals {
  import opened Digits

  /** The number that a string of digits stands for. */
  function Evaluate(ds: seq<nat>, base: Base): nat {
    if ds == [] then 0 else Scale(base, Evaluate(ds[..|ds| - 1], base)) + ds[|ds| - 1]
  }

  function Numeral(n: nat, base: Base): (ds: seq<nat>)
    ensures |ds| > 0 && AreDigits(ds, base)
  {
    if n < base then [n] else Numeral(n / base, base) + [n % base]
  }

  predicate Canonical(ds: seq<nat>, base: Base) {
    |ds| > 0 && AreDigits(ds, base) && (|ds| > 1 ==> ds[0] != 0)
  }

  /** A numeral is canonical and stands for its number. */
  lemma {:induction false} NumeralEvaluates(n: nat, base: Base)
    ensures Canonical(Numeral(n, base), base) && Evaluate(Numeral(n, base), base) == n
    ensures n > 0 ==> Numeral(n, base)[0] != 0
  {
    if n >= base {
      NumeralEvaluates(n / base, base);
      assert Numeral(n, base)[..|Numeral(n, base)| - 1] == Numeral(n / base, base);
      Reassemble(n, base);
      QuotientPositive(n, base);
    } else {
      assert Evaluate([n][..0], base) == 0;
    }
  }

  lemma QuotientPositive(n: nat, base: Base)
    requires n >= base
    ensures n / base > 0
  {
  }

  /** There is only one such numeral. */
  lemma {:induction false} NumeralUnique(ds: seq<nat>, base: Base)
    requires Canonical(ds, base)
    ensures ds == Numeral(Evaluate(ds, base), base)
  {
    var last := ds[|ds| - 1];
    var init := ds[..|ds| - 1];
    if |ds| == 1 {
      assert init == [] && Evaluate(ds, base) == last;
    } else {
      NumeralUnique(init, base);
      NumeralEvaluates(Evaluate(init, base), base);
      DivideOut(last, base, Evaluate(init, base));
      LeadingPositive(init, base);
      ScaleMonotone(base, 0, Evaluate(init, base));
    }
  }

  lemma {:induction false} LeadingPositive(ds: seq<nat>, base: Base)
    requires |ds| > 0 && ds[0] != 0
    ensures Evaluate(ds, base) > 0
  {
    if |ds| > 1 {
      LeadingPositive(ds[..|ds| - 1], base);
    }
  }

  /** A number below base^k has at most k digits, and a number with k digits is at least base^(k-1). */
  lemma {:induction false} NumeralLength(n: nat, base: Base, k: nat)
    requires k > 0
    ensures n < Power(base, k) <==> |Numeral(n, base)| <= k
  {
    if n < base {
      PowerGrows(base, k);
    } else if k == 1 {
      PowerOne(base);
    } else {
      NumeralLength(n / base, base, k - 1);
      Reassemble(n, base);
      if n / base < Power(base, k - 1) {
        ScaleMonotone(base, n / base, Power(base, k - 1));
      } else if Power(base, k - 1) < n / base {
        ScaleMonotone(base, Power(base, k - 1), n / base);
      }
    }
  }

  lemma PowerOne(base: Base)
    ensures Power(base, 1) == base
  {
    assert Power(base, 0) == 1;
  }

  lemma {:induction false} PowerGrows(base: Base, k: nat)
    requires k > 0
    ensures Power(base, k) >= base
  {
    if k == 1 {
      PowerOne(base);
    } else {
      PowerGrows(base, k - 1);
    }
  }

  // ---- 64-bit numbers ----

  lemma DecimalRange()
    ensures Power(10, 20) > 0x1_0000_0000_0000_0000
  {
    assert Power(10, 4) == 10 * (10 * (10 * (10 * Power(10, 0))));
    TenFour(4);
    TenFour(8);
    TenFour(12);
    TenFour(16);
  }

  lemma TenFour(k: nat)
    ensures Power(10, k + 4) == 10000 * Power(10, k)
  {
    assert Power(10, k + 2) == 10 * (10 * Power(10, k));
    assert Power(10, k + 4) == 10 * (10 * Power(10, k + 2));
  }

  lemma HexRange()
    ensures Power(16, 15) == 0x1000_0000_0000_0000 && Power(16, 16) == 0x1_0000_0000_0000_0000
  {
    assert Power(16, 3) == 16 * (16 * (16 * Power(16, 0)));
    HexFour(3);
    HexFour(7);
    HexFour(11);
  }

  lemma HexFour(k: nat)
    ensures Power(16, k + 4) == 0x1_0000 * Power(16, k)
  {
    assert Power(16, k + 2) == 16 * (16 * Power(16, k));
    assert Power(16, k + 4) == 16 * (16 * Power(16, k + 2));
  }
}
