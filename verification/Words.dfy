/** One 64-bit word of physical memory, seen three ways: as a page-table entry
    (a struct of bit-fields), as an integer (a free-list link) and as eight bytes. */
module Words {
  import opened Digits

  type Bits4 = n: nat | n < 16
  type Bits51 = n: nat | n < 0x8_0000_0000_0000
  type Byte = b: nat | b < 256

  /** The bit-fields of a page-table entry, lowest bit first; 64 bits in all. */
  datatype Word = Word(
    present: bool,
    writable: bool,
    user: bool,
    writeThrough: bool,
    cacheDisable: bool,
    accessed: bool,
    dirty: bool,
    pageSize: bool,
    unused: Bits4,
    address: Bits51,
    noExecute: bool)

  const ZERO := Word(false, false, false, false, false, false, false, false, 0, 0, false)

  lemma FieldWidths()
    ensures Power(2, 4) == 16 && Power(2, 8) == 256 && Power(2, 51) == 0x8_0000_0000_0000
  {
    assert Power(2, 4) == 2 * (2 * (2 * (2 * Power(2, 0))));
    PowerStep(4);
    PowerStep(8); PowerStep(12); PowerStep(16); PowerStep(20); PowerStep(24); PowerStep(28);
    PowerStep(32); PowerStep(36); PowerStep(40); PowerStep(44);
    assert Power(2, 51) == 2 * (2 * (2 * Power(2, 48)));
  }

  lemma PowerStep(k: nat)
    ensures Power(2, k + 4) == 16 * Power(2, k)
  {
    assert Power(2, k + 2) == 2 * (2 * Power(2, k));
    assert Power(2, k + 4) == 2 * (2 * Power(2, k + 2));
  }

  // ---- the bits of a word ----

  function Bit(b: bool): nat { if b then 1 else 0 }

  /** Bit i of a word: the flags, `present` lowest, then the two numbers, then `noExecute`. */
  function BitAt(w: Word, i: nat): (b: nat)
    requires i < 64
    ensures b < 2
  {
    if i < 8 then
      Bit(if i == 0 then w.present else if i == 1 then w.writable else if i == 2 then w.user
          else if i == 3 then w.writeThrough else if i == 4 then w.cacheDisable else if i == 5 then w.accessed
          else if i == 6 then w.dirty else w.pageSize)
    else if i < 12 then Expand(w.unused, 2, 4)[i - 8]
    else if i < 63 then Expand(w.address, 2, 51)[i - 12]
    else Bit(w.noExecute)
  }

  /** A group of neighbouring bits. */
  function Slice(w: Word, from: nat, count: nat): (bits: seq<nat>)
    requires from + count <= 64
    ensures |bits| == count && AreDigits(bits, 2)
    ensures forall i :: 0 <= i < count ==> bits[i] == BitAt(w, from + i)
    decreases count
  {
    if count == 0 then [] else [BitAt(w, from)] + Slice(w, from + 1, count - 1)
  }

  /** The number that a group of bits stands for. */
  function Field(bits: seq<nat>): (n: nat)
    requires AreDigits(bits, 2)
    ensures n < Power(2, |bits|)
  {
    DigitsRoundTrip(bits, 2);
    Value(bits, 2)
  }

  function FromBits(bits: seq<nat>): Word
    requires |bits| == 64 && AreDigits(bits, 2)
  {
    FieldWidths();
    Word(bits[0] == 1, bits[1] == 1, bits[2] == 1, bits[3] == 1,
         bits[4] == 1, bits[5] == 1, bits[6] == 1, bits[7] == 1,
         Field(bits[8..12]), Field(bits[12..63]), bits[63] == 1)
  }

  lemma BitsFromBits(bits: seq<nat>, i: nat)
    requires |bits| == 64 && AreDigits(bits, 2) && i < 64
    ensures BitAt(FromBits(bits), i) == bits[i]
  {
    hide Expand, Value;
    if 8 <= i < 12 {
      DigitsRoundTrip(bits[8..12], 2);
    } else if 12 <= i < 63 {
      DigitsRoundTrip(bits[12..63], 2);
    }
  }

  lemma SliceFromBits(bits: seq<nat>, from: nat, count: nat)
    requires |bits| == 64 && AreDigits(bits, 2) && from + count <= 64
    ensures Slice(FromBits(bits), from, count) == bits[from..from + count]
  {
    forall i | 0 <= i < count ensures Slice(FromBits(bits), from, count)[i] == bits[from..from + count][i] {
      BitsFromBits(bits, from + i);
    }
  }

  /** A word is determined by its bits. */
  lemma BitsDetermine(v: Word, w: Word)
    requires forall i :: 0 <= i < 64 ==> BitAt(v, i) == BitAt(w, i)
    ensures v == w
  {
    FlagsDetermine(v, w);
    FieldWidths();
    assert Expand(v.unused, 2, 4) == Expand(w.unused, 2, 4) by {
      forall i | 0 <= i < 4 ensures Expand(v.unused, 2, 4)[i] == Expand(w.unused, 2, 4)[i] {
        assert BitAt(v, 8 + i) == BitAt(w, 8 + i);
      }
    }
    assert Expand(v.address, 2, 51) == Expand(w.address, 2, 51) by {
      forall i | 0 <= i < 51 ensures Expand(v.address, 2, 51)[i] == Expand(w.address, 2, 51)[i] {
        assert BitAt(v, 12 + i) == BitAt(w, 12 + i);
      }
    }
    NumberRoundTrip(v.unused, 2, 4);
    NumberRoundTrip(w.unused, 2, 4);
    NumberRoundTrip(v.address, 2, 51);
    NumberRoundTrip(w.address, 2, 51);
  }

  lemma FlagsDetermine(v: Word, w: Word)
    requires forall i :: 0 <= i < 64 ==> BitAt(v, i) == BitAt(w, i)
    ensures v == w.(unused := v.unused, address := v.address)
  {
    assert BitAt(v, 0) == BitAt(w, 0) && BitAt(v, 1) == BitAt(w, 1) && BitAt(v, 2) == BitAt(w, 2);
    assert BitAt(v, 3) == BitAt(w, 3) && BitAt(v, 4) == BitAt(w, 4) && BitAt(v, 5) == BitAt(w, 5);
    assert BitAt(v, 6) == BitAt(w, 6) && BitAt(v, 7) == BitAt(w, 7) && BitAt(v, 63) == BitAt(w, 63);
  }

  // ---- the number of a word ----

  /** A word as a 64-bit number. */
  function Encode(w: Word): (n: nat)
    ensures n < Power(2, 64)
  {
    Field(Slice(w, 0, 64))
  }

  function Decode(n: nat): Word
    requires n < Power(2, 64)
  {
    FromBits(Expand(n, 2, 64))
  }

  /** Reading back a link that was stored over a page-table entry gives the link. */
  lemma EncodeDecode(n: nat)
    requires n < Power(2, 64)
    ensures Encode(Decode(n)) == n
  {
    hide FromBits, Expand, Value;
    var bits := Expand(n, 2, 64);
    SliceFromBits(bits, 0, 64);
    assert bits[0..64] == bits;
    NumberRoundTrip(n, 2, 64);
  }

  lemma DecodeEncode(w: Word)
    ensures Decode(Encode(w)) == w
  {
    var bits := Slice(w, 0, 64);
    DigitsRoundTrip(bits, 2);
    forall i | 0 <= i < 64 ensures BitAt(FromBits(bits), i) == BitAt(w, i) {
      BitsFromBits(bits, i);
    }
    BitsDetermine(FromBits(bits), w);
  }

  // ---- which bits are which ----

  /** One bit less. */
  lemma NextBit(w: Word, from: nat, count: nat)
    requires 0 < count && from + count <= 64
    ensures Value(Slice(w, from, count), 2) == BitAt(w, from) + 2 * Value(Slice(w, from + 1, count - 1), 2)
  {
    hide BitAt;
    assert Slice(w, from, count)[1..] == Slice(w, from + 1, count - 1);
  }

  /** Eight bits less. */
  lemma NextByte(w: Word, from: nat, count: nat)
    requires 8 <= count && from + count <= 64
    ensures Value(Slice(w, from, count), 2) ==
      Value(Slice(w, from, 8), 2) + 256 * Value(Slice(w, from + 8, count - 8), 2)
  {
    hide BitAt, Slice, Value;
    NextFour(w, from, count);
    NextFour(w, from + 4, count - 4);
    NextFour(w, from, 8);
    NextFour(w, from + 4, 4);
    NoBits(w, from + 8);
  }

  lemma NextFour(w: Word, from: nat, count: nat)
    requires 4 <= count && from + count <= 64
    ensures Value(Slice(w, from, count), 2) ==
      BitAt(w, from) + 2 * BitAt(w, from + 1) + 4 * BitAt(w, from + 2) + 8 * BitAt(w, from + 3)
      + 16 * Value(Slice(w, from + 4, count - 4), 2)
  {
    hide BitAt, Slice, Value;
    NextBit(w, from, count);
    NextBit(w, from + 1, count - 1);
    NextBit(w, from + 2, count - 2);
    NextBit(w, from + 3, count - 3);
  }

  lemma NoBits(w: Word, from: nat)
    requires from <= 64
    ensures Value(Slice(w, from, 0), 2) == 0
  {
  }

  lemma {:induction false} TopBit(bits: seq<nat>, top: nat)
    requires top < 2
    ensures Value(bits + [top], 2) == Value(bits, 2) + (if top == 1 then Power(2, |bits|) else 0)
  {
    if bits != [] {
      TopBit(bits[1..], top);
      assert (bits + [top])[1..] == bits[1..] + [top];
    } else {
      assert (bits + [top])[1..] == [];
    }
  }

  lemma BitIs(b: bool)
    ensures Bit(b) == if b then 1 else 0
  {
  }

  lemma UnusedBits(w: Word)
    ensures Value(Slice(w, 8, 56), 2) == w.unused + 16 * Value(Slice(w, 12, 52), 2)
  {
    hide Value;
    FieldWidths();
    assert Slice(w, 8, 4) == Expand(w.unused, 2, 4);
    NumberRoundTrip(w.unused, 2, 4);
    hide Slice, BitAt, Expand;
    NextFour(w, 8, 56);
    NextFour(w, 8, 4);
    NoBits(w, 12);
  }

  lemma AddressBits(w: Word)
    ensures Value(Slice(w, 12, 52), 2) == w.address + (if w.noExecute then 0x8_0000_0000_0000 else 0)
  {
    hide Value, Slice, Expand, Power;
    FieldWidths();
    AddressSlice(w);
    NumberRoundTrip(w.address, 2, 51);
    TopBit(Slice(w, 12, 51), Bit(w.noExecute));
  }

  lemma AddressSlice(w: Word)
    ensures Slice(w, 12, 51) == Expand(w.address, 2, 51)
    ensures Slice(w, 12, 52) == Slice(w, 12, 51) + [Bit(w.noExecute)]
  {
    hide Slice, Expand;
    forall i | 0 <= i < 51 ensures Slice(w, 12, 51)[i] == Expand(w.address, 2, 51)[i] {
      assert Slice(w, 12, 51)[i] == BitAt(w, 12 + i);
    }
    forall i | 0 <= i < 52 ensures Slice(w, 12, 52)[i] == (Slice(w, 12, 51) + [Bit(w.noExecute)])[i] {
      assert Slice(w, 12, 52)[i] == BitAt(w, 12 + i);
    }
  }

  lemma FlagsAre(w: Word)
    ensures BitAt(w, 0) == Bit(w.present) && BitAt(w, 1) == Bit(w.writable) && BitAt(w, 2) == Bit(w.user)
    ensures BitAt(w, 3) == Bit(w.writeThrough) && BitAt(w, 4) == Bit(w.cacheDisable)
    ensures BitAt(w, 5) == Bit(w.accessed) && BitAt(w, 6) == Bit(w.dirty) && BitAt(w, 7) == Bit(w.pageSize)
  {
  }

  /** The number of a page-table entry, field by field: bit 0 is `present`, bits 1 to 7 are the other flags,
      then come the unused bits, the address and, as bit 63, `noExecute`. */
  lemma EncodeFields(w: Word)
    ensures Encode(w) ==
      Bit(w.present) + 2 * Bit(w.writable) + 4 * Bit(w.user) + 8 * Bit(w.writeThrough) + 16 * Bit(w.cacheDisable)
      + 32 * Bit(w.accessed) + 64 * Bit(w.dirty) + 128 * Bit(w.pageSize) + 256 * w.unused + 4096 * w.address
      + 0x8000_0000_0000_0000 * Bit(w.noExecute)
  {
    hide Slice, Value, BitAt, Bit, Power;
    NextFour(w, 0, 64);
    NextFour(w, 4, 60);
    FlagsAre(w);
    UnusedBits(w);
    BitIs(w.noExecute);
    AddressBits(w);
  }

  // ---- the bytes of a word ----

  /** Byte k of a word, least significant first. */
  function GetByte(w: Word, k: nat): Byte
    requires k < 8
  {
    FieldWidths();
    Field(Slice(w, 8 * k, 8))
  }

  /** The word's bits with byte k replaced. */
  function Splice(w: Word, k: nat, b: Byte): (bits: seq<nat>)
    requires k < 8
    ensures |bits| == 64 && AreDigits(bits, 2)
  {
    Slice(w, 0, 8 * k) + Expand(b, 2, 8) + Slice(w, 8 * k + 8, 56 - 8 * k)
  }

  function PutByte(w: Word, k: nat, b: Byte): Word
    requires k < 8
  {
    FromBits(Splice(w, k, b))
  }

  /** A byte store changes that byte of the word and no other. */
  lemma GetPut(w: Word, k: nat, b: Byte, j: nat)
    requires k < 8 && j < 8
    ensures GetByte(PutByte(w, k, b), j) == if j == k then b else GetByte(w, j)
  {
    SliceFromBits(Splice(w, k, b), 8 * j, 8);
    FieldWidths();
    NumberRoundTrip(b, 2, 8);
    SpliceSlices(w, k, b, j);
  }

  lemma SpliceSlices(w: Word, k: nat, b: Byte, j: nat)
    requires k < 8 && j < 8
    ensures Splice(w, k, b)[8 * j..8 * j + 8] == if j == k then Expand(b, 2, 8) else Slice(w, 8 * j, 8)
  {
    hide BitAt, Expand, Slice;
    if j < k {
      assert 8 * j + 8 <= 8 * k;
    } else if j > k {
      assert 8 * k + 8 <= 8 * j;
    }
  }

  /** The number of a word, byte by byte: the lowest comes first in memory. */
  lemma EncodeBytes(w: Word)
    ensures Encode(w) ==
      GetByte(w, 0) + 0x100 * GetByte(w, 1) + 0x1_0000 * GetByte(w, 2) + 0x100_0000 * GetByte(w, 3)
      + 0x1_0000_0000 * GetByte(w, 4) + 0x100_0000_0000 * GetByte(w, 5) + 0x1_0000_0000_0000 * GetByte(w, 6)
      + 0x100_0000_0000_0000 * GetByte(w, 7)
  {
    hide Slice, Value, BitAt;
    NextByte(w, 0, 64);
    NextByte(w, 8, 56);
    NextByte(w, 16, 48);
    NextByte(w, 24, 40);
    NextByte(w, 32, 32);
    NextByte(w, 40, 24);
    NextByte(w, 48, 16);
    NextByte(w, 56, 8);
    NoBits(w, 64);
  }

  /** A word is determined by its bytes. */
  lemma BytesDetermine(v: Word, w: Word)
    requires forall k :: 0 <= k < 8 ==> GetByte(v, k) == GetByte(w, k)
    ensures v == w
  {
    forall i | 0 <= i < 64 ensures BitAt(v, i) == BitAt(w, i) {
      var k := i / 8;
      assert GetByte(v, k) == GetByte(w, k);
      DigitsRoundTrip(Slice(v, 8 * k, 8), 2);
      DigitsRoundTrip(Slice(w, 8 * k, 8), 2);
      assert Slice(v, 8 * k, 8)[i - 8 * k] == Slice(w, 8 * k, 8)[i - 8 * k];
    }
    BitsDetermine(v, w);
  }

  lemma ZeroBytes(k: nat)
    requires k < 8
    ensures GetByte(ZERO, k) == 0
  {
    hide BitAt, Slice, Value;
    forall i | 0 <= i < 8 ensures Slice(ZERO, 8 * k, 8)[i] == 0 {
      ZeroBit(8 * k + i);
    }
    ZeroValue(Slice(ZERO, 8 * k, 8), 2);
  }

  lemma ZeroBit(i: nat)
    requires i < 64
    ensures BitAt(ZERO, i) == 0
  {
    hide Expand;
    ZeroDigits(2, 4);
    ZeroDigits(2, 51);
  }

  lemma {:induction false} ZeroDigits(base: Base, count: nat)
    ensures Expand(0, base, count) == seq(count, _ => 0)
  {
    if count > 0 {
      ZeroDigits(base, count - 1);
    }
  }

  lemma {:induction false} ZeroValue(digits: seq<nat>, base: Base)
    requires forall i :: 0 <= i < |digits| ==> digits[i] == 0
    ensures Value(digits, base) == 0
  {
    if digits != [] {
      ZeroValue(digits[1..], base);
    }
  }
}
