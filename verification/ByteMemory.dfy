/** Physical memory as bytes: what `memset` and `memcpy` store one at a time. */
module ByteMemory {
  import opened Words
  import opened PageTable
  import opened TableUpdates

  function ReadByte(mem: Mem, x: nat): Byte
    requires x / 4096 < |mem|
  {
    GetByte(mem[x / 4096][x % 4096 / 8], x % 8)
  }

  function StoreByte(mem: Mem, x: nat, b: Byte): (mem': Mem)
    requires x / 4096 < |mem|
    ensures |mem'| == |mem|
    ensures forall f :: 0 <= f < |mem| && f != x / 4096 ==> mem'[f] == mem[f]
  {
    SetEntry(mem, x / 4096, x % 4096 / 8, PutByte(mem[x / 4096][x % 4096 / 8], x % 8, b))
  }

  lemma StoreThenRead(mem: Mem, x: nat, b: Byte, y: nat)
    requires x / 4096 < |mem| && y / 4096 < |mem|
    ensures ReadByte(StoreByte(mem, x, b), y) == if y == x then b else ReadByte(mem, y)
  {
    hide GetByte, PutByte;
    if x / 4096 == y / 4096 && x % 4096 / 8 == y % 4096 / 8 {
      SamePlace(x, y);
      GetPut(mem[x / 4096][x % 4096 / 8], x % 8, b, y % 8);
    }
  }

  lemma SamePlace(x: nat, y: nat)
    requires x / 4096 == y / 4096 && x % 4096 / 8 == y % 4096 / 8
    ensures x % 8 == y % 8 <==> x == y
  {
    ByteAddress(x);
    ByteAddress(y);
  }

  lemma ByteAddress(x: nat)
    ensures x == 4096 * (x / 4096) + 8 * (x % 4096 / 8) + x % 8
  {
    var r := x % 4096;
    assert x == 4096 * (x / 4096) + r;
    assert x % 8 == r % 8;
  }

  /** The n bytes from address x up are in memory. */
  predicate InMemory(mem: Mem, x: nat, n: nat) { n == 0 || (x + n - 1) / 4096 < |mem| }

  /** The bytes stored one after another from address x up. */
  function Stored(mem: Mem, x: nat, bytes: seq<Byte>): (mem': Mem)
    requires InMemory(mem, x, |bytes|)
    ensures |mem'| == |mem|
  {
    if bytes == [] then mem else
      var n := |bytes| - 1;
      StoreByte(Stored(mem, x, bytes[..n]), x + n, bytes[n])
  }

  lemma InFrame(x: nat, n: nat)
    requires x % 4096 + n < 4096
    ensures (x + n) / 4096 == x / 4096 && (x + n) % 4096 == x % 4096 + n
  {
  }

  /** Bytes that fit in the frame of x are in memory if the frame is. */
  lemma FrameInMemory(mem: Mem, x: nat, n: nat)
    requires x % 4096 + n <= 4096 && x / 4096 < |mem|
    ensures InMemory(mem, x, n)
  {
    if n > 0 {
      InFrame(x, n - 1);
    }
  }

  /** They change no other frame. */
  lemma {:induction false} StoredInFrame(mem: Mem, x: nat, bytes: seq<Byte>)
    requires x % 4096 + |bytes| <= 4096 && x / 4096 < |mem|
    ensures InMemory(mem, x, |bytes|)
    ensures forall f :: 0 <= f < |mem| && f != x / 4096 ==> Stored(mem, x, bytes)[f] == mem[f]
  {
    FrameInMemory(mem, x, |bytes|);
    if bytes != [] {
      InFrame(x, |bytes| - 1);
      StoredInFrame(mem, x, bytes[..|bytes| - 1]);
    }
  }

  lemma {:induction false} StoredThenRead(mem: Mem, x: nat, bytes: seq<Byte>, y: nat)
    requires InMemory(mem, x, |bytes|) && y / 4096 < |mem|
    ensures ReadByte(Stored(mem, x, bytes), y) == if x <= y < x + |bytes| then bytes[y - x] else ReadByte(mem, y)
  {
    hide ReadByte, StoreByte;
    if bytes != [] {
      var n := |bytes| - 1;
      var m := Stored(mem, x, bytes[..n]);
      assert Stored(mem, x, bytes) == StoreByte(m, x + n, bytes[n]);
      StoredThenRead(mem, x, bytes[..n], y);
      StoreThenRead(m, x + n, bytes[n], y);
    }
  }

  function Zeros(n: nat): (zeros: seq<Byte>)
    ensures |zeros| == n && forall i :: 0 <= i < n ==> zeros[i] == 0
  {
    seq(n, _ => 0)
  }

  lemma StoredNone(mem: Mem, x: nat)
    ensures Stored(mem, x, Zeros(0)) == mem
  {
  }

  lemma StoredZero(mem: Mem, x: nat, n: nat)
    requires InMemory(mem, x, n + 1)
    ensures InMemory(mem, x, n)
    ensures Stored(mem, x, Zeros(n + 1)) == StoreByte(Stored(mem, x, Zeros(n)), x + n, 0)
  {
    hide StoreByte;
    assert Zeros(n + 1)[..n] == Zeros(n);
  }

  /** Zeroing the 4096 bytes of a frame makes its 512 words zero. */
  lemma ZeroedFrame(mem: Mem, f: nat)
    requires f < |mem|
    ensures InMemory(mem, 4096 * f, 4096) && Stored(mem, 4096 * f, Zeros(4096)) == mem[f := ZeroTable()]
  {
    hide Stored, Zeros, GetByte;
    StoredInFrame(mem, 4096 * f, Zeros(4096));
    var mem' := Stored(mem, 4096 * f, Zeros(4096));
    forall i | 0 <= i < 512 ensures mem'[f][i] == ZERO {
      ZeroedWord(mem, f, i);
    }
    assert mem'[f] == ZeroTable();
  }

  lemma ZeroedWord(mem: Mem, f: nat, i: nat)
    requires f < |mem| && i < 512 && InMemory(mem, 4096 * f, 4096)
    ensures Stored(mem, 4096 * f, Zeros(4096))[f][i] == ZERO
  {
    var mem' := Stored(mem, 4096 * f, Zeros(4096));
    forall k | 0 <= k < 8 ensures GetByte(mem'[f][i], k) == GetByte(ZERO, k) {
      ZeroedByte(mem, f, i, k);
      ZeroBytes(k);
    }
    BytesDetermine(mem'[f][i], ZERO);
  }

  lemma ZeroedByte(mem: Mem, f: nat, i: nat, k: nat)
    requires f < |mem| && i < 512 && k < 8 && InMemory(mem, 4096 * f, 4096)
    ensures GetByte(Stored(mem, 4096 * f, Zeros(4096))[f][i], k) == 0
  {
    hide GetByte, Stored;
    WordPlace(f, i, k);
    StoredThenRead(mem, 4096 * f, Zeros(4096), 4096 * f + 8 * i + k);
  }

  lemma WordPlace(f: nat, i: nat, k: nat)
    requires i < 512 && k < 8
    ensures var y := 4096 * f + 8 * i + k; y / 4096 == f && y % 4096 / 8 == i && y % 8 == k
  {
    var r := 8 * i + k;
    Aligned(f);
    InFrame(4096 * f, r);
    EightFold(i, k);
    EightFold(512 * f + i, k);
  }

  lemma Aligned(f: nat)
    ensures 4096 * f % 4096 == 0 && 4096 * f / 4096 == f
  {
  }

  lemma EightFold(i: nat, k: nat)
    requires k < 8
    ensures (8 * i + k) / 8 == i && (8 * i + k) % 8 == k
  {
  }
}
