/** The free list: each free frame holds, in its first word, the address of the next. */
module FreeList {
  import opened Digits
  import opened Words
  import opened PageTable

  /** Physical memory is mapped at `hhdm`, away from address 0, and physical addresses have at most 51 bits. */
  ghost predicate Machine(mem: Mem, hhdm: nat) {
    0 < hhdm && hhdm % 4096 == 0 && hhdm + 4096 * |mem| <= Power(2, 64) && 4096 * |mem| <= Power(2, 51)
  }

  /** The address at which the kernel reaches a frame. */
  function Vaddr(hhdm: nat, f: nat): nat { hhdm + 4096 * f }

  /** The pointer to the first element of a list, null if there is none. */
  function Head(hhdm: nat, fs: seq<nat>): nat {
    if fs == [] then 0 else Vaddr(hhdm, fs[0])
  }

  /** Following links through memory from `head` visits exactly the frames `fs`, then null. */
  ghost predicate Chain(mem: Mem, hhdm: nat, head: nat, fs: seq<nat>) {
    && head == Head(hhdm, fs)
    && forall k :: 0 <= k < |fs| ==> fs[k] < |mem| && Encode(mem[fs[k]][0]) == Head(hhdm, fs[k + 1..])
  }

  /** The frame behind a kernel pointer. */
  function FrameOf(hhdm: nat, pointer: nat): nat
    requires hhdm <= pointer
  {
    (pointer - hhdm) / 4096
  }

  lemma FrameOfVaddr(hhdm: nat, f: nat)
    ensures FrameOf(hhdm, Vaddr(hhdm, f)) == f
  {
  }

  lemma ChainTail(mem: Mem, hhdm: nat, head: nat, fs: seq<nat>)
    requires Chain(mem, hhdm, head, fs) && fs != []
    ensures Chain(mem, hhdm, Encode(mem[fs[0]][0]), fs[1..])
  {
    forall k | 0 <= k < |fs| - 1
      ensures fs[1..][k] < |mem| && Encode(mem[fs[1..][k]][0]) == Head(hhdm, fs[1..][k + 1..])
    {
      assert fs[1..][k] == fs[k + 1];
      assert fs[1..][k + 1..] == fs[k + 1 + 1..];
    }
    assert fs[0 + 1..] == fs[1..];
  }

  /** Stores outside the free frames' first words leave the list alone. */
  lemma ChainFrame(mem: Mem, mem': Mem, hhdm: nat, head: nat, fs: seq<nat>)
    requires Chain(mem, hhdm, head, fs) && |mem| == |mem'|
    requires forall f :: f in fs && f < |mem| ==> mem'[f][0] == mem[f][0]
    ensures Chain(mem', hhdm, head, fs)
  {
    forall k | 0 <= k < |fs| ensures fs[k] < |mem'| && Encode(mem'[fs[k]][0]) == Head(hhdm, fs[k + 1..]) {
      assert fs[k] in fs;
    }
  }

  /** Storing the old head into a frame that is not on the list, and pointing at it, pushes it. */
  lemma ChainPush(mem: Mem, hhdm: nat, head: nat, fs: seq<nat>, f: nat)
    requires Machine(mem, hhdm) && Chain(mem, hhdm, head, fs) && f < |mem| && f !in fs && head < Power(2, 64)
    ensures Chain(mem[f := mem[f][0 := Decode(head)]], hhdm, Vaddr(hhdm, f), [f] + fs)
  {
    hide Encode, Decode, Digits.Power;
    var mem' := mem[f := mem[f][0 := Decode(head)]];
    EncodeDecode(head);
    ChainFrame(mem, mem', hhdm, head, fs);
    var fs' := [f] + fs;
    forall k | 0 <= k < |fs'| ensures fs'[k] < |mem'| && Encode(mem'[fs'[k]][0]) == Head(hhdm, fs'[k + 1..]) {
      if k == 0 {
        assert fs'[1..] == fs;
      } else {
        assert fs'[k] == fs[k - 1];
        assert fs'[k + 1..] == fs[k - 1 + 1..];
      }
    }
  }

  lemma HeadFits(mem: Mem, hhdm: nat, head: nat, fs: seq<nat>)
    requires Machine(mem, hhdm) && Chain(mem, hhdm, head, fs)
    ensures head < Power(2, 64) && (head == 0 <==> fs == []) && hhdm > 0
    ensures fs != [] ==> head == Vaddr(hhdm, fs[0]) && head >= hhdm && FrameOf(hhdm, head) == fs[0] < |mem|
  {
    if fs != [] {
      FrameOfVaddr(hhdm, fs[0]);
    }
  }

  /** The frames met by following links from `head`, at most `n` of them. */
  function Follow(mem: Mem, hhdm: nat, head: nat, n: nat): seq<nat>
    decreases n
  {
    if n == 0 || head < hhdm || FrameOf(hhdm, head) >= |mem| then []
    else [FrameOf(hhdm, head)] + Follow(mem, hhdm, Encode(mem[FrameOf(hhdm, head)][0]), n - 1)
  }

  /** The list is acyclic: however far links are followed, each frame is met once and the walk ends. */
  lemma {:induction false} FollowChain(mem: Mem, hhdm: nat, head: nat, fs: seq<nat>, n: nat)
    requires Machine(mem, hhdm) && Chain(mem, hhdm, head, fs) && n >= |fs|
    ensures Follow(mem, hhdm, head, n) == fs
    decreases n
  {
    hide Encode, Chain, FrameOf, Machine, Follow, Digits.Power, Vaddr;
    HeadFits(mem, hhdm, head, fs);
    if fs != [] {
      ChainTail(mem, hhdm, head, fs);
      FollowChain(mem, hhdm, Encode(mem[fs[0]][0]), fs[1..], n - 1);
      FollowStep(mem, hhdm, head, fs[0], n);
      assert fs == [fs[0]] + fs[1..];
    } else {
      FollowNull(mem, hhdm, n);
    }
  }

  lemma FollowStep(mem: Mem, hhdm: nat, head: nat, f: nat, n: nat)
    requires n > 0 && head >= hhdm && FrameOf(hhdm, head) == f < |mem|
    ensures Follow(mem, hhdm, head, n) == [f] + Follow(mem, hhdm, Encode(mem[f][0]), n - 1)
  {
    hide Encode, FrameOf;
  }

  lemma FollowNull(mem: Mem, hhdm: nat, n: nat)
    requires 0 < hhdm
    ensures Follow(mem, hhdm, 0, n) == []
  {
  }
}
