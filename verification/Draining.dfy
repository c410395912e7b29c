/** What callers of the frame allocator get, from `init_list` to an empty list. */
module Draining {
  import opened PageTable
  import opened Ledger
  import opened FreeList
  import opened Space
  import opened Regions
  import opened Caches
  import opened Kernel

  /** Allocates until there is nothing left. */
  method Drain(k: AddressSpace) returns (ps: seq<nat>)
    requires k.Valid()
    modifies k`freeList, k`books
    ensures k.Valid() && k.books.free == []
    ensures |ps| == |old(k.books.free)| && forall i :: 0 <= i < |ps| ==> ps[i] == Vaddr(k.hhdm, old(k.books.free)[i])
  {
    hide Sound, Current, MapBooks, UnmapBooks, TornFrom;
    ghost var fs := k.books.free;
    ps := [];
    ListHead(k.Snap().books, k.mem, k.root, k.hhdm, k.freeList);
    var p := k.PmemAlloc();
    assert fs[0..] == fs;
    while p != 0
      invariant k.Valid() && |ps| <= |fs| && p == Head(k.hhdm, fs[|ps|..])
      invariant k.books.free == if fs[|ps|..] == [] then [] else fs[|ps| + 1..]
      invariant p == 0 <==> fs[|ps|..] == []
      invariant forall i :: 0 <= i < |ps| ==> ps[i] == Vaddr(k.hhdm, fs[i])
      decreases |fs| - |ps|
    {
      ghost var n := |ps|;
      assert fs[n + 1..] != [] ==> fs[n + 1..][1..] == fs[n + 2..];
      ps := ps + [p];
      ListHead(k.books, k.mem, k.root, k.hhdm, k.freeList);
      p := k.PmemAlloc();
    }
  }

  lemma ListHead(b: Books, mem: Mem, root: nat, hhdm: nat, freeList: nat)
    requires Sound(mem, root, hhdm, freeList, b)
    ensures Head(hhdm, b.free) == 0 <==> b.free == []
  {
    hide Tree, Balanced;
    SoundList(mem, root, hhdm, freeList, b);
  }

  lemma Handed(hhdm: nat, regions: seq<Region>, ps: seq<nat>)
    requires forall i :: 0 <= i < |regions| && regions[i].kind == 1 ==> regions[i].base % 4096 == 0
    requires NoDuplicates(AllFrames(regions)) && |ps| == |AllFrames(regions)|
    requires forall i :: 0 <= i < |ps| ==> ps[i] == Vaddr(hhdm, AllFrames(regions)[|ps| - 1 - i])
    ensures forall f: nat :: UsableFrame(regions, f) <==> hhdm + 4096 * f in ps
    ensures forall i, j :: 0 <= i < j < |ps| ==> ps[i] != ps[j]
  {
    hide AllFrames, UsableFrame;
    var fs := AllFrames(regions);
    forall f: nat ensures UsableFrame(regions, f) <==> hhdm + 4096 * f in ps {
      FramesExactly(regions, f);
      if f in fs {
        var m :| 0 <= m < |fs| && fs[m] == f;
        assert ps[|ps| - 1 - m] == Vaddr(hhdm, f);
      }
    }
  }

  /** After `init_list` the allocator hands out the frames within the usable regions, all of them and each once,
      last adopted first, and then 0. */
  method DrainAdopted(k: AddressSpace, regions: seq<Region>) returns (ps: seq<nat>)
    requires k.Valid() && Adoptable(k.Snap(), regions) && k.books.free == []
    modifies k
    ensures k.Valid() && k.books.free == []
    ensures NoDuplicates(AllFrames(regions)) && |ps| == |AllFrames(regions)|
    ensures forall i :: 0 <= i < |ps| ==> ps[i] == Vaddr(k.hhdm, AllFrames(regions)[|ps| - 1 - i])
    ensures forall f: nat :: UsableFrame(regions, f) <==> k.hhdm + 4096 * f in ps
    ensures forall i, j :: 0 <= i < j < |ps| ==> ps[i] != ps[j]
  {
    hide Sound, Current, AllFrames, Reverse, SameBut, SameWalks, Coherent;
    AdoptableFacts(k.Snap(), regions);
    k.InitList(regions);
    ghost var fs := AllFrames(regions);
    assert Reverse(fs) + [] == Reverse(fs);
    ps := Drain(k);
    forall i | 0 <= i < |ps| ensures ps[i] == Vaddr(k.hhdm, fs[|ps| - 1 - i]) {
      ReverseAt(fs, i);
    }
    Handed(k.hhdm, regions, ps);
  }
}
