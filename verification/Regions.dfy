/** The frames that `init_list` adopts, and the order in which it lists them. */
module Regions {
  import opened PageTable
  import opened Ledger
  import opened FreeList
  import opened Space
  import opened MapSteps
  import opened Mapping

  const USABLE := 1

  /** An entry of the bootloader's memory map. */
  datatype Region = Region(base: nat, length: nat, kind: nat)

  /** The first `count` frames of a region. */
  function FramesOf(r: Region, count: nat): (fs: seq<nat>)
    ensures |fs| == count && forall j :: 0 <= j < count ==> fs[j] == r.base / 4096 + j
  {
    seq(count, j => r.base / 4096 + j)
  }

  function Pages(r: Region): nat { if r.kind == USABLE then r.length / 4096 else 0 }

  /** All frames of the usable regions, in memory-map order. */
  function AllFrames(regions: seq<Region>): seq<nat> {
    if regions == [] then []
    else
      var r := regions[|regions| - 1];
      AllFrames(regions[..|regions| - 1]) + FramesOf(r, Pages(r))
  }

  /** Frame f lies within a usable region: one of type 1 in the bootloader's memory map. */
  ghost predicate UsableFrame(regions: seq<Region>, f: nat) {
    exists i :: 0 <= i < |regions| && Covers(regions[i], f)
  }

  predicate Covers(r: Region, f: nat) {
    r.kind == 1 && r.base <= 4096 * f && 4096 * f + 4096 <= r.base + r.length
  }

  /** The frames adopted are those, every one, that lie within a usable region. */
  lemma {:induction false} FramesExactly(regions: seq<Region>, f: nat)
    requires forall i :: 0 <= i < |regions| && regions[i].kind == 1 ==> regions[i].base % 4096 == 0
    ensures f in AllFrames(regions) <==> UsableFrame(regions, f)
  {
    hide Covers, FramesOf, Pages;
    if regions != [] {
      var n := |regions| - 1;
      FramesExactly(regions[..n], f);
      RegionExactly(regions[n], f);
      assert forall i :: 0 <= i < n ==> regions[..n][i] == regions[i];
      assert UsableFrame(regions, f) <==> UsableFrame(regions[..n], f) || Covers(regions[n], f);
    }
  }

  lemma RegionExactly(r: Region, f: nat)
    requires r.kind == 1 ==> r.base % 4096 == 0
    ensures f in FramesOf(r, Pages(r)) <==> Covers(r, f)
  {
    var first, count := r.base / 4096, Pages(r);
    if r.kind == 1 {
      WithinRegion(r.base, r.length, f);
      if first <= f < first + count {
        assert FramesOf(r, count)[f - first] == f;
      }
    }
  }

  lemma WithinRegion(base: nat, length: nat, f: nat)
    requires base % 4096 == 0
    ensures base / 4096 <= f < base / 4096 + length / 4096 <==> base <= 4096 * f && 4096 * f + 4096 <= base + length
  {
  }

  /** The list that results from pushing the elements of `s` one after another. */
  function Reverse(s: seq<nat>): (r: seq<nat>)
    ensures |r| == |s|
  {
    if s == [] then [] else [s[|s| - 1]] + Reverse(s[..|s| - 1])
  }

  lemma {:induction false} ReverseAt(s: seq<nat>, k: nat)
    requires k < |s|
    ensures Reverse(s)[k] == s[|s| - 1 - k]
  {
    if k > 0 {
      ReverseAt(s[..|s| - 1], k - 1);
    }
  }

  lemma ReverseMembers(s: seq<nat>)
    ensures Members(Reverse(s)) == Members(s)
  {
    forall x | x in s ensures x in Reverse(s) {
      var i :| 0 <= i < |s| && s[i] == x;
      ReverseAt(s, |s| - 1 - i);
    }
    forall x | x in Reverse(s) ensures x in s {
      var k :| 0 <= k < |s| && Reverse(s)[k] == x;
      ReverseAt(s, k);
    }
  }

  /** The regions can be adopted: whole frames of memory, all different, none in use, and small
      enough that the byte offset within one fits an `int`. */
  ghost predicate Adoptable(s: Snapshot, regions: seq<Region>) {
    && (forall i :: 0 <= i < |regions| && regions[i].kind == USABLE ==>
          regions[i].base % 4096 == 0 && regions[i].length < 0x8000_0000)
    && NoDuplicates(AllFrames(regions))
    && InRange(s.mem, Members(AllFrames(regions)))
    && Members(AllFrames(regions)) !! Pool(s.books)
  }

  /** The books when the frames `done` of all the frames `fs` have been listed. */
  function Listing(b: Books, fs: seq<nat>, done: nat): Books
    requires done <= |fs|
  {
    b.(free := Reverse(fs[..done]) + b.free, owned := b.owned + Members(fs[done..]))
  }

  lemma {:induction false} FramesPrefix(regions: seq<Region>, i: nat)
    requires i <= |regions|
    ensures |AllFrames(regions[..i])| <= |AllFrames(regions)|
    ensures AllFrames(regions)[..|AllFrames(regions[..i])|] == AllFrames(regions[..i])
  {
    if i == |regions| {
      assert regions[..i] == regions;
    } else {
      var init := regions[..|regions| - 1];
      FramesPrefix(init, i);
      assert init[..i] == regions[..i];
    }
  }

  lemma RegionFrame(regions: seq<Region>, i: nat, j: nat)
    requires i < |regions| && j < Pages(regions[i])
    ensures var n := |AllFrames(regions[..i])| + j;
      n < |AllFrames(regions)| && AllFrames(regions)[n] == regions[i].base / 4096 + j
    ensures |AllFrames(regions[..i + 1])| == |AllFrames(regions[..i])| + Pages(regions[i])
  {
    FramesPrefix(regions, i + 1);
    var upTo := regions[..i + 1];
    assert upTo[..i] == regions[..i];
    assert AllFrames(upTo)[|AllFrames(regions[..i])| + j] == FramesOf(regions[i], Pages(regions[i]))[j];
  }

  lemma RegionCount(regions: seq<Region>, i: nat)
    requires i < |regions|
    ensures |AllFrames(regions[..i + 1])| == |AllFrames(regions[..i])| + Pages(regions[i])
  {
    assert regions[..i + 1][..i] == regions[..i];
  }

  lemma Adopt(s: Snapshot, root: nat, hhdm: nat, regions: seq<Region>)
    requires SoundAt(s, root, hhdm) && Adoptable(s, regions)
    ensures var fs := AllFrames(regions);
      SoundAt(s.(books := Listing(s.books, fs, 0)), root, hhdm)
  {
    hide Walk, Chain, Machine, Tree, PagesMapped, AllFrames;
    var fs := AllFrames(regions);
    assert fs[..0] == [] && fs[0..] == fs;
    assert Reverse(fs[..0]) + s.books.free == s.books.free;
    AdoptApart(SharesOf(s.books), Members(fs));
  }

  lemma AdoptApart(s: Shares, x: set<nat>)
    requires Apart(s) && x !! All(s)
    ensures Apart(s.(owned := s.owned + x))
  {
  }

  /** Pushing the next frame. */
  lemma ListNext(b: Books, fs: seq<nat>, n: nat)
    requires n < |fs| && NoDuplicates(fs) && Members(fs) !! b.owned
    ensures fs[n] in Listing(b, fs, n).owned
    ensures var l := Listing(b, fs, n);
      Listing(b, fs, n + 1) == l.(free := [fs[n]] + l.free, owned := l.owned - {fs[n]})
  {
    assert fs[..n + 1][..n] == fs[..n];
    assert fs[n..] == [fs[n]] + fs[n + 1..];
    assert forall k :: n + 1 <= k < |fs| ==> fs[k] != fs[n];
    assert fs[n] in Members(fs);
    assert Reverse(fs[..n + 1]) + b.free == [fs[n]] + (Reverse(fs[..n]) + b.free);
    assert Members(fs[n..]) == {fs[n]} + Members(fs[n + 1..]);
  }

  lemma AdoptableFacts(s: Snapshot, regions: seq<Region>)
    requires Adoptable(s, regions)
    ensures NoDuplicates(AllFrames(regions)) && Members(AllFrames(regions)) !! s.books.owned
  {
    hide AllFrames;
  }

  lemma ListedExactly(s: Snapshot, regions: seq<Region>, free: seq<nat>)
    requires Adoptable(s, regions) && free == Reverse(AllFrames(regions)) + s.books.free
    ensures forall f :: f in free <==> UsableFrame(regions, f) || f in s.books.free
  {
    hide UsableFrame, AllFrames, Reverse;
    ReverseMembers(AllFrames(regions));
    forall f ensures f in free <==> UsableFrame(regions, f) || f in s.books.free {
      if f >= 0 {
        FramesExactly(regions, f);
        assert f in AllFrames(regions) <==> f in Members(AllFrames(regions));
        assert f in Reverse(AllFrames(regions)) <==> f in Members(Reverse(AllFrames(regions)));
      }
    }
  }

  lemma NoFrames(regions: seq<Region>)
    ensures |AllFrames(regions[..0])| == 0
  {
  }

  lemma AllListed(b: Books, fs: seq<nat>)
    ensures Listing(b, fs, |fs|) == b.(free := Reverse(fs) + b.free)
  {
    hide Reverse;
    assert fs[..|fs|] == fs;
    assert Members(fs[|fs|..]) == {};
  }

  /** Only the frames in `frames` may differ. */
  ghost predicate SameBut(mem: Mem, mem': Mem, frames: set<nat>) {
    |mem'| == |mem| && forall f :: 0 <= f < |mem| && f !in frames ==> mem'[f] == mem[f]
  }

  lemma SameSelf(mem: Mem, root: nat, frames: set<nat>)
    ensures SameWalks(mem, mem, root) && SameBut(mem, mem, frames)
  {
  }

  lemma SameButStep(a: Mem, b: Mem, c: Mem, root: nat, fs: seq<nat>, n: nat)
    requires SameBut(a, b, Members(fs)) && n < |fs| && SameWalks(b, c, root)
    requires forall g :: 0 <= g < |c| && g != fs[n] ==> c[g] == b[g]
    ensures SameBut(a, c, Members(fs))
  {
    hide Walk;
  }
}
