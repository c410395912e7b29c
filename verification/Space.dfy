/** The invariant that ties memory, the page-table tree, the free list and the books together,
    and the steps that keep it. */
module Space {
  import opened Words
  import opened PageTable
  import opened TableUpdates
  import opened Ledger
  import opened FreeList

  /** Every page in the books translates to its frame. */
  ghost predicate PagesMapped(mem: Mem, root: nat, pages: map<Page, nat>) {
    forall v :: v in pages ==> pages[v] < |mem| && Walk(mem, root, v).Mapped? && Walk(mem, root, v).frame == pages[v]
  }

  ghost predicate InRange(mem: Mem, frames: set<nat>) {
    forall f :: f in frames ==> f < |mem|
  }

  ghost predicate Sound(mem: Mem, root: nat, hhdm: nat, freeList: nat, b: Books) {
    && Machine(mem, hhdm)
    && Tree(mem, root, b.tables)
    && Chain(mem, hhdm, freeList, b.free)
    && Balanced(b)
    && PagesMapped(mem, root, b.pages)
    && InRange(mem, b.owned)
  }

  ghost predicate SameWalks(mem: Mem, mem': Mem, root: nat) {
    |mem| == |mem'| && forall v: Page :: Walk(mem', root, v) == Walk(mem, root, v)
  }

  ghost predicate SameWalksBut(mem: Mem, mem': Mem, root: nat, u: Page) {
    |mem| == |mem'| && forall v: Page :: v != u ==> Walk(mem', root, v) == Walk(mem, root, v)
  }

  lemma SameBoth(a: Mem, b: Mem, c: Mem, root: nat)
    requires SameWalks(a, b, root) && SameWalks(b, c, root)
    ensures SameWalks(a, c, root)
  {
    hide Walk;
  }

  /** A frame that is neither a table nor free may be overwritten. */
  lemma OverwriteKeeps(mem: Mem, root: nat, hhdm: nat, freeList: nat, b: Books, f: nat, t: Table)
    requires Sound(mem, root, hhdm, freeList, b) && f < |mem|
    requires f !in b.tables.Values && f !in b.free
    ensures Sound(mem[f := t], root, hhdm, freeList, b) && SameWalks(mem, mem[f := t], root)
    ensures forall v: Page, k :: 0 <= k <= 4 ==> Reach(mem[f := t], root, v, k) == Reach(mem, root, v, k)
  {
    hide Walk, Reach, Tree, Balanced, Machine;
    assert Machine(mem[f := t], hhdm) by { MachineSize(mem, mem[f := t], hhdm); }
    assert forall p :: p in b.tables ==> b.tables[p] in b.tables.Values;
    TreeRange(mem, root, b.tables);
    OutsideTables(mem, mem[f := t], root, b.tables);
    ChainFrame(mem, mem[f := t], hhdm, freeList, b.free);
  }

  lemma MachineSize(mem: Mem, mem': Mem, hhdm: nat)
    requires Machine(mem, hhdm) && |mem| == |mem'|
    ensures Machine(mem', hhdm)
  {
  }

  lemma TreeRange(mem: Mem, root: nat, tables: Tables)
    requires Tree(mem, root, tables)
    ensures forall p :: p in tables ==> tables[p] < |mem|
  {
  }

  lemma AllocKeepsSound(mem: Mem, root: nat, hhdm: nat, freeList: nat, b: Books)
    requires Sound(mem, root, hhdm, freeList, b) && b.free != []
    ensures b.free[0] < |mem| && freeList == Vaddr(hhdm, b.free[0])
    ensures Sound(mem, root, hhdm, Encode(mem[b.free[0]][0]), b.(free := b.free[1..], owned := b.owned + {b.free[0]}))
  {
    hide Walk, Tree, Balanced, Machine, Encode, PagesMapped, Chain, Pool, Count, Digits.Power;
    HeadFits(mem, hhdm, freeList, b.free);
    ChainTail(mem, hhdm, freeList, b.free);
    AllocKeeps(b);
  }

  lemma SoundList(mem: Mem, root: nat, hhdm: nat, freeList: nat, b: Books)
    requires Sound(mem, root, hhdm, freeList, b)
    ensures freeList == Head(hhdm, b.free) && (freeList == 0 <==> b.free == []) && Machine(mem, hhdm)
    ensures freeList != 0 ==> freeList >= hhdm && FrameOf(hhdm, freeList) == b.free[0] < |mem|
  {
    hide Machine, Tree, Balanced;
    HeadFits(mem, hhdm, freeList, b.free);
  }

  /** A frame of memory has a number that a page-table entry can hold. */
  lemma FrameFits(mem: Mem, root: nat, hhdm: nat, freeList: nat, b: Books, f: nat)
    requires Sound(mem, root, hhdm, freeList, b) && f < |mem|
    ensures f < 0x8_0000_0000_0000
  {
    FieldWidths();
  }

  lemma FreeKeepsSound(mem: Mem, root: nat, hhdm: nat, freeList: nat, b: Books, f: nat)
    requires Sound(mem, root, hhdm, freeList, b) && f in b.owned
    ensures f < |mem| && freeList < Digits.Power(2, 64)
    ensures var mem' := mem[f := mem[f][0 := Decode(freeList)]];
      && Sound(mem', root, hhdm, Vaddr(hhdm, f), b.(free := [f] + b.free, owned := b.owned - {f}))
      && SameWalks(mem, mem', root)
  {
    hide Walk, Reach, Tree, Machine, Chain, Encode, Decode, Pool, Count, Digits.Power;
    HeadFits(mem, hhdm, freeList, b.free);
    OwnedApart(b, f);
    OverwriteKeeps(mem, root, hhdm, freeList, b, f, mem[f][0 := Decode(freeList)]);
    ChainPush(mem, hhdm, freeList, b.free, f);
    FreeKeeps(b, f);
  }

  /** An owned frame may be overwritten. */
  lemma OwnedOverwrite(mem: Mem, root: nat, hhdm: nat, freeList: nat, b: Books, f: nat, t: Table)
    requires Sound(mem, root, hhdm, freeList, b) && f in b.owned
    ensures f < |mem| && Sound(mem[f := t], root, hhdm, freeList, b) && SameWalks(mem, mem[f := t], root)
    ensures forall v: Page, k :: 0 <= k <= 4 ==> Reach(mem[f := t], root, v, k) == Reach(mem, root, v, k)
  {
    hide Walk, Reach, Tree, Machine, Chain, PagesMapped, SameWalks;
    OwnedApart(b, f);
    OverwriteKeeps(mem, root, hhdm, freeList, b, f, t);
  }

  lemma OwnedApart(b: Books, f: nat)
    requires Balanced(b) && f in b.owned
    ensures f !in b.tables.Values && f !in b.free && f !in b.pages.Values
  {
    assert f in b.free ==> f in Members(b.free);
  }

  /** An owned, zeroed frame becomes the table at position Down(p, i). */
  lemma HangKeepsSound(mem: Mem, root: nat, hhdm: nat, freeList: nat, b: Books, p: Path, i: nat, w: Word)
    requires Sound(mem, root, hhdm, freeList, b) && w.address in b.owned && w.address < |mem|
    requires p in b.tables && b.tables[p] < |mem| && i < 512 && CanGrow(mem, root, b.tables, p, i, w)
    ensures var mem' := SetEntry(mem, b.tables[p], i, w);
      && Down(p, i) !in b.tables
      && Sound(mem', root, hhdm, freeList,
               b.(tables := b.tables[Down(p, i) := w.address], owned := b.owned - {w.address}))
      && SameWalks(mem, mem', root)
  {
    var mem' := SetEntry(mem, b.tables[p], i, w);
    hide Walk, Reach, Tree, Machine, Points, Chain, Encode, Balanced, SetEntry, CanGrow, PagesMapped;
    Grow(mem, root, b.tables, p, i, w);
    EntryKeepsList(mem, hhdm, freeList, b, p, i, w);
    SamePages(mem, mem', root, b.pages);
    HangBalanced(b, Down(p, i), w.address);
  }

  lemma TablesApart(b: Books, p: Path)
    requires Balanced(b) && p in b.tables
    ensures b.tables[p] !in b.free && b.tables[p] !in b.pages.Values && b.tables[p] !in b.owned
  {
    assert b.tables[p] in b.tables.Values;
    assert forall f :: f in b.free ==> f in Members(b.free);
  }

  lemma SamePages(mem: Mem, mem': Mem, root: nat, pages: map<Page, nat>)
    requires PagesMapped(mem, root, pages) && SameWalks(mem, mem', root)
    ensures PagesMapped(mem', root, pages)
  {
    hide Walk;
  }

  /** A store to a table leaves the free list alone. */
  lemma EntryKeepsList(mem: Mem, hhdm: nat, freeList: nat, b: Books, p: Path, i: nat, w: Word)
    requires Machine(mem, hhdm) && Chain(mem, hhdm, freeList, b.free) && Balanced(b)
    requires p in b.tables && b.tables[p] < |mem| && i < 512
    ensures var mem' := SetEntry(mem, b.tables[p], i, w);
      |mem'| == |mem| && Machine(mem', hhdm) && Chain(mem', hhdm, freeList, b.free)
  {
    hide Chain, Machine, Encode;
    var mem' := SetEntry(mem, b.tables[p], i, w);
    TablesApart(b, p);
    MachineSize(mem, mem', hhdm);
    ChainFrame(mem, mem', hhdm, freeList, b.free);
  }

  lemma HangBalanced(b: Books, q: Path, f: nat)
    requires Balanced(b) && f in b.owned && q !in b.tables
    ensures Balanced(b.(tables := b.tables[q := f], owned := b.owned - {f}))
  {
    InsertValue(b.tables, q, f);
  }

  lemma PageBalanced(b: Books, v: Page, f: nat)
    requires Balanced(b) && f in b.owned && v !in b.pages
    ensures Balanced(b.(pages := b.pages[v := f], owned := b.owned - {f}))
  {
    InsertValue(b.pages, v, f);
  }

  /** The last-level entry of `v` may be changed if the books are changed with it. */
  lemma LeafKeepsSound(mem: Mem, root: nat, hhdm: nat, freeList: nat, b: Books, v: Page, w: Word, b': Books)
    requires Sound(mem, root, hhdm, freeList, b) && PathTo(v, 3) in b.tables
    requires b'.free == b.free && b'.tables == b.tables && Balanced(b') && b'.owned <= b.owned
    requires forall u :: u in b'.pages && u != v ==> u in b.pages && b'.pages[u] == b.pages[u]
    requires v in b'.pages ==> w.present && w.address == b'.pages[v] < |mem|
    ensures var mem' := SetEntry(mem, b.tables[PathTo(v, 3)], Slot(v, 0), w);
      && Sound(mem', root, hhdm, freeList, b')
      && SameWalksBut(mem, mem', root, v)
      && Reach(mem, root, v, 3).At?
      && Walk(mem', root, v) ==
           (if w.present then Mapped(w.address, Meet(Reach(mem, root, v, 3).perm, EntryPerm(w))) else Fault)
      && (forall u: Page :: Reach(mem', root, u, 3) == Reach(mem, root, u, 3))
  {
    var mem' := SetEntry(mem, b.tables[PathTo(v, 3)], Slot(v, 0), w);
    hide Walk, Reach, Tree, Machine, PathTo, Slot, Chain, Encode, Balanced, SetEntry, EntryPerm, Meet;
    TreeRange(mem, root, b.tables);
    SetLeaf(mem, root, b.tables, v, w);
    EntryKeepsList(mem, hhdm, freeList, b, PathTo(v, 3), Slot(v, 0), w);
    LeafPages(mem, mem', root, b.pages, b'.pages, v);
  }

  lemma LeafPages(mem: Mem, mem': Mem, root: nat, pages: map<Page, nat>, pages': map<Page, nat>, v: Page)
    requires PagesMapped(mem, root, pages) && SameWalksBut(mem, mem', root, v)
    requires forall u :: u in pages' && u != v ==> u in pages && pages'[u] == pages[u]
    requires v in pages' ==> pages'[v] < |mem| && Walk(mem', root, v).Mapped? && Walk(mem', root, v).frame == pages'[v]
    ensures PagesMapped(mem', root, pages')
  {
    hide Walk;
  }
}
