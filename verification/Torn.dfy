/** How far `unmap_lower_half` has come: entries below a of the root have been torn down. */
module Torn {
  import opened PageTable
  import opened TableUpdates
  import opened Ledger
  import opened FreeList
  import opened Space
  import opened MapSteps
  import opened UserHalf
  import opened Mapping
  import opened Teardown

  predicate Gone(p: Path, a: nat) { p.Down? && First(p) < a }

  function GoneTables(tables: Tables, a: nat): set<nat> { set p | p in tables && Gone(p, a) :: tables[p] }

  function LeftTables(tables: Tables, a: nat): Tables { map p | p in tables && !Gone(p, a) :: tables[p] }

  function GonePages(pages: map<Page, nat>, a: nat): set<nat> { set v | v in pages && Slot(v, 3) < a :: pages[v] }

  function LeftPages(pages: map<Page, nat>, a: nat): map<Page, nat> {
    map v | v in pages && Slot(v, 3) >= a :: pages[v]
  }

  ghost predicate TornTo(s0: Snapshot, s: Snapshot, root: nat, a: nat) {
    BooksTorn(s0, s, a) && MemoryTorn(s0, s, root, a)
  }

  ghost predicate BooksTorn(s0: Snapshot, s: Snapshot, a: nat) {
    && |s.books.free| >= |s0.books.free|
    && s.books.free == NewlyFreed(s0, s) + s0.books.free
    && NoDuplicates(NewlyFreed(s0, s)) && Members(NewlyFreed(s0, s)) == GoneTables(s0.books.tables, a)
    && s.books.tables == LeftTables(s0.books.tables, a)
    && s.books.pages == LeftPages(s0.books.pages, a)
    && s.books.owned == s0.books.owned
    && s.books.stranded == s0.books.stranded + GonePages(s0.books.pages, a)
  }

  ghost predicate MemoryTorn(s0: Snapshot, s: Snapshot, root: nat, a: nat) {
    && |s.mem| == |s0.mem| && root < |s.mem|
    && (forall v: Page ::
          if Slot(v, 3) < a then Walk(s.mem, root, v).Fault? else Walk(s.mem, root, v) == Walk(s0.mem, root, v))
    && (forall f :: 0 <= f < |s.mem| && f != root && f !in GoneTables(s0.books.tables, a) ==> s.mem[f] == s0.mem[f])
    && (forall j :: 0 <= j < 512 ==>
          s.mem[root][j] == if j < a then s0.mem[root][j].(present := false) else s0.mem[root][j])
    && (forall f, j :: 0 <= f < |s.mem| && f != root && 1 <= j < 512 ==> s.mem[f][j] == s0.mem[f][j])
  }

  /** The frame freed last, and so the head of the list, is the table below the highest entry torn down. */
  ghost predicate LastFreed(s0: Snapshot, s: Snapshot, a: nat) {
    forall b :: Highest(s0.books.tables, b, a) ==>
      s.books.free != [] && s.books.free[0] == s0.books.tables[Down(Top, b)]
  }

  /** Of the root entries below a that have a table, this is the highest. */
  ghost predicate Highest(tables: Tables, b: nat, a: nat) {
    b < a && Down(Top, b) in tables && forall c :: b < c < a ==> Down(Top, c) !in tables
  }

  lemma TornStart(s: Snapshot, root: nat)
    requires root < |s.mem|
    ensures TornTo(s, s, root, 0)
  {
    hide Walk;
    assert LeftTables(s.books.tables, 0) == s.books.tables;
    assert LeftPages(s.books.pages, 0) == s.books.pages;
  }

  lemma NoneFreed(s: Snapshot)
    ensures LastFreed(s, s, 0)
  {
  }

  /** Dropping one more subtree. */
  lemma GoneNext(tables: Tables, pages: map<Page, nat>, a: nat)
    ensures var rest := LeftTables(tables, a);
      && LeftTables(tables, a + 1) == TablesBut(rest, a)
      && GoneTables(tables, a + 1) == GoneTables(tables, a) + UnderTables(rest, a)
    ensures var rest := LeftPages(pages, a);
      && LeftPages(pages, a + 1) == PagesBut(rest, a)
      && GonePages(pages, a + 1) == GonePages(pages, a) + UnderPages(rest, a)
  {
    hide First, Slot;
    var rest, left := LeftTables(tables, a), LeftPages(pages, a);
    forall y | y in UnderTables(rest, a) ensures y in GoneTables(tables, a + 1) {
      var p :| p in rest && Under(p, a) && rest[p] == y;
      assert Gone(p, a + 1) && tables[p] == y;
    }
    forall y | y in GoneTables(tables, a + 1) ensures y in GoneTables(tables, a) || y in UnderTables(rest, a) {
      var p :| p in tables && Gone(p, a + 1) && tables[p] == y;
      assert if Gone(p, a) then true else p in rest && Under(p, a) && rest[p] == y;
    }
    forall y | y in GonePages(pages, a + 1)
      ensures y in GonePages(pages, a) || y in UnderPages(left, a)
    {
      var v :| v in pages && Slot(v, 3) < a + 1 && pages[v] == y;
      assert if Slot(v, 3) < a then true else v in left && left[v] == y;
    }
  }

  lemma BooksStep(s0: Snapshot, s: Snapshot, s1: Snapshot, s2: Snapshot, root: nat, a: nat)
    requires BooksTorn(s0, s, a) && Detached(s, s1, root, a) && Balanced(s.books)
    requires Freeing(s1, s2, root, UnderTables(s.books.tables, a))
    ensures BooksTorn(s0, s2, a + 1)
  {
    FreedBooks(s, s1, s2, root, a);
    hide Detached, Freeing, Balanced, Members, NoDuplicates, Under, First, Slot, GoneTables, GonePages, LeftTables,
         LeftPages, UnderTables, UnderPages, TablesBut, PagesBut;
    GoneNext(s0.books.tables, s0.books.pages, a);
    FreshlyFreed(s0, s, a);
    FreedBoth(s0.books.free, s.books.free, s2.books.free);
    MembersConcat(NewlyFreed(s1, s2), NewlyFreed(s0, s));
  }

  /** The books after one more subtree has been cut off and freed. */
  lemma FreedBooks(s: Snapshot, s1: Snapshot, s2: Snapshot, root: nat, a: nat)
    requires Detached(s, s1, root, a) && Balanced(s.books) && Freeing(s1, s2, root, UnderTables(s.books.tables, a))
    ensures s1.books.free == s.books.free && |s2.books.free| >= |s.books.free|
    ensures s2.books.free[|s2.books.free| - |s.books.free|..] == s.books.free
    ensures Members(NewlyFreed(s1, s2)) == UnderTables(s.books.tables, a) && NoDuplicates(NewlyFreed(s1, s2))
    ensures s2.books.tables == TablesBut(s.books.tables, a) && s2.books.pages == PagesBut(s.books.pages, a)
    ensures s2.books.owned == s.books.owned && s2.books.stranded == s.books.stranded + UnderPages(s.books.pages, a)
  {
    hide SameWalks, SameTails, Balanced, Members, NoDuplicates, UnderTables, UnderPages, TablesBut, PagesBut;
    OwnedBack(s.books, a);
  }

  /** What has been pushed in two rounds. */
  lemma FreedBoth(a: seq<nat>, b: seq<nat>, c: seq<nat>)
    requires |a| <= |b| <= |c| && b[|b| - |a|..] == a && c[|c| - |b|..] == b
    ensures c[..|c| - |a|] == c[..|c| - |b|] + b[..|b| - |a|] && c == c[..|c| - |a|] + a
  {
    assert c == c[..|c| - |b|] + b && b == b[..|b| - |a|] + a;
  }

  lemma FreshlyFreed(s0: Snapshot, s: Snapshot, a: nat)
    requires BooksTorn(s0, s, a) && Balanced(s.books)
    ensures Members(NewlyFreed(s0, s)) !! UnderTables(s.books.tables, a)
  {
    hide Under;
    var earlier := NewlyFreed(s0, s);
    assert forall x :: x in Members(earlier) ==> x in Members(s.books.free);
    assert forall x :: x in UnderTables(s.books.tables, a) ==> x in s.books.tables.Values;
  }

  lemma OwnedBack(b: Books, a: nat)
    requires Balanced(b)
    ensures DetachBooks(b, a).owned - UnderTables(b.tables, a) == b.owned
  {
    hide Under;
    assert forall x :: x in UnderTables(b.tables, a) ==> x in b.tables.Values;
  }

  lemma MemoryStep(s0: Snapshot, s: Snapshot, s1: Snapshot, s2: Snapshot, root: nat, a: nat)
    requires MemoryTorn(s0, s, root, a) && Detached(s, s1, root, a) && HalfWalks(s.mem, s1.mem, root, a)
    requires Freeing(s1, s2, root, UnderTables(s.books.tables, a)) && root !in UnderTables(s.books.tables, a)
    requires s.books.tables == LeftTables(s0.books.tables, a)
    ensures MemoryTorn(s0, s2, root, a + 1)
  {
    hide Walk, Under, First, Slot;
    GoneNext(s0.books.tables, s0.books.pages, a);
  }

  lemma TornStep(s0: Snapshot, s: Snapshot, s1: Snapshot, s2: Snapshot, root: nat, hhdm: nat, a: nat)
    requires TornTo(s0, s, root, a) && SoundAt(s, root, hhdm) && Detached(s, s1, root, a)
    requires Freeing(s1, s2, root, UnderTables(s.books.tables, a))
    requires Down(Top, a) in s.books.tables
    requires s2.books.free != [] && s2.books.free[0] == s.books.tables[Down(Top, a)]
    ensures TornTo(s0, s2, root, a + 1) && LastFreed(s0, s2, a + 1)
  {
    hide Walk, Chain, Machine, MemoryTorn, Freeing, Balanced, PagesMapped, Tree;
    LastHere(s0, s, s2, a);
    hide BooksTorn, LastFreed;
    DetachKeepsSound(s, s1, root, hhdm, a);
    BooksStep(s0, s, s1, s2, root, a);
    RootStays(s, root, hhdm, a);
    TablesLeft(s0, s, a);
    MemoryStep(s0, s, s1, s2, root, a);
  }

  lemma LastHere(s0: Snapshot, s: Snapshot, s2: Snapshot, a: nat)
    requires BooksTorn(s0, s, a) && Down(Top, a) in s.books.tables
    requires s2.books.free != [] && s2.books.free[0] == s.books.tables[Down(Top, a)]
    ensures LastFreed(s0, s2, a + 1)
  {
    var n := a + 1;
    assert Down(Top, a) in s0.books.tables;
    forall b: nat | Highest(s0.books.tables, b, n) ensures s2.books.free[0] == s0.books.tables[Down(Top, b)] {
    }
  }

  lemma NoneHere(s0: Snapshot, s: Snapshot, a: nat)
    requires BooksTorn(s0, s, a) && Down(Top, a) !in s.books.tables && LastFreed(s0, s, a)
    ensures LastFreed(s0, s, a + 1)
  {
    FirstDown(Top, a);
    assert !Gone(Down(Top, a), a);
    assert Down(Top, a) !in s0.books.tables;
    var n := a + 1;
    forall b: nat | Highest(s0.books.tables, b, n) ensures Highest(s0.books.tables, b, a) {
    }
  }

  lemma TablesLeft(s0: Snapshot, s: Snapshot, a: nat)
    requires BooksTorn(s0, s, a)
    ensures s.books.tables == LeftTables(s0.books.tables, a)
  {
  }

  lemma RootStays(s: Snapshot, root: nat, hhdm: nat, a: nat)
    requires SoundAt(s, root, hhdm)
    ensures root !in UnderTables(s.books.tables, a)
  {
    hide Walk, Chain, Machine, AllLinked, Closed;
  }

  /** Nothing lies below an entry that is not present. */
  lemma {:induction false} NothingUnder(s: Snapshot, root: nat, hhdm: nat, a: nat, p: Path)
    requires SoundAt(s, root, hhdm) && a < 512 && root < |s.mem| && !s.mem[root][a].present
    requires p in s.books.tables
    ensures !Under(p, a)
  {
    hide Walk, Chain, Machine, Closed, Balanced, PagesMapped;
    if p.Down? {
      assert Linked(s.mem, s.books.tables, p);
      FirstDown(p.up, p.slot);
      NothingUnder(s, root, hhdm, a, p.up);
    }
  }

  lemma NoPageUnder(s: Snapshot, root: nat, hhdm: nat, a: nat, v: Page)
    requires SoundAt(s, root, hhdm) && a < 512 && root < |s.mem| && !s.mem[root][a].present
    requires Slot(v, 3) == a
    ensures Walk(s.mem, root, v).Fault? && v !in s.books.pages
  {
    hide Chain, Machine, Balanced, Tree;
    assert Reach(s.mem, root, v, 0).At?;
    assert Reach(s.mem, root, v, 1).Fault?;
    FaultStays(s.mem, root, v, 1, 4);
  }

  lemma TornSkip(s0: Snapshot, s: Snapshot, root: nat, hhdm: nat, a: nat)
    requires TornTo(s0, s, root, a) && SoundAt(s, root, hhdm) && a < 512 && !s.mem[root][a].present
    requires LastFreed(s0, s, a)
    ensures TornTo(s0, s, root, a + 1) && LastFreed(s0, s, a + 1)
  {
    hide Walk, Under, First, Slot, Sound, LastFreed;
    UnderHere(a, 0, 0);
    forall p | p in s.books.tables ensures !Under(p, a) {
      NothingUnder(s, root, hhdm, a, p);
    }
    forall v: Page | Slot(v, 3) == a ensures Walk(s.mem, root, v).Fault? && v !in s.books.pages {
      NoPageUnder(s, root, hhdm, a, v);
    }
    GoneNext(s0.books.tables, s0.books.pages, a);
    assert LeftTables(s0.books.tables, a + 1) == s.books.tables;
    assert LeftPages(s0.books.pages, a + 1) == s.books.pages;
    NoneHere(s0, s, a);
  }

  /** Everything below entry 256 is the lower half. */
  lemma TornAll(s0: Snapshot, s: Snapshot, root: nat)
    requires BooksTorn(s0, s, 256)
    ensures TornFrom(s0.books, s.books)
    ensures s.books == TornBooks(s0.books, NewlyFreed(s0, s))
    ensures GoneTables(s0.books.tables, 256) == LowerTables(s0.books)
  {
    hide First, Slot;
    var freed := NewlyFreed(s0, s);
    assert s.books.tables == UpperTables(s0.books.tables) && s.books.pages == UpperPages(s0.books.pages);
    assert GonePages(s0.books.pages, 256) == LowerFrames(s0.books.pages);
    assert s.books == TornBooks(s0.books, freed);
    assert Members(freed) == LowerTables(s0.books);
  }

  /** No lower-half entry of the root forbids execution. */
  predicate RootExecutable(mem: Mem, root: nat) {
    root < |mem| && forall i :: 0 <= i < 256 ==> !mem[root][i].noExecute
  }

  /** What is in memory after the teardown: lower-half root entries keep their addresses, though they are not
      present any more, and freed tables keep all entries but the first, where the link is. */
  ghost predicate IsTorn(s0: Snapshot, s: Snapshot, root: nat) {
    && |s.mem| == |s0.mem| && root < |s.mem|
    && (forall j :: 0 <= j < 512 ==>
          s.mem[root][j] == if j < 256 then s0.mem[root][j].(present := false) else s0.mem[root][j])
    && (forall f, j :: 0 <= f < |s.mem| && f != root && 1 <= j < 512 ==> s.mem[f][j] == s0.mem[f][j])
    && (forall f :: 0 <= f < |s.mem| && f != root && f !in LowerTables(s0.books) ==> s.mem[f] == s0.mem[f])
    && LastFreed(s0, s, 256)
  }

  lemma TornDone(s0: Snapshot, s: Snapshot, root: nat, hhdm: nat)
    requires SoundAt(s, root, hhdm) && TornTo(s0, s, root, 256) && LastFreed(s0, s, 256)
    ensures IsTorn(s0, s, root)
    ensures Next(s0.books, Op.Teardown, s.books) && |s.mem| == |s0.mem|
    ensures forall v: Page :: Lower(v) ==> Walk(s.mem, root, v).Fault?
    ensures forall v: Page :: !Lower(v) ==> Walk(s.mem, root, v) == Walk(s0.mem, root, v)
    ensures forall f :: 0 <= f < |s.mem| && f != root && f !in LowerTables(s0.books) ==> s.mem[f] == s0.mem[f]
    ensures RootExecutable(s0.mem, root) ==> Kept(s.mem, root, s.books)
  {
    hide Walk, Slot, Sound, LowerTables, TornFrom, LastFreed;
    TornAll(s0, s, root);
    if RootExecutable(s0.mem, root) {
      TornOpen(s0, s, root, hhdm);
    }
  }

  lemma TornOpen(s0: Snapshot, s: Snapshot, root: nat, hhdm: nat)
    requires SoundAt(s, root, hhdm) && TornTo(s0, s, root, 256) && RootExecutable(s0.mem, root)
    ensures OpenHalf(s.mem, s.books.tables)
  {
    hide Walk, Chain, Machine, AllLinked, Closed;
    forall p, i |
      p in s.books.tables && s.books.tables[p] < |s.mem| && 0 <= i < 512 && Depth(p) < 3 && First(Down(p, i)) < 256
      ensures OpenEntry(s.mem[s.books.tables[p]][i], Depth(p))
    {
      FirstDown(p, i);
      assert p == Top;
      assert s.mem[root][i] == s0.mem[root][i].(present := false);
    }
  }
}
