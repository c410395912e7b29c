/** The steps of `unmap_lower_half`: cutting off the subtree below one root entry,
    and freeing its tables, children before parents. */
module Teardown {
  import opened Words
  import opened PageTable
  import opened TableUpdates
  import opened Ledger
  import opened FreeList
  import opened Space
  import opened MapSteps
  import opened Mapping

  predicate Under(p: Path, a: nat) { p.Down? && First(p) == a }

  function UnderTables(tables: Tables, a: nat): set<nat> {
    set p | p in tables && Under(p, a) :: tables[p]
  }

  function UnderPages(pages: map<Page, nat>, a: nat): set<nat> {
    set v | v in pages && Slot(v, 3) == a :: pages[v]
  }

  // ---- cutting off a subtree ----

  function TablesBut(tables: Tables, a: nat): Tables { map p | p in tables && !Under(p, a) :: tables[p] }

  function PagesBut(pages: map<Page, nat>, a: nat): map<Page, nat> { map v | v in pages && Slot(v, 3) != a :: pages[v] }

  /** The tables below entry a of the root now belong to the code that will free them. */
  function DetachBooks(b: Books, a: nat): Books {
    b.(tables := TablesBut(b.tables, a),
       pages := PagesBut(b.pages, a),
       owned := b.owned + UnderTables(b.tables, a),
       stranded := b.stranded + UnderPages(b.pages, a))
  }

  /** What is cut off, and what is left, as restrictions of the two maps. */
  lemma DetachParts(b: Books, a: nat, ts: set<Path>, ps: set<Page>)
    requires ts == (set p | p in b.tables && Under(p, a)) && ps == (set v | v in b.pages && Slot(v, 3) == a)
    ensures DetachBooks(b, a).tables == Outside(b.tables, ts) && DetachBooks(b, a).pages == Outside(b.pages, ps)
    ensures UnderTables(b.tables, a) == Inside(b.tables, ts).Values
    ensures UnderPages(b.pages, a) == Inside(b.pages, ps).Values
  {
    hide Under, Slot;
    forall f | f in UnderTables(b.tables, a) ensures f in Inside(b.tables, ts).Values {
      var p :| p in b.tables && Under(p, a) && b.tables[p] == f;
      assert Inside(b.tables, ts)[p] == f;
    }
    forall f | f in UnderPages(b.pages, a) ensures f in Inside(b.pages, ps).Values {
      var v :| v in b.pages && Slot(v, 3) == a && b.pages[v] == f;
      assert Inside(b.pages, ps)[v] == f;
    }
  }

  lemma DetachBalanced(b: Books, a: nat)
    requires Balanced(b)
    ensures Balanced(DetachBooks(b, a))
  {
    hide Under, Slot, Apart, UnderTables, UnderPages, Inside, Outside;
    var d := DetachBooks(b, a);
    var ts, ps := set p | p in b.tables && Under(p, a), set v | v in b.pages && Slot(v, 3) == a;
    SplitValues(b.tables, ts);
    SplitValues(b.pages, ps);
    DetachParts(b, a, ts, ps);
    DetachApart(SharesOf(b), SharesOf(d), Inside(b.tables, ts).Values, Inside(b.pages, ps).Values);
  }

  lemma DetachApart(s: Shares, s': Shares, t: set<nat>, p: set<nat>)
    requires Apart(s) && s'.free == s.free
    requires s'.tables + t == s.tables && s'.tables !! t && s'.owned == s.owned + t
    requires s'.pages + p == s.pages && s'.pages !! p && s'.stranded == s.stranded + p
    ensures Apart(s')
  {
  }

  lemma FirstDown(p: Path, i: nat)
    ensures First(Down(p, i)) == if p.Top? then i else First(p)
  {
  }

  lemma DetachTree(mem: Mem, root: nat, tables: Tables, a: nat, tables': Tables)
    requires Tree(mem, root, tables) && a < 512
    requires tables' == TablesBut(tables, a)
    ensures root < |mem| && Tree(SetEntry(mem, root, a, mem[root][a].(present := false)), root, tables')
  {
    var mem' := SetEntry(mem, root, a, mem[root][a].(present := false));
    forall p | p in tables' && p.Down? ensures Linked(mem', tables', p) {
      assert Linked(mem, tables, p);
      FirstDown(p.up, p.slot);
      assert p.up in tables';
    }
    forall p, i | p in tables' && 0 <= i < 512 && Points(mem'[tables'[p]][i], Depth(p)) ensures Down(p, i) in tables' {
      FirstDown(p, i);
      assert p == Top || tables[p] != root;
    }
  }

  lemma DetachWalks(mem: Mem, root: nat, tables: Tables, a: nat)
    requires Tree(mem, root, tables) && a < 512
    ensures root < |mem|
    ensures var mem' := SetEntry(mem, root, a, mem[root][a].(present := false));
      && (forall v: Page :: Slot(v, 3) != a ==> Walk(mem', root, v) == Walk(mem, root, v))
      && (forall v: Page :: Slot(v, 3) == a ==> Walk(mem', root, v).Fault?)
  {
    var w := mem[root][a].(present := false);
    var mem' := SetEntry(mem, root, a, w);
    forall v: Page
      ensures if Slot(v, 3) != a then Walk(mem', root, v) == Walk(mem, root, v) else Walk(mem', root, v).Fault?
    {
      if Slot(v, 3) != a {
        EntryFrame(mem, root, tables, Top, a, w, v, 4);
      } else {
        assert Reach(mem', root, v, 0).At?;
        assert Reach(mem', root, v, 1).Fault?;
        FaultStays(mem', root, v, 1, 4);
      }
    }
  }

  /** s is s0 after entry a of the root has been marked not present. */
  ghost predicate Detached(s0: Snapshot, s: Snapshot, root: nat, a: nat) {
    && root < |s0.mem| && a < 512
    && s == Snapshot(SetEntry(s0.mem, root, a, s0.mem[root][a].(present := false)), s0.freeList,
                     DetachBooks(s0.books, a))
  }

  ghost predicate HalfWalks(mem: Mem, mem': Mem, root: nat, a: nat) {
    && (forall v: Page :: Slot(v, 3) != a ==> Walk(mem', root, v) == Walk(mem, root, v))
    && (forall v: Page :: Slot(v, 3) == a ==> Walk(mem', root, v).Fault?)
  }

  lemma DetachKeepsSound(s0: Snapshot, s: Snapshot, root: nat, hhdm: nat, a: nat)
    requires SoundAt(s0, root, hhdm) && Detached(s0, s, root, a)
    ensures SoundAt(s, root, hhdm) && HalfWalks(s0.mem, s.mem, root, a)
  {
    hide Tree, Chain, Machine, Balanced, Walk;
    DetachBalanced(s0.books, a);
    DetachTree(s0.mem, root, s0.books.tables, a, s.books.tables);
    DetachWalks(s0.mem, root, s0.books.tables, a);
    TopTable(s0.mem, root, s0.books.tables);
    EntryKeepsList(s0.mem, hhdm, s0.freeList, s0.books, Top, a, s0.mem[root][a].(present := false));
    DetachPages(s0.mem, s.mem, root, s0.books.pages, s.books.pages, a);
    DetachRange(s0, s, root, hhdm, a);
  }

  lemma TopTable(mem: Mem, root: nat, tables: Tables)
    requires Tree(mem, root, tables)
    ensures Top in tables && tables[Top] == root
  {
  }

  lemma DetachPages(mem: Mem, mem': Mem, root: nat, pages: map<Page, nat>, pages': map<Page, nat>, a: nat)
    requires PagesMapped(mem, root, pages) && |mem| == |mem'| && HalfWalks(mem, mem', root, a)
    requires pages' == PagesBut(pages, a)
    ensures PagesMapped(mem', root, pages')
  {
    hide Walk;
  }

  lemma DetachRange(s0: Snapshot, s: Snapshot, root: nat, hhdm: nat, a: nat)
    requires SoundAt(s0, root, hhdm) && Detached(s0, s, root, a)
    ensures InRange(s.mem, s.books.owned)
  {
    hide Chain, Machine, Balanced, Walk, AllLinked, Closed;
  }

  // ---- freeing its tables ----

  /** The tables below entry a that the traversal has freed when it is about to look at
      entry c of the table at entry b (whose own frame is freed after its last entry). */
  predicate Before(p: Path, a: nat, b: nat, c: nat) {
    match p
    case Down(Down(Top, x), y) => x == a && y < b
    case Down(Down(Down(Top, x), y), z) => x == a && (y < b || (y == b && z < c))
    case _ => false
  }

  lemma BeforeNext(p: Path, a: nat, b: nat, c: nat)
    ensures Before(p, a, b, c + 1) <==> Before(p, a, b, c) || p == Down(Down(Down(Top, a), b), c)
    ensures !Before(Down(Down(Down(Top, a), b), c), a, b, c)
  {
  }

  lemma BeforeRow(p: Path, a: nat, b: nat, c: nat)
    requires p.Down? && p.up.Down? && p.up.up.Down? ==> p.slot < c
    ensures Before(p, a, b + 1, 0) <==> Before(p, a, b, c) || p == Down(Down(Top, a), b)
    ensures !Before(Down(Down(Top, a), b), a, b, c)
  {
  }

  lemma BeforeNoRow(p: Path, a: nat, b: nat)
    requires p != Down(Down(Top, a), b) && (p.Down? ==> p.up != Down(Down(Top, a), b))
    ensures Before(p, a, b + 1, 0) <==> Before(p, a, b, 0)
  {
  }

  function Freed(tables: Tables, a: nat, b: nat, c: nat): set<nat> {
    set p | p in tables && Before(p, a, b, c) :: tables[p]
  }

  /** Exactly the frames of `freed` have moved from their owner to the front of the free list. */
  ghost predicate Freeing(s1: Snapshot, s: Snapshot, root: nat, freed: set<nat>) {
    && |s.books.free| >= |s1.books.free|
    && s.books.free[|s.books.free| - |s1.books.free|..] == s1.books.free
    && Members(NewlyFreed(s1, s)) == freed && NoDuplicates(NewlyFreed(s1, s))
    && s.books == s1.books.(free := s.books.free, owned := s1.books.owned - freed)
    && SameWalks(s1.mem, s.mem, root)
    && (forall f :: 0 <= f < |s.mem| && f !in freed ==> s.mem[f] == s1.mem[f])
    && SameTails(s1.mem, s.mem)
  }

  /** Only first words differ. */
  ghost predicate SameTails(mem: Mem, mem': Mem) {
    |mem'| == |mem| && forall f, j :: 0 <= f < |mem| && 1 <= j < 512 ==> mem'[f][j] == mem[f][j]
  }

  function NewlyFreed(s1: Snapshot, s: Snapshot): seq<nat>
    requires |s.books.free| >= |s1.books.free|
  {
    s.books.free[..|s.books.free| - |s1.books.free|]
  }

  lemma FreeingNone(s: Snapshot, root: nat)
    ensures Freeing(s, s, root, {})
  {
    hide Walk;
  }

  lemma FreeingStep(s1: Snapshot, s: Snapshot, s': Snapshot, root: nat, freed: set<nat>, f: nat)
    requires Freeing(s1, s, root, freed) && f !in freed
    requires SameWalks(s.mem, s'.mem, root)
    requires s'.books == s.books.(free := [f] + s.books.free, owned := s.books.owned - {f})
    requires forall g :: 0 <= g < |s'.mem| && g != f ==> s'.mem[g] == s.mem[g]
    requires SameTails(s.mem, s'.mem)
    ensures Freeing(s1, s', root, freed + {f})
  {
    hide Walk, SameWalks;
    SameBoth(s1.mem, s.mem, s'.mem, root);
    SameSize(s.mem, s'.mem, root);
    SameSize(s1.mem, s.mem, root);
    var n := |s.books.free| - |s1.books.free|;
    assert NewlyFreed(s1, s') == [f] + NewlyFreed(s1, s);
    MembersPush(f, NewlyFreed(s1, s));
    assert s'.books.free[n + 1..] == s.books.free[n..];
  }

  lemma SameSize(mem: Mem, mem': Mem, root: nat)
    requires SameWalks(mem, mem', root)
    ensures |mem| == |mem'|
  {
  }

  /** What the traversal of the subtree below entry a relies on: it reads tables as they were. */
  ghost predicate Traversing(s0: Snapshot, s1: Snapshot, s: Snapshot, root: nat, hhdm: nat, a: nat, freed: set<nat>) {
    && SoundAt(s0, root, hhdm) && Detached(s0, s1, root, a)
    && SoundAt(s, root, hhdm) && Freeing(s1, s, root, freed)
  }

  /** A table of the subtree that has not been freed still has its contents, and may be freed. */
  lemma Unfreed(s0: Snapshot, s1: Snapshot, s: Snapshot, root: nat, hhdm: nat, a: nat, freed: set<nat>, p: Path)
    requires Traversing(s0, s1, s, root, hhdm, a, freed)
    requires p in s0.books.tables && Under(p, a) && s0.books.tables[p] !in freed
    ensures s0.books.tables[p] < |s.mem| == |s0.mem|
    ensures s.mem[s0.books.tables[p]] == s0.mem[s0.books.tables[p]]
    ensures s0.books.tables[p] in s.books.owned
  {
    hide Chain, Machine, Walk, AllLinked, Closed;
    SameSize(s1.mem, s.mem, root);
    assert s0.books.tables[p] in UnderTables(s0.books.tables, a);
    assert Top in s0.books.tables && p != Top;
  }

  /** The root's own entry still holds the address of the table, though it is not present any more. */
  lemma RootUnfreed(s0: Snapshot, s1: Snapshot, s: Snapshot, root: nat, hhdm: nat, a: nat)
    requires Traversing(s0, s1, s, root, hhdm, a, Freed(s0.books.tables, a, 512, 0))
    requires root < |s.mem|
    ensures s.mem[root] == s1.mem[root]
  {
    hide Chain, Machine, Walk, AllLinked, Closed;
    assert Top in s0.books.tables;
    assert !Before(Top, a, 512, 0);
  }

  /** A present entry of the root refers to the table that the tree has there. */
  lemma RootChild(s0: Snapshot, s1: Snapshot, root: nat, hhdm: nat, a: nat)
    requires SoundAt(s0, root, hhdm) && Detached(s0, s1, root, a) && s0.mem[root][a].present
    ensures Down(Top, a) in s0.books.tables && s0.books.tables[Down(Top, a)] == s1.mem[root][a].address
  {
    hide Chain, Machine, Walk, Balanced, PagesMapped;
    TopTable(s0.mem, root, s0.books.tables);
    assert Points(s0.mem[root][a], 0);
    ChildThere(s0, root, hhdm, Top, a);
  }

  lemma RootInMemory(s: Snapshot, root: nat, hhdm: nat)
    requires SoundAt(s, root, hhdm)
    ensures root < |s.mem|
  {
    hide Chain, Machine, Walk, Balanced, PagesMapped, AllLinked, Closed;
  }

  /** An entry of a table of the tree refers to a lower table exactly when the tree has one there. */
  lemma ChildThere(s0: Snapshot, root: nat, hhdm: nat, p: Path, i: nat)
    requires SoundAt(s0, root, hhdm) && p in s0.books.tables && s0.books.tables[p] < |s0.mem| && i < 512
    ensures Points(s0.mem[s0.books.tables[p]][i], Depth(p)) <==> Down(p, i) in s0.books.tables
    ensures Down(p, i) in s0.books.tables ==> s0.mem[s0.books.tables[p]][i].address == s0.books.tables[Down(p, i)]
  {
    hide Chain, Machine, Balanced, Walk, Points;
    assert Down(p, i) in s0.books.tables ==> Linked(s0.mem, s0.books.tables, Down(p, i));
  }

  /** The next last-level table: freed if it is there, and then the traversal is one entry further. */
  lemma FreedNext(tables: Tables, a: nat, b: nat, c: nat)
    requires Injective(tables)
    ensures var p := Down(Down(Down(Top, a), b), c);
      if p in tables
      then tables[p] !in Freed(tables, a, b, c) && Freed(tables, a, b, c + 1) == Freed(tables, a, b, c) + {tables[p]}
      else Freed(tables, a, b, c + 1) == Freed(tables, a, b, c)
  {
    hide Before;
    forall p ensures Before(p, a, b, c + 1) <==> Before(p, a, b, c) || p == Down(Down(Down(Top, a), b), c) {
      BeforeNext(p, a, b, c);
    }
    BeforeNext(Top, a, b, c);
  }

  /** No table has a slot beyond 511. */
  ghost predicate SlotsFit(tables: Tables) {
    forall p :: p in tables && p.Down? ==> p.slot < 512 && p.up in tables
  }

  lemma FreedRow(tables: Tables, a: nat, b: nat)
    requires Injective(tables) && SlotsFit(tables)
    ensures var p := Down(Down(Top, a), b);
      if p in tables
      then tables[p] !in Freed(tables, a, b, 512) &&
           Freed(tables, a, b + 1, 0) == Freed(tables, a, b, 512) + {tables[p]}
      else Freed(tables, a, b + 1, 0) == Freed(tables, a, b, 0)
  {
    hide Before;
    var row := Down(Down(Top, a), b);
    forall p | p in tables ensures Before(p, a, b + 1, 0) <==> Before(p, a, b, 512) || p == row {
      BeforeRow(p, a, b, 512);
    }
    BeforeRow(Top, a, b, 512);
    if row !in tables {
      forall p | p in tables ensures Before(p, a, b + 1, 0) <==> Before(p, a, b, 0) {
        BeforeNoRow(p, a, b);
      }
    }
  }

  lemma FreedGrows(tables: Tables, a: nat, b: nat, c: nat)
    requires c <= 512
    ensures Freed(tables, a, b, 0) <= Freed(tables, a, b, c) <= Freed(tables, a, b, 512)
  {
  }

  /** Only `present` and `pageSize` decide whether an entry of these tables refers to another. */
  lemma LevelTwo(e: Word, p: Path, a: nat, b: nat)
    requires p == Down(Down(Top, a), b)
    ensures Points(e, Depth(p)) <==> e.present && !e.pageSize
  {
    assert Depth(Down(Top, a)) == 1;
    assert Depth(p) == 2;
  }

  lemma LevelThree(e: Word, p: Path, a: nat)
    requires p == Down(Top, a)
    ensures Points(e, Depth(p)) <==> e.present && !e.pageSize
  {
    assert Depth(p) == 1;
  }

  lemma UnderHere(a: nat, b: nat, c: nat)
    ensures Under(Down(Top, a), a) && Under(Down(Down(Top, a), b), a) && Under(Down(Down(Down(Top, a), b), c), a)
  {
    assert First(Down(Down(Top, a), b)) == a;
  }

  lemma FreedStart(tables: Tables, a: nat)
    ensures Freed(tables, a, 0, 0) == {}
  {
  }

  lemma FourDeep(p: Path)
    ensures p.Down? && p.up.Down? && p.up.up.Down? && p.up.up.up.Down? ==> Depth(p) > 3
  {
    if p.Down? && p.up.Down? && p.up.up.Down? && p.up.up.up.Down? {
      assert Depth(p.up.up) == Depth(p.up.up.up.up) + 2;
    }
  }

  lemma FreedRows(tables: Tables, a: nat, b: nat)
    requires b <= 512
    ensures Freed(tables, a, b, 0) <= Freed(tables, a, 512, 0)
    ensures b < 512 ==> Freed(tables, a, b, 512) <= Freed(tables, a, 512, 0)
  {
  }

  lemma BeforeEnd(p: Path, a: nat)
    requires p.Down? ==> p.slot < 512 && (p.up.Down? ==> p.up.slot < 512) && Depth(p) <= 3
    ensures Under(p, a) <==> Before(p, a, 512, 0) || p == Down(Top, a)
    ensures !Before(Down(Top, a), a, 512, 0)
  {
    FourDeep(p);
    match p
    case Down(Down(Top, x), y) => assert First(p) == x;
    case Down(Down(Down(Top, x), y), z) => assert First(p) == First(p.up) == x;
    case _ =>
  }

  /** After the last entry only the top table of the subtree is left. */
  lemma FreedEnd(tables: Tables, a: nat)
    requires Injective(tables) && SlotsFit(tables) && Down(Top, a) in tables
    requires forall p :: p in tables ==> Depth(p) <= 3
    ensures tables[Down(Top, a)] !in Freed(tables, a, 512, 0)
    ensures UnderTables(tables, a) == Freed(tables, a, 512, 0) + {tables[Down(Top, a)]}
  {
    hide Before, Under, Depth;
    forall p | p in tables ensures Under(p, a) <==> Before(p, a, 512, 0) || p == Down(Top, a) {
      BeforeEnd(p, a);
    }
    BeforeEnd(Top, a);
  }

  lemma TreeSlots(s: Snapshot, root: nat, hhdm: nat)
    requires SoundAt(s, root, hhdm)
    ensures SlotsFit(s.books.tables) && Injective(s.books.tables)
    ensures forall p :: p in s.books.tables ==> Depth(p) <= 3 && s.books.tables[p] < |s.mem|
  {
    hide Chain, Machine, Balanced, Walk, Points, Closed;
    forall p | p in s.books.tables && p.Down? ensures p.slot < 512 && p.up in s.books.tables {
      assert Linked(s.mem, s.books.tables, p);
    }
  }
}
