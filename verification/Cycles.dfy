/** What whole runs of the allocator and the page-table operations do to the free list. */
module Cycles {
  import opened PageTable
  import opened Ledger

  // ---- draining the free list ----

  /** Allocating until the list is empty hands out every frame once, in list order; then it stays empty. */
  lemma {:induction false} Drain(states: seq<Books>, ops: seq<Op>, n: nat)
    requires Run(states, ops) && n <= |ops| && forall i :: 0 <= i < n ==> ops[i] == Alloc
    ensures var free := states[0].free; var k := if n < |free| then n else |free|;
      && states[n].free == free[k..]
      && states[n].owned == states[0].owned + Members(free[..k])
  {
    var free := states[0].free;
    if n > 0 {
      Drain(states, ops, n - 1);
      assert Next(states[n - 1], ops[n - 1], states[n]);
      if n <= |free| {
        assert free[n - 1..][1..] == free[n..];
        assert free[..n] == free[..n - 1] + [free[n - 1]];
      }
    }
  }

  // ---- one program: map, protect, unmap, then tear down ----

  /** An operation of a program on a page of the lower half. */
  predicate UserOp(op: Op) {
    match op
    case Map(v) => Lower(v)
    case Unmap(v) => Lower(v)
    case Protect(v) => Lower(v)
    case _ => false
  }

  /** How many of the first n operations mapped a page. */
  ghost function Maps(states: seq<Books>, ops: seq<Op>, n: nat): nat
    requires n <= |ops| < |states|
  {
    if n == 0 then 0
    else Maps(states, ops, n - 1) + (if ops[n - 1].Map? && states[n] != states[n - 1] then 1 else 0)
  }

  /** Nothing in the lower half: no tables, no pages. */
  ghost predicate Vacant(b: Books) {
    UpperTables(b.tables) == b.tables && UpperPages(b.pages) == b.pages
  }

  /** User operations leave the upper half and direct allocations alone. */
  ghost predicate UserOnly(b0: Books, b: Books) {
    UpperTables(b.tables) == UpperTables(b0.tables) && UpperPages(b.pages) == UpperPages(b0.pages) &&
    b.owned == b0.owned
  }

  lemma {:induction false} GrownUser(b: Books, v: Page, depth: nat)
    requires Lower(v) && depth <= 3 && Missing(b.tables, v, depth) <= |b.free|
    ensures UpperTables(Grown(b, v, depth).tables) == UpperTables(b.tables)
  {
    if depth > 0 {
      GrownUser(b, v, depth - 1);
      var g := Grown(b, v, depth - 1);
      if PathTo(v, depth) !in b.tables {
        assert LowerPath(PathTo(v, depth));
        UpperInsert(g.tables, PathTo(v, depth), g.free[0]);
      }
    }
  }

  lemma UpperInsert(tables: Tables, p: Path, f: nat)
    requires LowerPath(p)
    ensures UpperTables(tables[p := f]) == UpperTables(tables)
  {
    hide LowerPath;
  }

  lemma UserStep(b0: Books, b: Books, op: Op, b': Books)
    requires UserOp(op) && Next(b, op, b') && UserOnly(b0, b) && Balanced(b)
    ensures UserOnly(b0, b')
    ensures |b'.pages| + |b'.stranded| ==
      |b.pages| + |b.stranded| + (if op.Map? && b' != b then 1 else 0)
  {
    hide Grown, LowerPath, Lower;
    match op
    case Map(v) =>
      if b' != b {
        MapUser(b, v);
      }
    case Unmap(v) =>
      UnmapUser(b, v);
    case Protect(_) =>
  }

  lemma MapUser(b: Books, v: Page)
    requires Lower(v) && v !in b.pages && Missing(b.tables, v, 3) < |b.free|
    ensures var m := MapBooks(b, v);
      UserOnly(b, m) && |m.pages| == |b.pages| + 1 && m.stranded == b.stranded
  {
    hide LowerPath, Lower;
    GrownUser(b, v, 3);
    var m := MapBooks(b, v);
    assert m.pages.Keys == b.pages.Keys + {v};
  }

  lemma UnmapUser(b: Books, v: Page)
    requires Lower(v) && Balanced(b)
    ensures var m := UnmapBooks(b, v);
      UserOnly(b, m) && |m.pages| + |m.stranded| == |b.pages| + |b.stranded|
  {
    hide LowerPath, Lower, Balanced, UpperPages, UpperTables;
    if v in b.pages {
      PagesApart(b);
      UpperRemove(b.pages, v);
      RemoveValue(b.pages, v);
      OneStranded(b, v);
    }
  }

  lemma UpperRemove(pages: map<Page, nat>, v: Page)
    requires Lower(v)
    ensures UpperPages(pages - {v}) == UpperPages(pages)
  {
    hide Lower;
  }

  lemma OneStranded(b: Books, v: Page)
    requires v in b.pages && b.pages.Values !! b.stranded
    ensures |b.stranded + {b.pages[v]}| == |b.stranded| + 1
  {
    assert b.pages[v] in b.pages.Values;
  }

  lemma {:induction false} UserRun(states: seq<Books>, ops: seq<Op>, n: nat)
    requires Run(states, ops) && Balanced(states[0]) && n <= |ops|
    requires forall i :: 0 <= i < n ==> UserOp(ops[i])
    ensures UserOnly(states[0], states[n])
    ensures |states[n].pages| + |states[n].stranded| ==
      |states[0].pages| + |states[0].stranded| + Maps(states, ops, n)
  {
    hide Next, UserOnly, UserOp, Balanced, Pool, Count;
    if n > 0 {
      UserRun(states, ops, n - 1);
      RunKeeps(states, ops, n - 1);
      UserStep(states[0], states[n - 1], ops[n - 1], states[n]);
    } else {
      UserSame(states[0]);
    }
  }

  lemma UserSame(b: Books)
    ensures UserOnly(b, b)
  {
  }

  /** A program's life, from an empty lower half to its teardown, costs the free list exactly the data
      frames it mapped: every page table comes back, and no frame that was mapped does. */
  lemma Lifetime(states: seq<Books>, ops: seq<Op>, n: nat)
    requires Run(states, ops) && Balanced(states[0]) && Vacant(states[0])
    requires |ops| == n + 1 && (forall i :: 0 <= i < n ==> UserOp(ops[i])) && ops[n] == Teardown
    ensures var b, b' := states[0], states[n + 1];
      && Vacant(b') && b'.tables == b.tables && b'.pages == b.pages && b'.owned == b.owned
      && b.stranded <= b'.stranded
      && Members(b'.free) == Members(b.free) - (b'.stranded - b.stranded)
      && |b'.free| == |b.free| - Maps(states, ops, n)
      && |b'.stranded| == |b.stranded| + Maps(states, ops, n)
  {
    hide Balanced, Pool, Count, Maps, UserOp;
    UserRun(states, ops, n);
    RunKeeps(states, ops, n);
    RunKeeps(states, ops, n + 1);
    assert Next(states[n], ops[n], states[n + 1]);
    Torn(states[n], states[n + 1]);
    StrandedGrows(states, ops, n);
    LifetimeSets(states[0], states[n + 1]);
    LifetimeCounts(states[0], states[n + 1]);
  }

  lemma Torn(b: Books, b': Books)
    requires Balanced(b) && TornFrom(b, b')
    ensures b'.tables == UpperTables(b.tables) && b'.pages == UpperPages(b.pages) && b'.owned == b.owned
    ensures b.stranded <= b'.stranded && |b'.pages| + |b'.stranded| == |b.pages| + |b.stranded|
  {
    hide LowerPath, Lower, Balanced, LowerTables, LowerFrames, UpperTables, UpperPages, Members, NoDuplicates, Inside,
         Outside;
    var freed: seq<nat> :| NoDuplicates(freed) && Members(freed) == LowerTables(b) && b' == TornBooks(b, freed);
    var ts, ps := set p | p in b.tables && LowerPath(p), set v | v in b.pages && Lower(v);
    PagesApart(b);
    LowerPart(b, ts, ps);
    TornPages(b.pages, ps, b.stranded);
  }

  lemma PagesApart(b: Books)
    requires Balanced(b)
    ensures Injective(b.pages) && b.pages.Values !! b.stranded
  {
  }

  lemma TornPages(pages: map<Page, nat>, ps: set<Page>, stranded: set<nat>)
    requires Injective(pages) && pages.Values !! stranded
    ensures |Outside(pages, ps)| + |stranded + Inside(pages, ps).Values| == |pages| + |stranded|
  {
    SplitCount(pages, ps);
    SplitValues(pages, ps);
    ValuesCount(Inside(pages, ps));
  }

  lemma {:induction false} StrandedGrows(states: seq<Books>, ops: seq<Op>, n: nat)
    requires Run(states, ops) && n <= |ops| && forall i :: 0 <= i < n ==> UserOp(ops[i])
    ensures states[0].stranded <= states[n].stranded
  {
    if n > 0 {
      StrandedGrows(states, ops, n - 1);
      assert Next(states[n - 1], ops[n - 1], states[n]);
    }
  }

  lemma LifetimeSets(b: Books, b': Books)
    requires Balanced(b) && Balanced(b') && Pool(b') == Pool(b)
    requires b'.tables == b.tables && b'.pages == b.pages && b'.owned == b.owned && b.stranded <= b'.stranded
    ensures Members(b'.free) == Members(b.free) - (b'.stranded - b.stranded)
  {
    LifetimeShares(SharesOf(b), SharesOf(b'));
  }

  lemma LifetimeShares(s: Shares, s': Shares)
    requires Apart(s) && Apart(s') && All(s') == All(s)
    requires s'.tables == s.tables && s'.pages == s.pages && s'.owned == s.owned && s.stranded <= s'.stranded
    ensures s'.free == s.free - (s'.stranded - s.stranded)
  {
    forall x ensures x in s'.free <==> x in s.free && x !in s'.stranded {
      assert x in All(s') <==> x in All(s);
    }
  }

  lemma LifetimeCounts(b: Books, b': Books)
    requires Count(b') == Count(b) && b'.tables == b.tables && b'.pages == b.pages && b'.owned == b.owned
    ensures |b'.free| + |b'.stranded| == |b.free| + |b.stranded|
  {
  }
}
