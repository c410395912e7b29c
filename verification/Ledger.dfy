/** Who holds each physical frame: the free list, the page-table tree, a mapped page,
    a direct caller of the allocator, or nobody any more. */
module Ledger {
  import opened PageTable

  datatype Books = Books(
    free: seq<nat>,            // the free list, head first
    tables: Tables,            // table frames, by position
    pages: map<Page, nat>,     // data frames, by the page they are mapped at
    owned: set<nat>,           // handed out by the allocator to other callers
    stranded: set<nat>)        // data frames that no page maps any more

  function Members(s: seq<nat>): set<nat> { set x | x in s }

  ghost predicate NoDuplicates(s: seq<nat>) {
    forall i, j :: 0 <= i < j < |s| ==> s[i] != s[j]
  }

  /** The frames of each holder. */
  datatype Shares = Shares(free: set<nat>, tables: set<nat>, pages: set<nat>, owned: set<nat>, stranded: set<nat>)

  function SharesOf(b: Books): Shares {
    Shares(Members(b.free), b.tables.Values, b.pages.Values, b.owned, b.stranded)
  }

  ghost predicate Apart(s: Shares) {
    && s.free !! s.tables && s.free !! s.pages && s.free !! s.owned && s.free !! s.stranded
    && s.tables !! s.pages && s.tables !! s.owned && s.tables !! s.stranded
    && s.pages !! s.owned && s.pages !! s.stranded && s.owned !! s.stranded
  }

  function All(s: Shares): set<nat> {
    s.free + s.tables + s.pages + s.owned + s.stranded
  }

  /** No frame has two holders. */
  ghost predicate Balanced(b: Books) {
    NoDuplicates(b.free) && Injective(b.tables) && Injective(b.pages) && Apart(SharesOf(b))
  }

  /** Every frame the kernel has adopted. */
  function Pool(b: Books): set<nat> { All(SharesOf(b)) }

  /** The number of adopted frames, counted holder by holder. */
  function Count(b: Books): nat {
    |b.free| + |b.tables| + |b.pages| + |b.owned| + |b.stranded|
  }

  // ---- what each operation does to the books ----

  /** Levels of the path to `v`, down to this depth, that have no table yet. */
  function Missing(tables: Tables, v: Page, depth: nat): (n: nat)
    requires depth <= 3
    ensures n <= depth
  {
    if depth == 0 then 0
    else Missing(tables, v, depth - 1) + (if PathTo(v, depth) in tables then 0 else 1)
  }

  /** Absent tables on the path to `v` are filled from the head of the free list, upper levels first. */
  function Grown(b: Books, v: Page, depth: nat): (g: Books)
    requires depth <= 3 && Missing(b.tables, v, depth) <= |b.free|
    ensures g.free == b.free[Missing(b.tables, v, depth)..]
    ensures g.pages == b.pages && g.owned == b.owned && g.stranded == b.stranded
    ensures forall p :: p in b.tables ==> p in g.tables && g.tables[p] == b.tables[p]
    ensures forall p :: p in g.tables && p !in b.tables ==> Depth(p) <= depth
  {
    if depth == 0 then b else
      var g := Grown(b, v, depth - 1);
      if PathTo(v, depth) in b.tables then g
      else g.(tables := g.tables[PathTo(v, depth) := g.free[0]], free := g.free[1..])
  }

  /** A page gets the next free frame after its absent tables have been filled. */
  function MapBooks(b: Books, v: Page): (m: Books)
    requires Missing(b.tables, v, 3) < |b.free|
    ensures v in m.pages
  {
    var g := Grown(b, v, 3);
    g.(pages := g.pages[v := g.free[0]], free := g.free[1..])
  }

  function UnmapBooks(b: Books, v: Page): Books {
    if v in b.pages then b.(pages := b.pages - {v}, stranded := b.stranded + {b.pages[v]}) else b
  }

  predicate LowerPath(p: Path) { p.Down? && First(p) < 256 }

  function UpperTables(tables: Tables): Tables { map p | p in tables && !LowerPath(p) :: tables[p] }

  function UpperPages(pages: map<Page, nat>): map<Page, nat> { map v | v in pages && !Lower(v) :: pages[v] }

  function LowerFrames(pages: map<Page, nat>): set<nat> { set v | v in pages && Lower(v) :: pages[v] }

  function LowerTables(b: Books): set<nat> { set p | p in b.tables && LowerPath(p) :: b.tables[p] }

  /** Lower-half tables go to the free list, lower-half data frames are stranded. */
  function TornBooks(b: Books, freed: seq<nat>): Books {
    Books(freed + b.free, UpperTables(b.tables), UpperPages(b.pages), b.owned, b.stranded + LowerFrames(b.pages))
  }

  datatype Op = Alloc | Free(frame: nat) | Map(page: Page) | Protect(page: Page) | Unmap(page: Page) | Teardown

  /** The books before and after one operation. `Map` fails, without effect, on a page already mapped. */
  ghost predicate Next(b: Books, op: Op, b': Books) {
    match op
    case Alloc => b' == if b.free == [] then b else b.(free := b.free[1..], owned := b.owned + {b.free[0]})
    case Free(f) => f in b.owned && b' == b.(free := [f] + b.free, owned := b.owned - {f})
    case Map(v) => b' == b || (v !in b.pages && Missing(b.tables, v, 3) < |b.free| && b' == MapBooks(b, v))
    case Protect(_) => b' == b
    case Unmap(v) => b' == UnmapBooks(b, v)
    case Teardown => TornFrom(b, b')
  }

  ghost predicate TornFrom(b: Books, b': Books) {
    exists freed: seq<nat> ::
      NoDuplicates(freed) && Members(freed) == LowerTables(b) && b' == TornBooks(b, freed)
  }

  // ---- what every operation keeps ----

  lemma MembersTail(s: seq<nat>)
    requires s != [] && NoDuplicates(s)
    ensures s[0] in Members(s) && Members(s[1..]) == Members(s) - {s[0]} && NoDuplicates(s[1..])
  {
    assert s == [s[0]] + s[1..];
    assert forall i :: 0 <= i < |s| - 1 ==> s[1..][i] == s[i + 1];
  }

  lemma MembersPush(x: nat, s: seq<nat>)
    requires NoDuplicates(s) && x !in Members(s)
    ensures Members([x] + s) == Members(s) + {x} && NoDuplicates([x] + s)
  {
  }

  lemma NotOthers(s: Shares, x: nat)
    requires Apart(s)
    ensures x in s.free ==> x !in s.tables && x !in s.pages && x !in s.owned
    ensures x in s.owned ==> x !in s.free
  {
  }

  lemma HandTable(s: Shares, s': Shares, x: nat)
    requires Apart(s) && x in s.free && s' == s.(free := s.free - {x}, tables := s.tables + {x})
    ensures Apart(s') && All(s') == All(s)
  {
  }

  lemma HandPage(s: Shares, s': Shares, x: nat)
    requires Apart(s) && x in s.free && s' == s.(free := s.free - {x}, pages := s.pages + {x})
    ensures Apart(s') && All(s') == All(s)
  {
  }

  lemma HandOut(s: Shares, s': Shares, x: nat)
    requires Apart(s) && x in s.free && s' == s.(free := s.free - {x}, owned := s.owned + {x})
    ensures Apart(s') && All(s') == All(s)
  {
  }

  lemma HandBack(s: Shares, s': Shares, x: nat)
    requires Apart(s) && x in s.owned && s' == s.(free := s.free + {x}, owned := s.owned - {x})
    ensures Apart(s') && All(s') == All(s)
  {
  }

  lemma HandOver(s: Shares, s': Shares, x: nat)
    requires Apart(s) && x in s.pages && s' == s.(pages := s.pages - {x}, stranded := s.stranded + {x})
    ensures Apart(s') && All(s') == All(s)
  {
  }

  lemma {:induction false} GrownKeeps(b: Books, v: Page, depth: nat)
    requires depth <= 3 && Missing(b.tables, v, depth) <= |b.free| && Balanced(b)
    ensures var g := Grown(b, v, depth); Balanced(g) && Pool(g) == Pool(b) && Count(g) == Count(b)
  {
    if depth > 0 {
      GrownKeeps(b, v, depth - 1);
      if PathTo(v, depth) !in b.tables {
        TakeTable(Grown(b, v, depth - 1), PathTo(v, depth));
      }
    }
  }

  lemma TakeTable(g: Books, p: Path)
    requires Balanced(g) && g.free != [] && p !in g.tables
    ensures var h := g.(tables := g.tables[p := g.free[0]], free := g.free[1..]);
      Balanced(h) && Pool(h) == Pool(g) && Count(h) == Count(g)
  {
    hide Apart, All;
    var x := g.free[0];
    MembersTail(g.free);
    NotOthers(SharesOf(g), x);
    InsertValue(g.tables, p, x);
    HandTable(SharesOf(g), SharesOf(g.(tables := g.tables[p := x], free := g.free[1..])), x);
  }

  lemma TakePage(g: Books, v: Page)
    requires Balanced(g) && g.free != [] && v !in g.pages
    ensures var h := g.(pages := g.pages[v := g.free[0]], free := g.free[1..]);
      Balanced(h) && Pool(h) == Pool(g) && Count(h) == Count(g)
  {
    hide Apart, All;
    var x := g.free[0];
    MembersTail(g.free);
    NotOthers(SharesOf(g), x);
    InsertValue(g.pages, v, x);
    HandPage(SharesOf(g), SharesOf(g.(pages := g.pages[v := x], free := g.free[1..])), x);
  }

  lemma InsertValue<K(!new)>(m: map<K, nat>, k: K, x: nat)
    requires k !in m && x !in m.Values && Injective(m)
    ensures m[k := x].Values == m.Values + {x} && Injective(m[k := x]) && |m[k := x]| == |m| + 1
  {
    var m' := m[k := x];
    assert m'.Keys == m.Keys + {k};
    InsertInValues(m, k, x);
    forall p, q | p in m' && q in m' && m'[p] == m'[q] ensures p == q {
      assert p in m ==> m[p] in m.Values;
      assert q in m ==> m[q] in m.Values;
    }
  }

  lemma InsertInValues<K(!new)>(m: map<K, nat>, k: K, x: nat)
    requires k !in m
    ensures m[k := x].Values == m.Values + {x}
  {
    var m' := m[k := x];
    forall y | y in m.Values + {x} ensures y in m'.Values {
      if y == x {
        assert m'[k] == x;
      } else {
        var j :| j in m && m[j] == y;
        assert m'[j] == y;
      }
    }
  }

  lemma RemoveValue<K(!new)>(m: map<K, nat>, k: K)
    requires k in m && Injective(m)
    ensures var m' := m - {k};
      m[k] in m.Values && m'.Values == m.Values - {m[k]} && Injective(m') && |m'| == |m| - 1
  {
    var m' := m - {k};
    assert m == m'[k := m[k]];
    assert m[k] !in m'.Values;
    assert Injective(m');
    InsertValue(m', k, m[k]);
  }

  lemma MapKeeps(b: Books, v: Page)
    requires Balanced(b) && v !in b.pages && Missing(b.tables, v, 3) < |b.free|
    ensures var m := MapBooks(b, v); Balanced(m) && Pool(m) == Pool(b) && Count(m) == Count(b)
  {
    GrownKeeps(b, v, 3);
    var g := Grown(b, v, 3);
    TakePage(g, v);
  }

  lemma UnmapKeeps(b: Books, v: Page)
    requires Balanced(b)
    ensures var m := UnmapBooks(b, v); Balanced(m) && Pool(m) == Pool(b) && Count(m) == Count(b)
  {
    if v in b.pages {
      RemoveValue(b.pages, v);
      HandOver(SharesOf(b), SharesOf(UnmapBooks(b, v)), b.pages[v]);
    }
  }

  function Inside<K(!new)>(m: map<K, nat>, keys: set<K>): map<K, nat> { map k | k in m && k in keys :: m[k] }

  function Outside<K(!new)>(m: map<K, nat>, keys: set<K>): map<K, nat> { map k | k in m && k !in keys :: m[k] }

  lemma SplitValues<K(!new)>(m: map<K, nat>, keys: set<K>)
    requires Injective(m)
    ensures Inside(m, keys).Values + Outside(m, keys).Values == m.Values
    ensures Inside(m, keys).Values !! Outside(m, keys).Values
    ensures Injective(Inside(m, keys)) && Injective(Outside(m, keys))
  {
    forall y | y in m.Values ensures y in Inside(m, keys).Values + Outside(m, keys).Values {
      var k :| k in m && m[k] == y;
      assert if k in keys then Inside(m, keys)[k] == y else Outside(m, keys)[k] == y;
    }
  }

  lemma SplitCount<K(!new)>(m: map<K, nat>, keys: set<K>)
    ensures |Inside(m, keys)| + |Outside(m, keys)| == |m|
  {
    var i, o := Inside(m, keys), Outside(m, keys);
    assert i.Keys + o.Keys == m.Keys && i.Keys !! o.Keys;
    assert |m.Keys| == |i.Keys| + |o.Keys|;
  }

  lemma {:induction false} ValuesCount<K(!new)>(m: map<K, nat>)
    requires Injective(m)
    ensures |m.Values| == |m|
    decreases |m|
  {
    if m != map[] {
      var k :| k in m;
      RemoveValue(m, k);
      ValuesCount(m - {k});
    }
  }

  lemma {:induction false} MembersCount(s: seq<nat>)
    requires NoDuplicates(s)
    ensures |Members(s)| == |s|
  {
    if s != [] {
      MembersTail(s);
      MembersCount(s[1..]);
    }
  }

  lemma LowerPart(b: Books, ts: set<Path>, ps: set<Page>)
    requires ts == (set p | p in b.tables && LowerPath(p)) && ps == (set v | v in b.pages && Lower(v))
    ensures UpperTables(b.tables) == Outside(b.tables, ts) && LowerTables(b) == Inside(b.tables, ts).Values
    ensures UpperPages(b.pages) == Outside(b.pages, ps) && LowerFrames(b.pages) == Inside(b.pages, ps).Values
  {
    hide LowerPath, Lower;
    forall y | y in LowerTables(b) ensures y in Inside(b.tables, ts).Values {
      var p :| p in b.tables && LowerPath(p) && b.tables[p] == y;
      assert Inside(b.tables, ts)[p] == y;
    }
    forall y | y in LowerFrames(b.pages) ensures y in Inside(b.pages, ps).Values {
      var v :| v in b.pages && Lower(v) && b.pages[v] == y;
      assert Inside(b.pages, ps)[v] == y;
    }
  }

  lemma TornKeeps(b: Books, freed: seq<nat>)
    requires Balanced(b) && NoDuplicates(freed) && Members(freed) == LowerTables(b)
    ensures var m := TornBooks(b, freed); Balanced(m) && Pool(m) == Pool(b) && Count(m) == Count(b)
  {
    hide All, Apart, LowerPath, Lower, LowerTables, LowerFrames, UpperTables, UpperPages, Inside, Outside, Count;
    var m := TornBooks(b, freed);
    var ts, ps := set p | p in b.tables && LowerPath(p), set v | v in b.pages && Lower(v);
    LowerPart(b, ts, ps);
    SplitValues(b.tables, ts);
    SplitValues(b.pages, ps);
    FreedApart(SharesOf(b), LowerTables(b));
    MembersConcat(freed, b.free);
    HandAll(SharesOf(b), SharesOf(m), LowerTables(b), LowerFrames(b.pages));
    TornCount(b, m, freed, ts, ps);
  }

  lemma FreedApart(s: Shares, t: set<nat>)
    requires Apart(s) && t <= s.tables
    ensures t !! s.free && s.stranded !! s.pages
  {
  }

  lemma MembersConcat(s: seq<nat>, t: seq<nat>)
    requires NoDuplicates(s) && NoDuplicates(t) && Members(s) !! Members(t)
    ensures Members(s + t) == Members(s) + Members(t) && NoDuplicates(s + t)
  {
    forall i, j | 0 <= i < j < |s + t| ensures (s + t)[i] != (s + t)[j] {
      assert i < |s| ==> s[i] in Members(s);
      assert j >= |s| ==> t[j - |s|] in Members(t);
    }
  }

  lemma HandAll(s: Shares, s': Shares, t: set<nat>, p: set<nat>)
    requires Apart(s) && s'.owned == s.owned
    requires s'.tables + t == s.tables && s'.tables !! t && s'.free == t + s.free
    requires s'.pages + p == s.pages && s'.pages !! p && s'.stranded == s.stranded + p
    ensures Apart(s') && All(s') == All(s)
  {
  }

  lemma TornCount(b: Books, m: Books, freed: seq<nat>, ts: set<Path>, ps: set<Page>)
    requires Injective(b.tables) && Injective(b.pages) && NoDuplicates(freed)
    requires m.free == freed + b.free && Members(freed) == Inside(b.tables, ts).Values
    requires m.tables == Outside(b.tables, ts) && m.pages == Outside(b.pages, ps) && m.owned == b.owned
    requires m.stranded == b.stranded + Inside(b.pages, ps).Values && b.stranded !! b.pages.Values
    ensures Count(m) == Count(b)
  {
    SplitCount(b.tables, ts);
    SplitCount(b.pages, ps);
    FreedCount(b.tables, ts, freed);
    SplitValues(b.pages, ps);
    ValuesCount(Inside(b.pages, ps));
    assert |m.stranded| == |b.stranded| + |Inside(b.pages, ps)|;
  }

  lemma FreedCount(tables: Tables, ts: set<Path>, freed: seq<nat>)
    requires Injective(tables) && NoDuplicates(freed) && Members(freed) == Inside(tables, ts).Values
    ensures |freed| == |Inside(tables, ts)|
  {
    SplitValues(tables, ts);
    ValuesCount(Inside(tables, ts));
    MembersCount(freed);
  }

  lemma AllocKeeps(b: Books)
    requires Balanced(b) && b.free != []
    ensures var a := b.(free := b.free[1..], owned := b.owned + {b.free[0]});
      Balanced(a) && Pool(a) == Pool(b) && Count(a) == Count(b)
  {
    hide Apart, All;
    var x := b.free[0];
    MembersTail(b.free);
    NotOthers(SharesOf(b), x);
    HandOut(SharesOf(b), SharesOf(b.(free := b.free[1..], owned := b.owned + {x})), x);
  }

  lemma FreeKeeps(b: Books, f: nat)
    requires Balanced(b) && f in b.owned
    ensures var a := b.(free := [f] + b.free, owned := b.owned - {f});
      Balanced(a) && Pool(a) == Pool(b) && Count(a) == Count(b)
  {
    hide Apart, All;
    NotOthers(SharesOf(b), f);
    MembersPush(f, b.free);
    HandBack(SharesOf(b), SharesOf(b.(free := [f] + b.free, owned := b.owned - {f})), f);
  }

  /** No operation loses a frame, invents one, or gives one two holders. */
  lemma StepKeeps(b: Books, op: Op, b': Books)
    requires Balanced(b) && Next(b, op, b')
    ensures Balanced(b') && Pool(b') == Pool(b) && Count(b') == Count(b)
  {
    match op
    case Alloc => if b.free != [] { AllocKeeps(b); }
    case Free(f) => FreeKeeps(b, f);
    case Map(v) => if b' != b { MapKeeps(b, v); }
    case Protect(_) =>
    case Unmap(v) => UnmapKeeps(b, v);
    case Teardown =>
      var freed: seq<nat> :| NoDuplicates(freed) && Members(freed) == LowerTables(b) && b' == TornBooks(b, freed);
      TornKeeps(b, freed);
  }

  ghost predicate Run(states: seq<Books>, ops: seq<Op>) {
    |states| == |ops| + 1 && forall i :: 0 <= i < |ops| ==> Next(states[i], ops[i], states[i + 1])
  }

  /** Frame conservation over any run. */
  lemma {:induction false} RunKeeps(states: seq<Books>, ops: seq<Op>, n: nat)
    requires Run(states, ops) && Balanced(states[0]) && n <= |ops|
    ensures Balanced(states[n]) && Pool(states[n]) == Pool(states[0]) && Count(states[n]) == Count(states[0])
  {
    if n > 0 {
      RunKeeps(states, ops, n - 1);
      StepKeeps(states[n - 1], ops[n - 1], states[n]);
    }
  }
}
