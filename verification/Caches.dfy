/** The translation cache of the processor, and what the kernel's stores may leave in it. */
module Caches {
  import opened PageTable
  import opened Space

  /** Cached translations, by page. */
  type Tlb = map<Page, Cursor>

  /** Every cached translation is what the page tables say now. */
  ghost predicate Coherent(mem: Mem, root: nat, tlb: Tlb) {
    forall v :: v in tlb ==> tlb[v].Mapped? && tlb[v] == Walk(mem, root, v)
  }

  /** Every cached translation of a page that is mapped is what the page tables say now: accesses to
      mapped pages go to the right frame, with the right permissions. */
  ghost predicate Current(mem: Mem, root: nat, tlb: Tlb) {
    forall v :: v in tlb && Walk(mem, root, v).Mapped? ==> tlb[v] == Walk(mem, root, v)
  }

  /** This translation is what a walk gives. */
  ghost predicate FromWalk(mem: Mem, root: nat, v: Page, c: Cursor) {
    c.Mapped? && c == Walk(mem, root, v)
  }

  /** The processor may drop translations at any time, and cache any walk that succeeds. */
  ghost predicate CanFill(mem: Mem, root: nat, tlb: Tlb, tlb': Tlb) {
    forall v :: v in tlb' ==> (v in tlb && tlb'[v] == tlb[v]) || FromWalk(mem, root, v, tlb'[v])
  }

  /** It may do so in each of these memories, one after another. */
  ghost predicate CanHold(mems: seq<Mem>, root: nat, tlb: Tlb, tlb': Tlb) {
    forall v :: v in tlb' ==> Before(mems, root, tlb, v, tlb'[v])
  }

  /** The translation was cached at first, or can come from one of these memories. */
  ghost predicate Before(mems: seq<Mem>, root: nat, tlb: Tlb, v: Page, c: Cursor) {
    (v in tlb && c == tlb[v]) || exists k :: 0 <= k < |mems| && FromWalk(mems[k], root, v, c)
  }

  lemma HoldNothing(root: nat, tlb: Tlb)
    ensures CanHold([], root, tlb, tlb)
  {
  }

  /** What the cache can hold after one more memory is what one more fill can make of it. */
  lemma HoldStep(mems: seq<Mem>, mem: Mem, root: nat, tlb: Tlb, tlb': Tlb)
    ensures CanHold(mems + [mem], root, tlb, tlb') <==>
      exists between: Tlb :: CanHold(mems, root, tlb, between) && CanFill(mem, root, between, tlb')
  {
    hide FromWalk;
    if CanHold(mems + [mem], root, tlb, tlb') {
      var between: Tlb := map v | v in tlb' && Before(mems, root, tlb, v, tlb'[v]) :: tlb'[v];
      forall v | v in tlb' && v !in between ensures FromWalk(mem, root, v, tlb'[v]) {
        assert forall j :: 0 <= j < |mems| ==> !FromWalk(mems[j], root, v, tlb'[v]);
        assert forall j :: 0 <= j < |mems| ==> (mems + [mem])[j] == mems[j];
        assert Before(mems + [mem], root, tlb, v, tlb'[v]);
      }
      assert CanHold(mems, root, tlb, between) && CanFill(mem, root, between, tlb');
    }
    forall between: Tlb | CanHold(mems, root, tlb, between) && CanFill(mem, root, between, tlb')
      ensures CanHold(mems + [mem], root, tlb, tlb')
    {
      HoldMore(mems, mem, root, tlb, between, tlb');
    }
  }

  lemma HoldMore(mems: seq<Mem>, mem: Mem, root: nat, tlb: Tlb, between: Tlb, tlb': Tlb)
    requires CanHold(mems, root, tlb, between) && CanFill(mem, root, between, tlb')
    ensures CanHold(mems + [mem], root, tlb, tlb')
  {
    hide FromWalk;
    var all := mems + [mem];
    forall v | v in tlb' && !(v in tlb && tlb'[v] == tlb[v])
      ensures exists k :: 0 <= k < |all| && FromWalk(all[k], root, v, tlb'[v])
    {
      if FromWalk(mem, root, v, tlb'[v]) {
        assert FromWalk(all[|mems|], root, v, tlb'[v]);
      } else {
        var k :| 0 <= k < |mems| && FromWalk(mems[k], root, v, tlb'[v]);
        assert FromWalk(all[k], root, v, tlb'[v]);
      }
    }
  }

  lemma HoldLess(mems: seq<Mem>, root: nat, tlb: Tlb, tlb': Tlb, v: Page)
    requires CanHold(mems, root, tlb, tlb')
    ensures CanHold(mems, root, tlb, tlb' - {v})
  {
    hide Before;
  }

  lemma HoldBoth(mems: seq<Mem>, more: seq<Mem>, root: nat, tlb: Tlb, between: Tlb, tlb': Tlb)
    requires CanHold(mems, root, tlb, between) && CanHold(more, root, between, tlb')
    ensures CanHold(mems + more, root, tlb, tlb')
  {
    hide FromWalk;
    var all := mems + more;
    forall v | v in tlb' && !(v in tlb && tlb'[v] == tlb[v])
      ensures exists k :: 0 <= k < |all| && FromWalk(all[k], root, v, tlb'[v])
    {
      if v in between && tlb'[v] == between[v] {
        var k :| 0 <= k < |mems| && FromWalk(mems[k], root, v, tlb'[v]);
        assert FromWalk(all[k], root, v, tlb'[v]);
      } else {
        var k :| 0 <= k < |more| && FromWalk(more[k], root, v, tlb'[v]);
        assert FromWalk(all[|mems| + k], root, v, tlb'[v]);
      }
    }
  }

  lemma CurrentSame(mem: Mem, mem': Mem, root: nat, tlb: Tlb, tlb': Tlb)
    requires Current(mem, root, tlb) && SameWalks(mem, mem', root) && CanFill(mem', root, tlb, tlb')
    ensures Current(mem', root, tlb')
  {
    hide Walk;
  }

  lemma CoherentSame(mem: Mem, mem': Mem, root: nat, tlb: Tlb, tlb': Tlb)
    requires Coherent(mem, root, tlb) && SameWalks(mem, mem', root) && CanFill(mem', root, tlb, tlb')
    ensures Coherent(mem', root, tlb')
  {
    hide Walk;
  }

  // ---- stores that change the translation of one page only ----

  /** The cache is as good for these tables, but for page `v`, as it was for those. */
  ghost predicate AsGood(mem0: Mem, mem: Mem, root: nat, tlb0: Tlb, tlb: Tlb, v: Page) {
    && (Current(mem0, root, tlb0) ==> Current(mem, root, tlb - {v}))
    && (Coherent(mem0, root, tlb0) ==> Coherent(mem, root, tlb - {v}))
  }

  lemma GoodStart(mem: Mem, root: nat, tlb: Tlb, v: Page)
    ensures AsGood(mem, mem, root, tlb, tlb, v) && SameWalksBut(mem, mem, root, v)
  {
    hide Walk;
  }

  lemma GoodEnd(mem0: Mem, mem: Mem, root: nat, tlb0: Tlb, tlb: Tlb, v: Page)
    requires AsGood(mem0, mem, root, tlb0, tlb, v)
    ensures Current(mem0, root, tlb0) ==> Current(mem, root, tlb - {v})
    ensures Coherent(mem0, root, tlb0) ==> Coherent(mem, root, tlb - {v})
  {
    hide Current, Coherent;
  }

  /** Whatever the processor caches meanwhile, invalidating that page will be enough. */
  lemma GoodStep(mem0: Mem, mem: Mem, mem': Mem, root: nat, tlb0: Tlb, tlb: Tlb, tlb': Tlb, v: Page)
    requires AsGood(mem0, mem, root, tlb0, tlb, v) && CanFill(mem', root, tlb, tlb')
    requires SameWalksBut(mem0, mem, root, v) && SameWalksBut(mem0, mem', root, v)
    ensures AsGood(mem0, mem', root, tlb0, tlb', v)
  {
    hide Walk;
    forall u | u in tlb' && u != v
      ensures (u in tlb && tlb'[u] == tlb[u]) || FromWalk(mem', root, u, tlb'[u])
      ensures Walk(mem', root, u) == Walk(mem, root, u)
      ensures u in tlb ==> u in tlb - {v} && (tlb - {v})[u] == tlb[u]
    {
    }
  }
}
