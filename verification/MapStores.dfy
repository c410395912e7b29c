/** The stores of `vm_map`, one bit-field at a time, and the memory they leave. */
module MapStores {
  import opened Words
  import opened PageTable
  import opened TableUpdates
  import opened Ledger
  import opened MapSteps

  // ---- memory, store by store ----

  function Put(mem: Mem, t: nat, i: nat, w: Word): (mem': Mem)
    requires i < 512
    ensures |mem'| == |mem|
  {
    if t < |mem| then SetEntry(mem, t, i, w) else mem
  }

  lemma PutInside(mem: Mem, t: nat, i: nat, w: Word)
    requires t < |mem| && i < 512
    ensures Put(mem, t, i, w) == SetEntry(mem, t, i, w)
    ensures Put(mem, t, i, mem[t][i]) == mem && Put(mem, t, i, w)[t][i] == w
    ensures forall w' :: Put(Put(mem, t, i, w), t, i, w') == Put(mem, t, i, w')
  {
    assert mem[t][i := mem[t][i]] == mem[t];
    forall w' ensures Put(Put(mem, t, i, w), t, i, w') == Put(mem, t, i, w') {
      assert mem[t][i := w][i := w'] == mem[t][i := w'];
    }
  }

  function Cleared(mem: Mem, f: nat): (mem': Mem)
    ensures |mem'| == |mem|
  {
    if f < |mem| then mem[f := ZeroTable()] else mem
  }

  function EntryIn(mem: Mem, t: nat, i: nat): Word
    requires i < 512
  {
    if t < |mem| then mem[t][i] else ZERO
  }

  /** An absent entry after each of the first three stores: present, user, writable. The rest is as before. */
  function Marked(e: Word): (w: Word)
    ensures w.present && w.pageSize == e.pageSize && w.address == e.address
  {
    e.(present := true)
  }

  function Opened(e: Word): (w: Word)
    ensures w.present && w.pageSize == e.pageSize && w.address == e.address
  {
    Marked(e).(user := true)
  }

  function Open(e: Word): (w: Word)
    ensures w.present && w.pageSize == e.pageSize && w.address == e.address
  {
    Opened(e).(writable := true)
  }

  function Stage(e: Word, k: nat): Word {
    if k == 0 then e else if k == 1 then Marked(e) else if k == 2 then Opened(e) else Open(e)
  }

  /** The last level has three more, before the address. */
  function LeafWritable(e: Word, perm: Perm): Word { Open(e).(writable := perm.writable) }
  function LeafUser(e: Word, perm: Perm): Word { LeafWritable(e, perm).(user := perm.user) }
  function Leaf(e: Word, perm: Perm): Word { LeafUser(e, perm).(noExecute := !perm.executable) }

  lemma LeafPerm(e: Word, perm: Perm, f: Bits51)
    ensures var w := Leaf(e, perm).(address := f); w.present && w.address == f && EntryPerm(w) == perm
  {
  }

  /** Memory after each of the first three stores to entry i of table t. */
  function OpenStores(z: Mem, t: nat, i: nat, e: Word): (mems: seq<Mem>)
    requires i < 512
    ensures |mems| == 3
  {
    [Put(z, t, i, Marked(e)), Put(z, t, i, Opened(e)), Put(z, t, i, Open(e))]
  }

  function TableStores(z: Mem, t: nat, i: nat, e: Word, f: nat): seq<Mem>
    requires i < 512 && f < 0x8_0000_0000_0000
  {
    OpenStores(z, t, i, e) + [Put(z, t, i, Open(e).(address := f))]
  }

  function PageStores(z: Mem, t: nat, i: nat, e: Word, f: nat, perm: Perm): seq<Mem>
    requires i < 512 && f < 0x8_0000_0000_0000
  {
    OpenStores(z, t, i, e) + [Put(z, t, i, LeafWritable(e, perm))] + [Put(z, t, i, LeafUser(e, perm))]
      + [Put(z, t, i, Leaf(e, perm))] + [Put(z, t, i, Leaf(e, perm).(address := f))]
  }

  /** Only the permissions differ. */
  predicate SameButPerm(e: Word, w: Word) {
    w == e.(writable := w.writable, user := w.user, noExecute := w.noExecute)
  }

  lemma PermStages(e: Word, perm: Perm)
    ensures var w1 := e.(writable := perm.writable); var w2 := w1.(user := perm.user);
      var w3 := w2.(noExecute := !perm.executable);
      && SameButPerm(e, w1) && SameButPerm(e, w2) && SameButPerm(e, w3) && EntryPerm(w3) == perm
  {
  }

  // ---- where the stores go ----

  /** The table on the path to `v` at this depth, once those above have been filled in. */
  function TableAt(b: Books, v: Page, d: nat): nat
    requires d <= 3 && Missing(b.tables, v, d) <= |b.free|
  {
    var tables := Grown(b, v, d).tables;
    if PathTo(v, d) in tables then tables[PathTo(v, d)] else 0
  }

  /** The frame that will be taken next. A frame number has at most 51 bits. */
  function FrameAt(b: Books, v: Page, d: nat): Bits51
    requires d <= 3 && Missing(b.tables, v, d) < |b.free|
  {
    Grown(b, v, d).free[0] % 0x8_0000_0000_0000
  }

  /** Memory when the first d tables on the path to `v` are there. */
  function MemAt(s: Snapshot, v: Page, d: nat): (mem: Mem)
    requires d <= 3 && Missing(s.books.tables, v, d) <= |s.books.free|
    ensures |mem| == |s.mem|
    decreases v, d, 0
  {
    if d == 0 then s.mem
    else if PathTo(v, d) in s.books.tables then MemAt(s, v, d - 1)
    else Put(ZeroedAt(s, v, d - 1), TableAt(s.books, v, d - 1), Slot(v, 4 - d),
             Open(AbsentAt(s, v, d - 1)).(address := FrameAt(s.books, v, d - 1)))
  }

  /** The entry at depth d, before anything is stored to it. */
  function AbsentAt(s: Snapshot, v: Page, d: nat): Word
    requires d <= 3 && Missing(s.books.tables, v, d) <= |s.books.free|
    decreases v, d, 1
  {
    EntryIn(MemAt(s, v, d), TableAt(s.books, v, d), Slot(v, 3 - d))
  }

  /** Memory when the frame for depth d has been taken and cleared. */
  function ZeroedAt(s: Snapshot, v: Page, d: nat): (mem: Mem)
    requires d <= 3 && Missing(s.books.tables, v, d) < |s.books.free|
    ensures |mem| == |s.mem|
    decreases v, d, 1
  {
    Cleared(MemAt(s, v, d), FrameAt(s.books, v, d))
  }

  /** The stores at depth d: none if the entry is present. */
  function LevelStores(s: Snapshot, v: Page, d: nat, perm: Perm): seq<Mem>
    requires d <= 3 && Missing(s.books.tables, v, 3) < |s.books.free|
  {
    MissingMonotone(s.books.tables, v);
    if d == 3 then
      PageStores(ZeroedAt(s, v, 3), TableAt(s.books, v, 3), Slot(v, 0), AbsentAt(s, v, 3), FrameAt(s.books, v, 3), perm)
    else if PathTo(v, d + 1) in s.books.tables then []
    else
      TableStores(ZeroedAt(s, v, d), TableAt(s.books, v, d), Slot(v, 3 - d), AbsentAt(s, v, d), FrameAt(s.books, v, d))
  }

  /** All stores above depth d. */
  function StoresTo(s: Snapshot, v: Page, d: nat, perm: Perm): seq<Mem>
    requires d <= 4 && Missing(s.books.tables, v, 3) < |s.books.free|
  {
    if d == 0 then [] else StoresTo(s, v, d - 1, perm) + LevelStores(s, v, d - 1, perm)
  }

  /** Memory when the page has been mapped. */
  function MapMem(s: Snapshot, v: Page, perm: Perm): Mem
    requires Missing(s.books.tables, v, 3) < |s.books.free|
  {
    Put(ZeroedAt(s, v, 3), TableAt(s.books, v, 3), Slot(v, 0),
        Leaf(AbsentAt(s, v, 3), perm).(address := FrameAt(s.books, v, 3)))
  }
}
