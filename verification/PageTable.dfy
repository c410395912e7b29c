/** The 4-level page table as the processor reads it (Intel SDM, volume 3A, section 4.5),
    and as a tree of table frames. Everything here is about values; the code that
    updates memory is in `Kernel`. */
module PageTable {
  import opened Words

  /** A 4 KiB frame holding a table: 512 entries. A frame of data has the same shape. */
  type Table = t: seq<Word> | |t| == 512 witness seq(512, _ => ZERO)

  /** Physical memory, one element per frame. */
  type Mem = seq<Table>

  function ZeroTable(): (t: Table)
    ensures forall i :: 0 <= i < 512 ==> t[i] == ZERO
  {
    seq(512, _ => ZERO)
  }

  datatype Option<T> = None | Some(value: T)

  // ---- virtual addresses ----

  /** A virtual page number: the 36 translated bits of an address. */
  type Page = v: nat | v < 0x10_0000_0000

  function PageOf(address: nat): Page { address / 0x1000 % 0x10_0000_0000 }

  /** The index of page `v` into a table at level i (3 for the root, 0 for the last). */
  function Slot(v: Page, i: nat): (s: nat)
    requires i < 4
    ensures s < 512
  {
    if i == 0 then v % 512
    else if i == 1 then v / 512 % 512
    else if i == 2 then v / 0x4_0000 % 512
    else v / 0x800_0000
  }

  lemma SlotsDetermine(u: Page, v: Page)
    requires forall i :: 0 <= i < 4 ==> Slot(u, i) == Slot(v, i)
    ensures u == v
  {
    assert Slot(u, 0) == Slot(v, 0) && Slot(u, 1) == Slot(v, 1) && Slot(u, 2) == Slot(v, 2) && Slot(u, 3) == Slot(v, 3);
    SlotsSum(u);
    SlotsSum(v);
  }

  lemma SlotsSum(v: Page)
    ensures v == Slot(v, 0) + 512 * Slot(v, 1) + 0x4_0000 * Slot(v, 2) + 0x800_0000 * Slot(v, 3)
  {
    var a, b := v / 512, v / 0x4_0000;
    assert b == a / 512 && v / 0x800_0000 == b / 512;
  }

  /** Shifting and masking an address, as the code does, gives the slots of its page. */
  lemma AddressSlots(address: nat)
    ensures address / 0x1000 % 512 == Slot(PageOf(address), 0)
    ensures address / 0x20_0000 % 512 == Slot(PageOf(address), 1)
    ensures address / 0x4000_0000 % 512 == Slot(PageOf(address), 2)
    ensures address / 0x80_0000_0000 % 512 == Slot(PageOf(address), 3)
  {
    var n := address / 0x1000;
    assert address / 0x20_0000 == n / 512;
    assert address / 0x4000_0000 == n / 0x4_0000;
    assert address / 0x80_0000_0000 == n / 0x800_0000;
    PageSlots(n);
  }

  /** Clearing the offset first makes no difference. */
  lemma AlignedSlots(address: nat)
    ensures var page := address - address % 4096;
      page / 0x1000 % 512 == Slot(PageOf(address), 0) && page / 0x20_0000 % 512 == Slot(PageOf(address), 1) &&
      page / 0x4000_0000 % 512 == Slot(PageOf(address), 2) && page / 0x80_0000_0000 % 512 == Slot(PageOf(address), 3)
  {
    hide Slot;
    var page := address - address % 4096;
    assert PageOf(page) == PageOf(address) by {
      assert page / 0x1000 == address / 0x1000;
    }
    AddressSlots(page);
  }

  lemma PageSlots(n: nat)
    ensures var v := n % 0x10_0000_0000;
      n % 512 == v % 512 && n / 512 % 512 == v / 512 % 512 &&
      n / 0x4_0000 % 512 == v / 0x4_0000 % 512 && n / 0x800_0000 % 512 == v / 0x800_0000
  {
    var v, q := n % 0x10_0000_0000, n / 0x10_0000_0000;
    SlotShift(v, n, 0x800_0000 * q);
    assert n / 512 == v / 512 + 0x800_0000 * q;
    SlotShift(v / 512, n / 512, 0x4_0000 * q);
    assert n / 0x4_0000 == v / 0x4_0000 + 0x4_0000 * q;
    SlotShift(v / 0x4_0000, n / 0x4_0000, 512 * q);
    TopSlot(v, n, q);
  }

  lemma SlotShift(v: nat, n: nat, k: nat)
    requires n == v + 512 * k
    ensures n % 512 == v % 512
  {
  }

  lemma TopSlot(v: nat, n: nat, q: nat)
    requires n == v + 0x10_0000_0000 * q && v < 0x10_0000_0000
    ensures n / 0x800_0000 % 512 == v / 0x800_0000
  {
    assert n / 0x800_0000 == v / 0x800_0000 + 512 * q;
  }

  predicate Lower(v: Page) { Slot(v, 3) < 256 }

  /** The lower half: the addresses below 2^47. */
  lemma LowerHalf(address: nat)
    requires address < 0x1_0000_0000_0000
    ensures Lower(PageOf(address)) <==> address < 0x8000_0000_0000
  {
    assert address / 0x1000 / 0x800_0000 == address / 0x80_0000_0000;
  }

  // ---- the hardware walk ----

  datatype Perm = Perm(user: bool, writable: bool, executable: bool)

  const FULL := Perm(true, true, true)

  function Meet(p: Perm, q: Perm): Perm {
    Perm(p.user && q.user, p.writable && q.writable, p.executable && q.executable)
  }

  function EntryPerm(e: Word): Perm { Perm(e.user, e.writable, !e.noExecute) }

  /** Where a walk stands: not translatable, at a table, or at the translated frame. */
  datatype Cursor = Fault | At(table: nat, perm: Perm) | Mapped(frame: nat, perm: Perm)

  /** Does an entry of a table at this depth (0 for the root) refer to another table?
      At depths 1 and 2 an entry with `pageSize` set maps a 1 GiB or 2 MiB page instead. */
  predicate Points(e: Word, depth: nat) {
    e.present && depth < 3 && !(e.pageSize && 0 < depth)
  }

  /** The 4 KiB frame of page `v` inside a huge page that starts at frame `base`. */
  function HugeFrame(base: nat, v: Page, depth: nat): nat {
    if depth == 1 then base + v % 0x4_0000 else base + v % 512
  }

  /** One step of the walk: read the entry for `v` in the current table. */
  function Look(mem: Mem, c: Cursor, v: Page, depth: nat): Cursor
    requires depth < 4
  {
    match c
    case Fault => Fault
    case Mapped(_, _) => c
    case At(t, perm) =>
      if t >= |mem| then Fault else
      var e := mem[t][Slot(v, 3 - depth)];
      if !e.present then Fault
      else if depth == 3 then Mapped(e.address, Meet(perm, EntryPerm(e)))
      else if Points(e, depth) then At(e.address, Meet(perm, EntryPerm(e)))
      else Mapped(HugeFrame(e.address, v, depth), Meet(perm, EntryPerm(e)))
  }

  /** The walk for page `v` after reading `depth` entries. */
  function Reach(mem: Mem, root: nat, v: Page, depth: nat): Cursor
    requires depth <= 4
  {
    if depth == 0 then At(root, FULL) else Look(mem, Reach(mem, root, v, depth - 1), v, depth - 1)
  }

  function Walk(mem: Mem, root: nat, v: Page): (c: Cursor)
    ensures !c.At?
  {
    Reach(mem, root, v, 4)
  }

  // ---- the tree of tables ----

  /** The position of a table: the slots followed from the root to reach it. */
  datatype Path = Top | Down(up: Path, slot: nat)

  function Depth(p: Path): nat {
    match p
    case Top => 0
    case Down(up, _) => Depth(up) + 1
  }

  /** The slot of the root under which a table lies. */
  function First(p: Path): nat {
    match p
    case Top => 0
    case Down(Top, s) => s
    case Down(up, _) => First(up)
  }

  /** The table that the walk for `v` visits at this depth. */
  function PathTo(v: Page, depth: nat): (p: Path)
    requires depth <= 3
    ensures Depth(p) == depth
    ensures depth > 0 ==> First(p) == Slot(v, 3)
  {
    if depth == 0 then Top else Down(PathTo(v, depth - 1), Slot(v, 4 - depth))
  }

  type Tables = map<Path, nat>

  ghost predicate Injective<K(!new), V>(m: map<K, V>) {
    forall p, q :: p in m && q in m && m[p] == m[q] ==> p == q
  }

  /** `tables` places every table reachable from `root`, each in a frame of its own and
      each referred to by exactly the entry its position names. */
  ghost predicate Tree(mem: Mem, root: nat, tables: Tables) {
    && Top in tables && tables[Top] == root
    && Injective(tables)
    && (forall p :: p in tables ==> tables[p] < |mem| && Depth(p) <= 3)
    && AllLinked(mem, tables)
    && Closed(mem, tables)
  }

  /** Every table but the root is referred to by its parent. */
  ghost predicate AllLinked(mem: Mem, tables: Tables) {
    forall p :: p in tables && p.Down? ==> Linked(mem, tables, p)
  }

  /** Every entry that refers to a table refers to one of the tree. */
  ghost predicate Closed(mem: Mem, tables: Tables)
    requires forall p :: p in tables ==> tables[p] < |mem|
  {
    forall p, i :: p in tables && 0 <= i < 512 && Points(mem[tables[p]][i], Depth(p)) ==> Down(p, i) in tables
  }

  ghost predicate Linked(mem: Mem, tables: Tables, p: Path)
    requires p in tables && p.Down?
  {
    && p.up in tables && tables[p.up] < |mem| && p.slot < 512
    && Points(mem[tables[p.up]][p.slot], Depth(p.up))
    && mem[tables[p.up]][p.slot].address == tables[p]
  }

  /** Each table but the root is referred to by exactly one entry of the tree, and the root by none. */
  lemma OneReference(mem: Mem, root: nat, tables: Tables, f: nat)
    requires Tree(mem, root, tables) && f in tables.Values
    ensures f != root ==> exists p, i :: Refers(mem, tables, p, i, f)
    ensures forall p, i, q, j :: Refers(mem, tables, p, i, f) && Refers(mem, tables, q, j, f) ==> p == q && i == j
    ensures forall p, i :: !Refers(mem, tables, p, i, root)
  {
    forall p, i | Refers(mem, tables, p, i, f) ensures tables[Down(p, i)] == f {
      ReferredTable(mem, root, tables, p, i, f);
    }
    forall p, i | Refers(mem, tables, p, i, root) ensures false {
      ReferredTable(mem, root, tables, p, i, root);
    }
    if f != root {
      var p :| p in tables && tables[p] == f;
      assert Linked(mem, tables, p);
      assert Refers(mem, tables, p.up, p.slot, f);
    }
  }

  /** Entry i of the table at position p refers to a table in frame f. */
  ghost predicate Refers(mem: Mem, tables: Tables, p: Path, i: nat, f: nat) {
    && p in tables && tables[p] < |mem| && i < 512
    && Points(mem[tables[p]][i], Depth(p)) && mem[tables[p]][i].address == f
  }

  lemma ReferredTable(mem: Mem, root: nat, tables: Tables, p: Path, i: nat, f: nat)
    requires Tree(mem, root, tables) && Refers(mem, tables, p, i, f)
    ensures Down(p, i) in tables && tables[Down(p, i)] == f
  {
    assert Linked(mem, tables, Down(p, i));
  }

  /** The walk stands at a table exactly when the tree has one at that position. */
  lemma {:induction false} ReachTree(mem: Mem, root: nat, tables: Tables, v: Page, depth: nat)
    requires Tree(mem, root, tables) && depth <= 3
    ensures Reach(mem, root, v, depth).At? <==> PathTo(v, depth) in tables
    ensures Reach(mem, root, v, depth).At? ==> Reach(mem, root, v, depth).table == tables[PathTo(v, depth)]
  {
    if depth > 0 {
      ReachTree(mem, root, tables, v, depth - 1);
      var p := PathTo(v, depth - 1);
      if Down(p, Slot(v, 4 - depth)) in tables {
        assert Linked(mem, tables, Down(p, Slot(v, 4 - depth)));
      }
    }
  }

  /** A table's ancestors are in the tree with it. */
  lemma {:induction false} PrefixIn(mem: Mem, root: nat, tables: Tables, v: Page, shallow: nat, depth: nat)
    requires Tree(mem, root, tables) && shallow <= depth <= 3
    requires PathTo(v, depth) in tables
    ensures PathTo(v, shallow) in tables
  {
    if shallow < depth {
      assert Linked(mem, tables, PathTo(v, depth));
      PrefixIn(mem, root, tables, v, shallow, depth - 1);
    }
  }

  /** A cleared frame is an empty address space. */
  lemma EmptyTree(mem: Mem, root: nat)
    requires root < |mem| && mem[root] == ZeroTable()
    ensures Tree(mem, root, map[Top := root])
  {
  }
}
