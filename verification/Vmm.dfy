/** The frame allocator and demand paging as one state machine over physical memory.

    `pmm.c` threads its free list through the free frames themselves; `vmm.c` takes the tables it
    needs, and the page it maps, from that list.
  */
module Vmm {
  import opened Basics
  import opened PageTables

  const PAGE_SIZE: int := 4096

  /** Everything the kernel's memory code reads and writes.  The root table's frame is fixed. */
  datatype Kernel = Kernel(mem: Memory, nextFree: Word, freeMemory: Word, usedMemory: Word, brk: Word)

  // ---------- pmm.c ----------

  function LinkAt(mem: Memory, pa: Word): Word {
    EntryAt(mem, pa / PAGE_SIZE, pa / 8 % 512)
  }

  /** `allocate_page`: the head of the list, after moving the head to the link stored in it. */
  function AllocatePage(k: Kernel): (Kernel, Word) {
    (Kernel(k.mem, LinkAt(k.mem, k.nextFree), Wrap(k.freeMemory - PAGE_SIZE), Wrap(k.usedMemory + PAGE_SIZE), k.brk),
     k.nextFree)
  }

  /** `free_page`: the page becomes the head, and holds the old head. */
  function FreePage(k: Kernel, pa: Word): Kernel {
    Kernel(Store(k.mem, pa / PAGE_SIZE, pa / 8 % 512, k.nextFree), pa,
           Wrap(k.freeMemory + PAGE_SIZE), Wrap(k.usedMemory - PAGE_SIZE), k.brk)
  }

  // ---------- vmm.c ----------

  /** Where `map_page` stands on its way down: the state so far and the frame of a table. */
  datatype Cursor = Cursor(k: Kernel, frame: nat)

  function PutWord(k: Kernel, f: nat, i: Index, w: Word): Kernel {
    k.(mem := Store(k.mem, f, i, w))
  }

  /** One level of `map_page`: the table under entry `i`, made if it is missing. */
  function EnsureTable(c: Cursor, i: Index): Cursor {
    var e := EntryAt(c.k.mem, c.frame, i);
    if Present(e) then Cursor(c.k, Target(e))
    else
      var (k, pa) := AllocatePage(c.k);
      Cursor(PutWord(k.(mem := Zero(k.mem, pa / PAGE_SIZE)), c.frame, i, Entry(pa)), pa / PAGE_SIZE)
  }

  /** `map_page` down to the last-level table. */
  function ReachLeaf(k: Kernel, root: Top, p: Page): Cursor {
    EnsureTable(EnsureTable(EnsureTable(Cursor(k, root.frame), p.i4), p.i3), p.i2)
  }

  /** `map_page` up to the last-level entry. */
  function LinkPage(k: Kernel, root: Top, va: Word, pa: Word): Kernel {
    var c := ReachLeaf(k, root, PageOf(va));
    PutWord(c.k, c.frame, PageOf(va).i1, Entry(pa))
  }

  /** `map_page`: the page is cleared through its new address, wherever that now leads. */
  function MapPage(k: Kernel, root: Top, va: Word, pa: Word): Kernel {
    var k' := LinkPage(k, root, va, pa);
    match Walk(k'.mem, root, PageOf(va))
    case None => k'
    case Some(f) => k'.(mem := Zero(k'.mem, f))
  }

  /** `vmm_alloc_region` hands out address space only. */
  function AllocRegion(k: Kernel, pages: Word): (Kernel, Word) {
    (k.(brk := Wrap(k.brk + pages * PAGE_SIZE)), k.brk)
  }

  /** The faults that `page_fault_handler` repairs; on any other it halts the machine. */
  predicate Repairs(k: Kernel, va: Word, errorCode: Word) {
    !Present(errorCode) && va != 0 && va <= k.brk
  }

  function HandleFault(k: Kernel, root: Top, va: Word): Kernel {
    var (k', pa) := AllocatePage(k);
    MapPage(k', root, va / PAGE_SIZE * PAGE_SIZE, pa)
  }

  // ---------- the free list ----------

  function LinkOf(free: seq<nat>): nat {
    if free == [] then 0 else free[0] * PAGE_SIZE
  }

  /** Frames `free` are chained from `head`, each frame's first word naming the next. */
  ghost predicate FreeList(mem: Memory, head: Word, free: seq<nat>) {
    && head == LinkOf(free)
    && (forall j | 0 <= j < |free| :: 0 < free[j] < |mem| && mem[free[j]][0] == LinkOf(free[j + 1..]))
    && (forall i, j | 0 <= i < j < |free| :: free[i] != free[j])
  }

  lemma FreeListPop(mem: Memory, head: Word, free: seq<nat>)
    requires FreeList(mem, head, free) && free != []
    ensures head / PAGE_SIZE == free[0] && head / 8 % 512 == 0
    ensures LinkAt(mem, head) == LinkOf(free[1..])
    ensures FreeList(mem, LinkOf(free[1..]), free[1..])
  {
    var rest := free[1..];
    forall j | 0 <= j < |rest|
      ensures 0 < rest[j] < |mem| && mem[rest[j]][0] == LinkOf(rest[j + 1..])
    {
      assert rest[j] == free[j + 1];
      assert rest[j + 1..] == free[j + 2..];
    }
  }

  lemma FreeListKept(mem: Memory, mem': Memory, head: Word, free: seq<nat>, changed: set<nat>)
    requires FreeList(mem, head, free) && SameOutside(mem, mem', changed)
    requires forall j | 0 <= j < |free| :: free[j] !in changed
    ensures FreeList(mem', head, free)
  {
  }

  lemma FreeListPush(mem: Memory, head: Word, free: seq<nat>, f: nat)
    requires FreeList(mem, head, free) && 0 < f < |mem| && f !in free && f * PAGE_SIZE < WORDS
    ensures FreeList(Store(mem, f, 0, head), f * PAGE_SIZE, [f] + free)
  {
    var mem', all := Store(mem, f, 0, head), [f] + free;
    assert all[1..] == free;
    forall j | 0 <= j < |all|
      ensures 0 < all[j] < |mem'| && mem'[all[j]][0] == LinkOf(all[j + 1..])
    {
      if j > 0 {
        assert all[j] == free[j - 1];
        assert all[j + 1..] == free[j..];
      }
    }
  }

  /** The counters: free memory is the length of the list, and the two totals move together. */
  predicate Accounts(k: Kernel, free: seq<nat>, total: Word) {
    k.freeMemory == Wrap(|free| * PAGE_SIZE) && Wrap(k.freeMemory + k.usedMemory) == total
  }

  lemma AccountsMove(used: int, have: int, step: int)
    ensures Wrap(Wrap(have + step) + Wrap(used - step)) == Wrap(have + used)
  {
    WrapAdd(have + step, Wrap(used - step));
    WrapAdd(used - step, have + step);
  }

  lemma AccountsTake(k: Kernel, free: seq<nat>, total: Word)
    requires Accounts(k, free, total) && free != []
    ensures Accounts(AllocatePage(k).0, free[1..], total)
  {
    AccountsMove(k.usedMemory, k.freeMemory, -PAGE_SIZE);
    WrapAdd(|free| * PAGE_SIZE, -PAGE_SIZE);
  }

  lemma AccountsGive(k: Kernel, free: seq<nat>, total: Word, pa: Word)
    requires Accounts(k, free, total)
    ensures Accounts(FreePage(k, pa), [pa / PAGE_SIZE] + free, total)
  {
    AccountsMove(k.usedMemory, k.freeMemory, PAGE_SIZE);
    WrapAdd(|free| * PAGE_SIZE, PAGE_SIZE);
  }

  /** The allocator's own state: the list `free`, and counters that agree with it. */
  ghost predicate Stock(k: Kernel, free: seq<nat>, total: Word) {
    FreeList(k.mem, k.nextFree, free) && Accounts(k, free, total)
  }

  lemma StockKept(k: Kernel, free: seq<nat>, total: Word, f: nat, i: Index, w: Word)
    requires Stock(k, free, total) && f !in free
    ensures Stock(PutWord(k, f, i, w), free, total)
  {
    FreeListKept(k.mem, Store(k.mem, f, i, w), k.nextFree, free, {f});
  }

  // ---------- map_page against the tree ----------

  /** The kernel's descent `c` and the tree's descent `d`, whose pool is the free list, stand together. */
  ghost predicate Abreast(c: Cursor, d: Descent, root: Top, tabs: map<Table, nat>, t: Table, total: Word) {
    && c.k.mem == d.mem && c.frame == d.frame && d.frame !in d.pool
    && StandsAt(d, root, tabs, t) && Stock(c.k, d.pool, total)
  }

  lemma EnsureTableIsDescend(c: Cursor, i: Index, free: seq<nat>, total: Word)
    requires Stock(c.k, free, total)
    requires |c.k.mem| <= FRAMES && c.frame < |c.k.mem| && c.frame !in free
    requires Present(c.k.mem[c.frame][i]) || free != []
    ensures var c' := EnsureTable(c, i);
            var d := Descend(Descent(c.k.mem, c.frame, free), i);
            c'.k.mem == d.mem && c'.frame == d.frame && c'.k.brk == c.k.brk && Stock(c'.k, d.pool, total)
  {
    if !Present(c.k.mem[c.frame][i]) {
      FreeListPop(c.k.mem, c.k.nextFree, free);
      AccountsTake(c.k, free, total);
      var d := Descend(Descent(c.k.mem, c.frame, free), i);
      assert free[0] * PAGE_SIZE == c.k.nextFree;
      FreeListKept(c.k.mem, d.mem, LinkOf(free[1..]), free[1..], {c.frame, free[0]});
    }
  }

  /** One level of both descents. */
  lemma EnsureStep(c: Cursor, d: Descent, root: Top, tabs: map<Table, nat>, t: Table, i: Index, total: Word)
    requires Abreast(c, d, root, tabs, t, total) && Inner(root, t, i)
    requires Child(t, i) in tabs || d.pool != []
    ensures Abreast(EnsureTable(c, i), Descend(d, i), root, Grow(tabs, Child(t, i), d.pool), Child(t, i), total)
    ensures Descend(d, i).pool == Rest(tabs, Child(t, i), d.pool)
    ensures EnsureTable(c, i).k.brk == c.k.brk
  {
    assert tabs[t] in tabs.Values && Linked(d.mem, tabs, t, i);
    EnsureTableIsDescend(c, i, d.pool, total);
    DescendKeepsTree(d, root, tabs, t, i);
    var tabs' := Grow(tabs, Child(t, i), d.pool);
    assert tabs'[Child(t, i)] in tabs'.Values;
  }

  lemma ReachLeafIsDescent(k: Kernel, root: Top, tabs: map<Table, nat>, p: Page, free: seq<nat>, total: Word)
    requires Abreast(Cursor(k, root.frame), Descent(k.mem, root.frame, free), root, tabs, Root, total)
    requires p.i4 != root.slot && |free| >= Lacking(tabs, p)
    ensures var d := Descend(Descend(Descend(Descent(k.mem, root.frame, free), p.i4), p.i3), p.i2);
            Abreast(ReachLeaf(k, root, p), d, root, Grown(tabs, p, free), Pt(p.i4, p.i3, p.i2), total)
    ensures ReachLeaf(k, root, p).k.brk == k.brk
  {
    hide Abreast, Descend, EnsureTable, Lacking, Grow, Rest;
    PoolLasts(tabs, p, free);
    var t3, t2 := Pdpt(p.i4), Pdt(p.i4, p.i3);
    var c0, d0 := Cursor(k, root.frame), Descent(k.mem, root.frame, free);
    EnsureStep(c0, d0, root, tabs, Root, p.i4, total);
    var c1, d1, m1 := EnsureTable(c0, p.i4), Descend(d0, p.i4), Grow(tabs, t3, free);
    EnsureStep(c1, d1, root, m1, t3, p.i3, total);
    var c2, d2, m2 := EnsureTable(c1, p.i3), Descend(d1, p.i3), Grow(m1, t2, d1.pool);
    EnsureStep(c2, d2, root, m2, t2, p.i2, total);
  }

  /** `map_page` up to the entry is one installation, and the list gives up just the tables' frames. */
  lemma LinkPageIsInstall(k: Kernel, root: Top, tabs: map<Table, nat>, va: Word, pa: Word, free: seq<nat>, total: Word)
    requires TableTree(k.mem, root, tabs) && PoolFrames(k.mem, tabs, free) && Stock(k, free, total)
    requires PageOf(va).i4 != root.slot && |free| >= Lacking(tabs, PageOf(va))
    ensures var k' := LinkPage(k, root, va, pa);
            var d := Install(k.mem, root, PageOf(va), pa, free);
            && k'.mem == d.mem && k'.brk == k.brk && Stock(k', d.pool, total)
  {
    var p := PageOf(va);
    assert tabs[Root] in tabs.Values;
    ReachLeafIsDescent(k, root, tabs, p, free, total);
    var c := ReachLeaf(k, root, p);
    var d := Descend(Descend(Descend(Descent(k.mem, root.frame, free), p.i4), p.i3), p.i2);
    StockKept(c.k, d.pool, total, c.frame, p.i1, Entry(pa));
  }

  /** Taking entry `i` reads and writes existing memory only. */
  predicate InBounds(c: Cursor, i: Index) {
    c.frame < |c.k.mem| && (Present(c.k.mem[c.frame][i]) || c.k.nextFree / PAGE_SIZE < |c.k.mem|)
  }

  lemma EnsureStepInBounds(c: Cursor, d: Descent, root: Top, tabs: map<Table, nat>, t: Table, i: Index, total: Word)
    requires Abreast(c, d, root, tabs, t, total) && Inner(root, t, i)
    requires Child(t, i) in tabs || d.pool != []
    ensures InBounds(c, i)
  {
    assert Linked(d.mem, tabs, t, i);
    if d.pool != [] { FreeListPop(c.k.mem, c.k.nextFree, d.pool); }
  }

  lemma LevelInBounds(c: Cursor, d: Descent, root: Top, tabs: map<Table, nat>, t: Table, i: Index, total: Word)
    requires Abreast(c, d, root, tabs, t, total) && Inner(root, t, i)
    requires Child(t, i) in tabs || d.pool != []
    ensures InBounds(c, i)
    ensures Abreast(EnsureTable(c, i), Descend(d, i), root, Grow(tabs, Child(t, i), d.pool), Child(t, i), total)
    ensures Descend(d, i).pool == Rest(tabs, Child(t, i), d.pool)
  {
    hide *;
    EnsureStepInBounds(c, d, root, tabs, t, i, total);
    EnsureStep(c, d, root, tabs, t, i, total);
  }

  /** With a sound tree and enough free frames, `map_page` stays inside memory. */
  lemma ReachLeafInBounds(k: Kernel, root: Top, tabs: map<Table, nat>, p: Page, free: seq<nat>, total: Word)
    requires Abreast(Cursor(k, root.frame), Descent(k.mem, root.frame, free), root, tabs, Root, total)
    requires p.i4 != root.slot && |free| >= Lacking(tabs, p)
    ensures var c1 := EnsureTable(Cursor(k, root.frame), p.i4);
            var c2 := EnsureTable(c1, p.i3);
            InBounds(Cursor(k, root.frame), p.i4) && InBounds(c1, p.i3) && InBounds(c2, p.i2)
    ensures ReachLeaf(k, root, p).frame < |ReachLeaf(k, root, p).k.mem|
  {
    hide Abreast, Descend, EnsureTable, Lacking, Grow, Rest, InBounds;
    PoolLasts(tabs, p, free);
    var t3, t2 := Pdpt(p.i4), Pdt(p.i4, p.i3);
    var c0, d0 := Cursor(k, root.frame), Descent(k.mem, root.frame, free);
    LevelInBounds(c0, d0, root, tabs, Root, p.i4, total);
    var c1, d1, m1 := EnsureTable(c0, p.i4), Descend(d0, p.i4), Grow(tabs, t3, free);
    LevelInBounds(c1, d1, root, m1, t3, p.i3, total);
    var c2, d2, m2 := EnsureTable(c1, p.i3), Descend(d1, p.i3), Grow(m1, t2, d1.pool);
    var t1 := Pt(p.i4, p.i3, p.i2);
    LevelInBounds(c2, d2, root, m2, t2, p.i2, total);
    LeafInBounds(EnsureTable(c2, p.i2), Descend(d2, p.i2), root, Grow(m2, t1, d2.pool), t1, total);
  }

  lemma LeafInBounds(c: Cursor, d: Descent, root: Top, tabs: map<Table, nat>, t: Table, total: Word)
    requires Abreast(c, d, root, tabs, t, total)
    ensures c.frame < |c.k.mem|
  {
  }
}
