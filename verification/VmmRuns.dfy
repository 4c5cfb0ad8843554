/** What every run of the memory code keeps: the frames stay partitioned, and the demand-mapped
    pages behave as private, zero-initialised memory.
  */
module VmmRuns {
  import opened Basics
  import opened PageTables
  import opened PageRights
  import opened Vmm

  /** Who owns which frame.
      - `tabs`: the page tables;
      - `free`: the free list, in order;
      - `data`: the frame behind each page mapped by a page fault;
      - `held`: frames handed out by `allocate_page` and not yet given back;
      - `image`: frames that were mapped when the kernel was loaded;
      - `direct`: the direct map's own tables. */
  datatype Owners = Owners(tabs: map<Table, nat>, free: seq<nat>, data: map<Page, nat>,
                           held: set<nat>, image: set<nat>, direct: set<nat>)
  {
    function All(): set<nat> {
      tabs.Values + Elements(free) + data.Values + held
    }
  }

  predicate Apart(a: set<nat>, b: set<nat>, c: set<nat>, d: set<nat>, e: set<nat>) {
    a !! b && a !! c && a !! d && a !! e && b !! c && b !! d && b !! e && c !! d && c !! e && d !! e
  }

  ghost predicate Partitioned(o: Owners) {
    && Apart(o.tabs.Values, Elements(o.free), o.data.Values, o.held, o.image + o.direct)
    && (forall p, q | p in o.data && q in o.data && o.data[p] == o.data[q] :: p == q)
  }

  /** Where page `p` may lead: to its demand frame, or else into the loaded image. */
  predicate Resolves(mem: Memory, o: Owners, p: Page) {
    match Lookup(mem, o.tabs, p)
    case None => p !in o.data
    case Some(f) => if p in o.data then f == o.data[p] else f in o.image
  }

  ghost predicate Resolved(mem: Memory, root: Top, o: Owners) {
    && (forall p: Page | p.i4 != root.slot :: Resolves(mem, o, p))
    && (forall p: Page | p.i4 == root.slot :: ReadsOnly(mem, root, p, o.direct))
    && (forall p <- o.data :: p.i4 != root.slot && o.data[p] < |mem|)
    && (forall f <- o.held :: 0 < f < |mem|)
  }

  ghost predicate Inv(k: Kernel, root: Top, o: Owners, total: Word) {
    && TableTree(k.mem, root, o.tabs)
    && Stock(k, o.free, total)
    && Partitioned(o)
    && Resolved(k.mem, root, o)
  }

  // ---------- events ----------

  /** What can happen to the machine.  `Touch` is a program's store through its own page,
      `Scribble` a store by the holder of an allocated frame. */
  datatype Event =
    | Fault(va: Word, errorCode: Word)
    | Region(pages: Word)
    | TakeFrame
    | GiveFrame(pa: Word)
    | Touch(va: Word, w: Word)
    | Scribble(pa: Word, w: Word)

  datatype Machine = Running(k: Kernel) | Halted

  /** The processor's promises about the event, and the callers': a not-present fault is raised
      only for a page that has no translation, the direct map's slot is never faulted in, the
      free list is long enough, and only held frames are given back or scribbled on. */
  predicate Possible(k: Kernel, root: Top, o: Owners, e: Event) {
    match e
    case Fault(va, code) =>
      Repairs(k, va, code) ==>
        var p := PageOf(va);
        p.i4 != root.slot && Walk(k.mem, root, p) == None && |o.free| > Lacking(o.tabs, p)
    case Region(_) => true
    case TakeFrame => o.free != []
    case GiveFrame(pa) => pa % PAGE_SIZE == 0 && pa / PAGE_SIZE in o.held
    case Touch(va, _) => PageOf(va) in o.data
    case Scribble(pa, _) => pa / PAGE_SIZE in o.held
  }

  function Step(k: Kernel, root: Top, e: Event): Machine {
    match e
    case Fault(va, code) => if Repairs(k, va, code) then Running(HandleFault(k, root, va)) else Halted
    case Region(n) => Running(AllocRegion(k, n).0)
    case TakeFrame => Running(AllocatePage(k).0)
    case GiveFrame(pa) => Running(FreePage(k, pa))
    case Touch(va, w) =>
      (match Walk(k.mem, root, PageOf(va))
       case None => Halted
       case Some(f) => Running(PutWord(k, f, va / 8 % 512, w)))
    case Scribble(pa, w) => Running(PutWord(k, pa / PAGE_SIZE, pa / 8 % 512, w))
  }

  function Track(k: Kernel, o: Owners, e: Event): Owners {
    match e
    case Fault(va, code) =>
      var p := PageOf(va);
      if !Repairs(k, va, code) || o.free == [] || |o.free| <= Lacking(o.tabs, p) then o else
      o.(tabs := Grown(o.tabs, p, o.free[1..]),
         free := o.free[1..][Lacking(o.tabs, p)..],
         data := o.data[p := o.free[0]])
    case TakeFrame => if o.free == [] then o else o.(free := o.free[1..], held := o.held + {o.free[0]})
    case GiveFrame(pa) => o.(free := [pa / PAGE_SIZE] + o.free, held := o.held - {pa / PAGE_SIZE})
    case _ => o
  }

  // ---------- frame lemmas ----------

  /** Changes outside the tables leave the tree, and every walk, alone. */
  lemma TableTreeKept(mem: Memory, mem': Memory, root: Top, tabs: map<Table, nat>, changed: set<nat>)
    requires TableTree(mem, root, tabs) && SameOutside(mem, mem', changed)
    requires changed !! tabs.Values
    ensures TableTree(mem', root, tabs)
    ensures forall p: Page :: Lookup(mem', tabs, p) == Lookup(mem, tabs, p)
  {
    assert forall t | t in tabs :: tabs[t] in tabs.Values;
    forall t, i: Index | t in tabs && Inner(root, t, i) ensures Linked(mem', tabs, t, i) {
      assert Linked(mem, tabs, t, i);
    }
  }

  /** The direct map's walks are unchanged as long as its root entry and its tables are. */
  lemma DirectKept(mem: Memory, mem': Memory, root: Top, own: set<nat>, changed: set<nat>)
    requires SameOutside(mem, mem', changed) && own !! changed
    requires root.frame < |mem| && mem'[root.frame][root.slot] == mem[root.frame][root.slot]
    requires forall p: Page | p.i4 == root.slot :: ReadsOnly(mem, root, p, own)
    ensures forall p: Page | p.i4 == root.slot :: ReadsOnly(mem', root, p, own) && Walk(mem', root, p) == Walk(mem, root, p)
  {
    forall p: Page | p.i4 == root.slot
      ensures ReadsOnly(mem', root, p, own) && Walk(mem', root, p) == Walk(mem, root, p)
    {
      WalkKept(mem, mem', root, p, own, changed);
    }
  }

  lemma PageAligned(va: Word)
    ensures PageOf(va / PAGE_SIZE * PAGE_SIZE) == PageOf(va)
  {
    hide PageOf;
    PageOfNumber(va);
    PageOfNumber(va / 4096 * 4096);
  }

 // ---------- map_page ----------

  /** The allocator after a mapping took the tables it lacked. */
  ghost predicate Spent(k: Kernel, tabs: map<Table, nat>, free: seq<nat>, total: Word) {
    Stock(k, free, total) && tabs.Values !! Elements(free)
  }

  lemma FreeIsPool(k: Kernel, tabs: map<Table, nat>, free: seq<nat>, total: Word)
    requires Spent(k, tabs, free, total)
    ensures PoolFrames(k.mem, tabs, free)
  {
  }

  /** `map_page` up to the entry. */
  lemma LinkPageIsOneUpdate(k: Kernel, root: Top, tabs: map<Table, nat>, free: seq<nat>, total: Word, va: Word, pa: Word)
    requires TableTree(k.mem, root, tabs) && Spent(k, tabs, free, total)
    requires PageOf(va).i4 != root.slot && |free| >= Lacking(tabs, PageOf(va))
    ensures var k' := LinkPage(k, root, va, pa);
            var p := PageOf(va);
            var tabs' := Grown(tabs, p, free);
            && OneUpdate(root, k.mem, tabs, k'.mem, tabs', p, Target(pa), {})
            && Spent(k', tabs', free[Lacking(tabs, p)..], total)
            && k'.brk == k.brk
  {
    var p := PageOf(va);
    FreeIsPool(k, tabs, free, total);
    hide TableTree, PoolFrames, Stock, Install, LinkPage, OneUpdate, Grown, Lacking;
    LinkPageIsInstall(k, root, tabs, va, pa, free, total);
    InstallIsOneUpdate(k.mem, root, tabs, p, pa, free);
    InstallLeavesPool(k.mem, root, tabs, p, free);
  }

  /** Clearing a frame that is neither a table nor free. */
  lemma ZeroIsHarmless(k: Kernel, root: Top, tabs: map<Table, nat>, free: seq<nat>, total: Word, f: nat)
    requires TableTree(k.mem, root, tabs) && Spent(k, tabs, free, total)
    requires f !in tabs.Values && f !in free
    ensures var k' := k.(mem := Zero(k.mem, f));
            && TableTree(k'.mem, root, tabs) && Spent(k', tabs, free, total)
            && SameOutside(k.mem, k'.mem, {f})
            && forall q: Page :: Lookup(k'.mem, tabs, q) == Lookup(k.mem, tabs, q)
  {
    TableTreeKept(k.mem, Zero(k.mem, f), root, tabs, {f});
    FreeListKept(k.mem, Zero(k.mem, f), k.nextFree, free, {f});
  }

  /** `map_page` is one update of the translation: the page now leads to the given frame, which
      has been cleared, every other page leads where it did, and only the table frames, the
      frames the tables took from the list, and the cleared frame have been written. */
  lemma MapPageIsOneUpdate(k: Kernel, root: Top, tabs: map<Table, nat>, free: seq<nat>, total: Word, va: Word, pa: Word)
    requires TableTree(k.mem, root, tabs) && Spent(k, tabs, free, total)
    requires PageOf(va).i4 != root.slot && |free| >= Lacking(tabs, PageOf(va))
    requires Target(pa) < |k.mem| && Target(pa) !in tabs.Values && Target(pa) !in free
    ensures var k' := MapPage(k, root, va, pa);
            var p := PageOf(va);
            var tabs' := Grown(tabs, p, free);
            && OneUpdate(root, k.mem, tabs, k'.mem, tabs', p, Target(pa), {Target(pa)})
            && Spent(k', tabs', free[Lacking(tabs, p)..], total)
            && k'.mem[Target(pa)] == ZeroFrame()
            && k'.brk == k.brk
  {
    var p, f := PageOf(va), Target(pa);
    var tabs', rest := Grown(tabs, p, free), free[Lacking(tabs, p)..];
    var k1 := LinkPage(k, root, va, pa);
    LinkPageIsOneUpdate(k, root, tabs, free, total, va, pa);
    WalkIsLookup(k1.mem, root, tabs', p);
    GrownMovesFrames(tabs, p, free);
    assert f !in tabs'.Values && f !in rest by {
      assert f !in tabs.Values + Elements(free);
    }
    assert tabs'[Root] in tabs'.Values;
    ZeroIsHarmless(k1, root, tabs', rest, total, f);
  }

  /** The words that `map_page` writes: the page's own becomes plain, and of its tables' entries the missing
      ones do. */
  lemma MapPageFills(k: Kernel, root: Top, tabs: map<Table, nat>, free: seq<nat>, total: Word, va: Word, pa: Word)
    requires TableTree(k.mem, root, tabs) && Spent(k, tabs, free, total)
    requires PageOf(va).i4 != root.slot && |free| >= Lacking(tabs, PageOf(va))
    requires Target(pa) < |k.mem| && Target(pa) !in tabs.Values && Target(pa) !in free
    ensures Filled(k.mem, tabs, MapPage(k, root, va, pa).mem, Grown(tabs, PageOf(va), free), iset{PageOf(va)})
  {
    var p, f, k1 := PageOf(va), Target(pa), LinkPage(k, root, va, pa);
    var tabs' := Grown(tabs, p, free);
    FreeIsPool(k, tabs, free, total);
    LinkPageIsInstall(k, root, tabs, va, pa, free, total);
    InstallFills(k.mem, root, tabs, p, pa, free);
    LinkPageIsOneUpdate(k, root, tabs, free, total, va, pa);
    GrownMovesFrames(tabs, p, free);
    hide TableTree, PoolFrames, Stock, Install, LinkPage, Grown, Lacking, Filled;
    WalkIsLookup(k1.mem, root, tabs', p);
    assert f !in tabs'.Values by { assert f !in tabs.Values + Elements(free); }
    OutsideFillsNothing(k1.mem, Zero(k1.mem, f), tabs', {f});
    FilledTwice(k.mem, tabs, k1.mem, tabs', Zero(k1.mem, f), tabs', iset{p}, iset{});
    assert iset{p} + iset{} == iset{p};
  }

  /** After `map_page` the page can be written, unless a table on its way was linked without that right
      already, and every other page exactly if it could be. */
  lemma MapPageWrites(k: Kernel, root: Top, tabs: map<Table, nat>, free: seq<nat>, total: Word, va: Word, pa: Word, q: Page)
    requires TableTree(k.mem, root, tabs) && Spent(k, tabs, free, total)
    requires PageOf(va).i4 != root.slot && |free| >= Lacking(tabs, PageOf(va)) && q.i4 != root.slot
    requires Target(pa) < |k.mem| && Target(pa) !in tabs.Values && Target(pa) !in free
    ensures var k', p := MapPage(k, root, va, pa), PageOf(va);
            && Plain(LinkAt(k'.mem, EntryAddress(k'.mem, root, p)))
            && (WalkWrites(k'.mem, root, q) <==> if q == p then !Barred(k.mem, tabs, p) else WalkWrites(k.mem, root, q))
  {
    var k', p := MapPage(k, root, va, pa), PageOf(va);
    var tabs' := Grown(tabs, p, free);
    MapPageFills(k, root, tabs, free, total, va, pa);
    MapPageIsOneUpdate(k, root, tabs, free, total, va, pa);
    hide MapPage, Spent, Lacking, Grown, Filled, WalkWrites, Barred;
    FilledWrites(k.mem, root, tabs, k'.mem, tabs', iset{p}, q);
    assert Lookup(k'.mem, tabs', p).Some?;
    FilledWord(k.mem, tabs, k'.mem, tabs', iset{p}, Pt(p.i4, p.i3, p.i2), p.i1);
    LeafAtEntryAddress(k'.mem, root, tabs', p);
  }

  lemma LeafAtEntryAddress(mem: Memory, root: Top, tabs: map<Table, nat>, p: Page)
    requires TableTree(mem, root, tabs) && p.i4 != root.slot && Pt(p.i4, p.i3, p.i2) in tabs
    ensures LinkAt(mem, EntryAddress(mem, root, p)) == WordAt(mem, tabs, Pt(p.i4, p.i3, p.i2), p.i1)
  {
    EntryAddressIsInLeaf(mem, root, tabs, p);
    var f := tabs[Pt(p.i4, p.i3, p.i2)];
    assert (f * 4096 + p.i1 * 8) / 4096 == f && (f * 4096 + p.i1 * 8) / 8 % 512 == p.i1;
  }

  /** The same, as the processor and `get_pte` see it: of all pages, in the direct map too, only
      `va`'s translation changes, and the word at its entry address is the new entry. */
  lemma MapPageTranslates(k: Kernel, root: Top, tabs: map<Table, nat>, free: seq<nat>, total: Word, va: Word, pa: Word, own: set<nat>)
    requires TableTree(k.mem, root, tabs) && Spent(k, tabs, free, total)
    requires PageOf(va).i4 != root.slot && |free| >= Lacking(tabs, PageOf(va))
    requires Target(pa) < |k.mem| && Target(pa) !in tabs.Values && Target(pa) !in free
    requires own !! tabs.Values + Elements(free) + {Target(pa)}
    requires forall q: Page | q.i4 == root.slot :: ReadsOnly(k.mem, root, q, own)
    ensures var k' := MapPage(k, root, va, pa);
            && (forall q: Page :: Walk(k'.mem, root, q) == if q == PageOf(va) then Some(Target(pa)) else Walk(k.mem, root, q))
            && Present(LinkAt(k'.mem, EntryAddress(k'.mem, root, PageOf(va))))
            && Target(LinkAt(k'.mem, EntryAddress(k'.mem, root, PageOf(va)))) == Target(pa)
  {
    var p, k' := PageOf(va), MapPage(k, root, va, pa);
    var tabs' := Grown(tabs, p, free);
    MapPageIsOneUpdate(k, root, tabs, free, total, va, pa);
    GrownMovesFrames(tabs, p, free);
    hide MapPage, Spent, Lacking, Grown;
    DirectKept(k.mem, k'.mem, root, own, tabs'.Values + {Target(pa)});
    forall q: Page ensures Walk(k'.mem, root, q) == if q == p then Some(Target(pa)) else Walk(k.mem, root, q) {
      if q.i4 != root.slot {
        WalkIsLookup(k'.mem, root, tabs', q);
        WalkIsLookup(k.mem, root, tabs, q);
      }
    }
    LookupAtEntryAddress(k'.mem, root, tabs', p);
  }

  /** Where the tables of `p` exist, the word at the entry's address decides its translation. */
  lemma LookupAtEntryAddress(mem: Memory, root: Top, tabs: map<Table, nat>, p: Page)
    requires TableTree(mem, root, tabs) && p.i4 != root.slot && Pt(p.i4, p.i3, p.i2) in tabs
    ensures var e := LinkAt(mem, EntryAddress(mem, root, p));
            Lookup(mem, tabs, p) == if Present(e) then Some(Target(e)) else None
  {
    EntryAddressIsInLeaf(mem, root, tabs, p);
    var f := tabs[Pt(p.i4, p.i3, p.i2)];
    assert (f * 4096 + p.i1 * 8) / 4096 == f && (f * 4096 + p.i1 * 8) / 8 % 512 == p.i1;
  }

  // ---------- page faults ----------

  lemma ValuesAfterMapping(data: map<Page, nat>, p: Page, f: nat)
    requires p !in data
    ensures data[p := f].Values == data.Values + {f}
  {
    var data' := data[p := f];
    forall v | v in data.Values ensures v in data'.Values {
      var q :| q in data && data[q] == v;
      assert data'[q] == v;
    }
    assert data'[p] == f;
  }

  lemma NewDataFrame(data: map<Page, nat>, p: Page, f: nat)
    requires p !in data && f !in data.Values
    requires forall q, r | q in data && r in data && data[q] == data[r] :: q == r
    ensures var data' := data[p := f];
            forall q, r | q in data' && r in data' && data'[q] == data'[r] :: q == r
  {
    assert forall q | q in data :: data[q] in data.Values;
  }

  lemma FaultKeepsPartition(o: Owners, p: Page, o': Owners)
    requires Partitioned(o) && p !in o.data && o.free != [] && |o.free| > Lacking(o.tabs, p)
    requires o.free[0] !in o.free[1..]
    requires o'.tabs == Grown(o.tabs, p, o.free[1..]) && o'.free == o.free[1..][Lacking(o.tabs, p)..]
    requires o'.data == o.data[p := o.free[0]]
    requires o'.held == o.held && o'.image == o.image && o'.direct == o.direct
    requires o'.tabs.Values !! Elements(o'.free)
    ensures Partitioned(o') && o'.All() == o.All()
  {
    var f, rest := o.free[0], o.free[1..];
    assert o.free == [f] + rest;
    assert Elements(o.free) == {f} + Elements(rest) && f !in Elements(rest);
    GrownMovesFrames(o.tabs, p, rest);
    ValuesAfterMapping(o.data, p, f);
    NewDataFrame(o.data, p, f);
    hide Grown, Elements, Lacking;
  }

  /** The new page resolves to its frame and all others as before. */
  lemma UpdateKeepsResolved(mem: Memory, mem': Memory, root: Top, o: Owners, o': Owners, p: Page, f: nat)
    requires Resolved(mem, root, o) && OneUpdate(root, mem, o.tabs, mem', o'.tabs, p, f, {f})
    requires p.i4 != root.slot && f < |mem|
    requires o'.data == o.data[p := f] && o'.held == o.held && o'.image == o.image && o'.direct == o.direct
    requires o.direct !! o'.tabs.Values + {f}
    ensures Resolved(mem', root, o')
  {
    DirectKept(mem, mem', root, o.direct, o'.tabs.Values + {f});
    forall q: Page | q.i4 != root.slot ensures Resolves(mem', o', q) {
      assert Resolves(mem, o, q);
    }
  }

  lemma AllocateSpends(k: Kernel, tabs: map<Table, nat>, free: seq<nat>, total: Word)
    requires |k.mem| <= FRAMES && Spent(k, tabs, free, total) && free != []
    ensures var (k', pa) := AllocatePage(k);
            && Spent(k', tabs, free[1..], total) && Target(pa) == free[0] && k'.mem == k.mem && k'.brk == k.brk
    ensures free[0] < |k.mem| && free[0] !in tabs.Values && free[0] !in free[1..]
  {
    assert free[0] in free && free == [free[0]] + free[1..];
    FreeListPop(k.mem, k.nextFree, free);
    AccountsTake(k, free, total);
  }

  /** The page-fault handler maps the faulting page to the head of the free list. */
  lemma HandleFaultIsOneUpdate(k: Kernel, root: Top, tabs: map<Table, nat>, free: seq<nat>, total: Word, va: Word)
    requires TableTree(k.mem, root, tabs) && Spent(k, tabs, free, total)
    requires PageOf(va).i4 != root.slot && |free| > Lacking(tabs, PageOf(va))
    ensures var k' := HandleFault(k, root, va);
            var p := PageOf(va);
            var tabs' := Grown(tabs, p, free[1..]);
            && OneUpdate(root, k.mem, tabs, k'.mem, tabs', p, free[0], {free[0]})
            && Spent(k', tabs', free[1..][Lacking(tabs, p)..], total)
            && k'.mem[free[0]] == ZeroFrame()
            && k'.brk == k.brk
  {
    assert |k.mem| <= FRAMES;
    AllocateSpends(k, tabs, free, total);
    hide TableTree, Spent, OneUpdate, Grown, Lacking, MapPage, AllocatePage, Target, PageOf;
    var (k0, pa) := AllocatePage(k);
    PageAligned(va);
    MapPageIsOneUpdate(k0, root, tabs, free[1..], total, va / PAGE_SIZE * PAGE_SIZE, pa);
  }

  lemma FaultKeepsInv(k: Kernel, root: Top, o: Owners, total: Word, va: Word, code: Word)
    requires Inv(k, root, o, total) && Possible(k, root, o, Fault(va, code)) && Repairs(k, va, code)
    ensures var o' := Track(k, o, Fault(va, code));
            Inv(HandleFault(k, root, va), root, o', total) && o'.All() == o.All()
  {
    var p, f := PageOf(va), o.free[0];
    var o' := Track(k, o, Fault(va, code));
    assert f in Elements(o.free) && f < |k.mem| && o.All() !! o.direct;
    WalkIsLookup(k.mem, root, o.tabs, p);
    assert Resolves(k.mem, o, p);
    HandleFaultIsOneUpdate(k, root, o.tabs, o.free, total, va);
    FaultKeepsPartition(o, p, o');
    assert o'.tabs.Values <= o'.All() && f in o.All();
    hide TableTree, Stock, Partitioned, Resolved, HandleFault;
    UpdateKeepsResolved(k.mem, HandleFault(k, root, va).mem, root, o, o', p, f);
  }

  // ---------- the other events ----------

  /** A write into a data frame or a held frame. */
  lemma PutWordKeepsInv(k: Kernel, root: Top, o: Owners, total: Word, f: nat, i: Index, w: Word)
    requires Inv(k, root, o, total) && f in o.data.Values + o.held
    ensures Inv(PutWord(k, f, i, w), root, o, total)
  {
    var k' := PutWord(k, f, i, w);
    assert f !in o.tabs.Values && f !in Elements(o.free) && f !in o.direct;
    assert o.tabs[Root] in o.tabs.Values;
    TableTreeKept(k.mem, k'.mem, root, o.tabs, {f});
    StockKept(k, o.free, total, f, i, w);
    DirectKept(k.mem, k'.mem, root, o.direct, {f});
    assert forall p: Page | p.i4 != root.slot :: Resolves(k.mem, o, p) ==> Resolves(k'.mem, o, p);
  }

  /** Resolution does not depend on who holds the other frames. */
  lemma ResolvedForHolders(mem: Memory, root: Top, o: Owners, o': Owners)
    requires Resolved(mem, root, o)
    requires o'.tabs == o.tabs && o'.data == o.data && o'.image == o.image && o'.direct == o.direct
    requires forall f <- o'.held :: 0 < f < |mem|
    ensures Resolved(mem, root, o')
  {
    forall p: Page | p.i4 != root.slot ensures Resolves(mem, o', p) {
      assert Resolves(mem, o, p);
    }
  }

  lemma TakeFrameKeepsInv(k: Kernel, root: Top, o: Owners, total: Word)
    requires Inv(k, root, o, total) && o.free != []
    ensures var o' := Track(k, o, TakeFrame);
            Inv(AllocatePage(k).0, root, o', total) && o'.All() == o.All()
  {
    var f, rest := o.free[0], o.free[1..];
    var o' := Track(k, o, TakeFrame);
    AllocateSpends(k, o.tabs, o.free, total);
    assert o.free == [f] + rest;
    assert Elements(o.free) == {f} + Elements(rest);
    hide TableTree, Stock, AllocatePage;
    ResolvedForHolders(k.mem, root, o, o');
  }

  lemma GiveFrameKeepsPartition(o: Owners, o': Owners, f: nat)
    requires Partitioned(o) && f in o.held
    requires o' == o.(free := [f] + o.free, held := o.held - {f})
    ensures Partitioned(o') && o'.All() == o.All()
  {
    assert Elements(o'.free) == {f} + Elements(o.free);
  }

  lemma GiveFrameKeepsInv(k: Kernel, root: Top, o: Owners, total: Word, pa: Word)
    requires Inv(k, root, o, total) && pa % PAGE_SIZE == 0 && pa / PAGE_SIZE in o.held
    ensures var o' := Track(k, o, GiveFrame(pa));
            Inv(FreePage(k, pa), root, o', total) && o'.All() == o.All()
  {
    var f := pa / PAGE_SIZE;
    var o' := Track(k, o, GiveFrame(pa));
    assert f !in Elements(o.free) && pa / 8 % 512 == 0 && f * PAGE_SIZE == pa;
    PutWordKeepsInv(k, root, o, total, f, 0, k.nextFree);
    FreeListPush(k.mem, k.nextFree, o.free, f);
    AccountsGive(k, o.free, total, pa);
    GiveFrameKeepsPartition(o, o', f);
    hide TableTree, Accounts, FreeList, Partitioned;
    ResolvedForHolders(FreePage(k, pa).mem, root, o, o');
  }

  /** Every event keeps the partition and loses no frame. */
  lemma StepKeepsInv(k: Kernel, root: Top, o: Owners, total: Word, e: Event)
    requires Inv(k, root, o, total) && Possible(k, root, o, e) && Step(k, root, e).Running?
    ensures Inv(Step(k, root, e).k, root, Track(k, o, e), total)
    ensures Track(k, o, e).All() == o.All()
  {
    match e
    case Fault(va, code) => FaultKeepsInv(k, root, o, total, va, code);
    case Region(_) =>
    case TakeFrame => TakeFrameKeepsInv(k, root, o, total);
    case GiveFrame(pa) => GiveFrameKeepsInv(k, root, o, total, pa);
    case Touch(va, w) =>
      WalkOfData(k, root, o, total, PageOf(va));
      PutWordKeepsInv(k, root, o, total, o.data[PageOf(va)], va / 8 % 512, w);
    case Scribble(pa, w) => PutWordKeepsInv(k, root, o, total, pa / PAGE_SIZE, pa / 8 % 512, w);
  }

  // ---------- what a program sees ----------

  /** Memory as the running programs see it: a break, and the contents of each page touched so
      far.  It knows nothing of frames, tables or the free list. */
  datatype Abstract = Abstract(brk: Word, pages: map<Page, Frame>) | Stopped

  function Pages(mem: Memory, data: map<Page, nat>): map<Page, Frame> {
    map p | p in data && data[p] < |mem| :: mem[data[p]]
  }

  function View(k: Kernel, o: Owners): Abstract {
    Abstract(k.brk, Pages(k.mem, o.data))
  }

  function AbstractStep(a: Abstract, e: Event): Abstract {
    if a.Stopped? then a else
    match e
    case Fault(va, code) =>
      if !Present(code) && va != 0 && va <= a.brk then a.(pages := a.pages[PageOf(va) := ZeroFrame()]) else Stopped
    case Region(n) => a.(brk := Wrap(a.brk + n * PAGE_SIZE))
    case Touch(va, w) =>
      var p := PageOf(va);
      if p in a.pages then a.(pages := a.pages[p := a.pages[p][va / 8 % 512 := w]]) else Stopped
    case _ => a
  }

  /** Writes outside every data frame change no page's contents. */
  lemma PagesKept(mem: Memory, mem': Memory, data: map<Page, nat>, changed: set<nat>)
    requires SameOutside(mem, mem', changed) && changed !! data.Values
    ensures Pages(mem', data) == Pages(mem, data)
  {
    forall p | p in data && data[p] < |mem| ensures mem'[data[p]] == mem[data[p]] {
      assert data[p] in data.Values;
    }
  }

  lemma PagesWithNew(mem: Memory, data: map<Page, nat>, p: Page, f: nat)
    requires p !in data && f < |mem|
    ensures Pages(mem, data[p := f]) == Pages(mem, data)[p := mem[f]]
  {
  }

  lemma FaultFrames(o: Owners, p: Page, f: nat, o': Owners)
    requires Partitioned(o) && Partitioned(o') && f in o.free
    requires o'.data == o.data[p := f] && o'.data.Values == o.data.Values + {f}
    ensures o.data.Values !! o'.tabs.Values + {f}
  {
  }

  /** A repaired fault clears its new frame and writes no data frame. */
  lemma FaultWrites(k: Kernel, root: Top, o: Owners, total: Word, va: Word, code: Word)
    requires Inv(k, root, o, total) && Possible(k, root, o, Fault(va, code)) && Repairs(k, va, code)
    ensures var k', o', f := HandleFault(k, root, va), Track(k, o, Fault(va, code)), o.free[0];
            && f < |k.mem| && PageOf(va) !in o.data && k'.brk == k.brk
            && SameOutside(k.mem, k'.mem, o'.tabs.Values + {f}) && o.data.Values !! o'.tabs.Values + {f}
            && k'.mem[f] == ZeroFrame() && o'.data == o.data[PageOf(va) := f]
  {
    var p, f := PageOf(va), o.free[0];
    assert f in Elements(o.free) && f < |k.mem|;
    WalkIsLookup(k.mem, root, o.tabs, p);
    assert Resolves(k.mem, o, p);
    HandleFaultIsOneUpdate(k, root, o.tabs, o.free, total, va);
    FaultKeepsInv(k, root, o, total, va, code);
    ValuesAfterMapping(o.data, p, f);
    hide TableTree, Stock, Resolved, HandleFault;
    FaultFrames(o, p, f, Track(k, o, Fault(va, code)));
  }

  lemma FaultRefines(k: Kernel, root: Top, o: Owners, total: Word, va: Word, code: Word)
    requires Inv(k, root, o, total) && Possible(k, root, o, Fault(va, code)) && Repairs(k, va, code)
    ensures View(HandleFault(k, root, va), Track(k, o, Fault(va, code))) == AbstractStep(View(k, o), Fault(va, code))
  {
    var k', o', f := HandleFault(k, root, va), Track(k, o, Fault(va, code)), o.free[0];
    FaultWrites(k, root, o, total, va, code);
    PagesKept(k.mem, k'.mem, o.data, o'.tabs.Values + {f});
    PagesWithNew(k'.mem, o.data, PageOf(va), f);
    hide Inv, Possible, HandleFault, Track, PageOf, Pages;
  }

  lemma PagesWithWord(mem: Memory, data: map<Page, nat>, p: Page, i: Index, w: Word)
    requires p in data && data[p] < |mem|
    requires forall q, r | q in data && r in data && data[q] == data[r] :: q == r
    ensures Pages(Store(mem, data[p], i, w), data) == Pages(mem, data)[p := Pages(mem, data)[p][i := w]]
  {
  }

  lemma WalkOfData(k: Kernel, root: Top, o: Owners, total: Word, p: Page)
    requires Inv(k, root, o, total) && p in o.data
    ensures Walk(k.mem, root, p) == Some(o.data[p]) && o.data[p] < |k.mem| && o.data[p] in o.data.Values
    ensures forall q, r | q in o.data && r in o.data && o.data[q] == o.data[r] :: q == r
  {
    WalkIsLookup(k.mem, root, o.tabs, p);
    assert Resolves(k.mem, o, p);
  }

  lemma PageShown(mem: Memory, data: map<Page, nat>, p: Page)
    requires p in data && data[p] < |mem|
    ensures p in Pages(mem, data)
  {
  }

  lemma TouchWrites(k: Kernel, root: Top, o: Owners, total: Word, va: Word, w: Word)
    requires Inv(k, root, o, total) && PageOf(va) in o.data
    ensures Step(k, root, Touch(va, w)) == Running(PutWord(k, o.data[PageOf(va)], va / 8 % 512, w))
  {
    WalkOfData(k, root, o, total, PageOf(va));
  }

  lemma TouchRefines(k: Kernel, root: Top, o: Owners, total: Word, va: Word, w: Word)
    requires Inv(k, root, o, total) && PageOf(va) in o.data
    ensures View(PutWord(k, o.data[PageOf(va)], va / 8 % 512, w), o) == AbstractStep(View(k, o), Touch(va, w))
  {
    hide Inv, PageOf, Walk, Store;
    WalkOfData(k, root, o, total, PageOf(va));
    PagesWithWord(k.mem, o.data, PageOf(va), va / 8 % 512, w);
    PageShown(k.mem, o.data, PageOf(va));
    hide Pages;
  }

  /** A program that looks only at its own pages cannot tell the machine from `AbstractStep`. */
  lemma StepRefines(k: Kernel, root: Top, o: Owners, total: Word, e: Event)
    requires Inv(k, root, o, total) && Possible(k, root, o, e)
    ensures match Step(k, root, e)
            case Running(k') => View(k', Track(k, o, e)) == AbstractStep(View(k, o), e)
            case Halted => AbstractStep(View(k, o), e) == Stopped
  {
    match e
    case Fault(va, code) => if Repairs(k, va, code) { FaultRefines(k, root, o, total, va, code); }
    case Region(_) =>
    case TakeFrame =>
    case GiveFrame(pa) =>
      PagesKept(k.mem, FreePage(k, pa).mem, o.data, {pa / PAGE_SIZE});
    case Touch(va, w) =>
      TouchWrites(k, root, o, total, va, w);
      TouchRefines(k, root, o, total, va, w);
    case Scribble(pa, w) =>
      PagesKept(k.mem, PutWord(k, pa / PAGE_SIZE, pa / 8 % 512, w).mem, o.data, {pa / PAGE_SIZE});
  }

  // ---------- whole runs ----------

  function Run(m: Machine, root: Top, es: seq<Event>): Machine
    decreases |es|
  {
    if m.Halted? || es == [] then m else Run(Step(m.k, root, es[0]), root, es[1..])
  }

  predicate PossibleRun(m: Machine, root: Top, o: Owners, es: seq<Event>)
    decreases |es|
  {
    m.Halted? || es == [] ||
    (Possible(m.k, root, o, es[0]) && PossibleRun(Step(m.k, root, es[0]), root, Track(m.k, o, es[0]), es[1..]))
  }

  function OwnersAfter(m: Machine, root: Top, o: Owners, es: seq<Event>): Owners
    decreases |es|
  {
    if m.Halted? || es == [] then o else OwnersAfter(Step(m.k, root, es[0]), root, Track(m.k, o, es[0]), es[1..])
  }

  function AbstractRun(a: Abstract, es: seq<Event>): Abstract
    decreases |es|
  {
    if es == [] then a else AbstractRun(AbstractStep(a, es[0]), es[1..])
  }

  lemma {:induction false} StoppedStays(es: seq<Event>)
    ensures AbstractRun(Stopped, es) == Stopped
  {
    if es != [] { StoppedStays(es[1..]); }
  }

  /** Over every possible run the invariant holds, no frame is lost, and the programs see exactly
      the abstract memory. */
  lemma {:induction false} RunRefines(k: Kernel, root: Top, o: Owners, total: Word, es: seq<Event>)
    requires Inv(k, root, o, total) && PossibleRun(Running(k), root, o, es)
    ensures var o' := OwnersAfter(Running(k), root, o, es);
            match Run(Running(k), root, es)
            case Running(k') => Inv(k', root, o', total) && o'.All() == o.All() && View(k', o') == AbstractRun(View(k, o), es)
            case Halted => AbstractRun(View(k, o), es) == Stopped
    decreases |es|
  {
    if es != [] {
      StepRefines(k, root, o, total, es[0]);
      hide Inv, Possible, Step, Track, View, AbstractStep;
      match Step(k, root, es[0])
      case Halted => StoppedStays(es[1..]);
      case Running(k') =>
        StepKeepsInv(k, root, o, total, es[0]);
        RunRefines(k', root, Track(k, o, es[0]), total, es[1..]);
    }
  }

  /** What the invariant means to the processor: a demand-mapped page has a frame of its own, and
      no page outside the direct map leads to a page table or to a free frame. */
  lemma NoAliasing(k: Kernel, root: Top, o: Owners, total: Word, p: Page, q: Page)
    requires Inv(k, root, o, total) && p.i4 != root.slot && q.i4 != root.slot
    ensures match Walk(k.mem, root, p)
            case None => p !in o.data
            case Some(f) => f !in o.tabs.Values && f !in o.free
    ensures p in o.data && q != p && Walk(k.mem, root, p).Some? ==> Walk(k.mem, root, q) != Walk(k.mem, root, p)
  {
    WalkIsLookup(k.mem, root, o.tabs, p);
    WalkIsLookup(k.mem, root, o.tabs, q);
    assert Resolves(k.mem, o, p) && Resolves(k.mem, o, q);
    assert p in o.data ==> o.data[p] in o.data.Values;
    assert forall f | f in o.free :: f in Elements(o.free);
  }
}
