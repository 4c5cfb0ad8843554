/** The kernel's memory code over physical memory in place: `pmm.c` and `vmm.c` as methods that
    write frames, each shown to do what the state machine of `Vmm` says.
  */
module KernelMemory {
  import opened Basics
  import opened PageTables
  import opened BootSpec
  import opened Vmm
  import opened VmmRuns
  import opened PmmInit
  import opened Remap

  class KernelMemory {
    const frames: array<Frame>   // physical memory
    const root: Top              // the frame of the root table, from CR3
    var nextFree: Word
    var freeMemory: Word
    var usedMemory: Word
    var reservedMemory: Word
    var memorySize: Word
    var currBrk: Word

    ghost function State(): Kernel
      reads this, frames
    {
      Kernel(frames[..], nextFree, freeMemory, usedMemory, currBrk)
    }

    constructor (mem: array<Frame>, root: Top)
      ensures frames == mem && this.root == root
    {
      frames, this.root := mem, root;
      nextFree, freeMemory, usedMemory, reservedMemory, memorySize, currBrk := 0, 0, 0, 0, 0, 0;
    }

    method WriteWord(f: nat, i: Index, w: Word)
      requires f < frames.Length
      modifies frames
      ensures frames[..] == Store(old(frames[..]), f, i, w)
    {
      frames[f] := frames[f][i := w];
    }

    /** `memset` of one frame. */
    method ClearFrame(f: nat)
      requires f < frames.Length
      modifies frames
      ensures frames[..] == Zero(old(frames[..]), f)
    {
      frames[f] := ZeroFrame();
    }

    /** `remap_physical_memory` */
    method RemapPhysicalMemory()
      requires root.frame < frames.Length
      modifies frames
      ensures frames[..] == Remapped(old(frames[..]), root.frame)
    {
      var identity := frames[root.frame][0];
      WriteWord(root.frame, DIRECT_MAP, identity);
      WriteWord(root.frame, 0, 0);
    }

    method AllocatePage() returns (pa: Word)
      requires nextFree / PAGE_SIZE < frames.Length
      modifies `nextFree, `freeMemory, `usedMemory
      ensures (State(), pa) == Vmm.AllocatePage(old(State()))
    {
      freeMemory := Wrap(freeMemory - PAGE_SIZE);
      usedMemory := Wrap(usedMemory + PAGE_SIZE);
      pa := nextFree;
      nextFree := frames[nextFree / PAGE_SIZE][nextFree / 8 % 512];
    }

    method FreePage(pa: Word)
      requires pa / PAGE_SIZE < frames.Length
      modifies `nextFree, `freeMemory, `usedMemory, frames
      ensures State() == Vmm.FreePage(old(State()), pa)
    {
      freeMemory := Wrap(freeMemory + PAGE_SIZE);
      usedMemory := Wrap(usedMemory - PAGE_SIZE);
      WriteWord(pa / PAGE_SIZE, pa / 8 % 512, nextFree);
      nextFree := pa;
    }

    /** One of the three table levels of `map_page`. */
    method EnsureTable(f: nat, i: Index) returns (g: nat)
      requires f < frames.Length
      requires Present(frames[f][i]) || nextFree / PAGE_SIZE < frames.Length
      modifies `nextFree, `freeMemory, `usedMemory, frames
      ensures Cursor(State(), g) == Vmm.EnsureTable(Cursor(old(State()), f), i)
    {
      if !Present(frames[f][i]) {
        var pa := AllocatePage();
        ClearFrame(pa / PAGE_SIZE);
        WriteWord(f, i, Entry(pa));
        g := pa / PAGE_SIZE;
      } else {
        g := Target(frames[f][i]);
      }
    }

    /** `map_page` up to the last-level entry. */
    method LinkPage(va: Word, pa: Word)
      requires var p := PageOf(va);
               var c1 := Vmm.EnsureTable(Cursor(State(), root.frame), p.i4);
               var c2 := Vmm.EnsureTable(c1, p.i3);
               InBounds(Cursor(State(), root.frame), p.i4) && InBounds(c1, p.i3) && InBounds(c2, p.i2)
      requires ReachLeaf(State(), root, PageOf(va)).frame < frames.Length
      modifies `nextFree, `freeMemory, `usedMemory, frames
      ensures State() == Vmm.LinkPage(old(State()), root, va, pa)
    {
      var p := PageOf(va);
      var pdpt := EnsureTable(root.frame, p.i4);
      var pdt := EnsureTable(pdpt, p.i3);
      var pt := EnsureTable(pdt, p.i2);
      WriteWord(pt, p.i1, Entry(pa));
    }

    /** `map_page`.  The tables form the tree `tabs`, and the free list `free` lasts for the
        tables that are missing.  The page is cleared at its new virtual address. */
    method MapPage(va: Word, pa: Word, ghost tabs: map<Table, nat>, ghost free: seq<nat>, ghost total: Word)
      requires TableTree(frames[..], root, tabs) && Spent(State(), tabs, free, total)
      requires PageOf(va).i4 != root.slot && |free| >= Lacking(tabs, PageOf(va))
      requires Target(pa) < frames.Length
      modifies `nextFree, `freeMemory, `usedMemory, frames
      ensures State() == Vmm.MapPage(old(State()), root, va, pa)
    {
      var p := PageOf(va);
      MapPageReady(State(), root, tabs, p, free, total);
      LinkPageIsOneUpdate(State(), root, tabs, free, total, va, pa);
      LinkPage(va, pa);
      WalkIsLookup(frames[..], root, Grown(tabs, p, free), p);
      var page := Walk(frames[..], root, p);
      ClearFrame(page.value);
    }

    /** `get_pte`, as a physical address, for a page whose last-level table exists.  The word there
        decides the translation. */
    method GetPte(va: Word, ghost tabs: map<Table, nat>) returns (entry: Word)
      requires TableTree(frames[..], root, tabs) && PageOf(va).i4 != root.slot
      requires Pt(PageOf(va).i4, PageOf(va).i3, PageOf(va).i2) in tabs
      ensures entry == EntryAddress(frames[..], root, PageOf(va))
      ensures Walk(frames[..], root, PageOf(va))
              == if Present(LinkAt(frames[..], entry)) then Some(Target(LinkAt(frames[..], entry))) else None
    {
      var p := PageOf(va);
      LookupAtEntryAddress(frames[..], root, tabs, p);
      WalkIsLookup(frames[..], root, tabs, p);
      WalkInBounds(frames[..], root, tabs, p);
      var pdpt := Target(frames[root.frame][p.i4]);
      var pdt := Target(frames[pdpt][p.i3]);
      var pt := Target(frames[pdt][p.i2]);
      entry := pt * 4096 + p.i1 * 8;
    }

    /** `vmm_alloc_region` */
    method AllocRegion(pages: Word) returns (oldBrk: Word)
      modifies `currBrk
      ensures (State(), oldBrk) == Vmm.AllocRegion(old(State()), pages)
    {
      oldBrk := currBrk;
      currBrk := Wrap(currBrk + pages * PAGE_SIZE);
    }

    /** The repair: a fresh page, mapped at the page the address lies in. */
    method RepairFault(va: Word, errorCode: Word, ghost o: Owners, ghost total: Word)
      requires Inv(State(), root, o, total) && Possible(State(), root, o, Fault(va, errorCode))
      requires Repairs(State(), va, errorCode)
      modifies `nextFree, `freeMemory, `usedMemory, frames
      ensures State() == HandleFault(old(State()), root, va)
    {
      hide Inv, TableTree, Spent, Lacking, PageOf, Vmm.MapPage, Target;
      FaultReady(State(), root, o, total, va, errorCode);
      PageAligned(va);
      var pa := AllocatePage();
      MapPage(va / PAGE_SIZE * PAGE_SIZE, pa, o.tabs, o.free[1..], total);
    }

    /** `page_fault_handler`.  It either repairs the fault, keeping the invariant, or halts. */
    method PageFaultHandler(va: Word, errorCode: Word, ghost o: Owners, ghost total: Word) returns (halted: bool)
      requires Inv(State(), root, o, total) && Possible(State(), root, o, Fault(va, errorCode))
      modifies `nextFree, `freeMemory, `usedMemory, frames
      ensures if halted then Step(old(State()), root, Fault(va, errorCode)) == Halted && State() == old(State())
              else Step(old(State()), root, Fault(va, errorCode)) == Running(State())
      ensures !halted ==> Inv(State(), root, Track(old(State()), o, Fault(va, errorCode)), total)
      ensures halted <==> errorCode % 2 == 1 || va == 0 || va > old(currBrk)
    {
      if !Present(errorCode) && va != 0 && va <= currBrk {
        FaultKeepsInv(State(), root, o, total, va, errorCode);
        hide Inv, Track, HandleFault;
        RepairFault(va, errorCode, o, total);
        return false;
      }
      return true;
    }

    /** `pmm_init` */
    method Init(mmap: seq<MmapEntry>)
      requires Usual(mmap, frames.Length)
      modifies this, frames
      ensures Pmm(State(), memorySize, reservedMemory) == PmmInit.Init(old(frames[..]), old(currBrk), mmap)
    {
      memorySize, usedMemory, reservedMemory, freeMemory, nextFree := 0, 0, 0, 0, 0;
      for i := 0 to |mmap|
        invariant Pmm(State(), memorySize, reservedMemory) == PmmInit.Init(old(frames[..]), old(currBrk), mmap[..i])
      {
        var e := mmap[i];
        ghost var before := Pmm(State(), memorySize, reservedMemory);
        assert mmap[..i + 1][..i] == mmap[..i];
        memorySize := Wrap(memorySize + e.size);
        match e.kind
        case 1 =>
          usedMemory := Wrap(usedMemory + e.size);
          GivePages(e);
        case 4 =>
          usedMemory := Wrap(usedMemory + e.size);
        case _ =>
          reservedMemory := Wrap(reservedMemory + e.size);
        assert Pmm(State(), memorySize, reservedMemory) == AddEntry(before, e);
      }
      assert mmap[..|mmap|] == mmap;
    }

    /** The inner loop of `pmm_init`. */
    method GivePages(e: MmapEntry)
      requires PageGranular(e, frames.Length) && frames.Length <= FRAMES
      modifies `nextFree, `freeMemory, `usedMemory, frames
      ensures State() == GiveRange(old(State()), e, 0)
    {
      var j := 0;
      while j < e.size
        invariant Aligned(j)
        invariant GiveRange(State(), e, j) == GiveRange(old(State()), e, 0)
        decreases e.size - j
      {
        NextFrame(e, j, frames.Length);
        hide PageGranular, Ahead, Aligned, Wrap;
        if Wrap(e.address + j) != 0 {
          FreePage(Wrap(e.address + j));
        }
        j := j + PAGE_SIZE;
      }
    }
  }

  lemma WalkInBounds(mem: Memory, root: Top, tabs: map<Table, nat>, p: Page)
    requires TableTree(mem, root, tabs) && p.i4 != root.slot && Pt(p.i4, p.i3, p.i2) in tabs
    ensures root.frame < |mem| && Target(mem[root.frame][p.i4]) < |mem|
    ensures Target(mem[Target(mem[root.frame][p.i4])][p.i3]) < |mem|
  {
    assert HasParent(tabs, Pt(p.i4, p.i3, p.i2)) && HasParent(tabs, Pdt(p.i4, p.i3));
    assert Linked(mem, tabs, Root, p.i4);
    assert Linked(mem, tabs, Pdpt(p.i4), p.i3);
  }

  /** The invariant gives the handler what `allocate_page` and `map_page` ask for. */
  lemma FaultReady(k: Kernel, root: Top, o: Owners, total: Word, va: Word, code: Word)
    requires Inv(k, root, o, total) && Possible(k, root, o, Fault(va, code)) && Repairs(k, va, code)
    ensures k.nextFree / PAGE_SIZE < |k.mem|
    ensures var (k', pa) := Vmm.AllocatePage(k);
            && TableTree(k'.mem, root, o.tabs) && Spent(k', o.tabs, o.free[1..], total)
            && |o.free[1..]| >= Lacking(o.tabs, PageOf(va)) && Target(pa) < |k'.mem|
  {
    AllocateSpends(k, o.tabs, o.free, total);
    FreeListPop(k.mem, k.nextFree, o.free);
  }

  lemma MapPageReady(k: Kernel, root: Top, tabs: map<Table, nat>, p: Page, free: seq<nat>, total: Word)
    requires TableTree(k.mem, root, tabs) && Spent(k, tabs, free, total)
    requires p.i4 != root.slot && |free| >= Lacking(tabs, p)
    ensures var c1 := Vmm.EnsureTable(Cursor(k, root.frame), p.i4);
            var c2 := Vmm.EnsureTable(c1, p.i3);
            InBounds(Cursor(k, root.frame), p.i4) && InBounds(c1, p.i3) && InBounds(c2, p.i2)
    ensures ReachLeaf(k, root, p).frame < |ReachLeaf(k, root, p).k.mem| == |k.mem|
  {
    FreeIsPool(k, tabs, free, total);
    assert tabs[Root] in tabs.Values;
    ReachLeafInBounds(k, root, tabs, p, free, total);
  }
}
