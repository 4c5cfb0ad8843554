/** Building the free list from the boot memory map (`pmm_init`), and the state the memory code
    starts from.
  */
module PmmInit {
  import opened Basics
  import opened PageTables
  import opened BootSpec
  import opened Vmm
  import opened VmmRuns

  /** The allocator with its two further counters. */
  datatype Pmm = Pmm(k: Kernel, memorySize: Word, reserved: Word)

  /** The inner loop over one free entry, from offset `j` on.  Page 0 is never given out. */
  function GiveRange(k: Kernel, e: MmapEntry, j: nat): Kernel
    decreases e.size - j
  {
    if j >= e.size then k
    else
      var pa := Wrap(e.address + j);
      GiveRange(if pa != 0 then FreePage(k, pa) else k, e, j + PAGE_SIZE)
  }

  function AddEntry(p: Pmm, e: MmapEntry): Pmm {
    var size := Wrap(p.memorySize + e.size);
    if e.kind == MMAP_FREE then
      Pmm(GiveRange(p.k.(usedMemory := Wrap(p.k.usedMemory + e.size)), e, 0), size, p.reserved)
    else if e.kind == MMAP_LOADER then
      Pmm(p.k.(usedMemory := Wrap(p.k.usedMemory + e.size)), size, p.reserved)
    else
      Pmm(p.k, size, Wrap(p.reserved + e.size))
  }

  function AddEntries(p: Pmm, mmap: seq<MmapEntry>): Pmm
  {
    if mmap == [] then p else AddEntry(AddEntries(p, mmap[..|mmap| - 1]), mmap[|mmap| - 1])
  }

  function Init(mem: Memory, brk: Word, mmap: seq<MmapEntry>): Pmm {
    AddEntries(Pmm(Kernel(mem, 0, 0, 0, brk), 0, 0), mmap)
  }

  // ---------- which frames end up on the list ----------

  /** Frame `f` lies in a free entry and is not frame 0. */
  predicate Usable(mmap: seq<MmapEntry>, f: nat) {
    f != 0 && exists i :: 0 <= i < |mmap| && mmap[i].kind == MMAP_FREE && Covers(mmap[i], f * PAGE_SIZE)
  }

  predicate PageGranular(e: MmapEntry, frames: nat) {
    && e.address % PAGE_SIZE == 0 && e.size % PAGE_SIZE == 0
    && e.address + e.size <= frames * PAGE_SIZE
  }

  /** Some byte lies in both. */
  predicate Overlap(e: MmapEntry, d: MmapEntry) {
    e.size > 0 && d.size > 0 && e.address < d.address + d.size && d.address < e.address + e.size
  }

  /** A map of whole pages of existing memory, whose free entries are disjoint. */
  predicate Usual(mmap: seq<MmapEntry>, frames: nat) {
    && frames <= FRAMES
    && (forall i | 0 <= i < |mmap| && mmap[i].kind == MMAP_FREE :: PageGranular(mmap[i], frames))
    && (forall i, j | 0 <= i < j < |mmap| && mmap[i].kind == mmap[j].kind == MMAP_FREE :: !Overlap(mmap[i], mmap[j]))
  }

  /** The frames of `e` that a range still to be given starts with at offset `j`. */
  predicate Ahead(e: MmapEntry, j: nat, f: nat) {
    e.address + j <= f * PAGE_SIZE < e.address + e.size
  }

  predicate Aligned(n: nat) { n % PAGE_SIZE == 0 }

  function FrameOf(pa: nat): nat { pa / PAGE_SIZE }

  /** One turn of the loop deals with one frame. */
  lemma NextFrame(e: MmapEntry, j: nat, frames: nat)
    requires PageGranular(e, frames) && frames <= FRAMES && Aligned(j) && j < e.size
    ensures var pa := e.address + j;
            && pa < WORDS && Aligned(pa) && FrameOf(pa) < frames && Wrap(pa) == pa && Aligned(j + PAGE_SIZE)
            && (pa != 0 ==> FrameOf(pa) != 0)
            && !Ahead(e, j + PAGE_SIZE, FrameOf(pa))
            && forall g :: Ahead(e, j, g) <==> g == FrameOf(pa) || Ahead(e, j + PAGE_SIZE, g)
    ensures e.address + j == 0 ==> FrameOf(e.address + j) == 0
  {
  }

  lemma PushPage(k: Kernel, pa: Word, free: seq<nat>, total: Word)
    requires Stock(k, free, total) && Aligned(pa) && 0 < pa && FrameOf(pa) < |k.mem| && FrameOf(pa) !in free
    ensures Stock(FreePage(k, pa), [FrameOf(pa)] + free, total)
    ensures SameOutside(k.mem, FreePage(k, pa).mem, {FrameOf(pa)}) && FreePage(k, pa).brk == k.brk
  {
    assert pa / PAGE_SIZE * PAGE_SIZE == pa && pa / 8 % 512 == 0;
    FreeListPush(k.mem, k.nextFree, free, pa / PAGE_SIZE);
    AccountsGive(k, free, total, pa);
  }

  /** One turn of the loop, on the kernel's state. */
  function GivePage(k: Kernel, pa: nat): Kernel { if Wrap(pa) != 0 then FreePage(k, Wrap(pa)) else k }

  /** Page 0 is passed over, and any other page goes on the list. */
  function GivenFrame(pa: nat): seq<nat> { if pa == 0 then [] else [FrameOf(pa)] }

  lemma GivePageStocks(k: Kernel, e: MmapEntry, j: nat, free: seq<nat>, total: Word)
    requires PageGranular(e, |k.mem|) && |k.mem| <= FRAMES && Aligned(j) && j < e.size
    requires Stock(k, free, total) && forall f <- free :: !Ahead(e, j, f)
    ensures var k', pa := GivePage(k, e.address + j), e.address + j;
            && Stock(k', GivenFrame(pa) + free, total) && k'.brk == k.brk
            && SameOutside(k.mem, k'.mem, Elements(GivenFrame(pa) + free))
  {
    hide PageGranular, Stock, FreePage, Ahead, Aligned, FrameOf, Wrap;
    NextFrame(e, j, |k.mem|);
    var pa := e.address + j;
    if pa == 0 {
      assert [] + free == free;
    } else {
      PushPage(k, pa, free, total);
    }
  }

  /** Giving the rest of an entry pushes exactly its frames, apart from frame 0. */
  lemma {:induction false} GiveRangePushes(k: Kernel, e: MmapEntry, j: nat, free: seq<nat>, total: Word) returns (free': seq<nat>)
    requires PageGranular(e, |k.mem|) && |k.mem| <= FRAMES && Aligned(j)
    requires Stock(k, free, total) && forall f <- free :: !Ahead(e, j, f)
    ensures var k' := GiveRange(k, e, j);
            && Stock(k', free', total) && k'.brk == k.brk
            && SameOutside(k.mem, k'.mem, Elements(free'))
    ensures forall f :: f in free' <==> f in free || (f > 0 && Ahead(e, j, f))
    decreases e.size - j
  {
    hide PageGranular, Stock, FreePage, GivePage, GivenFrame, Ahead, Aligned, FrameOf, Wrap, SameOutside;
    if j >= e.size {
      free' := free;
      NothingAhead(e, j);
      SameAlways(k.mem, Elements(free'));
    } else {
      var pa := e.address + j;
      var next, given := GivePage(k, pa), GivenFrame(pa) + free;
      NextFrame(e, j, |k.mem|);
      GivePageStocks(k, e, j, free, total);
      GivenIs(e, j, |k.mem|, free);
      SameSize(k.mem, next.mem, Elements(given));
      GiveRangeUnfolds(k, e, j);
      free' := GiveRangePushes(next, e, j + PAGE_SIZE, given, total);
      SameThrough(k.mem, next.mem, GiveRange(k, e, j).mem, Elements(given), Elements(free'));
    }
  }

  lemma GiveRangeUnfolds(k: Kernel, e: MmapEntry, j: nat)
    requires j < e.size
    ensures GiveRange(k, e, j) == GiveRange(GivePage(k, e.address + j), e, j + PAGE_SIZE)
  {
  }

  /** The frames on the list and those ahead, before and after a turn. */
  lemma GivenIs(e: MmapEntry, j: nat, frames: nat, free: seq<nat>)
    requires PageGranular(e, frames) && frames <= FRAMES && Aligned(j) && j < e.size
    requires forall f <- free :: !Ahead(e, j, f)
    ensures var given, next := GivenFrame(e.address + j) + free, j + PAGE_SIZE;
            && (forall f <- given :: !Ahead(e, next, f))
            && forall f :: f in given || (f > 0 && Ahead(e, next, f)) <==> f in free || (f > 0 && Ahead(e, j, f))
  {
    NextFrame(e, j, frames);
    hide PageGranular, Ahead, Aligned, FrameOf, Wrap;
  }

  lemma NothingAhead(e: MmapEntry, j: nat)
    requires j >= e.size
    ensures forall f :: !Ahead(e, j, f)
  {
  }

  lemma SameAlways(mem: Memory, fs: set<nat>)
    ensures SameOutside(mem, mem, fs)
  {
  }

  lemma SameSize(mem: Memory, mem': Memory, fs: set<nat>)
    requires SameOutside(mem, mem', fs)
    ensures |mem'| == |mem|
  {
  }

  lemma SameThrough(a: Memory, b: Memory, c: Memory, fs: set<nat>, gs: set<nat>)
    requires SameOutside(a, b, fs) && SameOutside(b, c, gs) && fs <= gs
    ensures SameOutside(a, c, gs)
  {
  }

  lemma UsableSplit(mmap: seq<MmapEntry>, f: nat)
    requires mmap != []
    ensures var e := mmap[|mmap| - 1];
            Usable(mmap, f) <==> Usable(mmap[..|mmap| - 1], f) || (e.kind == MMAP_FREE && f > 0 && Ahead(e, 0, f))
  {
    var before, e := mmap[..|mmap| - 1], mmap[|mmap| - 1];
    if Usable(before, f) {
      var i :| 0 <= i < |before| && before[i].kind == MMAP_FREE && Covers(before[i], f * PAGE_SIZE);
      assert mmap[i] == before[i];
    }
    if Usable(mmap, f) {
      var i :| 0 <= i < |mmap| && mmap[i].kind == MMAP_FREE && Covers(mmap[i], f * PAGE_SIZE);
      assert i < |before| ==> before[i] == mmap[i];
    }
  }

  lemma FreshRange(mmap: seq<MmapEntry>, frames: nat, f: nat)
    requires Usual(mmap, frames) && mmap != [] && mmap[|mmap| - 1].kind == MMAP_FREE
    requires Usable(mmap[..|mmap| - 1], f)
    ensures !Ahead(mmap[|mmap| - 1], 0, f)
  {
    var before := mmap[..|mmap| - 1];
    var i :| 0 <= i < |before| && before[i].kind == MMAP_FREE && Covers(before[i], f * PAGE_SIZE);
    assert !Overlap(mmap[i], mmap[|mmap| - 1]);
  }

  /** The list is `free`, and what is free, used and reserved adds up to the size of memory. */
  ghost predicate Counted(p: Pmm, free: seq<nat>) {
    && Stock(p.k, free, Wrap(p.k.freeMemory + p.k.usedMemory))
    && p.memorySize == Wrap(p.k.freeMemory + p.k.usedMemory + p.reserved)
  }

  /** Counting an entry as used, or as reserved. */
  lemma CountedAdd(p: Pmm, free: seq<nat>, size: Word)
    requires Counted(p, free)
    ensures Counted(Pmm(p.k.(usedMemory := Wrap(p.k.usedMemory + size)), Wrap(p.memorySize + size), p.reserved), free)
    ensures Counted(Pmm(p.k, Wrap(p.memorySize + size), Wrap(p.reserved + size)), free)
  {
    hide Wrap, FreeList;
    WrapAdd(p.k.freeMemory + p.k.usedMemory + p.reserved, size);
    WrapAdd(p.k.usedMemory + size, p.k.freeMemory + p.reserved);
    WrapAdd(p.reserved + size, p.k.freeMemory + p.k.usedMemory);
  }

  /** Moving frames between used and free leaves the sum. */
  lemma CountedMove(p: Pmm, free: seq<nat>, k': Kernel, free': seq<nat>)
    requires Counted(p, free) && Stock(k', free', Wrap(p.k.freeMemory + p.k.usedMemory))
    ensures Counted(p.(k := k'), free')
  {
    WrapAdd(k'.freeMemory + k'.usedMemory, p.reserved);
    WrapAdd(p.k.freeMemory + p.k.usedMemory, p.reserved);
  }

  lemma ZeroAligned()
    ensures Aligned(0)
  {
  }

  /** One entry of the outer loop. */
  lemma AddEntryStocks(p: Pmm, e: MmapEntry, before: seq<nat>) returns (free: seq<nat>)
    requires Counted(p, before) && |p.k.mem| <= FRAMES
    requires e.kind == MMAP_FREE ==> PageGranular(e, |p.k.mem|) && forall f <- before :: !Ahead(e, 0, f)
    ensures Counted(AddEntry(p, e), free)
    ensures AddEntry(p, e).k.brk == p.k.brk && SameOutside(p.k.mem, AddEntry(p, e).k.mem, Elements(free))
    ensures forall f :: f in free <==> f in before || (e.kind == MMAP_FREE && f > 0 && Ahead(e, 0, f))
  {
    hide PageGranular, Ahead, GiveRange, Stock, Wrap, Aligned;
    ZeroAligned();
    CountedAdd(p, before, e.size);
    if e.kind == MMAP_FREE {
      var k := p.k.(usedMemory := Wrap(p.k.usedMemory + e.size));
      var q := Pmm(k, Wrap(p.memorySize + e.size), p.reserved);
      free := GiveRangePushes(k, e, 0, before, Wrap(k.freeMemory + k.usedMemory));
      CountedMove(q, before, GiveRange(k, e, 0), free);
    } else {
      free := before;
    }
  }

  /** After `pmm_init` the free list holds each usable frame once, only those frames have been
      written, and the four counters add up. */
  lemma {:induction false} InitStocksUsable(mem: Memory, brk: Word, mmap: seq<MmapEntry>) returns (free: seq<nat>)
    requires Usual(mmap, |mem|)
    ensures var p := Init(mem, brk, mmap);
            Counted(p, free) && p.k.brk == brk && SameOutside(mem, p.k.mem, Elements(free))
    ensures forall f :: f in free <==> Usable(mmap, f)
  {
    if mmap == [] {
      free := [];
    } else {
      var n := |mmap| - 1;
      var e := mmap[n];
      assert Usual(mmap[..n], |mem|);
      var before := InitStocksUsable(mem, brk, mmap[..n]);
      var p := Init(mem, brk, mmap[..n]);
      forall f ensures Usable(mmap, f) <==> Usable(mmap[..n], f) || (e.kind == MMAP_FREE && f > 0 && Ahead(e, 0, f)) {
        UsableSplit(mmap, f);
      }
      forall f | e.kind == MMAP_FREE && f in before ensures !Ahead(e, 0, f) { FreshRange(mmap, |mem|, f); }
      hide Usable, Ahead, Counted, PageGranular, AddEntry;
      free := AddEntryStocks(p, e, before);
    }
  }

  /** The bytes of the entries that are memory to be used, free or the loader's, or of all others. */
  function Bytes(mmap: seq<MmapEntry>, toUse: bool): nat {
    if mmap == [] then 0
    else
      var e := mmap[|mmap| - 1];
      Bytes(mmap[..|mmap| - 1], toUse) + if (e.kind == MMAP_FREE || e.kind == MMAP_LOADER) == toUse then e.size else 0
  }

  lemma {:induction false} InitSums(mem: Memory, brk: Word, mmap: seq<MmapEntry>)
    ensures var p := Init(mem, brk, mmap);
            p.memorySize == Wrap(Bytes(mmap, true) + Bytes(mmap, false)) && p.reserved == Wrap(Bytes(mmap, false))
  {
    if mmap != [] {
      var n := |mmap| - 1;
      InitSums(mem, brk, mmap[..n]);
      hide GiveRange, Wrap;
      WrapAdd(Bytes(mmap[..n], true) + Bytes(mmap[..n], false), mmap[n].size);
      WrapAdd(Bytes(mmap[..n], false), mmap[n].size);
    }
  }

  /** What the counters say after `pmm_init`: memory is what all entries have together, reserved what
      those have that are neither free nor the loader's, free the usable frames, and used the rest. */
  lemma InitCounts(mem: Memory, brk: Word, mmap: seq<MmapEntry>, free: seq<nat>)
    requires Counted(Init(mem, brk, mmap), free)
    ensures var p, u, r := Init(mem, brk, mmap), Bytes(mmap, true), Bytes(mmap, false);
            && p.memorySize == (u + r) % WORDS && p.reserved == r % WORDS
            && p.k.freeMemory == |free| * 4096 % WORDS && p.k.usedMemory == (u - |free| * 4096) % WORDS
  {
    hide Init, Bytes;
    InitSums(mem, brk, mmap);
    var p := Init(mem, brk, mmap);
    RestIsUsed(Bytes(mmap, true), Bytes(mmap, false), |free| * 4096, p.k.freeMemory, p.k.usedMemory, p.reserved);
  }

  lemma RestIsUsed(u: nat, r: nat, f: nat, free: Word, used: Word, reserved: Word)
    requires free == Wrap(f) && reserved == Wrap(r) && Wrap(free + used + reserved) == Wrap(u + r)
    ensures used == (u - f) % WORDS
  {
    var a, b, c, d := f / WORDS, r / WORDS, (u + r) / WORDS, (free + used + reserved) / WORDS;
    assert u - f == used + (c - a - b - d) * WORDS;
  }

  // ---------- the state after boot ----------

  /** What the loader leaves behind: a tree of tables, the direct map's own tables, and mapped
      pages of the loaded image. */
  ghost predicate Loaded(mem: Memory, root: Top, o: Owners) {
    && TableTree(mem, root, o.tabs)
    && o.free == [] && o.data == map[] && o.held == {}
    && o.tabs.Values !! o.image + o.direct
    && Resolved(mem, root, o)
  }

  /** A memory map whose usable frames are not in use already. */
  predicate Avoids(mmap: seq<MmapEntry>, o: Owners) {
    forall f | f in o.tabs.Values + o.image + o.direct :: !Usable(mmap, f)
  }

  /** `pmm_init` brings the loaded machine into the invariant that every run keeps. */
  lemma BootEstablishesInv(mem: Memory, root: Top, brk: Word, mmap: seq<MmapEntry>, o: Owners) returns (free: seq<nat>)
    requires Usual(mmap, |mem|) && Loaded(mem, root, o) && Avoids(mmap, o)
    ensures var p := Init(mem, brk, mmap);
            && Inv(p.k, root, o.(free := free), Wrap(p.k.freeMemory + p.k.usedMemory))
            && p.memorySize == Wrap(p.k.freeMemory + p.k.usedMemory + p.reserved)
    ensures forall f :: f in free <==> Usable(mmap, f)
  {
    free := InitStocksUsable(mem, brk, mmap);
    var k, o' := Init(mem, brk, mmap).k, o.(free := free);
    assert Elements(free) !! o.tabs.Values + o.image + o.direct;
    assert o.tabs[Root] in o.tabs.Values;
    hide Usable, Stock;
    TableTreeKept(mem, k.mem, root, o.tabs, Elements(free));
    DirectKept(mem, k.mem, root, o.direct, Elements(free));
    forall p: Page | p.i4 != root.slot ensures Resolves(k.mem, o', p) {
      assert Resolves(mem, o, p);
    }
  }
}
