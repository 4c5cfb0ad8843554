/** The 64-bit kernel's heap: it grows by whole pages from `vmm_alloc_region`, and its hint is the
    lowest free block. */
module GrowingHeap {
  import opened BlockList

  const HEADER: nat := 32  // two pointers, a flag padded to a word, and a size
  const ALIGN: nat := 8
  const PAGE: nat := 4096

  /** The blocks in address order, the hint, and the break of the address space. */
  datatype Heap = Heap(blocks: seq<Block>, nextFree: nat, brk: nat)

  function RoundUp(size: nat): nat { (size + ALIGN - 1) / ALIGN * ALIGN }

  function Pages(n: nat): nat { (n + PAGE - 1) / PAGE }

  /** `expand_heap`: whole pages for `n` bytes, but nothing extra for the header. */
  function NewBlock(brk: nat, n: nat): Block
    requires n > 0
  {
    Block(brk, Pages(n) * PAGE - HEADER, false)
  }

  /** `init_heap` */
  function Init(brk: nat): Heap { Heap([NewBlock(brk, 1)], brk, brk + PAGE) }

  /** Whether a block grown for `n` bytes holds `n` bytes. */
  predicate GrowsEnough(n: nat) { n > 0 && Pages(n) * PAGE - HEADER >= n }

  /** The block list and break with one more block for `n` bytes. */
  function Grown(hp: Heap, n: nat): Heap
    requires n > 0
  {
    Heap(hp.blocks + [NewBlock(hp.brk, n)], hp.nextFree, hp.brk + Pages(n) * PAGE)
  }

  function SearchFrom(hp: Heap, n: nat): (j: nat)
    ensures j <= |hp.blocks|
  {
    FirstFit(hp.blocks, Find(hp.blocks, hp.nextFree), n)
  }

  /** The heap in which `kmalloc` finds its block: the present one, or the one grown once. */
  predicate Found(hp: Heap, n: nat) { SearchFrom(hp, n) < |hp.blocks| || GrowsEnough(n) }

  function Ready(hp: Heap, n: nat): Heap
    requires Found(hp, n)
  {
    if SearchFrom(hp, n) < |hp.blocks| then hp else Grown(hp, n)
  }

  /** The hint after block `j` has been taken: unchanged, or the next free block, which is grown if
      there is none. */
  function MoveHint(hp: Heap, j: nat): Heap
    requires j < |hp.blocks|
  {
    if hp.nextFree != hp.blocks[j].addr then hp
    else
      var m := FirstFree(hp.blocks, j);
      if m < |hp.blocks| then hp.(nextFree := hp.blocks[m].addr) else Grown(hp, 1).(nextFree := hp.brk)
  }

  /** `kmalloc` of a rounded size, where its loop ends. */
  function Take(hp: Heap, n: nat): (Heap, nat)
    requires Found(hp, n)
  {
    var j, hp1 := SearchFrom(hp, n), Ready(hp, n);
    CarveAt(HEADER, ALIGN, hp1.blocks, j, n);
    (MoveHint(hp1.(blocks := Carve(HEADER, ALIGN, hp1.blocks, j, n)), j), Payload(HEADER, hp1.blocks[j]))
  }

  /** `kmalloc` */
  function Malloc(hp: Heap, size: nat): (Heap, nat)
    requires Found(hp, RoundUp(size))
  {
    Take(hp, RoundUp(size))
  }

  /** `kfree` of the payload of block `j` */
  function Free(hp: Heap, j: nat): Heap
    requires j < |hp.blocks|
  {
    var at := hp.blocks[ReleasedAt(hp.blocks, j)].addr;
    hp.(blocks := Release(HEADER, hp.blocks, j), nextFree := if hp.nextFree > at then at else hp.nextFree)
  }

  // ---------- the invariant ----------

  predicate Aligned(bs: seq<Block>) { forall i | 0 <= i < |bs| :: bs[i].size % ALIGN == 0 }

  /** Block `i` is free, and every block before it is in use. */
  predicate LowestFree(bs: seq<Block>, i: int) {
    0 <= i < |bs| && !bs[i].used && forall k | 0 <= k < i :: bs[k].used
  }

  /** With the heap as the only user of address space: the blocks tile everything up to the break,
      their sizes are multiples of 8, and the hint is the lowest free block. */
  ghost predicate Inv(hp: Heap, start: nat) {
    && start > 0 && start % ALIGN == 0
    && Tiles(HEADER, hp.blocks, start, hp.brk)
    && Aligned(hp.blocks)
    && exists i :: LowestFree(hp.blocks, i) && hp.blocks[i].addr == hp.nextFree
  }

  lemma PagesCover(n: nat)
    requires n > 0
    ensures Pages(n) >= 1 && n <= Pages(n) * PAGE < n + PAGE && (Pages(n) * PAGE - HEADER) % ALIGN == 0
  {
  }

  /** In closed form: the size modulo a page must leave room for a header. */
  lemma GrowsEnoughExactly(n: nat)
    requires n > 0
    ensures GrowsEnough(n) <==> 1 <= n % PAGE <= PAGE - HEADER
  {
    var q, r := n / PAGE, n % PAGE;
    assert n == q * PAGE + r;
    assert Pages(n) == if r == 0 then q else q + 1;
  }

  lemma RoundUpIsNext(size: nat)
    ensures RoundUp(size) % ALIGN == 0 && size <= RoundUp(size) < size + ALIGN
  {
  }

  lemma InitInv(brk: nat)
    requires brk > 0 && brk % ALIGN == 0
    ensures Inv(Init(brk), brk) && UsedBlocks(Init(brk).blocks) == {}
  {
    assert Pages(1) == 1;
    assert LowestFree(Init(brk).blocks, 0);
  }

  lemma GrownTiles(hp: Heap, start: nat, n: nat)
    requires Tiles(HEADER, hp.blocks, start, hp.brk) && Aligned(hp.blocks) && n > 0
    ensures Tiles(HEADER, Grown(hp, n).blocks, start, Grown(hp, n).brk) && Aligned(Grown(hp, n).blocks)
    ensures UsedBlocks(Grown(hp, n).blocks) == UsedBlocks(hp.blocks)
  {
    PagesCover(n);
    UsedOfConcat(hp.blocks, [NewBlock(hp.brk, n)]);
    assert UsedBlocks([NewBlock(hp.brk, n)]) == {};
  }

  lemma HintIndex(hp: Heap, start: nat, i: nat)
    requires Inv(hp, start) && LowestFree(hp.blocks, i)
    ensures hp.blocks[i].addr == hp.nextFree && Find(hp.blocks, hp.nextFree) == i
  {
    var k :| LowestFree(hp.blocks, k) && hp.blocks[k].addr == hp.nextFree;
    assert i == k;
    FindFinds(HEADER, hp.blocks, start, hp.brk, i);
  }

  // ---------- kmalloc ----------

  lemma CarveKeepsAligned(bs: seq<Block>, j: nat, n: nat)
    requires Aligned(bs) && j < |bs| && n % ALIGN == 0 && n <= bs[j].size
    ensures Aligned(Carve(HEADER, ALIGN, bs, j, n))
  {
    var cs := Carve(HEADER, ALIGN, bs, j, n);
    CarveAt(HEADER, ALIGN, bs, j, n);
    hide Carve;
    forall i | 0 <= i < |cs| ensures cs[i].size % ALIGN == 0 {
      if i > j && i - (|cs| - |bs|) > j { assert cs[i] == bs[i - (|cs| - |bs|)]; }
    }
  }

  /** The search from the hint sees every free block. */
  lemma SearchSeesAll(hp: Heap, start: nat, n: nat)
    requires Inv(hp, start)
    ensures var j := SearchFrom(hp, n);
            && (forall k | 0 <= k < j :: !Fits(hp.blocks[k], n))
            && (j < |hp.blocks| <==> exists b :: b in hp.blocks && Fits(b, n))
  {
    var i :| LowestFree(hp.blocks, i) && hp.blocks[i].addr == hp.nextFree;
    HintIndex(hp, start, i);
    var j := SearchFrom(hp, n);
    if j < |hp.blocks| { assert hp.blocks[j] in hp.blocks; }
  }

  /** The block that `kmalloc` chooses: the lowest free block that fits, or else a new one at the
      old break. */
  lemma TakeIsFirstFit(hp: Heap, start: nat, n: nat)
    requires Inv(hp, start) && Found(hp, n)
    ensures var p := Take(hp, n).1;
            if exists b :: b in hp.blocks && Fits(b, n) then
              && (exists b :: b in hp.blocks && Fits(b, n) && Payload(HEADER, b) == p)
              && (forall b | b in hp.blocks && Fits(b, n) :: p <= Payload(HEADER, b))
            else p == hp.brk + HEADER
  {
    SearchSeesAll(hp, start, n);
    var j := SearchFrom(hp, n);
    if j < |hp.blocks| {
      forall b | b in hp.blocks && Fits(b, n) ensures hp.blocks[j].addr <= b.addr {
        var k :| 0 <= k < |hp.blocks| && hp.blocks[k] == b;
        if j < k { TilesOrder(HEADER, hp.blocks, start, hp.brk, j, k); }
      }
    }
  }

  /** The heap in which the block is found still tiles, and the found block fits. */
  lemma ReadyFits(hp: Heap, start: nat, n: nat)
    requires Inv(hp, start) && Found(hp, n)
    ensures var hp1, j := Ready(hp, n), SearchFrom(hp, n);
            && j < |hp1.blocks| && Fits(hp1.blocks[j], n)
            && Tiles(HEADER, hp1.blocks, start, hp1.brk) && Aligned(hp1.blocks)
            && UsedBlocks(hp1.blocks) == UsedBlocks(hp.blocks)
            && hp1.nextFree == hp.nextFree && start > 0 && start % ALIGN == 0
            && exists i :: LowestFree(hp1.blocks, i) && i <= j && hp1.blocks[i].addr == hp1.nextFree
  {
    var i :| LowestFree(hp.blocks, i) && hp.blocks[i].addr == hp.nextFree;
    HintIndex(hp, start, i);
    if SearchFrom(hp, n) == |hp.blocks| {
      GrownTiles(hp, start, n);
      PagesCover(n);
    }
    assert LowestFree(Ready(hp, n).blocks, i);
  }

  /** Moving the hint keeps it on the lowest free block. */
  lemma MoveHintKeepsInv(hp: Heap, start: nat, j: nat, i: int)
    requires start > 0 && start % ALIGN == 0
    requires Tiles(HEADER, hp.blocks, start, hp.brk) && Aligned(hp.blocks)
    requires j < |hp.blocks| && hp.blocks[j].used
    requires 0 <= i <= j && hp.blocks[i].addr == hp.nextFree && (i < j ==> !hp.blocks[i].used)
    requires forall k | 0 <= k < i :: hp.blocks[k].used
    ensures Inv(MoveHint(hp, j), start) && UsedBlocks(MoveHint(hp, j).blocks) == UsedBlocks(hp.blocks)
  {
    if hp.nextFree != hp.blocks[j].addr {
      assert LowestFree(hp.blocks, i);
    } else {
      TilesDistinct(HEADER, hp.blocks, start, hp.brk, i, j);
      var m := FirstFree(hp.blocks, j);
      if m < |hp.blocks| {
        assert LowestFree(hp.blocks, m);
      } else {
        GrownTiles(hp, start, 1);
        assert LowestFree(Grown(hp, 1).blocks, m);
      }
    }
  }

  /** `kmalloc` keeps the invariant, marks at least `n` bytes of its block used, and leaves every
      other allocation as it was. */
  lemma TakeKeepsInv(hp: Heap, start: nat, n: nat)
    requires Inv(hp, start) && Found(hp, n) && n % ALIGN == 0
    ensures Inv(Take(hp, n).0, start)
    ensures var (hp', p) := Take(hp, n);
            exists b :: && b in UsedBlocks(hp'.blocks) && b.size >= n && Payload(HEADER, b) == p
                        && UsedBlocks(hp'.blocks) == UsedBlocks(hp.blocks) + {b}
                        && forall c <- UsedBlocks(hp.blocks) :: c.addr != b.addr
  {
    hide Inv, Tiles, Aligned, UsedBlocks, Carve, MoveHint, Ready, SearchFrom;
    ReadyFits(hp, start, n);
    var hp1, j := Ready(hp, n), SearchFrom(hp, n);
    var cs := Carve(HEADER, ALIGN, hp1.blocks, j, n);
    CarveAt(HEADER, ALIGN, hp1.blocks, j, n);
    CarveTiles(HEADER, ALIGN, hp1.blocks, start, hp1.brk, j, n);
    CarveKeepsAligned(hp1.blocks, j, n);
    CarveUses(HEADER, ALIGN, hp1.blocks, start, hp1.brk, j, n);
    var i :| LowestFree(hp1.blocks, i) && i <= j && hp1.blocks[i].addr == hp1.nextFree;
    MoveHintKeepsInv(hp1.(blocks := cs), start, j, i);
  }

  /** `kmalloc` */
  lemma MallocKeepsInv(hp: Heap, start: nat, size: nat)
    requires Inv(hp, start) && Found(hp, RoundUp(size))
    ensures Inv(Malloc(hp, size).0, start)
    ensures var (hp', p) := Malloc(hp, size);
            exists b :: && b in UsedBlocks(hp'.blocks) && b.size >= size && Payload(HEADER, b) == p
                        && UsedBlocks(hp'.blocks) == UsedBlocks(hp.blocks) + {b}
                        && forall c <- UsedBlocks(hp.blocks) :: c.addr != b.addr
  {
    RoundUpIsNext(size);
    hide Inv, Found, RoundUp, Take;
    TakeKeepsInv(hp, start, RoundUp(size));
  }

  predicate AnyFree(bs: set<Block>) { exists b <- bs :: !b.used }

  /** The block that serves a request for `n` bytes: the lowest free one that fits, or a new one at the break,
      of as many whole pages as `n` bytes take. */
  ghost predicate Serves(hp: Heap, n: nat, f: Block) {
    if exists b :: b in hp.blocks && Fits(b, n) then
      f in hp.blocks && Fits(f, n) && forall b | b in hp.blocks && Fits(b, n) :: f.addr <= b.addr
    else
      && f.addr == hp.brk && !f.used && f.size >= n
      && (f.size + HEADER) % PAGE == 0 && f.size + HEADER < n + PAGE
  }

  /** What is in the heap once `f` has served it, before the hint moves. */
  function Served(hp: Heap, n: nat, f: Block): set<Block> {
    Blocks(hp.blocks) - {f} + (if f.size > n + HEADER + ALIGN
                               then {Block(f.addr, n, true), Block(f.addr + HEADER + n, f.size - n - HEADER, false)}
                               else {Block(f.addr, f.size, true)})
  }

  /** All that an allocation does.  The request is rounded up to a multiple of 8.  The block that serves it is
      split if it has more than a header and 8 bytes left, and used whole otherwise; no other block changes.
      The break moves only for a new block, and by one more page if nothing would be free. */
  lemma MallocExactly(hp: Heap, start: nat, size: nat) returns (n: nat, f: Block)
    requires Inv(hp, start) && Found(hp, RoundUp(size))
    ensures n % 8 == 0 && size <= n < size + 8 && Serves(hp, n, f)
    ensures var (hp', p) := Malloc(hp, size);
            var top := if f in hp.blocks then hp.brk else hp.brk + HEADER + f.size;
            && p == f.addr + HEADER
            && if AnyFree(Served(hp, n, f)) then Blocks(hp'.blocks) == Served(hp, n, f) && hp'.brk == top
               else Blocks(hp'.blocks) == Served(hp, n, f) + {Block(top, PAGE - HEADER, false)} && hp'.brk == top + PAGE
  {
    n := RoundUp(size);
    RoundUpIsNext(size);
    f := ServingBlock(hp, start, n);
    hide Inv, Found, Serves, Served, Carve, MoveHint, Blocks;
    var hp1, j := Ready(hp, n), SearchFrom(hp, n);
    ReadyFits(hp, start, n);
    CarveExactly(HEADER, ALIGN, hp1.blocks, start, hp1.brk, j, n);
    CarveTiles(HEADER, ALIGN, hp1.blocks, start, hp1.brk, j, n);
    CarveAt(HEADER, ALIGN, hp1.blocks, j, n);
    ServedIsCarved(hp, start, n, f);
    var i :| LowestFree(hp1.blocks, i) && i <= j && hp1.blocks[i].addr == hp1.nextFree;
    MoveHintExactly(hp1.(blocks := Carve(HEADER, ALIGN, hp1.blocks, j, n)), start, j, i);
  }

  lemma ServingBlock(hp: Heap, start: nat, n: nat) returns (f: Block)
    requires Inv(hp, start) && Found(hp, n)
    ensures SearchFrom(hp, n) < |Ready(hp, n).blocks| && f == Ready(hp, n).blocks[SearchFrom(hp, n)] && Serves(hp, n, f)
    ensures f in hp.blocks <==> SearchFrom(hp, n) < |hp.blocks|
    ensures Ready(hp, n).brk == if f in hp.blocks then hp.brk else hp.brk + HEADER + f.size
  {
    ReadyFits(hp, start, n);
    TakeIsFirstFit(hp, start, n);
    SearchSeesAll(hp, start, n);
    f := Ready(hp, n).blocks[SearchFrom(hp, n)];
    if SearchFrom(hp, n) == |hp.blocks| {
      PagesCover(n);
      BreakIsNoBlock(hp, start, f);
    } else {
      LowestFitting(hp, start, n);
    }
  }

  lemma LowestFitting(hp: Heap, start: nat, n: nat)
    requires Inv(hp, start) && SearchFrom(hp, n) < |hp.blocks|
    ensures forall b | b in hp.blocks && Fits(b, n) :: hp.blocks[SearchFrom(hp, n)].addr <= b.addr
  {
    SearchSeesAll(hp, start, n);
    var j := SearchFrom(hp, n);
    forall b | b in hp.blocks && Fits(b, n) ensures hp.blocks[j].addr <= b.addr {
      var k :| 0 <= k < |hp.blocks| && hp.blocks[k] == b;
      if j < k { TilesOrder(HEADER, hp.blocks, start, hp.brk, j, k); }
    }
  }

  lemma BreakIsNoBlock(hp: Heap, start: nat, f: Block)
    requires Inv(hp, start) && f.addr == hp.brk
    ensures f !in hp.blocks
  {
    if f in hp.blocks {
      var i :| 0 <= i < |hp.blocks| && hp.blocks[i] == f;
      TilesBounds(HEADER, hp.blocks, start, hp.brk, i);
    }
  }

  lemma ServedIsCarved(hp: Heap, start: nat, n: nat, f: Block)
    requires Inv(hp, start) && Found(hp, n) && SearchFrom(hp, n) < |Ready(hp, n).blocks|
    requires f == Ready(hp, n).blocks[SearchFrom(hp, n)]
    ensures Served(hp, n, f) == Blocks(Ready(hp, n).blocks) - {f} + Parts(HEADER, ALIGN, f, n)
  {
    if SearchFrom(hp, n) == |hp.blocks| { BlocksOfParts(hp.blocks, [f], []); }
  }

  /** Moving the hint from a used block grows the heap exactly if nothing is free. */
  lemma MoveHintExactly(hp: Heap, start: nat, j: nat, i: int)
    requires Tiles(HEADER, hp.blocks, start, hp.brk) && j < |hp.blocks| && hp.blocks[j].used
    requires 0 <= i <= j && hp.blocks[i].addr == hp.nextFree && (i < j ==> !hp.blocks[i].used)
    requires forall k | 0 <= k < i :: hp.blocks[k].used
    ensures if AnyFree(Blocks(hp.blocks)) then MoveHint(hp, j).blocks == hp.blocks && MoveHint(hp, j).brk == hp.brk
            else Blocks(MoveHint(hp, j).blocks) == Blocks(hp.blocks) + {Block(hp.brk, PAGE - HEADER, false)}
                 && MoveHint(hp, j).brk == hp.brk + PAGE
  {
    var bs := hp.blocks;
    if hp.nextFree != bs[j].addr {
      assert bs[i] in Blocks(bs);
    } else {
      TilesDistinct(HEADER, bs, start, hp.brk, i, j);
      var m := FirstFree(bs, j);
      if m < |bs| {
        assert bs[m] in Blocks(bs);
      } else {
        assert Pages(1) == 1 && NewBlock(hp.brk, 1) == Block(hp.brk, PAGE - HEADER, false);
        BlocksOfParts(bs, [NewBlock(hp.brk, 1)], []);
        assert bs + [NewBlock(hp.brk, 1)] + [] == bs + [NewBlock(hp.brk, 1)] && bs + [] == bs;
      }
    }
  }

  // ---------- when its loop ends ----------

  /** The heap after the loop has appended `k` blocks without finding one that fits. */
  function Appended(hp: Heap, n: nat, k: nat): Heap
    requires n > 0
  {
    if k == 0 then hp else Grown(Appended(hp, n, k - 1), n)
  }

  /** The loop ends: after finitely many appended blocks it meets one that fits. */
  ghost predicate LoopEnds(hp: Heap, n: nat)
    requires n > 0
  {
    exists k: nat :: exists b :: b in Appended(hp, n, k).blocks && Fits(b, n)
  }

  lemma {:induction false} AppendedFits(hp: Heap, n: nat, k: nat, b: Block)
    requires n > 0 && b in Appended(hp, n, k).blocks && Fits(b, n)
    ensures GrowsEnough(n) || b in hp.blocks
  {
    if k > 0 {
      var before := Appended(hp, n, k - 1);
      if b in before.blocks { AppendedFits(hp, n, k - 1, b); }
    }
  }

  /** `kmalloc` returns exactly when a free block fits already or the rounded size leaves room for a
      header in its last page; otherwise it appends blocks that are all too small for ever. */
  lemma MallocEndsExactly(hp: Heap, start: nat, n: nat)
    requires Inv(hp, start) && n > 0
    ensures LoopEnds(hp, n) <==> Found(hp, n)
    ensures Found(hp, n) <==> (exists b :: b in hp.blocks && Fits(b, n)) || 1 <= n % PAGE <= PAGE - HEADER
  {
    SearchSeesAll(hp, start, n);
    GrowsEnoughExactly(n);
    if exists b :: b in hp.blocks && Fits(b, n) {
      assert Appended(hp, n, 0) == hp;
    } else if GrowsEnough(n) {
      var grown := NewBlock(hp.brk, n);
      assert Appended(hp, n, 1).blocks == hp.blocks + [grown] by { assert Appended(hp, n, 0) == hp; }
      assert grown in Appended(hp, n, 1).blocks && Fits(grown, n);
    } else if LoopEnds(hp, n) {
      var k: nat, b :| b in Appended(hp, n, k).blocks && Fits(b, n);
      AppendedFits(hp, n, k, b);
    }
  }

  /** A request for nothing is always met by the block at the hint. */
  lemma EmptyRequestEnds(hp: Heap, start: nat)
    requires Inv(hp, start)
    ensures Found(hp, 0)
  {
    SearchSeesAll(hp, start, 0);
    var i :| LowestFree(hp.blocks, i) && hp.blocks[i].addr == hp.nextFree;
    assert hp.blocks[i] in hp.blocks;
  }

  /** The first request of a whole page, or of a page less up to 31 bytes, never returns. */
  lemma PageRequestDiverges(brk: nat, size: nat)
    requires brk > 0 && brk % ALIGN == 0 && PAGE - HEADER < size <= PAGE
    ensures !LoopEnds(Init(brk), RoundUp(size))
  {
    InitInv(brk);
    assert Pages(1) == 1;
    assert RoundUp(size) == PAGE - 24 || RoundUp(size) == PAGE - 16 || RoundUp(size) == PAGE - 8 || RoundUp(size) == PAGE;
    MallocEndsExactly(Init(brk), brk, RoundUp(size));
  }

  // ---------- kfree ----------

  lemma AlignedSum(a: nat, b: nat)
    requires a % ALIGN == 0 && b % ALIGN == 0
    ensures (a + (b + HEADER)) % ALIGN == 0
  {
    var x, y := a / 8, b / 8;
    assert a == 8 * x && b == 8 * y;
    EightTimes(x + y + 4);
  }

  lemma EightTimes(m: nat)
    ensures 8 * m % 8 == 0
  {
  }

  lemma MergedAligned(bs: seq<Block>, j: nat)
    requires Aligned(bs) && j < |bs|
    ensures Merged(HEADER, bs, j).size % ALIGN == 0
  {
    var back := if j > 0 && !bs[j - 1].used then bs[j].size + (bs[j - 1].size + HEADER) else bs[j].size;
    if j > 0 { AlignedSum(bs[j].size, bs[j - 1].size); }
    if j + 1 < |bs| { AlignedSum(back, bs[j + 1].size); }
    assert MergedSize(HEADER, bs, j) == back + (if j + 1 < |bs| && !bs[j + 1].used then bs[j + 1].size + HEADER else 0);
  }

  lemma ReleaseKeepsAligned(bs: seq<Block>, j: nat)
    requires Aligned(bs) && j < |bs|
    ensures Aligned(Release(HEADER, bs, j))
  {
    hide Release, Merged, ReleasedAt, AfterReleased;
    ReleaseIsSplice(HEADER, bs, j);
    MergedAligned(bs, j);
    var cs, i, k := Release(HEADER, bs, j), ReleasedAt(bs, j), AfterReleased(bs, j);
    forall m | 0 <= m < |cs| ensures cs[m].size % ALIGN == 0 {
      if m > i { assert cs[m] == bs[m - i - 1 + k]; }
    }
  }

  /** The part of the list up to the freed block. */
  lemma ReleaseFront(bs: seq<Block>, j: nat)
    requires j < |bs|
    ensures var cs, i := Release(HEADER, bs, j), ReleasedAt(bs, j);
            i < |cs| && cs[i].addr == bs[i].addr && !cs[i].used && forall k | 0 <= k < i :: cs[k] == bs[k]
  {
    ReleaseIsSplice(HEADER, bs, j);
  }

  /** The hint stays the lowest free block. */
  lemma HintAfterFree(hp: Heap, start: nat, j: nat)
    requires Inv(hp, start) && j < |hp.blocks| && hp.blocks[j].used
    ensures var hp' := Free(hp, j);
            exists m :: LowestFree(hp'.blocks, m) && hp'.blocks[m].addr == hp'.nextFree
  {
    hide Release, Aligned;
    var bs := hp.blocks;
    var n :| LowestFree(bs, n) && bs[n].addr == hp.nextFree;
    ReleaseFront(bs, j);
    var hp', i := Free(hp, j), ReleasedAt(bs, j);
    if n <= i {
      if n < i { TilesOrder(HEADER, bs, start, hp.brk, n, i); }
      assert LowestFree(hp'.blocks, n) && hp'.blocks[n].addr == hp'.nextFree;
    } else {
      TilesOrder(HEADER, bs, start, hp.brk, i, n);
      assert LowestFree(hp'.blocks, i) && hp'.blocks[i].addr == hp'.nextFree;
    }
  }

  /** `kfree` of an allocated block keeps the invariant and leaves every other allocation alone. */
  lemma FreeKeepsInv(hp: Heap, start: nat, j: nat)
    requires Inv(hp, start) && j < |hp.blocks| && hp.blocks[j].used
    ensures Inv(Free(hp, j), start)
    ensures UsedBlocks(Free(hp, j).blocks) == UsedBlocks(hp.blocks) - {hp.blocks[j]}
  {
    hide Release, LowestFree, Aligned, UsedBlocks, Tiles;
    ReleaseTiles(HEADER, hp.blocks, start, hp.brk, j);
    ReleaseKeepsAligned(hp.blocks, j);
    ReleaseUses(HEADER, hp.blocks, start, hp.brk, j);
    HintAfterFree(hp, start, j);
  }

  /** All that a release does: the block and its free neighbours become one free block, and nothing else
      changes. */
  lemma FreeExactly(hp: Heap, start: nat, j: nat) returns (m: Block)
    requires Inv(hp, start) && j < |hp.blocks| && hp.blocks[j].used
    ensures var joined := Joining(HEADER, hp.blocks, hp.blocks[j]);
            Blocks(Free(hp, j).blocks) == Blocks(hp.blocks) - joined + {m} && Spans(HEADER, m, joined)
    ensures Free(hp, j).brk == hp.brk
  {
    hide Release, Merged, Joining, Blocks, Spans;
    ReleaseExactly(HEADER, hp.blocks, start, hp.brk, j);
    m := Merged(HEADER, hp.blocks, j);
  }

  // ---------- what clients rely on ----------

  /** Live payloads are aligned, lie below the break, and do not overlap. */
  lemma PayloadsAreSound(hp: Heap, start: nat, b: Block, c: Block)
    requires Inv(hp, start) && b in UsedBlocks(hp.blocks) && c in UsedBlocks(hp.blocks)
    ensures Payload(HEADER, b) % ALIGN == 0 && start < Payload(HEADER, b) && End(HEADER, b) <= hp.brk
    ensures b != c ==> !Overlap(Payload(HEADER, b), End(HEADER, b), Payload(HEADER, c), End(HEADER, c))
  {
    var i, j :| 0 <= i < |hp.blocks| && hp.blocks[i] == b && 0 <= j < |hp.blocks| && hp.blocks[j] == c;
    PayloadsApart(HEADER, hp.blocks, start, hp.brk, i, j);
    TilesBounds(HEADER, hp.blocks, start, hp.brk, i);
    AddressesAligned(hp.blocks, start, hp.brk, i);
  }

  lemma {:induction false} AddressesAligned(bs: seq<Block>, start: nat, hi: nat, i: nat)
    requires Tiles(HEADER, bs, start, hi) && Aligned(bs) && start % ALIGN == 0 && i < |bs|
    ensures bs[i].addr % ALIGN == 0
  {
    if i > 0 {
      AddressesAligned(bs, start, hi, i - 1);
      assert bs[i - 1 + 1].addr == End(HEADER, bs[i - 1]);
    }
  }

  // ---------- runs ----------

  datatype Event = Alloc(size: nat) | Give(payload: nat)

  /** Requests that `kmalloc` meets, and releases of payloads in use. */
  predicate Possible(hp: Heap, e: Event) {
    match e
    case Alloc(size) => Found(hp, RoundUp(size))
    case Give(p) => exists b :: b in UsedBlocks(hp.blocks) && Payload(HEADER, b) == p
  }

  function Step(hp: Heap, e: Event): Heap
    requires Possible(hp, e)
  {
    match e
    case Alloc(size) => Malloc(hp, size).0
    case Give(p) =>
      var j := if p < HEADER then |hp.blocks| else Find(hp.blocks, p - HEADER);
      if j == |hp.blocks| then hp else Free(hp, j)
  }

  lemma GiveIsFree(hp: Heap, start: nat, p: nat, j: nat)
    requires Inv(hp, start) && j < |hp.blocks| && Payload(HEADER, hp.blocks[j]) == p && Possible(hp, Give(p))
    ensures Step(hp, Give(p)) == Free(hp, j)
  {
    hide Free, Malloc, Find, Possible;
    FindFinds(HEADER, hp.blocks, start, hp.brk, j);
  }

  lemma StepKeepsInv(hp: Heap, start: nat, e: Event)
    requires Inv(hp, start) && Possible(hp, e)
    ensures Inv(Step(hp, e), start)
  {
    hide Inv, Free, Malloc, Find, Found;
    match e
    case Alloc(size) => MallocKeepsInv(hp, start, size);
    case Give(p) =>
      var b :| b in UsedBlocks(hp.blocks) && Payload(HEADER, b) == p;
      var j :| 0 <= j < |hp.blocks| && hp.blocks[j] == b;
      GiveIsFree(hp, start, p, j);
      FreeKeepsInv(hp, start, j);
  }

  predicate PossibleRun(hp: Heap, es: seq<Event>)
    decreases |es|
  {
    es == [] || (Possible(hp, es[0]) && PossibleRun(Step(hp, es[0]), es[1..]))
  }

  function Run(hp: Heap, es: seq<Event>): Heap
    requires PossibleRun(hp, es)
    decreases |es|
  {
    if es == [] then hp else Run(Step(hp, es[0]), es[1..])
  }

  /** Every reachable state satisfies the invariant. */
  lemma {:induction false} RunKeepsInv(hp: Heap, start: nat, es: seq<Event>)
    requires Inv(hp, start) && PossibleRun(hp, es)
    ensures Inv(Run(hp, es), start)
    decreases |es|
  {
    if es != [] {
      hide Inv, Step, Possible;
      StepKeepsInv(hp, start, es[0]);
      RunKeepsInv(Step(hp, es[0]), start, es[1..]);
    }
  }

  // ---------- another user of address space ----------

  predicate Inside(h: nat, b: Block, x: nat) { b.addr <= x < End(h, b) }

  /** The blocks that a release of block `j` joins follow one another without gaps. */
  predicate Adjacent(h: nat, bs: seq<Block>, j: nat)
    requires j < |bs|
  {
    forall q | ReleasedAt(bs, j) <= q < AfterReleased(bs, j) - 1 :: bs[q + 1].addr == End(h, bs[q])
  }

  predicate InsideOne(h: nat, bs: seq<Block>, x: nat) { exists q :: 0 <= q < |bs| && Inside(h, bs[q], x) }

  /** Coalescing looks at list links, not addresses.  With blocks in address order, perhaps with gaps, the
      block that a release leaves stays within the ones it came from exactly when these are adjacent. */
  lemma ReleaseStaysInsideExactly(h: nat, bs: seq<Block>, j: nat)
    requires h > 0 && j < |bs| && forall q | 0 <= q < |bs| - 1 :: End(h, bs[q]) <= bs[q + 1].addr
    ensures var i, k, cs := ReleasedAt(bs, j), AfterReleased(bs, j), Release(h, bs, j);
            && |cs| == |bs| - (k - i) + 1 && cs[..i] == bs[..i] && cs[i + 1..] == bs[k..]
            && ((forall x: nat | Inside(h, cs[i], x) :: InsideOne(h, bs[i..k], x)) <==> Adjacent(h, bs, j))
  {
    hide Release;
    ReleaseIsSplice(h, bs, j);
    var i, k, m := ReleasedAt(bs, j), AfterReleased(bs, j), Merged(h, bs, j);
    assert Release(h, bs, j)[i] == m;
    if Adjacent(h, bs, j) {
      forall x: nat | Inside(h, m, x) ensures InsideOne(h, bs[i..k], x) {
        var q := if i < j && x < End(h, bs[i]) then i else if x < End(h, bs[j]) then j else k - 1;
        assert Inside(h, bs[i..k][q - i], x);
      }
    } else {
      GapIsCovered(h, bs, j);
    }
  }

  /** The first gap begins inside the merged block. */
  lemma GapIsCovered(h: nat, bs: seq<Block>, j: nat)
    requires h > 0 && j < |bs| && forall q | 0 <= q < |bs| - 1 :: End(h, bs[q]) <= bs[q + 1].addr
    requires !Adjacent(h, bs, j)
    ensures exists x: nat :: Inside(h, Merged(h, bs, j), x) && !InsideOne(h, bs[ReleasedAt(bs, j)..AfterReleased(bs, j)], x)
  {
    var i := ReleasedAt(bs, j);
    var g := if i < j && bs[j].addr != End(h, bs[i]) then i else j;
    var x := End(h, bs[g]);
    assert Inside(h, Merged(h, bs, j), x);
    if g == i < j {
      assert End(h, bs[i]) < bs[j].addr;
      assert j + 1 < |bs| ==> bs[j].addr < End(h, bs[j]) <= bs[j + 1].addr;
    } else {
      assert bs[j].addr < x < bs[j + 1].addr && (i < j ==> End(h, bs[i]) <= bs[j].addr);
    }
    forall q | 0 <= q < AfterReleased(bs, j) - i ensures !Inside(h, bs[i..AfterReleased(bs, j)][q], x) {
      assert q + i == j - 1 || q + i == j || q + i == j + 1;
    }
  }

  /** A page handed to someone else between two growths, and then a release: the merged block covers
      that page. */
  lemma ForeignPageSwallowed(start: nat)
    requires start > 0
    ensures var bs := [Block(start, PAGE - HEADER, true), Block(start + 2 * PAGE, PAGE - HEADER, false)];
            var hp := Free(Heap(bs, start + 2 * PAGE, start + 3 * PAGE), 0);
            |hp.blocks| == 1 && forall x | start + PAGE <= x < start + 2 * PAGE :: Inside(HEADER, hp.blocks[0], x)
  {
    ReleaseIsSplice(HEADER, [Block(start, PAGE - HEADER, true), Block(start + 2 * PAGE, PAGE - HEADER, false)], 0);
  }
}
