/** The 64-bit kernel's heap in memory: `init_heap`, `expand_heap`, `kmalloc` and `kfree` on linked
    headers, with the heap as the only user of address space. */
module GrowingHeapCode {
  import opened BlockList
  import opened HeapMemory
  import opened GrowingHeap

  class KernelHeap {
    var mem: Memory            // the headers
    var bytes: map<nat, nat>   // what clients have stored
    var heapStart: nat
    var nextFree: nat
    var brk: nat
    ghost var blocks: seq<Block>

    ghost function View(): Heap
      reads this
    {
      Heap(blocks, nextFree, brk)
    }

    ghost predicate Valid()
      reads this
    {
      Inv(View(), heapStart) && Laid(mem, blocks)
    }

    /** The headers tile the address space up to the break, whatever the hint says. */
    ghost predicate LaidOut()
      reads this
    {
      heapStart > 0 && Laid(mem, blocks) && Tiles(HEADER, blocks, heapStart, brk)
    }

    /** `init_heap`, with `brk` the break it finds. */
    constructor (brk: nat)
      requires brk > 0 && brk % ALIGN == 0
      ensures Valid() && View() == Init(brk) && heapStart == brk && bytes == map[]
    {
      heapStart, nextFree, this.brk := brk, brk, brk + PAGE;
      mem := map[brk := Header(0, 0, false, PAGE - HEADER)];
      bytes := map[];
      blocks := [NewBlock(brk, 1)];
      new;
      InitInv(brk);
      assert Pages(1) == 1;
    }

    lemma Shows(i: nat)
      requires LaidOut() && i < |blocks|
      ensures Distinct(blocks) && blocks[i].addr != 0 && blocks[i].addr in mem
      ensures mem[blocks[i].addr] == HeaderOf(blocks, i)
    {
      TilesAreDistinct(HEADER, blocks, heapStart, brk);
      LinksShow(mem, blocks, i);
      assert LaidAt(mem, blocks, i);
    }

    /** `expand_heap`, and linking the new block behind the last one at `last`. */
    method Append(last: nat, n: nat)
      requires LaidOut() && n > 0 && last == blocks[|blocks| - 1].addr
      modifies `mem, `blocks, `brk
      ensures LaidOut() && blocks == Grown(old(View()), n).blocks && brk == Grown(old(View()), n).brk
      ensures WritesHeaders(old(mem), mem, old(blocks), blocks) && StartsKept(old(blocks), blocks)
    {
      hide Laid, Tiles, WritesHeaders, StartsKept;
      GrownLays(mem, View(), heapStart, n);
      var numPages := (n + PAGE - 1) / PAGE;
      var newBlock := brk;
      brk := brk + numPages * PAGE;
      mem := mem[newBlock := Header(0, 0, false, numPages * PAGE - HEADER)];
      mem := mem[last := mem[last].(next := newBlock)];
      mem := mem[newBlock := mem[newBlock].(prev := last)];
      blocks := blocks + [NewBlock(newBlock, n)];
      assert mem == old(mem)[newBlock := Header(0, last, false, numPages * PAGE - HEADER)][last := old(mem)[last].(next := newBlock)];
    }

    /** `kmalloc`, for a request on which its loop ends and while the address space lasts. */
    method Malloc(size: nat) returns (ptr: nat)
      requires Valid() && Found(View(), RoundUp(size))
      modifies `mem, `blocks, `nextFree, `brk
      ensures Valid() && (View(), ptr) == GrowingHeap.Malloc(old(View()), size)
      ensures WritesHeaders(old(mem), mem, old(blocks), blocks)
    {
      hide Inv, Carve, SearchFrom, Found, Ready, MoveHint, Laid, Tiles, UsedBlocks, Find, WritesHeaders, StartsKept;
      MallocKeepsInv(View(), heapStart, size);
      HintIsBlock();
      var rounded := (size + ALIGN - 1) / ALIGN * ALIGN;
      ghost var k;
      var block;
      block, k := Search(rounded);
      ghost var mem1, cs := mem, blocks;
      Use(block, rounded, k);
      WritesOn(old(mem), mem1, mem, old(blocks), cs, blocks);
      ptr := block + HEADER;
    }

    /** The search loop of `kmalloc`, which grows the heap when it comes to the end. */
    method Search(n: nat) returns (block: nat, ghost k: nat)
      requires LaidOut() && Find(blocks, nextFree) < |blocks| && Found(View(), n)
      modifies `mem, `blocks, `brk
      ensures LaidOut() && View() == Ready(old(View()), n) && k == SearchFrom(old(View()), n)
      ensures k < |blocks| && block == blocks[k].addr
      ensures WritesHeaders(old(mem), mem, old(blocks), blocks) && StartsKept(old(blocks), blocks)
    {
      hide Laid, Tiles, WritesHeaders, StartsKept;
      ghost var hp := View();
      k, block := Find(blocks, nextFree), nextFree;
      Shows(k);
      WritesNothing(mem, blocks);
      while mem[block].used || mem[block].size < n
        invariant LaidOut() && k < |blocks| && block == blocks[k].addr && block in mem && mem[block] == HeaderOf(blocks, k)
        invariant View() == hp || View() == Ready(hp, n)
        invariant WritesHeaders(old(mem), mem, hp.blocks, blocks) && StartsKept(hp.blocks, blocks)
        invariant View() == hp ==> mem == old(mem)
        invariant if View() == hp then SearchFrom(hp, n) == FirstFit(blocks, k, n)
                  else k == SearchFrom(hp, n) == |hp.blocks| && Fits(blocks[k], n)
        decreases if View() == hp then 1 else 0, |blocks| - k
      {
        if mem[block].next == 0 {
          if n > 0 { PagesCover(n); }
          Append(block, n);
          Shows(k);
        }
        block, k := mem[block].next, k + 1;
        Shows(k);
      }
    }

    lemma HintIsBlock()
      requires Valid()
      ensures LaidOut() && Find(blocks, nextFree) < |blocks|
    {
      var i :| LowestFree(blocks, i) && blocks[i].addr == nextFree;
      HintIndex(View(), heapStart, i);
    }

    /** Takes block `k`, splitting it, and moves the hint if it was at this block. */
    method Use(block: nat, size: nat, ghost k: nat)
      requires LaidOut() && k < |blocks| && block == blocks[k].addr
      modifies `mem, `blocks, `nextFree, `brk
      ensures LaidOut()
      ensures var cs := Carve(HEADER, ALIGN, old(blocks), k, size);
              k < |cs| && View() == MoveHint(old(View()).(blocks := cs), k)
      ensures WritesHeaders(old(mem), mem, old(blocks), blocks) && StartsKept(old(blocks), blocks)
    {
      mem := TakeBlock(mem, HEADER, ALIGN, block, size, blocks, heapStart, brk, k);
      CarveTiles(HEADER, ALIGN, blocks, heapStart, brk, k, size);
      CarveAt(HEADER, ALIGN, blocks, k, size);
      CarveKeepsStarts(HEADER, ALIGN, blocks, k, size);
      blocks := Carve(HEADER, ALIGN, blocks, k, size);
      if nextFree == block {
        ghost var mem1, cs := mem, blocks;
        AdvanceHint(k);
        WritesOn(old(mem), mem1, mem, old(blocks), cs, blocks);
      }
    }

    /** From a used block at the hint to the next free one, growing the heap if there is none. */
    method AdvanceHint(ghost k: nat)
      requires LaidOut() && k < |blocks| && nextFree == blocks[k].addr && blocks[k].used
      modifies `mem, `blocks, `nextFree, `brk
      ensures LaidOut() && View() == MoveHint(old(View()), k)
      ensures WritesHeaders(old(mem), mem, old(blocks), blocks) && StartsKept(old(blocks), blocks)
    {
      hide Laid, Tiles, WritesHeaders, StartsKept;
      ghost var m := k;
      Shows(m);
      WritesNothing(mem, blocks);
      while mem[nextFree].next != 0 && mem[nextFree].used
        modifies `nextFree
        invariant k <= m < |blocks| && nextFree == blocks[m].addr
        invariant nextFree in mem && mem[nextFree] == HeaderOf(blocks, m)
        invariant FirstFree(blocks, k) == FirstFree(blocks, m)
        decreases |blocks| - m
      {
        if m + 1 < |blocks| { Shows(m + 1); }
        nextFree, m := mem[nextFree].next, m + 1;
      }
      if mem[nextFree].used {
        ghost var newAddr := brk;
        ghost var n := |blocks|;
        Append(nextFree, 1);
        assert blocks[n].addr == newAddr;
        Shows(n - 1);
        nextFree := mem[nextFree].next;
      }
    }

    /** `kfree` of null or of a live payload, which it clears first. */
    method Free(ptr: nat, ghost j: nat)
      requires Valid()
      requires ptr != 0 ==> j < |blocks| && blocks[j].used && Payload(HEADER, blocks[j]) == ptr
      modifies `mem, `bytes, `blocks, `nextFree
      ensures Valid() && View() == if ptr == 0 then old(View()) else GrowingHeap.Free(old(View()), j)
      ensures if ptr == 0 then mem == old(mem) else WritesHeaders(old(mem), mem, old(blocks), blocks)
      ensures bytes == if ptr == 0 then old(bytes) else Cleared(old(bytes), ptr, old(blocks)[j].size)
    {
      hide Inv, Laid, Tiles, WritesHeaders, Cleared, UsedBlocks, GrowingHeap.Free, Release;
      if ptr == 0 {
        return;
      }
      HintIsBlock();
      Shows(j);
      FreeKeepsInv(View(), heapStart, j);
      ClearBytes(ptr, mem[ptr - HEADER].size);
      GiveBack(ptr - HEADER, j);
    }

    /** Merges the block at `block` with its free neighbours and lowers the hint. */
    method GiveBack(block: nat, ghost j: nat)
      requires LaidOut() && j < |blocks| && blocks[j].addr == block
      modifies `mem, `blocks, `nextFree
      ensures Laid(mem, blocks) && View() == GrowingHeap.Free(old(View()), j)
      ensures WritesHeaders(old(mem), mem, old(blocks), blocks)
    {
      hide Laid, Tiles, WritesHeaders, Release, ReleasedAt;
      var toFree;
      mem, toFree := ReleaseBlock(mem, HEADER, block, blocks, heapStart, brk, j);
      blocks := Release(HEADER, blocks, j);
      if nextFree > toFree {
        nextFree := toFree;
      }
    }

    /** `memset(ptr, 0, size)` */
    method ClearBytes(ptr: nat, size: nat)
      modifies `bytes
      ensures bytes == Cleared(old(bytes), ptr, size)
    {
      for i := 0 to size
        invariant bytes == Cleared(old(bytes), ptr, i)
      {
        bytes := bytes[ptr + i := 0];
      }
    }
  }

  /** Memory with the bytes from `ptr` to `ptr + size` set to zero. */
  function Cleared(bytes: map<nat, nat>, ptr: nat, size: nat): map<nat, nat> {
    if size == 0 then bytes else Cleared(bytes, ptr, size - 1)[ptr + size - 1 := 0]
  }

  lemma {:induction false} ClearedAt(bytes: map<nat, nat>, ptr: nat, size: nat, a: nat)
    ensures var after := Cleared(bytes, ptr, size);
            if ptr <= a < ptr + size then a in after && after[a] == 0
            else (a in after <==> a in bytes) && (a in bytes ==> after[a] == bytes[a])
  {
    if size > 0 { ClearedAt(bytes, ptr, size - 1, a); }
  }

  /** Releasing one allocation alters no byte of another one. */
  lemma FreeLeavesOthers(hp: Heap, start: nat, bytes: map<nat, nat>, j: nat, c: Block, a: nat)
    requires Inv(hp, start) && j < |hp.blocks| && hp.blocks[j].used
    requires c in UsedBlocks(hp.blocks) && c != hp.blocks[j] && Payload(HEADER, c) <= a < End(HEADER, c)
    ensures var after := Cleared(bytes, Payload(HEADER, hp.blocks[j]), hp.blocks[j].size);
            (a in after <==> a in bytes) && (a in bytes ==> after[a] == bytes[a])
    ensures c in UsedBlocks(GrowingHeap.Free(hp, j).blocks)
  {
    FreeKeepsInv(hp, start, j);
    PayloadsAreSound(hp, start, hp.blocks[j], c);
    ClearedAt(bytes, Payload(HEADER, hp.blocks[j]), hp.blocks[j].size, a);
  }

  /** Linking a new block at the break behind the last block. */
  lemma WritesNothing(mem: Memory, bs: seq<Block>)
    ensures WritesHeaders(mem, mem, bs, bs) && StartsKept(bs, bs)
  {
  }

  lemma GrownLays(mem: Memory, hp: Heap, start: nat, n: nat)
    requires start > 0 && Laid(mem, hp.blocks) && Tiles(HEADER, hp.blocks, start, hp.brk) && n > 0
    ensures var last := hp.blocks[|hp.blocks| - 1].addr;
            var size := Pages(n) * PAGE - HEADER;
            && last in mem && last != hp.brk
            && Tiles(HEADER, Grown(hp, n).blocks, start, Grown(hp, n).brk)
            && var mem' := mem[hp.brk := Header(0, last, false, size)][last := mem[last].(next := hp.brk)];
               Laid(mem', Grown(hp, n).blocks) && WritesHeaders(mem, mem', hp.blocks, Grown(hp, n).blocks)
    ensures StartsKept(hp.blocks, Grown(hp, n).blocks)
  {
    PagesCover(n);
    var bs, cs := hp.blocks, Grown(hp, n).blocks;
    var m := |bs| - 1;
    TilesAreDistinct(HEADER, bs, start, hp.brk);
    assert Tiles(HEADER, cs, start, Grown(hp, n).brk);
    TilesAreDistinct(HEADER, cs, start, Grown(hp, n).brk);
    LinksShow(mem, bs, m);
    var last := bs[m].addr;
    var mem' := mem[hp.brk := Header(0, last, false, Pages(n) * PAGE - HEADER)][last := mem[last].(next := hp.brk)];
    forall i | 0 <= i < |cs| ensures LaidAt(mem', cs, i) {
      if i < |bs| { assert LaidAt(mem, bs, i); }
    }
    assert StartsIn(cs, cs[m].addr) && StartsIn(cs, cs[m + 1].addr);
    forall a | StartsIn(bs, a) ensures StartsIn(cs, a) {
      var i :| 0 <= i < |bs| && bs[i].addr == a;
      assert cs[i].addr == a;
    }
  }
}
