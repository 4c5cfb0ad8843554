/** The 32-bit kernel's heap in memory: `init_heap`, `k_malloc` and `k_free` on linked headers. */
module FixedHeapCode {
  import opened BlockList
  import opened HeapMemory
  import opened FixedHeap

  class KernelHeap {
    var mem: Memory
    var startHeap: nat
    var nextFree: nat
    ghost var blocks: seq<Block>
    ghost var regionSize: nat

    ghost function View(): Heap
      reads this
    {
      Heap(blocks, nextFree)
    }

    ghost predicate Valid()
      reads this
    {
      Inv(View(), startHeap, regionSize) && Laid(mem, blocks)
    }

    /** `init_heap` */
    constructor (heapStart: nat, heapSize: nat)
      requires heapStart > 0 && heapSize >= HEADER
      ensures Valid() && View() == Init(heapStart, heapSize) && startHeap == heapStart && regionSize == heapSize
    {
      startHeap, nextFree, regionSize := heapStart, heapStart, heapSize;
      mem := map[heapStart := Header(0, 0, false, heapSize - HEADER)];
      blocks := [Block(heapStart, heapSize - HEADER, false)];
      new;
      InitInv(heapStart, heapSize);
    }

    /** What the code can see of block `i`: its header, linked to its neighbours'. */
    lemma Shows(i: nat)
      requires Valid() && i < |blocks|
      ensures blocks[i].addr != 0 && blocks[i].addr in mem && mem[blocks[i].addr].next == AddrAt(blocks, i + 1)
      ensures mem[blocks[i].addr].used == blocks[i].used && mem[blocks[i].addr].size == blocks[i].size
    {
      TilesAreDistinct(HEADER, blocks, startHeap, startHeap + regionSize);
      LinksShow(mem, blocks, i);
    }

    /** The first block from `block` on that is free and large enough, or null. */
    method Search(block: nat, size: nat, ghost i: nat) returns (found: nat, ghost k: nat)
      requires Valid() && i <= |blocks| && block == AddrAt(blocks, i)
      ensures k == FirstFit(blocks, i, size) && found == AddrAt(blocks, k) && (k < |blocks| ==> found != 0)
    {
      found, k := block, i;
      if k < |blocks| { Shows(k); }
      while found != 0
        invariant i <= k <= |blocks| && found == AddrAt(blocks, k)
        invariant k < |blocks| ==> found != 0 && found in mem && mem[found].next == AddrAt(blocks, k + 1)
        invariant k < |blocks| ==> mem[found].used == blocks[k].used && mem[found].size == blocks[k].size
        invariant FirstFit(blocks, i, size) == FirstFit(blocks, k, size)
        decreases |blocks| - k
      {
        if !mem[found].used && mem[found].size >= size {
          return;
        }
        found, k := mem[found].next, k + 1;
        if k < |blocks| { Shows(k); }
      }
    }

    /** The first block from `block` on that is free, or null. */
    method NextUnused(block: nat, ghost i: nat) returns (found: nat)
      requires Valid0() && i <= |blocks| && block == AddrAt(blocks, i)
      ensures found == AddrAt(blocks, FirstFree(blocks, i))
    {
      found := block;
      ghost var k := i;
      if k < |blocks| { LinksShow(mem, blocks, k); }
      while found != 0 && mem[found].used
        invariant i <= k <= |blocks| && found == AddrAt(blocks, k)
        invariant k < |blocks| ==> found != 0 && found in mem && mem[found].next == AddrAt(blocks, k + 1)
        invariant k < |blocks| ==> mem[found].used == blocks[k].used
        invariant FirstFree(blocks, i) == FirstFree(blocks, k)
        decreases |blocks| - k
      {
        found, k := mem[found].next, k + 1;
        if k < |blocks| { LinksShow(mem, blocks, k); }
      }
    }

    /** The headers are laid out, whatever the hint says. */
    ghost predicate Valid0()
      reads this
    {
      Laid(mem, blocks) && Distinct(blocks)
    }

    /** `k_malloc` */
    method Malloc(size: nat) returns (ptr: nat)
      requires Valid()
      modifies this
      ensures Valid() && startHeap == old(startHeap) && regionSize == old(regionSize)
      ensures (View(), ptr) == FixedHeap.Malloc(old(View()), size)
      ensures WritesHeaders(old(mem), mem, old(blocks), blocks)
    {
      hide Inv, Find, FirstFit, FirstFree, Carve;
      ghost var i := if nextFree == 0 then |blocks| else Find(blocks, nextFree);
      HintIsBlock();
      ghost var j;
      var block;
      block, j := Search(nextFree, size, i);
      if block == 0 {
        return 0;
      }
      MallocKeepsInv(View(), startHeap, regionSize, size);
      Take(block, size, j);
      ptr := block + HEADER;
    }

    /** Uses block `j` and moves the hint to the next free block. */
    method Take(block: nat, size: nat, ghost j: nat)
      requires Valid() && j < |blocks| && block == blocks[j].addr
      modifies `mem, `blocks, `nextFree
      ensures j < |blocks| && blocks == Carve(HEADER, 0, old(blocks), j, size)
      ensures nextFree == AddrAt(blocks, FirstFree(blocks, j + 1))
      ensures Laid(mem, blocks) && WritesHeaders(old(mem), mem, old(blocks), blocks)
    {
      ghost var hi := startHeap + regionSize;
      mem := TakeBlock(mem, HEADER, 0, block, size, blocks, startHeap, hi, j);
      CarveTiles(HEADER, 0, blocks, startHeap, hi, j, size);
      CarveAt(HEADER, 0, blocks, j, size);
      blocks := Carve(HEADER, 0, blocks, j, size);
      TilesAreDistinct(HEADER, blocks, startHeap, hi);
      LinksShow(mem, blocks, j);
      nextFree := NextUnused(mem[block].next, j + 1);
    }

    lemma HintIsBlock()
      requires Valid()
      ensures nextFree != 0 ==> Find(blocks, nextFree) < |blocks|
      ensures nextFree == AddrAt(blocks, if nextFree == 0 then |blocks| else Find(blocks, nextFree))
      ensures forall n :: FirstFit(blocks, |blocks|, n) == |blocks|
    {
      if nextFree == 0 { return; }
      var i :| 0 <= i < |blocks| && blocks[i].addr == nextFree && !blocks[i].used;
      FindInHeap(View(), startHeap, regionSize, i);
    }

    /** `k_free` of a live payload */
    method Free(ptr: nat, ghost j: nat)
      requires Valid() && j < |blocks| && blocks[j].used && Payload(HEADER, blocks[j]) == ptr
      modifies this
      ensures Valid() && startHeap == old(startHeap) && regionSize == old(regionSize)
      ensures View() == FixedHeap.Free(old(View()), j)
      ensures WritesHeaders(old(mem), mem, old(blocks), blocks)
    {
      FreeKeepsInv(View(), startHeap, regionSize, j);
      var toFree;
      mem, toFree := ReleaseBlock(mem, HEADER, ptr - HEADER, blocks, startHeap, startHeap + regionSize, j);
      blocks := Release(HEADER, blocks, j);
      if nextFree == 0 || nextFree > toFree {
        nextFree := toFree;
      }
    }
  }
}
