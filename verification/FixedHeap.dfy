/** The heap of the 32-bit kernel: one region, searched from a hint, fully coalesced. */
module FixedHeap {
  import opened BlockList
  import opened HeapMemory

  const HEADER: nat := 16  // two pointers, a flag and a size, four bytes each

  /** The blocks in address order, and the address of the block where the search starts, or 0. */
  datatype Heap = Heap(blocks: seq<Block>, nextFree: nat)

  /** `init_heap` */
  function Init(start: nat, size: nat): Heap
    requires size >= HEADER
  {
    Heap([Block(start, size - HEADER, false)], start)
  }

  /** `k_malloc`: the new heap and the payload, or 0. */
  function Malloc(hp: Heap, size: nat): (Heap, nat) {
    var j := if hp.nextFree == 0 then |hp.blocks| else FirstFit(hp.blocks, Find(hp.blocks, hp.nextFree), size);
    if j == |hp.blocks| then (hp, 0)
    else
      var cs := Carve(HEADER, 0, hp.blocks, j, size);
      CarveAt(HEADER, 0, hp.blocks, j, size);
      (Heap(cs, AddrAt(cs, FirstFree(cs, j + 1))), Payload(HEADER, hp.blocks[j]))
  }

  /** `k_free` of the payload of block `j`. */
  function Free(hp: Heap, j: nat): Heap
    requires j < |hp.blocks|
  {
    var at := hp.blocks[ReleasedAt(hp.blocks, j)].addr;
    Heap(Release(HEADER, hp.blocks, j), if hp.nextFree == 0 || hp.nextFree > at then at else hp.nextFree)
  }

  // ---------- the invariant ----------

  predicate NoTwoFree(bs: seq<Block>) {
    forall i | 0 <= i < |bs| - 1 :: bs[i].used || bs[i + 1].used
  }

  predicate FreeAt(bs: seq<Block>, addr: nat) {
    exists i :: 0 <= i < |bs| && bs[i].addr == addr && !bs[i].used
  }

  predicate AnyUsed(bs: seq<Block>) { exists i :: 0 <= i < |bs| && bs[i].used }

  /** The blocks tile the region, no two neighbours are both free, and the hint is a free block, or
      null while something is allocated. */
  predicate Inv(hp: Heap, start: nat, size: nat) {
    && start > 0
    && Tiles(HEADER, hp.blocks, start, start + size)
    && NoTwoFree(hp.blocks)
    && if hp.nextFree == 0 then AnyUsed(hp.blocks) else FreeAt(hp.blocks, hp.nextFree)
  }

  lemma InitInv(start: nat, size: nat)
    requires start > 0 && size >= HEADER
    ensures Inv(Init(start, size), start, size) && UsedBlocks(Init(start, size).blocks) == {}
  {
    assert Init(start, size).blocks[0].addr == start;
  }

  lemma CarveKeepsNoTwoFree(bs: seq<Block>, j: nat, size: nat)
    requires NoTwoFree(bs) && j < |bs| && !bs[j].used
    ensures NoTwoFree(Carve(HEADER, 0, bs, j, size))
  {
    hide Carve;
    var cs := Carve(HEADER, 0, bs, j, size);
    CarveAt(HEADER, 0, bs, j, size);
    var d := |cs| - |bs|;
    forall i | 0 <= i < |cs| - 1 ensures cs[i].used || cs[i + 1].used {
      if i > j + d { assert cs[i] == bs[i - d] && cs[i + 1] == bs[i - d + 1]; }
      if i == j + d && d > 0 { assert cs[i + 1] == bs[j + 1]; }
    }
  }

  // ---------- allocation ----------

  /** The blocks a search looks at: those from the hint on. */
  predicate Searched(hp: Heap, b: Block) {
    b in hp.blocks && hp.nextFree != 0 && b.addr >= hp.nextFree
  }

  lemma SearchedFrom(hp: Heap, start: nat, size: nat, i: nat)
    requires Inv(hp, start, size) && hp.nextFree != 0 && i < |hp.blocks|
    ensures Searched(hp, hp.blocks[i]) <==> i >= Find(hp.blocks, hp.nextFree)
  {
    var n := Find(hp.blocks, hp.nextFree);
    var m :| 0 <= m < |hp.blocks| && hp.blocks[m].addr == hp.nextFree && !hp.blocks[m].used;
    FindFinds(HEADER, hp.blocks, start, start + size, m);
    if i < n { TilesOrder(HEADER, hp.blocks, start, start + size, i, n); }
    if i > n { TilesOrder(HEADER, hp.blocks, start, start + size, n, i); }
  }

  /** `k_malloc` returns null exactly when no block from the hint on fits, and then changes nothing. */
  lemma MallocFailsExactly(hp: Heap, start: nat, size: nat, n: nat)
    requires Inv(hp, start, size)
    ensures Malloc(hp, n).1 == 0 <==> forall b | Searched(hp, b) :: !Fits(b, n)
    ensures Malloc(hp, n).1 == 0 ==> Malloc(hp, n).0 == hp
  {
    if hp.nextFree != 0 {
      var i := Find(hp.blocks, hp.nextFree);
      var j := FirstFit(hp.blocks, i, n);
      if j < |hp.blocks| {
        SearchedFrom(hp, start, size, j);
      } else {
        forall b | Searched(hp, b) ensures !Fits(b, n) {
          var k :| 0 <= k < |hp.blocks| && hp.blocks[k] == b;
          SearchedFrom(hp, start, size, k);
        }
      }
    }
  }

  /** Otherwise it takes the lowest block that fits ... */
  lemma MallocTakesFirstFit(hp: Heap, start: nat, size: nat, n: nat)
    requires Inv(hp, start, size) && Malloc(hp, n).1 != 0
    ensures var p := Malloc(hp, n).1;
            && (exists b :: Searched(hp, b) && Fits(b, n) && Payload(HEADER, b) == p)
            && (forall b | Searched(hp, b) && Fits(b, n) :: p <= Payload(HEADER, b))
  {
    var bs := hp.blocks;
    var j := FirstFit(bs, Find(bs, hp.nextFree), n);
    SearchedFrom(hp, start, size, j);
    forall b | Searched(hp, b) && Fits(b, n) ensures bs[j].addr <= b.addr {
      var k :| 0 <= k < |bs| && bs[k] == b;
      SearchedFrom(hp, start, size, k);
      if j < k { TilesOrder(HEADER, bs, start, start + size, j, k); }
    }
  }

  /** ... marks at least `n` bytes of it used, leaves every other allocation as it was, and keeps
      the invariant. */
  lemma MallocKeepsInv(hp: Heap, start: nat, size: nat, n: nat)
    requires Inv(hp, start, size) && Malloc(hp, n).1 != 0
    ensures Inv(Malloc(hp, n).0, start, size)
    ensures var (hp', p) := Malloc(hp, n);
            exists b :: && b in UsedBlocks(hp'.blocks) && b.size >= n && Payload(HEADER, b) == p
                        && UsedBlocks(hp'.blocks) == UsedBlocks(hp.blocks) + {b}
                        && forall c <- UsedBlocks(hp.blocks) :: c.addr != b.addr
  {
    hide Carve, Tiles, NoTwoFree, UsedBlocks, FirstFit, FirstFree, FreeAt, AnyUsed, Find;
    var bs := hp.blocks;
    var j := FirstFit(bs, Find(bs, hp.nextFree), n);
    var cs := Carve(HEADER, 0, bs, j, n);
    CarveAt(HEADER, 0, bs, j, n);
    CarveUses(HEADER, 0, bs, start, start + size, j, n);
    CarveTiles(HEADER, 0, bs, start, start + size, j, n);
    CarveKeepsNoTwoFree(bs, j, n);
    HintAfter(cs, start, start + size, j);
  }

  /** The hint that `k_malloc` leaves. */
  lemma HintAfter(cs: seq<Block>, lo: nat, hi: nat, j: nat)
    requires Tiles(HEADER, cs, lo, hi) && lo > 0 && j < |cs| && cs[j].used
    ensures var hint := AddrAt(cs, FirstFree(cs, j + 1));
            if hint == 0 then AnyUsed(cs) else FreeAt(cs, hint)
  {
    var m := FirstFree(cs, j + 1);
    if m < |cs| { TilesBounds(HEADER, cs, lo, hi, m); }
  }

  /** `addr` is the lowest free block above `below`, or null if there is none. */
  predicate NextFree(bs: seq<Block>, below: nat, addr: nat) {
    if exists b :: b in bs && !b.used && b.addr > below then
      && (exists b :: b in bs && !b.used && b.addr > below && b.addr == addr)
      && (forall b | b in bs && !b.used && b.addr > below :: addr <= b.addr)
    else addr == 0
  }

  /** All that an allocation does: the lowest searched block that fits is split, or used whole if it has no
      more than a header left, no other block changes, and the hint moves to the next free block. */
  lemma MallocExactly(hp: Heap, start: nat, size: nat, n: nat) returns (f: Block)
    requires Inv(hp, start, size) && exists b :: Searched(hp, b) && Fits(b, n)
    ensures Searched(hp, f) && Fits(f, n) && forall b | Searched(hp, b) && Fits(b, n) :: f.addr <= b.addr
    ensures var (hp', p) := Malloc(hp, n);
            && p == f.addr + HEADER && NextFree(hp'.blocks, f.addr, hp'.nextFree)
            && Blocks(hp'.blocks)
               == Blocks(hp.blocks) - {f}
                  + (if f.size > n + HEADER
                     then {Block(f.addr, n, true), Block(f.addr + HEADER + n, f.size - n - HEADER, false)}
                     else {Block(f.addr, f.size, true)})
  {
    hide Inv, Carve, FirstFree, Blocks, Find, Searched, NextFree;
    var j := TakenIndex(hp, start, size, n);
    f := hp.blocks[j];
    var cs := Carve(HEADER, 0, hp.blocks, j, n);
    TilesOfInv(hp, start, size);
    CarveExactly(HEADER, 0, hp.blocks, start, start + size, j, n);
    CarveTiles(HEADER, 0, hp.blocks, start, start + size, j, n);
    CarveAt(HEADER, 0, hp.blocks, j, n);
    HintIsNext(cs, start, start + size, j);
  }

  lemma TilesOfInv(hp: Heap, start: nat, size: nat)
    requires Inv(hp, start, size)
    ensures start > 0 && Tiles(HEADER, hp.blocks, start, start + size)
  {
  }

  /** The index of the block that is taken. */
  lemma TakenIndex(hp: Heap, start: nat, size: nat, n: nat) returns (j: nat)
    requires Inv(hp, start, size) && exists b :: Searched(hp, b) && Fits(b, n)
    ensures j < |hp.blocks| && hp.nextFree != 0 && j == FirstFit(hp.blocks, Find(hp.blocks, hp.nextFree), n)
    ensures var f := hp.blocks[j];
            Searched(hp, f) && Fits(f, n) && forall b | Searched(hp, b) && Fits(b, n) :: f.addr <= b.addr
  {
    MallocFailsExactly(hp, start, size, n);
    MallocTakesFirstFit(hp, start, size, n);
    j := FirstFit(hp.blocks, Find(hp.blocks, hp.nextFree), n);
    SearchedFrom(hp, start, size, j);
  }

  lemma HintIsNext(cs: seq<Block>, lo: nat, hi: nat, j: nat)
    requires Tiles(HEADER, cs, lo, hi) && lo > 0 && j < |cs|
    ensures NextFree(cs, cs[j].addr, AddrAt(cs, FirstFree(cs, j + 1)))
  {
    hide Tiles;
    var m := FirstFree(cs, j + 1);
    forall b | b in cs && !b.used && b.addr > cs[j].addr ensures m < |cs| && cs[m].addr <= b.addr {
      HintIsBelow(cs, lo, hi, j, b);
    }
    if m < |cs| {
      TilesOrder(HEADER, cs, lo, hi, j, m);
      assert cs[m] in cs && !cs[m].used && cs[m].addr > cs[j].addr;
    }
  }

  lemma HintIsBelow(cs: seq<Block>, lo: nat, hi: nat, j: nat, b: Block)
    requires Tiles(HEADER, cs, lo, hi) && j < |cs| && b in cs && !b.used && b.addr > cs[j].addr
    ensures var m := FirstFree(cs, j + 1); m < |cs| && cs[m].addr <= b.addr
  {
    hide Tiles;
    var m := FirstFree(cs, j + 1);
    var k :| 0 <= k < |cs| && cs[k] == b;
    if k < j { TilesOrder(HEADER, cs, lo, hi, k, j); }
    if m < k { TilesOrder(HEADER, cs, lo, hi, m, k); }
  }

  // ---------- release ----------

  lemma ReleaseKeepsNoTwoFree(bs: seq<Block>, j: nat)
    requires NoTwoFree(bs) && j < |bs|
    ensures NoTwoFree(Release(HEADER, bs, j))
  {
    ReleaseIsSplice(HEADER, bs, j);
    var cs, i, k := Release(HEADER, bs, j), ReleasedAt(bs, j), AfterReleased(bs, j);
    forall n | 0 <= n < |cs| - 1 ensures cs[n].used || cs[n + 1].used {
      if n > i { assert cs[n] == bs[n - i - 1 + k] && cs[n + 1] == bs[n - i + k]; }
    }
  }

  /** `k_free` of an allocated block keeps the invariant, leaves every other allocation as it was,
      and leaves a hint. */
  lemma FreeKeepsInv(hp: Heap, start: nat, size: nat, j: nat)
    requires Inv(hp, start, size) && j < |hp.blocks| && hp.blocks[j].used
    ensures Inv(Free(hp, j), start, size) && Free(hp, j).nextFree != 0
    ensures UsedBlocks(Free(hp, j).blocks) == UsedBlocks(hp.blocks) - {hp.blocks[j]}
  {
    var bs := hp.blocks;
    ReleaseTiles(HEADER, bs, start, start + size, j);
    ReleaseKeepsNoTwoFree(bs, j);
    ReleaseUses(HEADER, bs, start, start + size, j);
    HintAfterFree(hp, start, size, j);
    hide Release, NoTwoFree, Tiles, UsedBlocks, FreeAt;
  }

  /** The hint after `k_free` is a free block. */
  lemma HintAfterFree(hp: Heap, start: nat, size: nat, j: nat)
    requires Inv(hp, start, size) && j < |hp.blocks|
    ensures Free(hp, j).nextFree != 0 && FreeAt(Free(hp, j).blocks, Free(hp, j).nextFree)
  {
    var bs := hp.blocks;
    ReleaseIsSplice(HEADER, bs, j);
    var cs, i := Release(HEADER, bs, j), ReleasedAt(bs, j);
    hide Release, NoTwoFree;
    assert cs[i].addr == bs[i].addr && !cs[i].used;
    TilesBounds(HEADER, bs, start, start + size, i);
    if hp.nextFree != 0 && hp.nextFree <= bs[i].addr {
      var n :| 0 <= n < |bs| && bs[n].addr == hp.nextFree && !bs[n].used;
      if n > i { TilesOrder(HEADER, bs, start, start + size, i, n); }
      assert cs[n].addr == hp.nextFree && !cs[n].used;
    }
  }

  /** All that a release does: the block and its free neighbours become one free block, no other block
      changes, and the hint goes down to that block if it was above it. */
  lemma FreeExactly(hp: Heap, start: nat, size: nat, j: nat) returns (m: Block)
    requires Inv(hp, start, size) && j < |hp.blocks| && hp.blocks[j].used
    ensures var joined := Joining(HEADER, hp.blocks, hp.blocks[j]);
            Blocks(Free(hp, j).blocks) == Blocks(hp.blocks) - joined + {m} && Spans(HEADER, m, joined)
    ensures Free(hp, j).nextFree == if hp.nextFree == 0 || m.addr < hp.nextFree then m.addr else hp.nextFree
  {
    hide Release, Merged, Joining, Blocks, Spans;
    ReleaseExactly(HEADER, hp.blocks, start, start + size, j);
    m := Merged(HEADER, hp.blocks, j);
  }

  /** So every block that a search would see, it still sees, and the joined one as well. */
  lemma FreeKeepsSearched(hp: Heap, start: nat, size: nat, j: nat, m: Block)
    requires Inv(hp, start, size) && j < |hp.blocks| && hp.blocks[j].used && m in Free(hp, j).blocks
    requires Spans(HEADER, m, Joining(HEADER, hp.blocks, hp.blocks[j]))
    ensures Searched(Free(hp, j), m)
    ensures forall b | Searched(hp, b) :: Searched(Free(hp, j), b) || b in Joining(HEADER, hp.blocks, hp.blocks[j])
  {
    hide Joining, Inv, Free, Spans;
    var m' := FreeExactly(hp, start, size, j);
    SpansOnce(HEADER, m, m', Joining(HEADER, hp.blocks, hp.blocks[j]));
    TilesOfInv(hp, start, size);
    JoinedAbove(HEADER, hp.blocks, start, start + size, hp.blocks[j], m);
    forall b | Searched(hp, b) && b !in Joining(HEADER, hp.blocks, hp.blocks[j]) ensures Searched(Free(hp, j), b) {
      assert b in Blocks(Free(hp, j).blocks);
    }
  }

  lemma SpansOnce(h: nat, m: Block, m': Block, s: set<Block>)
    requires Spans(h, m, s) && Spans(h, m', s)
    ensures m == m'
  {
  }

  lemma JoinedAbove(h: nat, bs: seq<Block>, lo: nat, hi: nat, b: Block, m: Block)
    requires Tiles(h, bs, lo, hi) && Spans(h, m, Joining(h, bs, b)) && lo > 0
    ensures m.addr > 0
  {
    var c :| c in Joining(h, bs, b) && c.addr == m.addr;
    var i :| 0 <= i < |bs| && bs[i] == c;
    TilesBounds(h, bs, lo, hi, i);
  }

  /** A request that could be met before a release can be met after it, and so can one for what was given
      back. */
  lemma FreeKeepsMeetable(hp: Heap, start: nat, size: nat, j: nat, n: nat)
    requires Inv(hp, start, size) && j < |hp.blocks| && hp.blocks[j].used
    requires Malloc(hp, n).1 != 0 || n <= hp.blocks[j].size
    ensures Malloc(Free(hp, j), n).1 != 0
  {
    hide Inv, Free, Malloc, Spans, Joining;
    var b, joined := hp.blocks[j], Joining(HEADER, hp.blocks, hp.blocks[j]);
    var m := FreeExactly(hp, start, size, j);
    FreeKeepsInv(hp, start, size, j);
    assert m in Blocks(Free(hp, j).blocks);
    FreeKeepsSearched(hp, start, size, j, m);
    MallocFailsExactly(Free(hp, j), start, size, n);
    MallocFailsExactly(hp, start, size, n);
    if n <= b.size {
      SpanHolds(HEADER, hp.blocks, b, m, b);
    } else {
      var c :| Searched(hp, c) && Fits(c, n);
      if c in joined { SpanHolds(HEADER, hp.blocks, b, m, c); }
    }
  }

  lemma SpanHolds(h: nat, bs: seq<Block>, b: Block, m: Block, c: Block)
    requires Spans(h, m, Joining(h, bs, b)) && b in bs && (c == b || c in Joining(h, bs, b))
    ensures !m.used && m.size >= c.size
  {
    assert c in Joining(h, bs, b);
  }

  /** With nothing allocated the heap is back in its first state. */
  lemma NothingUsedIsInitial(hp: Heap, start: nat, size: nat)
    requires Inv(hp, start, size) && UsedBlocks(hp.blocks) == {}
    ensures size >= HEADER && hp == Init(start, size)
  {
    var bs := hp.blocks;
    assert forall i | 0 <= i < |bs| :: bs[i].used ==> bs[i] in UsedBlocks(bs);
    if |bs| > 1 { SomethingUsed(bs); }
    assert bs == [bs[0]];
  }

  lemma SomethingUsed(bs: seq<Block>)
    requires NoTwoFree(bs) && |bs| > 1
    ensures exists i :: 0 <= i < |bs| && bs[i].used
  {
    assert bs[0].used || bs[0 + 1].used;
  }

  // ---------- runs ----------

  datatype Event = Take(size: nat) | Give(payload: nat)

  /** Only payloads that are in use are given back. */
  predicate Possible(hp: Heap, e: Event) {
    e.Give? ==> exists b :: b in UsedBlocks(hp.blocks) && Payload(HEADER, b) == e.payload
  }

  function Step(hp: Heap, e: Event): Heap {
    match e
    case Take(n) => Malloc(hp, n).0
    case Give(p) =>
      var j := if p < HEADER then |hp.blocks| else Find(hp.blocks, p - HEADER);
      if j == |hp.blocks| then hp else Free(hp, j)
  }

  lemma FindInHeap(hp: Heap, start: nat, size: nat, j: nat)
    requires Inv(hp, start, size) && j < |hp.blocks|
    ensures Find(hp.blocks, hp.blocks[j].addr) == j
  {
    FindFinds(HEADER, hp.blocks, start, start + size, j);
  }

  lemma GiveIsFree(hp: Heap, start: nat, size: nat, p: nat, j: nat)
    requires Inv(hp, start, size) && j < |hp.blocks| && Payload(HEADER, hp.blocks[j]) == p
    ensures Step(hp, Give(p)) == Free(hp, j)
  {
    hide Inv, Find, Free, Malloc;
    FindInHeap(hp, start, size, j);
  }

  lemma GiveFrees(hp: Heap, start: nat, size: nat, p: nat, b: Block)
    requires Inv(hp, start, size) && b in UsedBlocks(hp.blocks) && Payload(HEADER, b) == p
    ensures Inv(Step(hp, Give(p)), start, size)
    ensures UsedBlocks(Step(hp, Give(p)).blocks) == UsedBlocks(hp.blocks) - {b}
  {
    hide Inv, Free, Step;
    var j :| 0 <= j < |hp.blocks| && hp.blocks[j] == b;
    GiveIsFree(hp, start, size, p, j);
    FreeKeepsInv(hp, start, size, j);
  }

  lemma StepKeepsInv(hp: Heap, start: nat, size: nat, e: Event)
    requires Inv(hp, start, size) && Possible(hp, e)
    ensures Inv(Step(hp, e), start, size)
  {
    match e
    case Take(n) =>
      if Malloc(hp, n).1 == 0 { MallocFailsExactly(hp, start, size, n); } else { MallocKeepsInv(hp, start, size, n); }
    case Give(p) =>
      var b :| b in UsedBlocks(hp.blocks) && Payload(HEADER, b) == p;
      GiveFrees(hp, start, size, p, b);
  }

  function Run(hp: Heap, es: seq<Event>): Heap
    decreases |es|
  {
    if es == [] then hp else Run(Step(hp, es[0]), es[1..])
  }

  predicate PossibleRun(hp: Heap, es: seq<Event>)
    decreases |es|
  {
    es == [] || (Possible(hp, es[0]) && PossibleRun(Step(hp, es[0]), es[1..]))
  }

  /** Every reachable state satisfies the invariant. */
  lemma {:induction false} RunKeepsInv(hp: Heap, start: nat, size: nat, es: seq<Event>)
    requires Inv(hp, start, size) && PossibleRun(hp, es)
    ensures Inv(Run(hp, es), start, size)
    decreases |es|
  {
    if es != [] {
      StepKeepsInv(hp, start, size, es[0]);
      RunKeepsInv(Step(hp, es[0]), start, size, es[1..]);
    }
  }

  /** Any run that leaves nothing allocated, whatever the order of its events, leaves the heap as
      `init_heap` made it. */
  lemma EmptyRunIsInitial(start: nat, size: nat, es: seq<Event>)
    requires start > 0 && size >= HEADER && PossibleRun(Init(start, size), es)
    requires UsedBlocks(Run(Init(start, size), es).blocks) == {}
    ensures Run(Init(start, size), es) == Init(start, size)
  {
    InitInv(start, size);
    RunKeepsInv(Init(start, size), start, size, es);
    NothingUsedIsInitial(Run(Init(start, size), es), start, size);
  }

  function GiveAll(order: seq<Block>): seq<Event> {
    seq(|order|, i requires 0 <= i < |order| => Give(Payload(HEADER, order[i])))
  }

  /** Giving back every live block, in any order, is possible and gives back the single block. */
  lemma {:induction false} FreeingAllRestores(hp: Heap, start: nat, size: nat, order: seq<Block>)
    requires Inv(hp, start, size)
    requires UsedBlocks(hp.blocks) == set b | b in order
    requires forall i, j | 0 <= i < j < |order| :: order[i] != order[j]
    ensures size >= HEADER && PossibleRun(hp, GiveAll(order)) && Run(hp, GiveAll(order)) == Init(start, size)
    decreases |order|
  {
    if order == [] {
      NothingUsedIsInitial(hp, start, size);
    } else {
      hide Inv, Step, Free, Malloc, Find, Init;
      var b, rest := order[0], order[1..];
      var es := GiveAll(order);
      assert b in UsedBlocks(hp.blocks) && es[0] == Give(Payload(HEADER, b));
      assert es[1..] == GiveAll(rest);
      GiveFrees(hp, start, size, Payload(HEADER, b), b);
      assert order == [b] + rest && b !in rest;
      FreeingAllRestores(Step(hp, es[0]), start, size, rest);
    }
  }

  predicate Reaches(hp: Heap, es: seq<Event>, hp': Heap) { PossibleRun(hp, es) && Run(hp, es) == hp' }

  lemma ReachesBy(hp: Heap, e: Event, hp1: Heap, es: seq<Event>, hp2: Heap)
    requires Possible(hp, e) && Step(hp, e) == hp1 && Reaches(hp1, es, hp2)
    ensures Reaches(hp, [e] + es, hp2)
  {
    assert ([e] + es)[1..] == es;
  }

  /** The search does not go back.  After two allocations, a release of the first and a larger
      allocation, the released block fits the next request, and the request fails. */
  lemma MallocMissesEarlierBlock(start: nat) returns (hp: Heap, b: Block)
    requires start > 0
    ensures Reaches(Init(start, 88), [Take(10), Take(10), Give(start + 16), Take(20)], hp)
    ensures b in hp.blocks && Fits(b, 10) && Malloc(hp, 10).1 == 0
  {
    var a, c' := Block(start, 10, false), Block(start + 52, 20, true);
    b := Block(start + 26, 10, true);
    hp := Heap([a, b, c'], 0);
    ReachedByFour(start);
    b := a;
  }

  lemma ReachedByFour(start: nat)
    requires start > 0
    ensures var a, b, c := Block(start, 10, false), Block(start + 26, 10, true), Block(start + 52, 20, true);
            Reaches(Init(start, 88), [Take(10), Take(10), Give(start + 16), Take(20)], Heap([a, b, c], 0))
  {
    hide Step, Possible, Reaches;
    var a, a', c, c' := Block(start, 10, false), Block(start, 10, true), Block(start + 52, 20, false), Block(start + 52, 20, true);
    var b := Block(start + 26, 10, true);
    var h0, h1, h2 := Init(start, 88), Heap([a', Block(start + 26, 46, false)], start + 26), Heap([a', b, c], start + 52);
    var h3, hp := Heap([a, b, c], start), Heap([a, b, c'], 0);
    TakeTwo(start);
    GiveFirst(start, a', b, c);
    TakeLast(start, a, b, c);
    RunNothing(hp);
    ReachesBy(h3, Take(20), hp, [], hp);
    ReachesBy(h2, Give(start + 16), h3, [Take(20)] + [], hp);
    ReachesBy(h1, Take(10), h2, [Give(start + 16)] + ([Take(20)] + []), hp);
    ReachesBy(h0, Take(10), h1, [Take(10)] + ([Give(start + 16)] + ([Take(20)] + [])), hp);
    assert [Take(10)] + ([Take(10)] + ([Give(start + 16)] + ([Take(20)] + []))) == [Take(10), Take(10), Give(start + 16), Take(20)];
  }

  lemma TakeTwo(start: nat)
    requires start > 0
    ensures var a, b, c := Block(start, 10, true), Block(start + 26, 10, true), Block(start + 52, 20, false);
            var h1 := Heap([a, Block(start + 26, 46, false)], start + 26);
            Step(Init(start, 88), Take(10)) == h1 && Step(h1, Take(10)) == Heap([a, b, c], start + 52)
  {
    var h1 := Heap([Block(start, 10, true), Block(start + 26, 46, false)], start + 26);
    assert Find(h1.blocks, start + 26) == 1 by { assert Find(h1.blocks[1..], start + 26) == 0; }
  }

  lemma RunNothing(hp: Heap)
    ensures Reaches(hp, [], hp)
  {
  }

  lemma GiveFirst(start: nat, a: Block, b: Block, c: Block)
    requires a.addr == start && a.used && b.used && start > 0
    ensures Possible(Heap([a, b, c], start + 52), Give(start + 16))
    ensures Step(Heap([a, b, c], start + 52), Give(start + 16)) == Heap([Block(start, a.size, false), b, c], start)
  {
    assert a in UsedBlocks([a, b, c]);
  }

  lemma TakeLast(start: nat, a: Block, b: Block, c: Block)
    requires start > 0 && a == Block(start, 10, false) && b.used && !c.used && c.size == 20
    ensures Step(Heap([a, b, c], start), Take(20)) == Heap([a, b, Block(c.addr, 20, true)], 0)
  {
    var bs := [a, b, c];
    assert FirstFit(bs, 0, 20) == 2 by {
      assert FirstFit(bs, 2, 20) == 2;
      assert FirstFit(bs, 1, 20) == 2;
    }
    assert Carve(HEADER, 0, bs, 2, 20) == [a, b, Block(c.addr, 20, true)];
  }
}
