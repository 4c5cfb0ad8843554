/** Block headers in memory, doubly linked by address, and the two ways the heaps rewrite them. */
module HeapMemory {
  import opened BlockList

  /** `struct mem_header`.  A null link is 0. */
  datatype Header = Header(next: nat, prev: nat, used: bool, size: nat)

  /** Memory as the headers written so far, by address. */
  type Memory = map<nat, Header>

  function AddrAt(bs: seq<Block>, i: int): nat { if 0 <= i < |bs| then bs[i].addr else 0 }

  function HeaderOf(bs: seq<Block>, i: nat): Header
    requires i < |bs|
  {
    Header(AddrAt(bs, i + 1), AddrAt(bs, i - 1), bs[i].used, bs[i].size)
  }

  predicate LaidAt(mem: Memory, bs: seq<Block>, i: nat)
    requires i < |bs|
  {
    bs[i].addr in mem && mem[bs[i].addr] == HeaderOf(bs, i)
  }

  /** Memory holds the block list: each block's header links to its two neighbours. */
  predicate Laid(mem: Memory, bs: seq<Block>) {
    forall i | 0 <= i < |bs| :: LaidAt(mem, bs, i)
  }

  predicate StartsIn(bs: seq<Block>, a: nat) { exists i :: 0 <= i < |bs| && bs[i].addr == a }

  /** Only headers of blocks, old or new, have been written. */
  ghost predicate WritesHeaders(mem: Memory, mem': Memory, bs: seq<Block>, bs': seq<Block>) {
    && mem.Keys <= mem'.Keys
    && forall a <- mem' :: (a in mem && mem'[a] == mem[a]) || StartsIn(bs, a) || StartsIn(bs', a)
  }

  /** No two blocks start at the same address, and none at 0. */
  predicate Distinct(bs: seq<Block>) {
    && (forall i, j | 0 <= i < j < |bs| :: bs[i].addr != bs[j].addr)
    && (forall i | 0 <= i < |bs| :: bs[i].addr != 0)
  }

  lemma TilesAreDistinct(h: nat, bs: seq<Block>, lo: nat, hi: nat)
    requires h > 0 && lo > 0 && Tiles(h, bs, lo, hi)
    ensures Distinct(bs)
  {
    forall i, j | 0 <= i < j < |bs| ensures bs[i].addr != bs[j].addr { TilesOrder(h, bs, lo, hi, i, j); }
    forall i | 0 <= i < |bs| ensures bs[i].addr != 0 { TilesBounds(h, bs, lo, hi, i); }
  }

  /** The link of the header at `a` leads to a header. */
  predicate NextKnown(mem: Memory, a: nat) { a in mem && (mem[a].next != 0 ==> mem[a].next in mem) }

  /** The split of `kmalloc`: a new header behind the payload, linked in on both sides. */
  function Split(mem: Memory, h: nat, a: nat, size: nat): Memory
    requires a in mem && mem[a].size >= size + h && NextKnown(mem, a)
  {
    var n := a + h + size;
    var b := mem[a];
    var mem1 := mem[n := Header(b.next, a, false, b.size - size - h)];
    var mem2 := if b.next != 0 then mem1[b.next := mem1[b.next].(prev := n)] else mem1;
    mem2[a := Header(n, b.prev, true, size)]
  }

  lemma SplitLays(mem: Memory, h: nat, slack: nat, bs: seq<Block>, lo: nat, hi: nat, j: nat, size: nat)
    requires h > 0 && lo > 0 && Tiles(h, bs, lo, hi) && Laid(mem, bs) && j < |bs| && bs[j].size > size + h + slack
    ensures NextKnown(mem, bs[j].addr) && mem[bs[j].addr].size == bs[j].size
    ensures Laid(Split(mem, h, bs[j].addr, size), Carve(h, slack, bs, j, size))
    ensures WritesHeaders(mem, Split(mem, h, bs[j].addr, size), bs, Carve(h, slack, bs, j, size))
  {
    hide Carve, Tiles, Laid, Distinct, Inserted, Touched, Split, WritesHeaders;
    var cs := Carve(h, slack, bs, j, size);
    CarveTiles(h, slack, bs, lo, hi, j, size);
    TilesAreDistinct(h, cs, lo, hi);
    TilesAreDistinct(h, bs, lo, hi);
    SplitTouches(mem, h, slack, bs, j, size);
    LaidFromTouched(mem, Split(mem, h, bs[j].addr, size), bs, cs, j);
  }

  /** `cs` is `bs` with one block inserted behind `j`, whose header was rewritten too. */
  predicate Inserted(bs: seq<Block>, cs: seq<Block>, j: nat) {
    && j < |bs| && |cs| == |bs| + 1 && cs[j].addr == bs[j].addr
    && (forall k | 0 <= k < j :: cs[k] == bs[k])
    && (forall k | j + 1 < k < |cs| :: cs[k] == bs[k - 1])
  }

  /** The headers of `j` and of its two successors have been written, and no others. */
  predicate Touched(mem: Memory, mem': Memory, cs: seq<Block>, j: nat) {
    && j + 1 < |cs| && mem'.Keys == mem.Keys + {cs[j + 1].addr} && cs[j].addr in mem
    && mem'[cs[j].addr] == HeaderOf(cs, j) && mem'[cs[j + 1].addr] == HeaderOf(cs, j + 1)
    && (j + 2 < |cs| ==> cs[j + 2].addr in mem && mem'[cs[j + 2].addr] == HeaderOf(cs, j + 2))
    && forall a | a in mem && a != cs[j].addr && a != cs[j + 1].addr && (j + 2 < |cs| ==> a != cs[j + 2].addr) :: mem'[a] == mem[a]
  }

  /** A header away from the insertion is right as it is. */
  lemma LaidElsewhere(mem: Memory, mem': Memory, bs: seq<Block>, cs: seq<Block>, j: nat, i: nat)
    requires Laid(mem, bs) && Distinct(cs) && Inserted(bs, cs, j) && Touched(mem, mem', cs, j)
    requires i < j || j + 2 < i < |cs|
    ensures LaidAt(mem', cs, i)
  {
    var k := if i < j then i else i - 1;
    assert LaidAt(mem, bs, k) && cs[i] == bs[k];
  }

  /** So the whole list is laid out again. */
  lemma LaidFromTouched(mem: Memory, mem': Memory, bs: seq<Block>, cs: seq<Block>, j: nat)
    requires Laid(mem, bs) && Distinct(cs) && Inserted(bs, cs, j) && Touched(mem, mem', cs, j)
    ensures Laid(mem', cs) && WritesHeaders(mem, mem', bs, cs)
  {
    forall i | 0 <= i < |cs| ensures LaidAt(mem', cs, i) {
      if i < j || i > j + 2 { LaidElsewhere(mem, mem', bs, cs, j, i); }
    }
    hide Laid, Inserted, Distinct;
    assert StartsIn(cs, cs[j].addr) && StartsIn(cs, cs[j + 1].addr);
    if j + 2 < |cs| { assert StartsIn(cs, cs[j + 2].addr); }
  }

  lemma CarveInserts(h: nat, slack: nat, bs: seq<Block>, j: nat, size: nat)
    requires j < |bs| && bs[j].size > size + h + slack
    ensures var cs := Carve(h, slack, bs, j, size);
            && Inserted(bs, cs, j)
            && cs[j] == Block(bs[j].addr, size, true)
            && cs[j + 1] == Block(bs[j].addr + h + size, bs[j].size - size - h, false)
  {
    hide Inserted;
    var b := bs[j];
    PairInserted(bs[..j], b, Block(b.addr, size, true), Block(b.addr + h + size, b.size - size - h, false), bs[j + 1..]);
    assert bs == bs[..j] + [b] + bs[j + 1..];
  }

  lemma PairInserted(front: seq<Block>, b: Block, x: Block, y: Block, back: seq<Block>)
    requires x.addr == b.addr
    ensures var cs := front + [x, y] + back;
            Inserted(front + [b] + back, cs, |front|) && cs[|front|] == x && cs[|front| + 1] == y
  {
  }

  /** The three headers that a split writes. */
  lemma SplitTouches(mem: Memory, h: nat, slack: nat, bs: seq<Block>, j: nat, size: nat)
    requires Laid(mem, bs) && j < |bs| && bs[j].size > size + h + slack && Distinct(bs)
    requires Distinct(Carve(h, slack, bs, j, size))
    ensures NextKnown(mem, bs[j].addr) && mem[bs[j].addr].size == bs[j].size
    ensures var cs := Carve(h, slack, bs, j, size);
            Inserted(bs, cs, j) && Touched(mem, Split(mem, h, bs[j].addr, size), cs, j)
  {
    hide Carve, Laid, Distinct;
    CarveInserts(h, slack, bs, j, size);
    AroundKnown(mem, bs, j);
    var cs := Carve(h, slack, bs, j, size);
    AddressesDiffer(cs, j, j + 1);
    if j + 2 < |cs| {
      assert cs[j + 2] == bs[j + 1];
      AddressesDiffer(cs, j, j + 2);
      AddressesDiffer(cs, j + 1, j + 2);
    }
  }

  lemma AroundKnown(mem: Memory, bs: seq<Block>, j: nat)
    requires Laid(mem, bs) && Distinct(bs) && j < |bs|
    ensures LaidAt(mem, bs, j) && NextKnown(mem, bs[j].addr)
    ensures j + 1 < |bs| ==> bs[j + 1].addr != 0 && LaidAt(mem, bs, j + 1)
  {
    assert LaidAt(mem, bs, j);
    if j + 1 < |bs| { assert LaidAt(mem, bs, j + 1); }
  }

  lemma AddressesDiffer(bs: seq<Block>, i: nat, j: nat)
    requires Distinct(bs) && i < j < |bs|
    ensures bs[i].addr != bs[j].addr && bs[i].addr != 0 && bs[j].addr != 0
  {
  }

  function Mark(mem: Memory, a: nat, used: bool): Memory
    requires a in mem
  {
    mem[a := mem[a].(used := used)]
  }

  /** Changing a block's flag, and nothing else. */
  lemma MarkLays(mem: Memory, bs: seq<Block>, j: nat, used: bool)
    requires Laid(mem, bs) && Distinct(bs) && j < |bs|
    ensures bs[j].addr in mem
    ensures var cs := bs[j := Block(bs[j].addr, bs[j].size, used)];
            Laid(Mark(mem, bs[j].addr, used), cs) && WritesHeaders(mem, Mark(mem, bs[j].addr, used), bs, cs)
  {
    assert LaidAt(mem, bs, j);
    var mem' := Mark(mem, bs[j].addr, used);
    var cs := bs[j := Block(bs[j].addr, bs[j].size, used)];
    forall i | 0 <= i < |cs| ensures LaidAt(mem', cs, i) {
      assert LaidAt(mem, bs, i);
    }
    assert StartsIn(bs, bs[j].addr);
  }

  /** Splits the block at `a` if it is large enough, and marks it used. */
  method TakeBlock(mem: Memory, h: nat, slack: nat, a: nat, size: nat,
                   ghost bs: seq<Block>, ghost lo: nat, ghost hi: nat, ghost j: nat) returns (mem': Memory)
    requires h > 0 && lo > 0 && Tiles(h, bs, lo, hi) && Laid(mem, bs) && j < |bs| && bs[j].addr == a
    ensures Laid(mem', Carve(h, slack, bs, j, size))
    ensures WritesHeaders(mem, mem', bs, Carve(h, slack, bs, j, size))
  {
    mem' := mem;
    assert LaidAt(mem, bs, j);
    if mem[a].size > size + h + slack {
      SplitLays(mem, h, slack, bs, lo, hi, j, size);
      mem' := Split(mem, h, a, size);
    } else {
      TilesAreDistinct(h, bs, lo, hi);
      MarkLays(mem, bs, j, true);
      mem' := Mark(mem, a, true);
    }
  }

  /** The links of `a` and of its successor lead to headers. */
  predicate NextTwoKnown(mem: Memory, a: nat) {
    NextKnown(mem, a) && mem[a].next != 0 && NextKnown(mem, mem[a].next)
  }

  /** The block at `a` swallows its successor: the two coalescing steps of `kfree`. */
  function Swallow(mem: Memory, h: nat, a: nat): Memory
    requires NextTwoKnown(mem, a)
  {
    var n := mem[mem[a].next];
    var mem1 := mem[a := Header(n.next, mem[a].prev, mem[a].used, mem[a].size + n.size + h)];
    if n.next != 0 then mem1[n.next := mem1[n.next].(prev := a)] else mem1
  }

  lemma SwallowLays(mem: Memory, h: nat, bs: seq<Block>, i: nat)
    requires Laid(mem, bs) && Distinct(bs) && i < |bs| - 1
    ensures NextTwoKnown(mem, bs[i].addr)
    ensures Laid(Swallow(mem, h, bs[i].addr), Merge(h, bs, i))
    ensures WritesHeaders(mem, Swallow(mem, h, bs[i].addr), bs, Merge(h, bs, i))
  {
    assert LaidAt(mem, bs, i) && LaidAt(mem, bs, i + 1);
    if i + 2 < |bs| { assert LaidAt(mem, bs, i + 2); }
    var cs, mem' := Merge(h, bs, i), Swallow(mem, h, bs[i].addr);
    forall k | 0 <= k < |cs| ensures LaidAt(mem', cs, k) {
      if k <= i { assert LaidAt(mem, bs, k); } else { assert cs[k] == bs[k + 1] && LaidAt(mem, bs, k + 1); }
    }
    assert StartsIn(bs, bs[i].addr);
    if i + 2 < |bs| { assert StartsIn(bs, bs[i + 2].addr); }
  }

  /** Writing in two steps, where the second list has no new starts. */
  lemma WritesTwice(mem: Memory, mem1: Memory, mem2: Memory, bs: seq<Block>, cs: seq<Block>, ds: seq<Block>)
    requires WritesHeaders(mem, mem1, bs, cs) && WritesHeaders(mem1, mem2, cs, ds)
    requires forall a :: StartsIn(cs, a) ==> StartsIn(bs, a)
    ensures WritesHeaders(mem, mem2, bs, ds)
  {
  }

  /** Writing in two steps, where the second list keeps the starts of the first. */
  lemma WritesOn(mem: Memory, mem1: Memory, mem2: Memory, bs: seq<Block>, cs: seq<Block>, ds: seq<Block>)
    requires WritesHeaders(mem, mem1, bs, cs) && WritesHeaders(mem1, mem2, cs, ds)
    requires StartsKept(bs, cs) && StartsKept(cs, ds)
    ensures WritesHeaders(mem, mem2, bs, ds) && StartsKept(bs, ds)
  {
  }

  ghost predicate StartsKept(bs: seq<Block>, cs: seq<Block>) { forall a :: StartsIn(bs, a) ==> StartsIn(cs, a) }

  lemma CarveKeepsStarts(h: nat, slack: nat, bs: seq<Block>, j: nat, size: nat)
    requires j < |bs|
    ensures StartsKept(bs, Carve(h, slack, bs, j, size))
  {
    var cs := Carve(h, slack, bs, j, size);
    forall a | StartsIn(bs, a) ensures StartsIn(cs, a) {
      var i :| 0 <= i < |bs| && bs[i].addr == a;
      assert cs[if i <= j then i else i + (|cs| - |bs|)].addr == a;
    }
  }

  lemma MergeAddsNoStart(h: nat, bs: seq<Block>, i: nat, a: nat)
    requires i < |bs| - 1 && StartsIn(Merge(h, bs, i), a)
    ensures StartsIn(bs, a)
  {
    var cs := Merge(h, bs, i);
    var k :| 0 <= k < |cs| && cs[k].addr == a;
    assert bs[if k <= i then k else k + 1].addr == a;
  }

  /** What the pointers of block `j` show. */
  lemma LinksShow(mem: Memory, bs: seq<Block>, j: nat)
    requires Laid(mem, bs) && Distinct(bs) && j < |bs|
    ensures bs[j].addr in mem
    ensures var b := mem[bs[j].addr];
            && (if j > 0 then b.prev == bs[j - 1].addr && b.prev in mem && mem[b.prev].used == bs[j - 1].used else b.prev == 0)
            && (if j + 1 < |bs| then b.next == bs[j + 1].addr && b.next in mem && mem[b.next].used == bs[j + 1].used else b.next == 0)
            && (j > 0 ==> b.prev != 0) && (j + 1 < |bs| ==> b.next != 0) && b.size == bs[j].size && b.used == bs[j].used
  {
    assert LaidAt(mem, bs, j);
    if j > 0 { assert LaidAt(mem, bs, j - 1); }
    if j + 1 < |bs| { assert LaidAt(mem, bs, j + 1); }
  }

  /** Merges the block at `a` with its successor, if that is free. */
  method MergeForward(mem: Memory, h: nat, a: nat, ghost bs: seq<Block>, ghost lo: nat, ghost hi: nat, ghost i: nat)
    returns (mem': Memory)
    requires h > 0 && lo > 0 && Tiles(h, bs, lo, hi) && Laid(mem, bs) && i < |bs| && bs[i].addr == a
    ensures Laid(mem', MergeOn(h, bs, i)) && WritesHeaders(mem, mem', bs, MergeOn(h, bs, i))
  {
    mem' := mem;
    TilesAreDistinct(h, bs, lo, hi);
    LinksShow(mem, bs, i);
    if mem[a].next != 0 && !mem[mem[a].next].used {
      SwallowLays(mem, h, bs, i);
      mem' := Swallow(mem, h, a);
    }
  }

  /** Frees the block at `a` and merges it with a free predecessor; `at` is where it ended up. */
  method MergeBackward(mem: Memory, h: nat, a: nat, ghost bs: seq<Block>, ghost lo: nat, ghost hi: nat, ghost j: nat)
    returns (mem': Memory, at: nat)
    requires h > 0 && lo > 0 && Tiles(h, bs, lo, hi) && Laid(mem, bs) && j < |bs| && bs[j].addr == a
    ensures var cs := MergeBack(h, Unused(bs, j), j);
            && Laid(mem', cs) && WritesHeaders(mem, mem', bs, cs) && Tiles(h, cs, lo, hi)
            && ReleasedAt(bs, j) < |cs| && at == cs[ReleasedAt(bs, j)].addr == bs[ReleasedAt(bs, j)].addr
            && forall s :: StartsIn(cs, s) ==> StartsIn(bs, s)
  {
    hide Laid, Distinct, Tiles, WritesHeaders, StartsIn, Swallow;
    TilesAreDistinct(h, bs, lo, hi);
    MarkLays(mem, bs, j, false);
    ghost var us := Unused(bs, j);
    UnusedTiles(h, bs, lo, hi, j);
    TilesAreDistinct(h, us, lo, hi);
    UnusedAddsNoStart(bs, j);
    mem' := Mark(mem, a, false);
    at := a;
    LinksShow(mem', us, j);
    if mem'[a].prev != 0 && !mem'[mem'[a].prev].used {
      at := mem'[a].prev;
      SwallowLays(mem', h, us, j - 1);
      MergeTiles(h, us, lo, hi, j - 1);
      forall s | StartsIn(Merge(h, us, j - 1), s) ensures StartsIn(bs, s) { MergeAddsNoStart(h, us, j - 1, s); }
      WritesTwice(mem, mem', Swallow(mem', h, at), bs, us, Merge(h, us, j - 1));
      mem' := Swallow(mem', h, at);
    }
  }

  lemma UnusedAddsNoStart(bs: seq<Block>, j: nat)
    requires j < |bs|
    ensures forall s :: StartsIn(Unused(bs, j), s) ==> StartsIn(bs, s)
  {
    forall s | StartsIn(Unused(bs, j), s) ensures StartsIn(bs, s) {
      var k :| 0 <= k < |bs| && Unused(bs, j)[k].addr == s;
      assert bs[k].addr == s;
    }
  }

  /** The whole of `kfree`'s work on the headers. */
  method ReleaseBlock(mem: Memory, h: nat, a: nat, ghost bs: seq<Block>, ghost lo: nat, ghost hi: nat, ghost j: nat)
    returns (mem': Memory, at: nat)
    requires h > 0 && lo > 0 && Tiles(h, bs, lo, hi) && Laid(mem, bs) && j < |bs| && bs[j].addr == a
    ensures Laid(mem', Release(h, bs, j)) && WritesHeaders(mem, mem', bs, Release(h, bs, j))
    ensures at == bs[ReleasedAt(bs, j)].addr
  {
    hide Tiles, Laid, WritesHeaders, MergeBack, MergeOn, ReleasedAt, StartsIn;
    ghost var cs := MergeBack(h, Unused(bs, j), j);
    var mem1;
    mem1, at := MergeBackward(mem, h, a, bs, lo, hi, j);
    mem' := MergeForward(mem1, h, at, cs, lo, hi, ReleasedAt(bs, j));
    WritesTwice(mem, mem1, mem', bs, cs, MergeOn(h, cs, ReleasedAt(bs, j)));
  }

  /** A header written by an operation never lies in the payload of a block that is in use before
      and after it. */
  lemma WritesMissPayloads(h: nat, bs: seq<Block>, lo: nat, hi: nat, cs: seq<Block>, hi': nat, b: Block, a: nat)
    requires Tiles(h, bs, lo, hi) && Tiles(h, cs, lo, hi') && b in bs && b in cs
    requires StartsIn(bs, a) || StartsIn(cs, a)
    ensures !Overlap(a, a + h, Payload(h, b), End(h, b))
  {
    if StartsIn(bs, a) {
      var i, j :| 0 <= i < |bs| && bs[i].addr == a && 0 <= j < |bs| && bs[j] == b;
      PayloadsApart(h, bs, lo, hi, i, j);
    } else {
      var i, j :| 0 <= i < |cs| && cs[i].addr == a && 0 <= j < |cs| && cs[j] == b;
      PayloadsApart(h, cs, lo, hi', i, j);
    }
  }
}
