/** The blocks of a boundary-tag heap, in address order: what both kernels' heaps share.
    `h` is the size of a header, which differs between the two. */
module BlockList {

  /** A header at `addr`, followed by `size` bytes. */
  datatype Block = Block(addr: nat, size: nat, used: bool)

  function End(h: nat, b: Block): nat { b.addr + h + b.size }

  /** The address a caller is given. */
  function Payload(h: nat, b: Block): nat { b.addr + h }

  /** Blocks that follow one another without gaps from `lo` to `hi`. */
  predicate Tiles(h: nat, bs: seq<Block>, lo: nat, hi: nat) {
    && bs != [] && bs[0].addr == lo && End(h, bs[|bs| - 1]) == hi
    && forall i | 0 <= i < |bs| - 1 :: bs[i + 1].addr == End(h, bs[i])
  }

  lemma {:induction false} TilesOrder(h: nat, bs: seq<Block>, lo: nat, hi: nat, i: nat, j: nat)
    requires Tiles(h, bs, lo, hi) && i < j < |bs|
    ensures End(h, bs[i]) <= bs[j].addr
  {
    if i < j - 1 { TilesOrder(h, bs, lo, hi, i, j - 1); }
  }

  lemma TilesBounds(h: nat, bs: seq<Block>, lo: nat, hi: nat, i: nat)
    requires Tiles(h, bs, lo, hi) && i < |bs|
    ensures lo <= bs[i].addr && End(h, bs[i]) <= hi
  {
    if i > 0 { TilesOrder(h, bs, lo, hi, 0, i); }
    if i < |bs| - 1 { TilesOrder(h, bs, lo, hi, i, |bs| - 1); }
  }

  /** Addresses name blocks. */
  lemma TilesDistinct(h: nat, bs: seq<Block>, lo: nat, hi: nat, i: nat, j: nat)
    requires Tiles(h, bs, lo, hi) && i < |bs| && j < |bs| && h > 0 && bs[i].addr == bs[j].addr
    ensures i == j
  {
    if i < j { TilesOrder(h, bs, lo, hi, i, j); }
    if j < i { TilesOrder(h, bs, lo, hi, j, i); }
  }

  predicate Overlap(lo: nat, hi: nat, lo': nat, hi': nat) { lo < hi' && lo' < hi }

  /** Different blocks' payloads are disjoint, and no header lies in a payload. */
  lemma PayloadsApart(h: nat, bs: seq<Block>, lo: nat, hi: nat, i: nat, j: nat)
    requires Tiles(h, bs, lo, hi) && i < |bs| && j < |bs|
    ensures i != j ==> !Overlap(Payload(h, bs[i]), End(h, bs[i]), Payload(h, bs[j]), End(h, bs[j]))
    ensures !Overlap(bs[i].addr, Payload(h, bs[i]), Payload(h, bs[j]), End(h, bs[j]))
  {
    if i < j { TilesOrder(h, bs, lo, hi, i, j); }
    if j < i { TilesOrder(h, bs, lo, hi, j, i); }
  }

  // ---------- taking a block ----------

  predicate Fits(b: Block, size: nat) { !b.used && b.size >= size }

  /** The first block from index `i` on that fits, or the end of the list. */
  function FirstFit(bs: seq<Block>, i: nat, size: nat): (j: nat)
    requires i <= |bs|
    ensures i <= j <= |bs|
    ensures j < |bs| ==> Fits(bs[j], size)
    ensures forall k | i <= k < j :: !Fits(bs[k], size)
    decreases |bs| - i
  {
    if i == |bs| || Fits(bs[i], size) then i else FirstFit(bs, i + 1, size)
  }

  /** The first unused block from index `i` on. */
  function FirstFree(bs: seq<Block>, i: nat): (j: nat)
    requires i <= |bs|
    ensures i <= j <= |bs|
    ensures j < |bs| ==> !bs[j].used
    ensures forall k | i <= k < j :: bs[k].used
    decreases |bs| - i
  {
    if i == |bs| || !bs[i].used then i else FirstFree(bs, i + 1)
  }

  /** Block `j` becomes used; what it has beyond `size` is split off if that is more than a header
      and `slack`. */
  function Carve(h: nat, slack: nat, bs: seq<Block>, j: nat, size: nat): seq<Block>
    requires j < |bs|
  {
    var b := bs[j];
    if b.size > size + h + slack then
      bs[..j] + [Block(b.addr, size, true), Block(b.addr + h + size, b.size - size - h, false)] + bs[j + 1..]
    else
      bs[j := Block(b.addr, b.size, true)]
  }

  lemma CarveAt(h: nat, slack: nat, bs: seq<Block>, j: nat, size: nat)
    requires j < |bs|
    ensures var cs := Carve(h, slack, bs, j, size);
            && |bs| <= |cs| <= |bs| + 1
            && (forall k | 0 <= k < j :: cs[k] == bs[k])
            && cs[j].addr == bs[j].addr && cs[j].used
            && (Fits(bs[j], size) ==> size <= cs[j].size)
            && (forall k | j < k < |bs| :: cs[k + |cs| - |bs|] == bs[k])
            && (|cs| > |bs| ==> cs[j + 1] == Block(End(h, cs[j]), bs[j].size - size - h, false) && cs[j].size == size)
            && (|cs| == |bs| ==> cs[j].size == bs[j].size)
  {
  }

  lemma CarveTiles(h: nat, slack: nat, bs: seq<Block>, lo: nat, hi: nat, j: nat, size: nat)
    requires Tiles(h, bs, lo, hi) && j < |bs|
    ensures Tiles(h, Carve(h, slack, bs, j, size), lo, hi)
  {
    var cs := Carve(h, slack, bs, j, size);
    CarveAt(h, slack, bs, j, size);
    var d := |cs| - |bs|;
    forall i | 0 <= i < |cs| - 1 ensures cs[i + 1].addr == End(h, cs[i]) {
      if i > j + d { assert cs[i] == bs[i - d] && cs[i + 1] == bs[i - d + 1]; }
    }
  }

  // ---------- giving a block back ----------

  /** Block `i` swallows its successor. */
  function Merge(h: nat, bs: seq<Block>, i: nat): seq<Block>
    requires i < |bs| - 1
  {
    bs[..i] + [Block(bs[i].addr, bs[i].size + bs[i + 1].size + h, bs[i].used)] + bs[i + 2..]
  }

  lemma MergeTiles(h: nat, bs: seq<Block>, lo: nat, hi: nat, i: nat)
    requires Tiles(h, bs, lo, hi) && i < |bs| - 1
    ensures Tiles(h, Merge(h, bs, i), lo, hi)
  {
    var cs := Merge(h, bs, i);
    forall k | 0 <= k < |cs| - 1 ensures cs[k + 1].addr == End(h, cs[k]) {
      if k > i { assert cs[k] == bs[k + 1] && cs[k + 1] == bs[k + 2]; }
    }
  }

  /** Block `j` merges into a free predecessor. */
  function MergeBack(h: nat, bs: seq<Block>, j: nat): seq<Block>
    requires j < |bs|
  {
    if j > 0 && !bs[j - 1].used then Merge(h, bs, j - 1) else bs
  }

  /** Block `i` swallows a free successor. */
  function MergeOn(h: nat, bs: seq<Block>, i: nat): seq<Block>
    requires i < |bs|
  {
    if i + 1 < |bs| && !bs[i + 1].used then Merge(h, bs, i) else bs
  }

  function Unused(bs: seq<Block>, j: nat): seq<Block>
    requires j < |bs|
  {
    bs[j := Block(bs[j].addr, bs[j].size, false)]
  }

  lemma UnusedTiles(h: nat, bs: seq<Block>, lo: nat, hi: nat, j: nat)
    requires Tiles(h, bs, lo, hi) && j < |bs|
    ensures Tiles(h, Unused(bs, j), lo, hi)
  {
  }

  /** Where the freed block ends up. */
  function ReleasedAt(bs: seq<Block>, j: nat): (i: nat)
    requires j < |bs|
    ensures i <= j
  {
    if j > 0 && !bs[j - 1].used then j - 1 else j
  }

  /** Block `j` becomes free, merges with a free predecessor, then with a free successor. */
  function Release(h: nat, bs: seq<Block>, j: nat): seq<Block>
    requires j < |bs|
  {
    MergeOn(h, MergeBack(h, Unused(bs, j), j), ReleasedAt(bs, j))
  }

  lemma ReleaseTiles(h: nat, bs: seq<Block>, lo: nat, hi: nat, j: nat)
    requires Tiles(h, bs, lo, hi) && j < |bs|
    ensures Tiles(h, Release(h, bs, j), lo, hi)
  {
    var cs := Unused(bs, j);
    UnusedTiles(h, bs, lo, hi, j);
    if j > 0 && !cs[j - 1].used { MergeTiles(h, cs, lo, hi, j - 1); }
    var ds, i := MergeBack(h, cs, j), ReleasedAt(bs, j);
    if i + 1 < |ds| && !ds[i + 1].used { MergeTiles(h, ds, lo, hi, i); }
  }

  /** The first block after the freed one that stays as it is. */
  function AfterReleased(bs: seq<Block>, j: nat): (k: nat)
    requires j < |bs|
    ensures j < k <= |bs|
  {
    if j + 1 < |bs| && !bs[j + 1].used then j + 2 else j + 1
  }

  function MergedSize(h: nat, bs: seq<Block>, j: nat): nat
    requires j < |bs|
  {
    bs[j].size + (if j > 0 && !bs[j - 1].used then bs[j - 1].size + h else 0)
               + (if j + 1 < |bs| && !bs[j + 1].used then bs[j + 1].size + h else 0)
  }

  function Merged(h: nat, bs: seq<Block>, j: nat): (b: Block)
    requires j < |bs|
    ensures !b.used
  {
    Block(bs[ReleasedAt(bs, j)].addr, MergedSize(h, bs, j), false)
  }

  lemma MergeIsSplice(h: nat, a: seq<Block>, x: Block, y: Block, b: seq<Block>)
    ensures Merge(h, a + [x, y] + b, |a|) == a + [Block(x.addr, x.size + y.size + h, x.used)] + b
  {
    var s := a + [x, y] + b;
    assert s[..|a|] == a && s[|a| + 2..] == b;
  }

  /** The freed block with what it got from its predecessor. */
  function BackMerged(h: nat, bs: seq<Block>, j: nat): Block
    requires j < |bs|
  {
    if j > 0 && !bs[j - 1].used then Block(bs[j - 1].addr, bs[j - 1].size + bs[j].size + h, false)
    else Block(bs[j].addr, bs[j].size, false)
  }

  lemma MergeBackIsSplice(h: nat, bs: seq<Block>, j: nat)
    requires j < |bs|
    ensures MergeBack(h, Unused(bs, j), j) == bs[..ReleasedAt(bs, j)] + [BackMerged(h, bs, j)] + bs[j + 1..]
  {
    hide Merge;
    var x := Block(bs[j].addr, bs[j].size, false);
    if j > 0 && !bs[j - 1].used {
      assert Unused(bs, j) == bs[..j - 1] + [bs[j - 1], x] + bs[j + 1..];
      MergeIsSplice(h, bs[..j - 1], bs[j - 1], x, bs[j + 1..]);
    } else {
      assert Unused(bs, j) == bs[..j] + [x] + bs[j + 1..];
    }
  }

  lemma MergeOnIsSplice(h: nat, a: seq<Block>, x: Block, b: seq<Block>)
    ensures MergeOn(h, a + [x] + b, |a|) ==
            if b != [] && !b[0].used then a + [Block(x.addr, x.size + b[0].size + h, x.used)] + b[1..] else a + [x] + b
  {
    if b != [] && !b[0].used {
      assert a + [x] + b == a + [x, b[0]] + b[1..];
      MergeIsSplice(h, a, x, b[0], b[1..]);
    }
  }

  /** The blocks before, the merged block, and the blocks after. */
  lemma ReleaseIsSplice(h: nat, bs: seq<Block>, j: nat)
    requires j < |bs|
    ensures Release(h, bs, j) == bs[..ReleasedAt(bs, j)] + [Merged(h, bs, j)] + bs[AfterReleased(bs, j)..]
  {
    MergeBackIsSplice(h, bs, j);
    MergeOnIsSplice(h, bs[..ReleasedAt(bs, j)], BackMerged(h, bs, j), bs[j + 1..]);
  }

  // ---------- looking blocks up ----------

  /** The index of the block at `addr`, or the length of the list. */
  function Find(bs: seq<Block>, addr: nat): (i: nat)
    ensures i <= |bs| && (i < |bs| ==> bs[i].addr == addr)
    ensures i == |bs| ==> forall b <- bs :: b.addr != addr
  {
    if bs == [] || bs[0].addr == addr then 0 else 1 + Find(bs[1..], addr)
  }

  lemma FindFinds(h: nat, bs: seq<Block>, lo: nat, hi: nat, i: nat)
    requires Tiles(h, bs, lo, hi) && i < |bs| && h > 0
    ensures Find(bs, bs[i].addr) == i
  {
    assert bs[i] in bs;
    TilesDistinct(h, bs, lo, hi, Find(bs, bs[i].addr), i);
  }

  // ---------- which blocks are in use ----------

  function UsedBlocks(bs: seq<Block>): set<Block> { set b | b in bs && b.used }

  lemma UsedOfConcat(a: seq<Block>, b: seq<Block>)
    ensures UsedBlocks(a + b) == UsedBlocks(a) + UsedBlocks(b)
  {
  }

  /** The allocations of a list with a stretch in the middle. */
  lemma UsedOfParts(a: seq<Block>, m: seq<Block>, b: seq<Block>)
    ensures UsedBlocks(a + m + b) == UsedBlocks(a) + UsedBlocks(m) + UsedBlocks(b)
  {
    UsedOfConcat(a + m, b);
    UsedOfConcat(a, m);
  }

  /** No block outside the stretch `bs[i..k]` has the address of one inside. */
  lemma ElsewhereDiffers(h: nat, bs: seq<Block>, lo: nat, hi: nat, i: nat, k: nat, j: nat, b: Block)
    requires h > 0 && Tiles(h, bs, lo, hi) && i <= j < k <= |bs| && b in bs[..i] + bs[k..]
    ensures b.addr != bs[j].addr
  {
    if b in bs[..i] {
      var n :| 0 <= n < i && bs[n] == b;
      TilesOrder(h, bs, lo, hi, n, j);
    } else {
      var n :| k <= n < |bs| && bs[n] == b;
      TilesOrder(h, bs, lo, hi, j, n);
    }
  }

  lemma CarveUses(h: nat, slack: nat, bs: seq<Block>, lo: nat, hi: nat, j: nat, size: nat)
    requires h > 0 && Tiles(h, bs, lo, hi) && j < |bs| && Fits(bs[j], size)
    ensures var cs := Carve(h, slack, bs, j, size);
            && j < |cs| && UsedBlocks(cs) == UsedBlocks(bs) + {cs[j]}
            && forall b <- UsedBlocks(bs) :: b.addr != cs[j].addr
  {
    var cs := Carve(h, slack, bs, j, size);
    var taken := cs[j];
    var middle := if |cs| > |bs| then [taken, cs[j + 1]] else [taken];
    assert cs == bs[..j] + middle + bs[j + 1..];
    assert bs == bs[..j] + [bs[j]] + bs[j + 1..];
    UsedOfParts(bs[..j], middle, bs[j + 1..]);
    UsedOfParts(bs[..j], [bs[j]], bs[j + 1..]);
    assert UsedBlocks(middle) == {taken} && UsedBlocks([bs[j]]) == {};
    forall b | b in UsedBlocks(bs) ensures b.addr != taken.addr {
      ElsewhereDiffers(h, bs, lo, hi, j, j + 1, j, b);
    }
  }

  /** Of the blocks that merge, only the freed one was in use. */
  lemma MergedStretch(bs: seq<Block>, j: nat)
    requires j < |bs| && bs[j].used
    ensures UsedBlocks(bs[ReleasedAt(bs, j)..AfterReleased(bs, j)]) == {bs[j]}
  {
    var i, k := ReleasedAt(bs, j), AfterReleased(bs, j);
    assert bs[i..k] == (if i < j then [bs[i]] else []) + [bs[j]] + (if k > j + 1 then [bs[j + 1]] else []);
  }

  lemma ReleaseUses(h: nat, bs: seq<Block>, lo: nat, hi: nat, j: nat)
    requires h > 0 && Tiles(h, bs, lo, hi) && j < |bs| && bs[j].used
    ensures UsedBlocks(Release(h, bs, j)) == UsedBlocks(bs) - {bs[j]}
  {
    hide Release, Merged, UsedBlocks, ReleasedAt, AfterReleased, Tiles;
    var i, k := ReleasedAt(bs, j), AfterReleased(bs, j);
    UsedOfUnused(Merged(h, bs, j));
    ReleaseIsSplice(h, bs, j);
    MergedStretch(bs, j);
    assert bs == bs[..i] + bs[i..k] + bs[k..];
    UsedOfParts(bs[..i], bs[i..k], bs[k..]);
    UsedOfParts(bs[..i], [Merged(h, bs, j)], bs[k..]);
    UsedElsewhere(h, bs, lo, hi, i, k, j);
  }

  lemma UsedOfUnused(b: Block)
    requires !b.used
    ensures UsedBlocks([b]) == {}
  {
  }

  lemma UsedElsewhere(h: nat, bs: seq<Block>, lo: nat, hi: nat, i: nat, k: nat, j: nat)
    requires h > 0 && Tiles(h, bs, lo, hi) && i <= j < k <= |bs|
    ensures bs[j] !in UsedBlocks(bs[..i]) + UsedBlocks(bs[k..])
  {
    forall b | b in UsedBlocks(bs[..i]) + UsedBlocks(bs[k..]) ensures b != bs[j] {
      assert b in bs[..i] + bs[k..];
      ElsewhereDiffers(h, bs, lo, hi, i, k, j, b);
    }
  }

  // ---------- the blocks as a set ----------

  function Blocks(bs: seq<Block>): set<Block> { set b | b in bs }

  /** What becomes of a free block that serves a request: if it has more than a header and `slack` left, it
      is split, and otherwise it is used whole. */
  function Parts(h: nat, slack: nat, b: Block, size: nat): set<Block> {
    if b.size > size + h + slack then {Block(b.addr, size, true), Block(b.addr + h + size, b.size - (size + h), false)}
    else {Block(b.addr, b.size, true)}
  }

  lemma BlocksOfParts(a: seq<Block>, m: seq<Block>, b: seq<Block>)
    ensures Blocks(a + m + b) == Blocks(a + b) + Blocks(m)
  {
  }

  /** Taking a block replaces it by its parts, and no other. */
  lemma CarveExactly(h: nat, slack: nat, bs: seq<Block>, lo: nat, hi: nat, j: nat, size: nat)
    requires h > 0 && Tiles(h, bs, lo, hi) && j < |bs|
    ensures Blocks(Carve(h, slack, bs, j, size)) == Blocks(bs) - {bs[j]} + Parts(h, slack, bs[j], size)
  {
    var b := bs[j];
    var middle := if b.size > size + h + slack
                  then [Block(b.addr, size, true), Block(b.addr + h + size, b.size - size - h, false)]
                  else [Block(b.addr, b.size, true)];
    assert Carve(h, slack, bs, j, size) == bs[..j] + middle + bs[j + 1..];
    assert bs == bs[..j] + [b] + bs[j + 1..];
    assert Blocks(middle) == Parts(h, slack, b, size);
    hide Blocks, Parts, Carve, Tiles;
    BlocksOfParts(bs[..j], middle, bs[j + 1..]);
    BlocksOfParts(bs[..j], [b], bs[j + 1..]);
    OutsideIsNot(h, bs, lo, hi, j, j + 1, j);
    BlocksOfOne(b);
  }

  lemma BlocksOfOne(b: Block)
    ensures Blocks([b]) == {b}
  {
  }

  /** A block of a stretch is in no other place. */
  lemma OutsideIsNot(h: nat, bs: seq<Block>, lo: nat, hi: nat, i: nat, k: nat, j: nat)
    requires h > 0 && Tiles(h, bs, lo, hi) && i <= j < k <= |bs|
    ensures bs[j] !in Blocks(bs[..i] + bs[k..])
  {
    if bs[j] in bs[..i] + bs[k..] { ElsewhereDiffers(h, bs, lo, hi, i, k, j, bs[j]); }
  }

  /** `c` is free and lies right before or right behind `b`. */
  predicate Neighbour(h: nat, b: Block, c: Block) { !c.used && (End(h, c) == b.addr || c.addr == End(h, b)) }

  /** The block and its free neighbours. */
  function Joining(h: nat, bs: seq<Block>, b: Block): set<Block> { set c | c in bs && (c == b || Neighbour(h, b, c)) }

  /** `m` is a free block from the lowest start to the highest end of some. */
  predicate Spans(h: nat, m: Block, s: set<Block>) {
    && !m.used && (forall c <- s :: m.addr <= c.addr && End(h, c) <= End(h, m))
    && (exists c <- s :: c.addr == m.addr) && (exists c <- s :: End(h, c) == End(h, m))
  }

  lemma JoiningIsStretch(h: nat, bs: seq<Block>, lo: nat, hi: nat, j: nat)
    requires h > 0 && Tiles(h, bs, lo, hi) && j < |bs|
    ensures Joining(h, bs, bs[j]) == Blocks(bs[ReleasedAt(bs, j)..AfterReleased(bs, j)])
  {
    var i, k := ReleasedAt(bs, j), AfterReleased(bs, j);
    forall n | 0 <= n < |bs|
      ensures bs[n] == bs[j] || Neighbour(h, bs[j], bs[n]) <==> i <= n < k
    {
      NeighbourIsNext(h, bs, lo, hi, j, n);
    }
    forall b ensures b in Joining(h, bs, bs[j]) <==> b in Blocks(bs[i..k]) {
      if b in Joining(h, bs, bs[j]) {
        var n :| 0 <= n < |bs| && bs[n] == b;
        assert bs[i..k][n - i] == b;
      }
    }
  }

  lemma NeighbourIsNext(h: nat, bs: seq<Block>, lo: nat, hi: nat, j: nat, n: nat)
    requires h > 0 && Tiles(h, bs, lo, hi) && j < |bs| && n < |bs|
    ensures bs[n] == bs[j] <==> n == j
    ensures Neighbour(h, bs[j], bs[n]) <==> !bs[n].used && (n == j - 1 || n == j + 1)
  {
    if n < j - 1 {
      TilesOrder(h, bs, lo, hi, n, j - 1);
      assert bs[j - 1 + 1].addr == End(h, bs[j - 1]);
    } else if n > j + 1 {
      TilesOrder(h, bs, lo, hi, j + 1, n);
      assert bs[j + 1].addr == End(h, bs[j]);
    } else if n == j - 1 {
      assert bs[n + 1].addr == End(h, bs[n]);
    } else if n == j + 1 {
      assert bs[j + 1].addr == End(h, bs[j]);
    }
  }

  /** Giving a block back replaces it and its free neighbours by one free block over all of them, and no
      other. */
  lemma ReleaseExactly(h: nat, bs: seq<Block>, lo: nat, hi: nat, j: nat)
    requires h > 0 && Tiles(h, bs, lo, hi) && j < |bs|
    ensures var joined, m := Joining(h, bs, bs[j]), Merged(h, bs, j);
            Blocks(Release(h, bs, j)) == Blocks(bs) - joined + {m} && Spans(h, m, joined)
            && m.addr == bs[ReleasedAt(bs, j)].addr
  {
    hide Release, Merged, ReleasedAt, AfterReleased, Blocks, Joining, Spans, Tiles;
    var i, k, m := ReleasedAt(bs, j), AfterReleased(bs, j), Merged(h, bs, j);
    ReleaseIsSplice(h, bs, j);
    JoiningIsStretch(h, bs, lo, hi, j);
    MergedSpans(h, bs, lo, hi, j);
    MergedStarts(h, bs, j);
    assert bs == bs[..i] + bs[i..k] + bs[k..];
    BlocksOfParts(bs[..i], bs[i..k], bs[k..]);
    BlocksOfParts(bs[..i], [m], bs[k..]);
    BlocksOfOne(m);
    StretchIsApart(h, bs, lo, hi, i, k);
  }

  lemma MergedStarts(h: nat, bs: seq<Block>, j: nat)
    requires j < |bs|
    ensures Merged(h, bs, j).addr == bs[ReleasedAt(bs, j)].addr
  {
  }

  lemma StretchIsApart(h: nat, bs: seq<Block>, lo: nat, hi: nat, i: nat, k: nat)
    requires h > 0 && Tiles(h, bs, lo, hi) && i <= k <= |bs|
    ensures Blocks(bs[i..k]) !! Blocks(bs[..i] + bs[k..])
  {
    hide Tiles;
    forall b | b in Blocks(bs[i..k]) ensures b !in Blocks(bs[..i] + bs[k..]) {
      var n :| 0 <= n < k - i && bs[i..k][n] == b;
      OutsideIsNot(h, bs, lo, hi, i, k, i + n);
    }
  }

  lemma MergedSpans(h: nat, bs: seq<Block>, lo: nat, hi: nat, j: nat)
    requires h > 0 && Tiles(h, bs, lo, hi) && j < |bs|
    ensures Spans(h, Merged(h, bs, j), Blocks(bs[ReleasedAt(bs, j)..AfterReleased(bs, j)]))
  {
    var i, k, m := ReleasedAt(bs, j), AfterReleased(bs, j), Merged(h, bs, j);
    var s := bs[i..k];
    if i < j { assert bs[i + 1].addr == End(h, bs[i]); }
    if k > j + 1 { assert bs[j + 1].addr == End(h, bs[j]); }
    assert s[0] == bs[i] && s[|s| - 1] == bs[k - 1] && End(h, m) == End(h, bs[k - 1]);
    forall c | c in Blocks(s) ensures m.addr <= c.addr && End(h, c) <= End(h, m) {
      var n :| 0 <= n < |s| && s[n] == c;
      assert c == bs[i + n];
      if n > 0 { TilesOrder(h, bs, lo, hi, i, i + n); }
      if i + n < k - 1 { TilesOrder(h, bs, lo, hi, i + n, k - 1); }
    }
    assert s[0] in Blocks(s) && s[|s| - 1] in Blocks(s);
  }
}
