/** The loader's memory map: entries sorted by address in place, and touching entries of the same
    kind merged. */
module BootMap {
  import opened PageTables
  import opened BootSpec
  import PmmInit

  // ---------- what a map says about memory ----------

  /** How many entries of a kind cover a byte. */
  function Cover(s: seq<MmapEntry>, at: nat, kind: nat): nat {
    if s == [] then 0
    else
      var e := s[|s| - 1];
      Cover(s[..|s| - 1], at, kind) + if e.kind == kind && Covers(e, at) then 1 else 0
  }

  /** The bytes of all entries of a kind together. */
  function Total(s: seq<MmapEntry>, kind: nat): nat {
    if s == [] then 0
    else Total(s[..|s| - 1], kind) + if s[|s| - 1].kind == kind then s[|s| - 1].size else 0
  }

  /** Two maps that cover every byte with the same kinds, equally often, and have the same totals. */
  ghost predicate SameMemory(s: seq<MmapEntry>, t: seq<MmapEntry>) {
    && (forall at: nat, kind: nat :: Cover(s, at, kind) == Cover(t, at, kind))
    && (forall kind: nat :: Total(s, kind) == Total(t, kind))
  }

  /** The end of every entry is a machine word. */
  predicate AllBounded(s: seq<MmapEntry>) { forall i | 0 <= i < |s| :: s[i].address + s[i].size < WORDS }

  predicate SortedMap(s: seq<MmapEntry>) { forall i, j | 0 <= i < j < |s| :: s[i].address <= s[j].address }

  /** The test of the merging loop, with the machine's addition. */
  predicate Touching(e: MmapEntry, d: MmapEntry) { e.kind == d.kind && Wrap(e.address + e.size) == d.address }

  predicate NoneTouch(s: seq<MmapEntry>) { forall i | 0 <= i < |s| - 1 :: !Touching(s[i], s[i + 1]) }

  lemma {:induction false} CoverConcat(s: seq<MmapEntry>, t: seq<MmapEntry>, at: nat, kind: nat)
    ensures Cover(s + t, at, kind) == Cover(s, at, kind) + Cover(t, at, kind)
    ensures Total(s + t, kind) == Total(s, kind) + Total(t, kind)
  {
    if t == [] {
      assert s + t == s;
    } else {
      CoverConcat(s, t[..|t| - 1], at, kind);
      assert (s + t)[..|s + t| - 1] == s + t[..|t| - 1];
    }
  }

  lemma CoverPair(e: MmapEntry, d: MmapEntry, at: nat, kind: nat)
    ensures Cover([e, d], at, kind) == Cover([e], at, kind) + Cover([d], at, kind)
    ensures Total([e, d], kind) == Total([e], kind) + Total([d], kind)
    ensures Cover([e], at, kind) == if e.kind == kind && Covers(e, at) then 1 else 0
    ensures Total([e], kind) == if e.kind == kind then e.size else 0
  {
    assert [e] + [d] == [e, d] && [e][..0] == [];
    CoverConcat([e], [d], at, kind);
  }

  /** Replacing part of a map by something that says the same. */
  lemma ReplacePart(s: seq<MmapEntry>, a: seq<MmapEntry>, b: seq<MmapEntry>, t: seq<MmapEntry>)
    requires SameMemory(a, b)
    ensures SameMemory(s + a + t, s + b + t)
  {
    forall at: nat, kind: nat ensures Cover(s + a + t, at, kind) == Cover(s + b + t, at, kind) {
      ReplacePartAt(s, a, b, t, at, kind);
    }
    forall kind: nat ensures Total(s + a + t, kind) == Total(s + b + t, kind) { ReplacePartAt(s, a, b, t, 0, kind); }
  }

  lemma ReplacePartAt(s: seq<MmapEntry>, a: seq<MmapEntry>, b: seq<MmapEntry>, t: seq<MmapEntry>, at: nat, kind: nat)
    requires Cover(a, at, kind) == Cover(b, at, kind) && Total(a, kind) == Total(b, kind)
    ensures Cover(s + a + t, at, kind) == Cover(s + b + t, at, kind)
    ensures Total(s + a + t, kind) == Total(s + b + t, kind)
  {
    CoverConcat(s + a, t, at, kind);
    CoverConcat(s, a, at, kind);
    CoverConcat(s + b, t, at, kind);
    CoverConcat(s, b, at, kind);
  }

  lemma {:induction false} CoverCounts(s: seq<MmapEntry>, at: nat, kind: nat)
    ensures Cover(s, at, kind) > 0 <==> exists i :: 0 <= i < |s| && s[i].kind == kind && Covers(s[i], at)
  {
    if s != [] {
      var front, e := s[..|s| - 1], s[|s| - 1];
      CoverCounts(front, at, kind);
      if Cover(front, at, kind) > 0 {
        var i :| 0 <= i < |front| && front[i].kind == kind && Covers(front[i], at);
        assert s[i] == front[i];
      } else {
        assert forall i | 0 <= i < |front| :: s[i] == front[i];
      }
    }
  }

  /** Maps that say the same give the kernel's frame allocator the same frames. */
  lemma SameFramesUsable(s: seq<MmapEntry>, t: seq<MmapEntry>, f: nat)
    requires SameMemory(s, t)
    ensures PmmInit.Usable(s, f) <==> PmmInit.Usable(t, f)
  {
    CoverCounts(s, f * 4096, MMAP_FREE);
    CoverCounts(t, f * 4096, MMAP_FREE);
  }

  // ---------- sorting ----------

  function SwapAt(s: seq<MmapEntry>, i: nat): (t: seq<MmapEntry>)
    requires i + 1 < |s|
    ensures |t| == |s|
  {
    s[i := s[i + 1]][i + 1 := s[i]]
  }

  predicate Inverted(s: seq<MmapEntry>, i: nat)
    requires i + 1 < |s|
  {
    s[i].address > s[i + 1].address
  }

  /** One pass of the bubble sort, up to index `i`. */
  function Bubbled(s: seq<MmapEntry>, i: nat): (t: seq<MmapEntry>)
    requires i == 0 || i < |s|
    ensures |t| == |s|
  {
    if i == 0 then s
    else
      var t := Bubbled(s, i - 1);
      if Inverted(t, i - 1) then SwapAt(t, i - 1) else t
  }

  function Pass(s: seq<MmapEntry>): (t: seq<MmapEntry>)
    ensures |t| == |s|
  {
    if s == [] then s else Bubbled(s, |s| - 1)
  }

  /** The last `x` entries are in their final places. */
  predicate InPlace(s: seq<MmapEntry>, x: int) {
    forall i, j | 0 <= i < j < |s| && |s| - x <= j :: s[i].address <= s[j].address
  }

  /** Entry `m` is as high as those before it. */
  predicate Highest(s: seq<MmapEntry>, m: int) {
    m < |s| && forall k | 0 <= k < m :: s[k].address <= s[m].address
  }

  lemma SwapSame(s: seq<MmapEntry>, i: nat)
    requires i + 1 < |s|
    ensures SameMemory(s, SwapAt(s, i)) && multiset(s) == multiset(SwapAt(s, i))
  {
    var a, b := [s[i], s[i + 1]], [s[i + 1], s[i]];
    forall at: nat, kind: nat ensures Cover(a, at, kind) == Cover(b, at, kind) && Total(a, kind) == Total(b, kind) {
      CoverPair(s[i], s[i + 1], at, kind);
      CoverPair(s[i + 1], s[i], at, kind);
    }
    forall kind: nat ensures Total(a, kind) == Total(b, kind) {
      CoverPair(s[i], s[i + 1], 0, kind);
      CoverPair(s[i + 1], s[i], 0, kind);
    }
    ReplacePart(s[..i], a, b, s[i + 2..]);
    assert s == s[..i] + a + s[i + 2..] && SwapAt(s, i) == s[..i] + b + s[i + 2..];
    assert multiset(a) == multiset(b);
  }

  lemma {:induction false} BubbledSame(s: seq<MmapEntry>, i: nat)
    requires i == 0 || i < |s|
    ensures SameMemory(s, Bubbled(s, i)) && multiset(s) == multiset(Bubbled(s, i))
  {
    if i > 0 {
      BubbledSame(s, i - 1);
      SwapSame(Bubbled(s, i - 1), i - 1);
    }
  }

  /** A pass carries the highest entry of the front part to its end, and leaves the placed ones. */
  lemma {:induction false} BubbledSettles(s: seq<MmapEntry>, i: nat, x: nat)
    requires i < |s| && x < |s| && InPlace(s, x)
    ensures var t := Bubbled(s, i);
            InPlace(t, x) && Highest(t, i) && (i >= |s| - x - 1 ==> Highest(t, |s| - x - 1))
  {
    if i > 0 { BubbledSettles(s, i - 1, x); }
  }

  lemma PassSettles(s: seq<MmapEntry>, x: nat)
    requires x < |s| && InPlace(s, x)
    ensures InPlace(Pass(s), x + 1)
  {
    BubbledSettles(s, |s| - 1, x);
  }

  /** A pass that swaps nothing has seen a sorted map. */
  lemma {:induction false} AdjacentSorted(s: seq<MmapEntry>, i: nat, j: nat)
    requires (forall k | 0 <= k < |s| - 1 :: !Inverted(s, k)) && i < j < |s|
    ensures s[i].address <= s[j].address
  {
    assert !Inverted(s, j - 1);
    if i < j - 1 { AdjacentSorted(s, i, j - 1); }
  }

  /** One pass over the array, and whether it changed nothing. */
  method BubblePass(mmap: array<MmapEntry>, n: nat) returns (sorted: bool)
    requires 1 <= n <= mmap.Length
    modifies mmap
    ensures mmap[..n] == Pass(old(mmap[..n])) && mmap[n..] == old(mmap[n..])
    ensures sorted ==> SortedMap(mmap[..n])
  {
    ghost var s := mmap[..n];
    sorted := true;
    for i := 0 to n - 1
      invariant mmap[..n] == Bubbled(s, i) && mmap[n..] == old(mmap[n..])
      invariant sorted ==> mmap[..n] == s && forall k | 0 <= k < i :: !Inverted(s, k)
    {
      if mmap[i].address > mmap[i + 1].address {
        sorted := false;
        var temp := mmap[i + 1];
        mmap[i + 1] := mmap[i];
        mmap[i] := temp;
      }
    }
    if sorted {
      forall i, j | 0 <= i < j < n ensures s[i].address <= s[j].address { AdjacentSorted(s, i, j); }
    }
  }

  lemma SameIsTransitive(s: seq<MmapEntry>, t: seq<MmapEntry>, u: seq<MmapEntry>)
    requires SameMemory(s, t) && SameMemory(t, u)
    ensures SameMemory(s, u)
  {
  }

  /** The bubble sort of `BuildMemoryMap`, which stops after the first pass without a swap. */
  method Sort(mmap: array<MmapEntry>, n: nat)
    requires 1 <= n <= mmap.Length
    modifies mmap
    ensures SortedMap(mmap[..n]) && multiset(mmap[..n]) == multiset(old(mmap[..n])) && mmap[n..] == old(mmap[n..])
    ensures SameMemory(old(mmap[..n]), mmap[..n])
  {
    hide SameMemory, Pass, InPlace, SortedMap;
    ghost var s := mmap[..n];
    SameIsReflexive(s);
    assert InPlace(s, 0) by { NothingInPlace(s); }
    for x := 0 to n
      invariant InPlace(mmap[..n], x) && SameMemory(s, mmap[..n]) && mmap[n..] == old(mmap[n..])
      invariant multiset(mmap[..n]) == multiset(s)
    {
      ghost var t := mmap[..n];
      var sorted := BubblePass(mmap, n);
      PassSettles(t, x);
      PassSame(t);
      SameIsTransitive(s, t, mmap[..n]);
      if sorted {
        return;
      }
    }
    AllInPlace(mmap[..n]);
  }

  lemma SameIsReflexive(s: seq<MmapEntry>)
    ensures SameMemory(s, s)
  {
  }

  lemma PassSame(s: seq<MmapEntry>)
    ensures SameMemory(s, Pass(s)) && multiset(Pass(s)) == multiset(s)
  {
    if s != [] { BubbledSame(s, |s| - 1); }
  }

  lemma NothingInPlace(s: seq<MmapEntry>)
    ensures InPlace(s, 0)
  {
  }

  lemma AllInPlace(s: seq<MmapEntry>)
    requires InPlace(s, |s|)
    ensures SortedMap(s)
  {
  }

  // ---------- merging ----------

  /** The entries `i` and `i + 1` made one, and those behind moved up. */
  function Joined(s: seq<MmapEntry>, i: nat): (t: seq<MmapEntry>)
    requires i + 1 < |s|
    ensures |t| == |s| - 1
  {
    s[..i] + [s[i].(size := Wrap(s[i].size + s[i + 1].size))] + s[i + 2..]
  }

  /** Within a sorted map of bounded entries the machine's additions do not wrap. */
  lemma TouchingIsExact(e: MmapEntry, d: MmapEntry)
    requires e.address + e.size < WORDS && d.address + d.size < WORDS && Touching(e, d)
    ensures e.address + e.size == d.address && Wrap(e.size + d.size) == e.size + d.size
  {
  }

  lemma JoinedAt(s: seq<MmapEntry>, i: nat)
    requires i + 1 < |s|
    ensures var t := Joined(s, i);
            && (forall k | 0 <= k < i :: t[k] == s[k])
            && t[i] == s[i].(size := Wrap(s[i].size + s[i + 1].size))
            && (forall k | i < k < |t| :: t[k] == s[k + 1])
  {
  }

  /** The joined map is sorted and bounded, and no pair before the joined one has come to touch. */
  lemma JoinedSorted(s: seq<MmapEntry>, i: nat)
    requires i + 1 < |s| && AllBounded(s) && SortedMap(s) && Touching(s[i], s[i + 1])
    ensures AllBounded(Joined(s, i)) && SortedMap(Joined(s, i))
    ensures forall k | 0 <= k < i && !Touching(s[k], s[k + 1]) :: !Touching(Joined(s, i)[k], Joined(s, i)[k + 1])
  {
    JoinedAt(s, i);
    TouchingIsExact(s[i], s[i + 1]);
    hide Joined;
  }

  lemma JoinedSame(s: seq<MmapEntry>, i: nat)
    requires i + 1 < |s| && AllBounded(s) && Touching(s[i], s[i + 1])
    ensures SameMemory(s, Joined(s, i))
  {
    var d := s[i].(size := Wrap(s[i].size + s[i + 1].size));
    PairSame(s[i], s[i + 1]);
    ReplacePart(s[..i], [s[i], s[i + 1]], [d], s[i + 2..]);
    assert s == s[..i] + [s[i], s[i + 1]] + s[i + 2..] && Joined(s, i) == s[..i] + [d] + s[i + 2..];
  }

  lemma PairSame(e: MmapEntry, d: MmapEntry)
    requires e.address + e.size < WORDS && d.address + d.size < WORDS && Touching(e, d)
    ensures SameMemory([e, d], [e.(size := Wrap(e.size + d.size))])
  {
    TouchingIsExact(e, d);
    var m := e.(size := Wrap(e.size + d.size));
    forall at: nat, kind: nat ensures Cover([e, d], at, kind) == Cover([m], at, kind) && Total([e, d], kind) == Total([m], kind) {
      CoverPair(e, d, at, kind);
      CoverPair(m, m, at, kind);
    }
    forall kind: nat ensures Total([e, d], kind) == Total([m], kind) {
      CoverPair(e, d, 0, kind);
      CoverPair(m, m, 0, kind);
    }
  }

  /** The merging loop, with an index that wraps below 0 and comes back.  It takes one step less
      after each merge, so it ends. */
  method MergeNeighbours(mmap: array<MmapEntry>, n: Word) returns (n': Word)
    requires 1 <= n <= mmap.Length && SortedMap(mmap[..n]) && AllBounded(mmap[..n])
    modifies mmap
    ensures 1 <= n' <= n && SortedMap(mmap[..n']) && AllBounded(mmap[..n'])
    ensures SameMemory(old(mmap[..n]), mmap[..n']) && NoneTouch(mmap[..n']) && StaysGranular(old(mmap[..n]), mmap[..n'])
  {
    hide SameMemory, SortedMap, AllBounded, Touching, Joined, StaysGranular, QuietBelow, Wrap;
    ghost var s := mmap[..n];
    SameIsReflexive(s);
    StaysGranularThrough(s, s, s);
    NothingBelow(s);
    n' := n;
    var i: Word := 0;
    StepWraps(n' - 1);
    while i < Wrap(n' - 1)
      invariant 1 <= n' <= n && 0 <= i <= n' - 1 && Wrap(n' - 1) == n' - 1
      invariant SortedMap(mmap[..n']) && AllBounded(mmap[..n']) && SameMemory(s, mmap[..n']) && StaysGranular(s, mmap[..n'])
      invariant QuietBelow(mmap[..n'], i)
      decreases n' - 1 - i
    {
      ghost var t := mmap[..n'];
      assert t[i] == mmap[i] && t[i + 1] == mmap[i + 1];
      StepWraps(i);
      StepWraps(n' - 2);
      if Touching(mmap[i], mmap[i + 1]) {
        JoinedSame(t, i);
        JoinedSorted(t, i);
        JoinedGranular(t, i);
        JoinedQuiet(t, i);
        SameIsTransitive(s, t, Joined(t, i));
        StaysGranularThrough(s, t, Joined(t, i));
        JoinAt(mmap, n', i);
        n' := n' - 1;
        i := Wrap(i - 1);
      } else {
        QuietStep(t, i);
      }
      i := Wrap(i + 1);
    }
    QuietIsNone(mmap[..n']);
  }

  /** No pair of neighbours below index `i` can be merged. */
  predicate QuietBelow(s: seq<MmapEntry>, i: nat) {
    i < |s| && forall k | 0 <= k < i :: !Touching(s[k], s[k + 1])
  }

  lemma NothingBelow(s: seq<MmapEntry>)
    requires s != []
    ensures QuietBelow(s, 0)
  {
  }

  lemma QuietStep(s: seq<MmapEntry>, i: nat)
    requires QuietBelow(s, i) && i + 1 < |s| && !Touching(s[i], s[i + 1])
    ensures QuietBelow(s, i + 1)
  {
  }

  lemma QuietIsNone(s: seq<MmapEntry>)
    requires s != [] && QuietBelow(s, |s| - 1)
    ensures NoneTouch(s)
  {
  }

  /** A merge changes neither address nor kind of the entry it keeps. */
  lemma JoinedQuiet(s: seq<MmapEntry>, i: nat)
    requires i + 1 < |s| && QuietBelow(s, i)
    ensures QuietBelow(Joined(s, i), i)
  {
    JoinedAt(s, i);
  }

  /** One step back and forth, also below 0, and one step on. */
  lemma StepWraps(i: Word)
    ensures Wrap(Wrap(i - 1) + 1) == i == Wrap(i) && (i + 1 < WORDS ==> Wrap(i + 1) == i + 1)
  {
  }

  method JoinAt(mmap: array<MmapEntry>, n: nat, i: nat)
    requires i + 1 < n <= mmap.Length
    modifies mmap
    ensures mmap[..n - 1] == Joined(old(mmap[..n]), i)
  {
    hide Joined;
    ghost var s := mmap[..n];
    JoinedAt(s, i);
    mmap[i] := mmap[i].(size := Wrap(mmap[i].size + mmap[i + 1].size));
    forall k | i + 1 <= k < n - 1 { mmap[k] := mmap[k + 1]; }
    forall k | 0 <= k < n - 1 ensures mmap[k] == Joined(s, i)[k] {
      assert k < i ==> mmap[k] == s[k];
      assert k > i ==> mmap[k] == s[k + 1];
    }
  }

  // ---------- what the frame allocator asks for ----------

  /** The free entries are whole pages of existing memory. */
  predicate Granular(s: seq<MmapEntry>, frames: nat) {
    forall i | 0 <= i < |s| && s[i].kind == MMAP_FREE :: PmmInit.PageGranular(s[i], frames)
  }

  ghost predicate StaysGranular(s: seq<MmapEntry>, t: seq<MmapEntry>) {
    forall frames: nat | Granular(s, frames) :: Granular(t, frames)
  }

  lemma StaysGranularThrough(s: seq<MmapEntry>, t: seq<MmapEntry>, u: seq<MmapEntry>)
    ensures StaysGranular(s, s) && (StaysGranular(s, t) && StaysGranular(t, u) ==> StaysGranular(s, u))
  {
    hide Granular;
  }

  lemma PermutedGranular(s: seq<MmapEntry>, t: seq<MmapEntry>)
    requires multiset(s) == multiset(t)
    ensures StaysGranular(s, t)
  {
    hide PmmInit.PageGranular;
    forall frames: nat | Granular(s, frames) ensures Granular(t, frames) {
      forall i | 0 <= i < |t| && t[i].kind == MMAP_FREE ensures PmmInit.PageGranular(t[i], frames) {
        assert t[i] in multiset(t);
        assert t[i] in s;
      }
    }
  }

  lemma JoinedGranular(s: seq<MmapEntry>, i: nat)
    requires i + 1 < |s| && AllBounded(s) && Touching(s[i], s[i + 1])
    ensures StaysGranular(s, Joined(s, i))
  {
    JoinedAt(s, i);
    TouchingIsExact(s[i], s[i + 1]);
    hide Joined, AllBounded, Wrap;
    var t := Joined(s, i);
    forall frames: nat | Granular(s, frames) ensures Granular(t, frames) {
      forall k | 0 <= k < |t| && t[k].kind == MMAP_FREE ensures PmmInit.PageGranular(t[k], frames) {
        if k == i {
          assert PmmInit.PageGranular(s[i], frames) && PmmInit.PageGranular(s[i + 1], frames);
        } else {
          assert PmmInit.PageGranular(s[if k < i then k else k + 1], frames);
        }
      }
    }
  }

  /** No byte lies in two free entries. */
  ghost predicate FreeOnce(s: seq<MmapEntry>) { forall at: nat :: Cover(s, at, MMAP_FREE) <= 1 }

  /** No two of the free entries overlap. */
  predicate FreeApart(s: seq<MmapEntry>) {
    forall i, j | 0 <= i < j < |s| && s[i].kind == s[j].kind == MMAP_FREE :: !PmmInit.Overlap(s[i], s[j])
  }

  lemma {:induction false} ApartCoverOnce(s: seq<MmapEntry>, at: nat)
    requires FreeApart(s)
    ensures Cover(s, at, MMAP_FREE) <= 1
  {
    if s != [] {
      var front := s[..|s| - 1];
      ApartCoverOnce(front, at);
      CoverCounts(front, at, MMAP_FREE);
    }
  }

  lemma {:induction false} TwoCover(s: seq<MmapEntry>, i: nat, j: nat, at: nat)
    requires i < j < |s| && s[i].kind == s[j].kind == MMAP_FREE && Covers(s[i], at) && Covers(s[j], at)
    ensures Cover(s, at, MMAP_FREE) >= 2
  {
    var front := s[..|s| - 1];
    assert front[i] == s[i];
    if j == |s| - 1 { CoverCounts(front, at, MMAP_FREE); } else { TwoCover(front, i, j, at); }
  }

  lemma ApartIsOnce(s: seq<MmapEntry>)
    ensures FreeApart(s) <==> FreeOnce(s)
  {
    if FreeApart(s) {
      forall at: nat ensures Cover(s, at, MMAP_FREE) <= 1 { ApartCoverOnce(s, at); }
    }
    if FreeOnce(s) {
      forall i, j | 0 <= i < j < |s| && s[i].kind == s[j].kind == MMAP_FREE ensures !PmmInit.Overlap(s[i], s[j]) {
        var at := if s[i].address < s[j].address then s[j].address else s[i].address;
        if PmmInit.Overlap(s[i], s[j]) { TwoCover(s, i, j, at); }
      }
    }
  }

  /** A map that says the same in whole pages is as good for the frame allocator. */
  lemma UsualStays(s: seq<MmapEntry>, t: seq<MmapEntry>, frames: nat)
    requires SameMemory(s, t) && StaysGranular(s, t) && PmmInit.Usual(s, frames)
    ensures PmmInit.Usual(t, frames)
  {
    hide PmmInit.PageGranular, PmmInit.Overlap, Cover;
    ApartIsOnce(s);
    ApartIsOnce(t);
    assert Granular(s, frames);
    assert forall at: nat :: Cover(s, at, MMAP_FREE) == Cover(t, at, MMAP_FREE);
    assert Granular(t, frames) && FreeApart(t);
  }

  // ---------- the whole of `BuildMemoryMap` ----------

  /** The firmware's memory types. */
  datatype EfiType =
    | ReservedMemory | UnusableMemory | AcpiMemoryNvs | PalCode
    | BootServicesCode | BootServicesData | LoaderCode | LoaderData
    | Conventional | AcpiReclaim | RuntimeServicesCode | RuntimeServicesData
    | MemoryMappedIo | MemoryMappedIoPortSpace | OtherMemory

  datatype Descriptor = Descriptor(efiType: EfiType, physicalStart: Word, numberOfPages: Word)

  function KindOf(t: EfiType): nat {
    match t
    case ReservedMemory | UnusableMemory | AcpiMemoryNvs | PalCode => MMAP_RESERVED
    case BootServicesCode | BootServicesData | LoaderCode | LoaderData => MMAP_LOADER
    case Conventional => MMAP_FREE
    case AcpiReclaim => MMAP_ACPI
    case RuntimeServicesCode | RuntimeServicesData => MMAP_UEFI_RUNTIME
    case MemoryMappedIo | MemoryMappedIoPortSpace => MMAP_MMIO
    case OtherMemory => MMAP_OTHER
  }

  function EntryOf(d: Descriptor): MmapEntry {
    MmapEntry(d.physicalStart, Wrap(d.numberOfPages * 4096), KindOf(d.efiType))
  }

  function EntriesOf(ds: seq<Descriptor>): (s: seq<MmapEntry>)
    ensures |s| == |ds|
  {
    seq(|ds|, i requires 0 <= i < |ds| => EntryOf(ds[i]))
  }

  /** From the firmware's descriptors, whose ranges do not wrap, to a sorted map in which no two
      neighbours could still be merged, and which says of memory exactly what the descriptors said.  If
      these suit the frame allocator, the map does. */
  method BuildMemoryMap(ds: seq<Descriptor>, mmap: array<MmapEntry>) returns (n: Word)
    requires 1 <= |ds| <= mmap.Length && |ds| < WORDS
    requires forall d <- ds :: d.physicalStart + d.numberOfPages * 4096 < WORDS
    modifies mmap
    ensures 1 <= n <= |ds| && SortedMap(mmap[..n]) && NoneTouch(mmap[..n])
    ensures SameMemory(EntriesOf(ds), mmap[..n])
    ensures forall frames: nat | PmmInit.Usual(EntriesOf(ds), frames) :: PmmInit.Usual(mmap[..n], frames)
    ensures forall f: nat :: PmmInit.Usable(mmap[..n], f) <==> f != 0 && ConventionalAt(ds, f * 4096)
  {
    n := |ds|;
    for i := 0 to |ds|
      invariant mmap[..i] == EntriesOf(ds)[..i]
    {
      mmap[i] := EntryOf(ds[i]);
    }
    hide SameMemory, SortedMap, EntriesOf, NoneTouch, Granular, PmmInit.Usual;
    ghost var s := mmap[..n];
    assert EntriesOf(ds)[..|ds|] == EntriesOf(ds);
    Sort(mmap, n);
    ghost var t := mmap[..n];
    BoundedDescriptors(ds);
    PermutedBounded(s, t);
    PermutedGranular(s, t);
    n := MergeNeighbours(mmap, n);
    SameIsTransitive(s, t, mmap[..n]);
    forall frames: nat | PmmInit.Usual(s, frames) ensures PmmInit.Usual(mmap[..n], frames) {
      UsualStays(s, mmap[..n], frames);
    }
    forall f: nat ensures PmmInit.Usable(mmap[..n], f) <==> f != 0 && ConventionalAt(ds, f * 4096) {
      SameFramesUsable(s, mmap[..n], f);
      ConventionalUsable(ds, f);
    }
  }

  /** The firmware says of a byte that it lies in conventional memory. */
  predicate ConventionalAt(ds: seq<Descriptor>, at: nat) {
    exists d <- ds :: d.efiType == Conventional && d.physicalStart <= at < d.physicalStart + d.numberOfPages * 4096
  }

  lemma ConventionalUsable(ds: seq<Descriptor>, f: nat)
    requires forall d <- ds :: d.physicalStart + d.numberOfPages * 4096 < WORDS
    ensures PmmInit.Usable(EntriesOf(ds), f) <==> f != 0 && ConventionalAt(ds, f * 4096)
  {
    var s := EntriesOf(ds);
    if f != 0 && ConventionalAt(ds, f * 4096) {
      var d :| d in ds && d.efiType == Conventional && d.physicalStart <= f * 4096 < d.physicalStart + d.numberOfPages * 4096;
      var i :| 0 <= i < |ds| && ds[i] == d;
      assert s[i].kind == MMAP_FREE && Covers(s[i], f * 4096);
    }
    if PmmInit.Usable(s, f) {
      var i :| 0 <= i < |s| && s[i].kind == MMAP_FREE && Covers(s[i], f * 4096);
      assert ds[i] in ds && ds[i].efiType == Conventional;
    }
  }

  lemma BoundedDescriptors(ds: seq<Descriptor>)
    requires forall d <- ds :: d.physicalStart + d.numberOfPages * 4096 < WORDS
    ensures AllBounded(EntriesOf(ds))
  {
    forall i | 0 <= i < |ds| ensures EntriesOf(ds)[i].address + EntriesOf(ds)[i].size < WORDS { assert ds[i] in ds; }
  }

  lemma PermutedBounded(s: seq<MmapEntry>, t: seq<MmapEntry>)
    requires multiset(s) == multiset(t) && AllBounded(s)
    ensures AllBounded(t)
  {
    forall i | 0 <= i < |t| ensures t[i].address + t[i].size < WORDS {
      assert t[i] in multiset(t);
      assert t[i] in s;
    }
  }
}
