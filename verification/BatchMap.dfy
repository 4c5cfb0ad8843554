/** The loader's `MapPages`: segments of consecutive pages, mapped with tables from a small pool
    of frames.
  */
module BatchMap {
  import opened Basics
  import opened PageTables
  import opened PageRights

  datatype Segment = Segment(virt: Word, phys: Word, pages: nat)

  /** The addresses of page `j` of a segment. */
  function VirtOf(s: Segment, j: nat): Word { Wrap(s.virt + j * 4096) }
  function PhysOf(s: Segment, j: nat): Word { Wrap(s.phys + j * 4096) }

  /** Memory and what is left of the pool, after the first `n` pages of a segment. */
  function MapRun(mem: Memory, root: Top, s: Segment, n: nat, pool: seq<nat>): Descent {
    if n == 0 then Descent(mem, root.frame, pool)
    else
      var d := MapRun(mem, root, s, n - 1, pool);
      Install(d.mem, root, PageOf(VirtOf(s, n - 1)), PhysOf(s, n - 1), d.pool)
  }

  function MapSegments(mem: Memory, root: Top, segs: seq<Segment>, pool: seq<nat>): Descent {
    if segs == [] then Descent(mem, root.frame, pool)
    else
      var d := MapSegments(mem, root, segs[..|segs| - 1], pool);
      MapRun(d.mem, root, segs[|segs| - 1], segs[|segs| - 1].pages, d.pool)
  }

  // ---------- what the mappings should mean ----------

  /** The last of the first `n` pages of a segment that is page `q`, if any. */
  function LastIn(s: Segment, n: nat, q: Page): Option<nat> {
    if n == 0 then None
    else if PageOf(VirtOf(s, n - 1)) == q then Some(Target(PhysOf(s, n - 1)))
    else LastIn(s, n - 1, q)
  }

  /** The frame that a list of segments gives to page `q`; later segments win. */
  function Assigned(segs: seq<Segment>, q: Page): Option<nat> {
    if segs == [] then None
    else
      var last := segs[|segs| - 1];
      if LastIn(last, last.pages, q).Some? then LastIn(last, last.pages, q) else Assigned(segs[..|segs| - 1], q)
  }

  function Or(a: Option<nat>, b: Option<nat>): Option<nat> { if a.Some? then a else b }

  // ---------- how many tables a run needs ----------

  /** The key of the level-`k` table that page number `n` needs. */
  function Key(n: nat, k: nat): nat
    requires 1 <= k <= 3
  {
    if k == 1 then n / 512 else if k == 2 then n / 0x4_0000 else n / 0x800_0000
  }

  /** Tables of level `k` for the pages `first .. first + n`. */
  function Span(first: nat, n: nat, k: nat): nat
    requires 1 <= k <= 3
  {
    if n == 0 then 0 else Key(first + n - 1, k) - Key(first, k) + 1
  }

  /** ... which no placement of the run exceeds. */
  function CeilDiv(n: nat, d: nat): nat
    requires d > 0
  {
    (n + d - 1) / d
  }

  function Bound(n: nat): nat {
    if n == 0 then 0 else CeilDiv(n - 1, 512) + CeilDiv(n - 1, 0x4_0000) + CeilDiv(n - 1, 0x800_0000) + 3
  }

  lemma SpanBound(first: nat, n: nat)
    ensures Span(first, n, 1) + Span(first, n, 2) + Span(first, n, 3) <= Bound(n)
  {
    if n > 0 {
      QuotientGap(first, n - 1, 512);
      QuotientGap(first, n - 1, 0x4_0000);
      QuotientGap(first, n - 1, 0x800_0000);
    }
  }

  lemma MulKeepsOrder(x: int, y: int, d: nat)
    requires x >= y
    ensures x * d >= y * d
  {
  }

  lemma QuotientGap(a: nat, g: nat, d: nat)
    requires d > 0
    ensures (a + g) / d - a / d <= CeilDiv(g, d)
  {
    var qa, q, c := a / d, (a + g) / d, CeilDiv(g, d);
    assert (q - qa) * d == g + a % d - (a + g) % d;
    assert (c + 1) * d >= g + d;
    if q - qa >= c + 1 { MulKeepsOrder(q - qa, c + 1, d); }
  }

  // ---------- counting the tables of a run ----------

  /** The indices of an address, from its page number. */
  lemma IndicesFromPageNumber(v: Word)
    ensures var n, p := v / 4096, PageOf(v);
            && p.i1 == n % 512 && p.i2 == Key(n, 1) % 512
            && p.i3 == Key(n, 2) % 512 && p.i4 == Key(n, 3) % 512
  {
    PageOfNumber(v);
  }

  lemma KeysNest(n: nat)
    ensures Key(n, 2) == Key(n, 1) / 512 && Key(n, 3) == Key(n, 2) / 512
  {
    assert n / 512 / 512 == n / 0x4_0000;
    assert n / 0x4_0000 / 512 == n / 0x800_0000;
  }

  /** Pages with the same key share the table. */
  lemma KeyNamesTable(va: Word, vb: Word)
    ensures var n, m, p, q := va / 4096, vb / 4096, PageOf(va), PageOf(vb);
            && (Key(n, 3) == Key(m, 3) ==> p.i4 == q.i4)
            && (Key(n, 2) == Key(m, 2) ==> p.i4 == q.i4 && p.i3 == q.i3)
            && (Key(n, 1) == Key(m, 1) ==> p.i4 == q.i4 && p.i3 == q.i3 && p.i2 == q.i2)
  {
    IndicesFromPageNumber(va);
    IndicesFromPageNumber(vb);
    KeysNest(va / 4096);
    KeysNest(vb / 4096);
    hide Key, PageOf;
  }

  // ---------- one run ----------

  /** A sound tree and a pool of distinct frames outside it. */
  ghost predicate Sound(d: Descent, root: Top, tabs: map<Table, nat>) {
    TableTree(d.mem, root, tabs) && PoolFrames(d.mem, tabs, d.pool)
  }

  /** The segment does not wrap round the address space, and none of its pages falls in the
      identity map's slot. */
  predicate Mappable(root: Top, s: Segment) {
    s.virt + s.pages * 4096 <= WORDS && forall j | 0 <= j < s.pages :: PageOf(VirtOf(s, j)).i4 != root.slot
  }

  predicate Reaches(tabs: map<Table, nat>, p: Page) {
    Pdpt(p.i4) in tabs && Pdt(p.i4, p.i3) in tabs && Pt(p.i4, p.i3, p.i2) in tabs
  }

  function Tables(s: Segment, n: nat): nat {
    var first := s.virt / 4096;
    Span(first, n, 1) + Span(first, n, 2) + Span(first, n, 3)
  }

  lemma KeyStep(n: nat, k: nat)
    requires 1 <= k <= 3
    ensures Key(n, k) <= Key(n + 1, k)
  {
  }

  lemma VirtPage(s: Segment, j: nat)
    requires s.virt + j * 4096 < WORDS
    ensures VirtOf(s, j) / 4096 == s.virt / 4096 + j
  {
  }

  /** A page lacks a table at most for each key in which it differs from its predecessor. */
  lemma NextPageLacks(tabs: map<Table, nat>, s: Segment, n: nat)
    requires 0 < n && s.virt + (n + 1) * 4096 <= WORDS && Reaches(tabs, PageOf(VirtOf(s, n - 1)))
    ensures Tables(s, n) + Lacking(tabs, PageOf(VirtOf(s, n))) <= Tables(s, n + 1)
  {
    hide PageOf, Key, VirtOf, Span;
    var first := s.virt / 4096;
    VirtPage(s, n - 1);
    VirtPage(s, n);
    KeyNamesTable(VirtOf(s, n - 1), VirtOf(s, n));
    SpanStep(first, n, 1);
    SpanStep(first, n, 2);
    SpanStep(first, n, 3);
  }

  lemma SpanStep(first: nat, n: nat, k: nat)
    requires 1 <= k <= 3 && 0 < n
    ensures Span(first, n + 1, k) - Span(first, n, k) == Key(first + n, k) - Key(first + (n - 1), k) >= 0
  {
    assert first + n - 1 + 1 == first + n;
    KeyStep(first + n - 1, k);
  }

  lemma TablesGrow(s: Segment, n: nat)
    ensures Tables(s, n) <= Tables(s, n + 1)
    ensures n == 0 ==> Tables(s, n) == 0 && Tables(s, n + 1) == 3
  {
    hide Key;
    if n > 0 {
      var last := s.virt / 4096 + n - 1;
      KeyStep(last, 1);
      KeyStep(last, 2);
      KeyStep(last, 3);
    }
  }

  /** After an installation all three tables of the page are there. */
  lemma InstallReaches(tabs: map<Table, nat>, p: Page, pool: seq<nat>)
    requires |pool| >= Lacking(tabs, p)
    ensures Reaches(Grown(tabs, p, pool), p)
  {
  }

  lemma InstallKeepsSound(mem: Memory, root: Top, tabs: map<Table, nat>, p: Page, pa: Word, pool: seq<nat>)
    requires Sound(Descent(mem, root.frame, pool), root, tabs)
    requires p.i4 != root.slot && |pool| >= Lacking(tabs, p)
    ensures var d := Install(mem, root, p, pa, pool);
            && Sound(d, root, Grown(tabs, p, pool)) && d.pool == pool[Lacking(tabs, p)..]
            && OneUpdate(root, mem, tabs, d.mem, Grown(tabs, p, pool), p, Target(pa), {})
            && Filled(mem, tabs, d.mem, Grown(tabs, p, pool), iset{p})
            && Reaches(Grown(tabs, p, pool), p) && tabs.Values <= Grown(tabs, p, pool).Values
  {
    InstallIsOneUpdate(mem, root, tabs, p, pa, pool);
    InstallLeavesPool(mem, root, tabs, p, pool);
    InstallFills(mem, root, tabs, p, pa, pool);
    hide Install, Lacking, Grown, Reaches, Lookup, Linked, Filled;
    InstallReaches(tabs, p, pool);
    GrownMovesFrames(tabs, p, pool);
  }

  /** Only tables have been written, and the root's special slot has not. */
  ghost predicate WroteTables(root: Top, mem: Memory, tabs: map<Table, nat>, mem': Memory, tabs': map<Table, nat>) {
    && root.frame < |mem| && SameOutside(mem, mem', tabs'.Values)
    && mem'[root.frame][root.slot] == mem[root.frame][root.slot]
    && tabs.Values <= tabs'.Values
  }

  lemma WroteTablesTwice(root: Top, mem: Memory, tabs: map<Table, nat>,
                         mem1: Memory, tabs1: map<Table, nat>, mem2: Memory, tabs2: map<Table, nat>)
    requires WroteTables(root, mem, tabs, mem1, tabs1) && WroteTables(root, mem1, tabs1, mem2, tabs2)
    ensures WroteTables(root, mem, tabs, mem2, tabs2)
  {
  }

  /** The pages of the first `n` of a segment, and of a list of segments. */
  ghost function Covered(s: Segment, n: nat): iset<Page> { iset q: Page | LastIn(s, n, q).Some? }
  ghost function AllCovered(segs: seq<Segment>): iset<Page> { iset q: Page | Assigned(segs, q).Some? }

  lemma CoveredStep(s: Segment, n: nat)
    ensures Covered(s, n) + iset{PageOf(VirtOf(s, n))} == Covered(s, n + 1)
  {
  }

  lemma AllCoveredStep(segs: seq<Segment>)
    requires segs != []
    ensures AllCovered(segs[..|segs| - 1]) + Covered(segs[|segs| - 1], segs[|segs| - 1].pages) == AllCovered(segs)
  {
    hide LastIn;
  }

  /** Each of the first `n` pages of the segment leads to its frame, the others where they did. */
  ghost predicate RunMapped(mem: Memory, tabs: map<Table, nat>, mem': Memory, tabs': map<Table, nat>, s: Segment, n: nat) {
    forall q: Page :: Lookup(mem', tabs', q) == Or(LastIn(s, n, q), Lookup(mem, tabs, q))
  }

  lemma RunMappedStep(root: Top, mem: Memory, tabs: map<Table, nat>, mem1: Memory, tabs1: map<Table, nat>,
                      s: Segment, n: nat, mem2: Memory, tabs2: map<Table, nat>)
    requires RunMapped(mem, tabs, mem1, tabs1, s, n)
    requires OneUpdate(root, mem1, tabs1, mem2, tabs2, PageOf(VirtOf(s, n)), Target(PhysOf(s, n)), {})
    ensures RunMapped(mem, tabs, mem2, tabs2, s, n + 1)
  {
    hide PageOf, PhysOf, VirtOf, Target, TableTree, Lookup;
  }

  /** The first `n` pages of a segment: each leads to its frame, the rest stay, and the pool gives
      up at most one frame for every table the run spans. */
  lemma {:induction false} RunMapsPages(mem: Memory, root: Top, tabs: map<Table, nat>, s: Segment, n: nat, pool: seq<nat>)
    returns (tabs': map<Table, nat>, used: nat)
    requires Sound(Descent(mem, root.frame, pool), root, tabs) && Mappable(root, s) && n <= s.pages
    requires |pool| >= Tables(s, n)
    ensures var d := MapRun(mem, root, s, n, pool);
            && used <= Tables(s, n) && d.pool == pool[used..]
            && Sound(d, root, tabs') && WroteTables(root, mem, tabs, d.mem, tabs')
            && RunMapped(mem, tabs, d.mem, tabs', s, n) && Filled(mem, tabs, d.mem, tabs', Covered(s, n))
            && (n > 0 ==> Reaches(tabs', PageOf(VirtOf(s, n - 1))))
  {
    hide PageOf, PhysOf, VirtOf, Tables, Sound, Lacking, Reaches, RunMapped, Install, WroteTables, Filled, Covered;
    if n == 0 {
      tabs', used := tabs, 0;
      NothingMapped(mem, root, tabs, s, pool);
    } else {
      TablesGrow(s, n - 1);
      var tabs1, used1 := RunMapsPages(mem, root, tabs, s, n - 1, pool);
      var d := MapRun(mem, root, s, n - 1, pool);
      if n > 1 { NextPageLacks(tabs1, s, n - 1); }
      tabs', used := RunStep(mem, root, tabs, s, n - 1, pool, d, tabs1, used1);
    }
  }

  lemma NothingMapped(mem: Memory, root: Top, tabs: map<Table, nat>, s: Segment, pool: seq<nat>)
    requires Sound(Descent(mem, root.frame, pool), root, tabs)
    ensures WroteTables(root, mem, tabs, mem, tabs) && RunMapped(mem, tabs, mem, tabs, s, 0)
    ensures Filled(mem, tabs, mem, tabs, Covered(s, 0))
    ensures pool[0..] == pool && root.frame == tabs[Root]
  {
    assert tabs[Root] == root.frame;
    FilledNothing(mem, tabs);
    assert Covered(s, 0) == iset{};
  }

  /** One more page. */
  lemma RunStep(mem: Memory, root: Top, tabs: map<Table, nat>, s: Segment, n: nat, pool: seq<nat>,
                d: Descent, tabs1: map<Table, nat>, used1: nat)
    returns (tabs2: map<Table, nat>, used2: nat)
    requires Sound(d, root, tabs1) && Mappable(root, s) && n < s.pages && |pool| >= Tables(s, n + 1)
    requires used1 <= |pool| && d.pool == pool[used1..] && used1 + Lacking(tabs1, PageOf(VirtOf(s, n))) <= Tables(s, n + 1)
    requires WroteTables(root, mem, tabs, d.mem, tabs1) && RunMapped(mem, tabs, d.mem, tabs1, s, n)
    requires Filled(mem, tabs, d.mem, tabs1, Covered(s, n))
    ensures var p := PageOf(VirtOf(s, n));
            var d2 := Install(d.mem, root, p, PhysOf(s, n), d.pool);
            && used2 <= Tables(s, n + 1) && d2.pool == pool[used2..]
            && Sound(d2, root, tabs2) && WroteTables(root, mem, tabs, d2.mem, tabs2)
            && RunMapped(mem, tabs, d2.mem, tabs2, s, n + 1) && Reaches(tabs2, p)
            && Filled(mem, tabs, d2.mem, tabs2, Covered(s, n + 1))
  {
    var p, pa := PageOf(VirtOf(s, n)), PhysOf(s, n);
    assert p.i4 != root.slot;
    hide PageOf, PhysOf, VirtOf, Tables, TableTree, PoolFrames, Lacking, Reaches, RunMapped, Install, Grown, Lookup, Filled, Covered;
    InstallKeepsSound(d.mem, root, tabs1, p, pa, d.pool);
    tabs2, used2 := Grown(tabs1, p, d.pool), used1 + Lacking(tabs1, p);
    var d2 := Install(d.mem, root, p, pa, d.pool);
    RunMappedStep(root, mem, tabs, d.mem, tabs1, s, n, d2.mem, tabs2);
    assert tabs2.Values + {} == tabs2.Values;
    WroteTablesTwice(root, mem, tabs, d.mem, tabs1, d2.mem, tabs2);
    FilledTwice(mem, tabs, d.mem, tabs1, d2.mem, tabs2, Covered(s, n), iset{p});
    CoveredStep(s, n);
  }

  // ---------- all segments ----------

  function Budget(segs: seq<Segment>): nat {
    if segs == [] then 0 else Budget(segs[..|segs| - 1]) + Bound(segs[|segs| - 1].pages)
  }

  ghost predicate AllMapped(mem: Memory, tabs: map<Table, nat>, mem': Memory, tabs': map<Table, nat>, segs: seq<Segment>) {
    forall q: Page :: Lookup(mem', tabs', q) == Or(Assigned(segs, q), Lookup(mem, tabs, q))
  }

  lemma AllMappedStep(mem: Memory, tabs: map<Table, nat>, mem1: Memory, tabs1: map<Table, nat>,
                      mem2: Memory, tabs2: map<Table, nat>, segs: seq<Segment>)
    requires segs != [] && AllMapped(mem, tabs, mem1, tabs1, segs[..|segs| - 1])
    requires RunMapped(mem1, tabs1, mem2, tabs2, segs[|segs| - 1], segs[|segs| - 1].pages)
    ensures AllMapped(mem, tabs, mem2, tabs2, segs)
  {
    hide Lookup, LastIn;
  }

  /** `MapPages` over any list of segments: every page ends up where the last segment that
      contains it says, all others stay, and the pool's frames are used in order, each once, at
      most `Budget(segs)` of them. */
  lemma {:induction false} SegmentsMapPages(mem: Memory, root: Top, tabs: map<Table, nat>, segs: seq<Segment>, pool: seq<nat>)
    returns (tabs': map<Table, nat>, used: nat)
    requires Sound(Descent(mem, root.frame, pool), root, tabs) && |pool| >= Budget(segs)
    requires forall i | 0 <= i < |segs| :: Mappable(root, segs[i])
    ensures var d := MapSegments(mem, root, segs, pool);
            && used <= Budget(segs) && d.pool == pool[used..]
            && Sound(d, root, tabs') && WroteTables(root, mem, tabs, d.mem, tabs')
            && AllMapped(mem, tabs, d.mem, tabs', segs) && Filled(mem, tabs, d.mem, tabs', AllCovered(segs))
  {
    if segs == [] {
      assert tabs[Root] == root.frame;
      FilledNothing(mem, tabs);
      assert AllCovered(segs) == iset{};
      tabs', used := tabs, 0;
    } else {
      hide TableTree, PoolFrames, Lookup, AllMapped, RunMapped, WroteTables, Mappable, Tables, Bound, MapRun, Filled, AllCovered, Covered;
      var n := |segs| - 1;
      var tabs1, used1 := SegmentsMapPages(mem, root, tabs, segs[..n], pool);
      var d := MapSegments(mem, root, segs[..n], pool);
      tabs', used := SegmentStep(mem, root, tabs, segs, pool, d, tabs1, used1);
    }
  }

  /** One more segment. */
  lemma SegmentStep(mem: Memory, root: Top, tabs: map<Table, nat>, segs: seq<Segment>, pool: seq<nat>,
                    d: Descent, tabs1: map<Table, nat>, used1: nat)
    returns (tabs2: map<Table, nat>, used2: nat)
    requires segs != [] && Mappable(root, segs[|segs| - 1]) && Sound(d, root, tabs1)
    requires used1 + Bound(segs[|segs| - 1].pages) <= |pool| && d.pool == pool[used1..]
    requires WroteTables(root, mem, tabs, d.mem, tabs1) && AllMapped(mem, tabs, d.mem, tabs1, segs[..|segs| - 1])
    requires Filled(mem, tabs, d.mem, tabs1, AllCovered(segs[..|segs| - 1]))
    ensures var s := segs[|segs| - 1];
            var d2 := MapRun(d.mem, root, s, s.pages, d.pool);
            && used1 <= used2 <= used1 + Bound(s.pages) && d2.pool == pool[used2..]
            && Sound(d2, root, tabs2) && WroteTables(root, mem, tabs, d2.mem, tabs2)
            && AllMapped(mem, tabs, d2.mem, tabs2, segs) && Filled(mem, tabs, d2.mem, tabs2, AllCovered(segs))
  {
    hide TableTree, PoolFrames, Lookup, AllMapped, RunMapped, WroteTables, Mappable, Tables, Bound, MapRun, Filled, AllCovered, Covered;
    var s := segs[|segs| - 1];
    TablesBound(s);
    assert Sound(Descent(d.mem, root.frame, d.pool), root, tabs1);
    var used;
    tabs2, used := RunMapsPages(d.mem, root, tabs1, s, s.pages, d.pool);
    used2 := used1 + used;
    assert pool[used1..][used..] == pool[used2..];
    var d2 := MapRun(d.mem, root, s, s.pages, d.pool);
    AllMappedStep(mem, tabs, d.mem, tabs1, d2.mem, tabs2, segs);
    WroteTablesTwice(root, mem, tabs, d.mem, tabs1, d2.mem, tabs2);
    FilledTwice(mem, tabs, d.mem, tabs1, d2.mem, tabs2, AllCovered(segs[..|segs| - 1]), Covered(s, s.pages));
    AllCoveredStep(segs);
  }

  lemma TablesBound(s: Segment)
    ensures Tables(s, s.pages) <= Bound(s.pages)
  {
    SpanBound(s.virt / 4096, s.pages);
  }

  /** The same in terms of the processor's walk. */
  lemma SegmentsTranslate(mem: Memory, root: Top, tabs: map<Table, nat>, segs: seq<Segment>, pool: seq<nat>, q: Page)
    requires Sound(Descent(mem, root.frame, pool), root, tabs) && |pool| >= Budget(segs)
    requires forall i | 0 <= i < |segs| :: Mappable(root, segs[i])
    requires q.i4 != root.slot
    ensures Walk(MapSegments(mem, root, segs, pool).mem, root, q) == Or(Assigned(segs, q), Walk(mem, root, q))
  {
    var tabs', used := SegmentsMapPages(mem, root, tabs, segs, pool);
    WalkIsLookup(mem, root, tabs, q);
    WalkIsLookup(MapSegments(mem, root, segs, pool).mem, root, tabs', q);
  }

  /** Afterwards the pages of the segments can be written, unless a table on the way was linked without that
      right already, and every other page exactly if it could be. */
  lemma SegmentsWrite(mem: Memory, root: Top, tabs: map<Table, nat>, segs: seq<Segment>, pool: seq<nat>, q: Page)
    requires Sound(Descent(mem, root.frame, pool), root, tabs) && |pool| >= Budget(segs)
    requires forall i | 0 <= i < |segs| :: Mappable(root, segs[i])
    requires q.i4 != root.slot
    ensures var mem' := MapSegments(mem, root, segs, pool).mem;
            && (WalkWrites(mem', root, q)
                <==> if Assigned(segs, q).Some? then !Barred(mem, tabs, q) else WalkWrites(mem, root, q))
            && (Assigned(segs, q).Some? ==> Plain(EntryAt(mem', EntryAddress(mem', root, q) / 4096, q.i1)))
  {
    hide Assigned, Filled, WalkWrites, Barred, Mappable, MapSegments, Budget, WordAt;
    var tabs', used := SegmentsMapPages(mem, root, tabs, segs, pool);
    var mem', p := MapSegments(mem, root, segs, pool).mem, Pt(q.i4, q.i3, q.i2);
    assert AllMapped(mem, tabs, mem', tabs', segs);
    FilledWrites(mem, root, tabs, mem', tabs', AllCovered(segs), q);
    FilledWord(mem, tabs, mem', tabs', AllCovered(segs), p, q.i1);
    if Assigned(segs, q).Some? { LeafWord(mem', root, tabs', q); }
  }

  lemma LeafWord(mem: Memory, root: Top, tabs: map<Table, nat>, p: Page)
    requires TableTree(mem, root, tabs) && p.i4 != root.slot && Pt(p.i4, p.i3, p.i2) in tabs
    ensures EntryAt(mem, EntryAddress(mem, root, p) / 4096, p.i1) == WordAt(mem, tabs, Pt(p.i4, p.i3, p.i2), p.i1)
  {
    EntryAddressIsInLeaf(mem, root, tabs, p);
    assert (tabs[Pt(p.i4, p.i3, p.i2)] * 4096 + p.i1 * 8) / 4096 == tabs[Pt(p.i4, p.i3, p.i2)];
  }

  /** No two pages of the segments coincide. */
  predicate Separate(segs: seq<Segment>) {
    forall i, j, i', j' | 0 <= i < |segs| && 0 <= j < segs[i].pages && 0 <= i' < |segs| && 0 <= j' < segs[i'].pages
                          && PageOf(VirtOf(segs[i], j)) == PageOf(VirtOf(segs[i'], j')) :: i == i' && j == j'
  }

  lemma {:induction false} LastInFinds(s: Segment, n: nat, j: nat)
    requires j < n
    requires forall k | 0 <= k < n && PageOf(VirtOf(s, k)) == PageOf(VirtOf(s, j)) :: k == j
    ensures LastIn(s, n, PageOf(VirtOf(s, j))) == Some(Target(PhysOf(s, j)))
  {
    if j < n - 1 { LastInFinds(s, n - 1, j); }
  }

  lemma {:induction false} LastInMisses(s: Segment, n: nat, q: Page)
    requires forall k | 0 <= k < n :: PageOf(VirtOf(s, k)) != q
    ensures LastIn(s, n, q) == None
  {
    if n > 0 { LastInMisses(s, n - 1, q); }
  }

  /** Where segments do not overlap, page `j` of each is assigned its base frame plus `j`. */
  lemma {:induction false} SeparateAssigned(segs: seq<Segment>, i: nat, j: nat)
    requires Separate(segs) && i < |segs| && j < segs[i].pages
    ensures Assigned(segs, PageOf(VirtOf(segs[i], j))) == Some(Target(PhysOf(segs[i], j)))
  {
    var n, q := |segs| - 1, PageOf(VirtOf(segs[i], j));
    if i == n {
      LastInFinds(segs[n], segs[n].pages, j);
    } else {
      LastInMisses(segs[n], segs[n].pages, q);
      SeparateAssigned(segs[..n], i, j);
    }
  }

  lemma {:induction false} TablesMonotone(s: Segment, n: nat, m: nat)
    requires n <= m
    ensures Tables(s, n) <= Tables(s, m)
  {
    hide Tables;
    if n < m {
      TablesMonotone(s, n, m - 1);
      TablesGrow(s, m - 1);
    }
  }

  /** Before each page of a run the pool still has the tables that page lacks. */
  lemma PageReady(mem: Memory, root: Top, tabs: map<Table, nat>, s: Segment, j: nat, pool: seq<nat>)
    returns (tabs1: map<Table, nat>)
    requires Sound(Descent(mem, root.frame, pool), root, tabs) && Mappable(root, s)
    requires |pool| >= Bound(s.pages) && j < s.pages
    ensures var d := MapRun(mem, root, s, j, pool);
            && Sound(d, root, tabs1) && Sound(Descent(d.mem, root.frame, d.pool), root, tabs1)
            && |d.pool| >= Lacking(tabs1, PageOf(VirtOf(s, j))) && PageOf(VirtOf(s, j)).i4 != root.slot
  {
    TablesBound(s);
    TablesMonotone(s, j, s.pages);
    TablesMonotone(s, j + 1, s.pages);
    TablesGrow(s, 0);
    var used;
    tabs1, used := RunMapsPages(mem, root, tabs, s, j, pool);
    if j > 0 { NextPageLacks(tabs1, s, j); }
  }

  /** A descent that stands in a sound tree takes its next table from existing memory. */
  predicate InPool(d: Descent, i: Index) {
    d.frame < |d.mem| <= FRAMES && (Present(d.mem[d.frame][i]) || (d.pool != [] && d.pool[0] < |d.mem|))
  }

  lemma DescentsInPool(mem: Memory, root: Top, tabs: map<Table, nat>, p: Page, pool: seq<nat>)
    requires Sound(Descent(mem, root.frame, pool), root, tabs) && p.i4 != root.slot && |pool| >= Lacking(tabs, p)
    ensures var d1 := Descend(Descent(mem, root.frame, pool), p.i4);
            var d2 := Descend(d1, p.i3);
            var d3 := Descend(d2, p.i2);
            InPool(Descent(mem, root.frame, pool), p.i4) && InPool(d1, p.i3) && InPool(d2, p.i2)
            && d3.frame < |d3.mem| == |mem|
  {
    PoolLasts(tabs, p, pool);
    DescendToLeaf(mem, root, tabs, p, pool);
    hide Lacking, Grow, Rest, Descend, InPool;
    var t3, t2 := Pdpt(p.i4), Pdt(p.i4, p.i3);
    var d0 := Descent(mem, root.frame, pool);
    StandsInPool(d0, root, tabs, Root, p.i4);
    DescendKeepsTree(d0, root, tabs, Root, p.i4);
    var d1, m1 := Descend(d0, p.i4), Grow(tabs, t3, pool);
    StandsInPool(d1, root, m1, t3, p.i3);
    DescendKeepsTree(d1, root, m1, t3, p.i3);
    var d2, m2 := Descend(d1, p.i3), Grow(m1, t2, d1.pool);
    StandsInPool(d2, root, m2, t2, p.i2);
  }

  lemma StandsInPool(d: Descent, root: Top, tabs: map<Table, nat>, t: Table, i: Index)
    requires StandsAt(d, root, tabs, t) && Inner(root, t, i)
    requires Child(t, i) in tabs || d.pool != []
    ensures InPool(d, i)
  {
    assert Linked(d.mem, tabs, t, i);
  }

  // ---------- the loader's own loops ----------

  class Loader {
    const frames: array<Frame>
    const root: Top
    var pagesMapped: nat

    constructor (mem: array<Frame>, root: Top)
      ensures frames == mem && this.root == root && pagesMapped == 0
    {
      frames, this.root, pagesMapped := mem, root, 0;
    }

    /** The table under entry `i`, made from the next pool frame if it is missing. */
    method NextTable(f: nat, i: Index, freePages: seq<nat>) returns (g: nat)
      requires pagesMapped <= |freePages| && InPool(Descent(frames[..], f, freePages[pagesMapped..]), i)
      modifies frames, `pagesMapped
      ensures pagesMapped <= |freePages|
      ensures Descent(frames[..], g, freePages[pagesMapped..]) ==
              Descend(Descent(old(frames[..]), f, freePages[old(pagesMapped)..]), i)
    {
      if !Present(frames[f][i]) {
        g := freePages[pagesMapped];
        pagesMapped := pagesMapped + 1;
        frames[g] := ZeroFrame();
        frames[f] := frames[f][i := Entry(g * 4096)];
      } else {
        g := Target(frames[f][i]);
      }
    }

    method MapPage(va: Word, pa: Word, freePages: seq<nat>, ghost tabs: map<Table, nat>)
      requires pagesMapped <= |freePages| && PageOf(va).i4 != root.slot
      requires Sound(Descent(frames[..], root.frame, freePages[pagesMapped..]), root, tabs)
      requires |freePages| - pagesMapped >= Lacking(tabs, PageOf(va))
      modifies frames, `pagesMapped
      ensures pagesMapped <= |freePages|
      ensures var d := Install(old(frames[..]), root, PageOf(va), pa, freePages[old(pagesMapped)..]);
              frames[..] == d.mem && freePages[pagesMapped..] == d.pool
    {
      var p := PageOf(va);
      DescentsInPool(frames[..], root, tabs, p, freePages[pagesMapped..]);
      hide Sound, Lacking, Descend, InPool, PageOf;
      var pdpt := NextTable(root.frame, p.i4, freePages);
      var pdt := NextTable(pdpt, p.i3, freePages);
      var pt := NextTable(pdt, p.i2, freePages);
      frames[pt] := frames[pt][p.i1 := Entry(pa)];
    }

    /** `MapPages` */
    method MapPages(segs: seq<Segment>, freePages: seq<nat>, ghost tabs: map<Table, nat>)
      requires Sound(Descent(frames[..], root.frame, freePages), root, tabs) && |freePages| >= Budget(segs)
      requires forall i | 0 <= i < |segs| :: Mappable(root, segs[i])
      modifies frames, `pagesMapped
      ensures pagesMapped <= |freePages| && pagesMapped <= Budget(segs)
      ensures frames[..] == MapSegments(old(frames[..]), root, segs, freePages).mem
    {
      ghost var mem := frames[..];
      pagesMapped := 0;
      for i := 0 to |segs|
        invariant pagesMapped <= |freePages|
        invariant Stands(MapSegments(mem, root, segs[..i], freePages), frames[..], freePages[pagesMapped..])
      {
        ghost var tabs1, d := SegmentReady(mem, root, tabs, segs, i, freePages);
        assert segs[..i + 1][..i] == segs[..i];
        hide Sound, Mappable, Bound, Budget, MapRun;
        MapSegment(segs[i], freePages, d, tabs1);
      }
      assert segs[..|segs|] == segs;
      ghost var tabs', used := SegmentsMapPages(mem, root, tabs, segs, freePages);
    }

    /** The inner loop, over the pages of one segment. */
    method MapSegment(s: Segment, freePages: seq<nat>, ghost d: Descent, ghost tabs: map<Table, nat>)
      requires pagesMapped <= |freePages| && Stands(d, frames[..], freePages[pagesMapped..])
      requires Sound(Descent(d.mem, root.frame, d.pool), root, tabs) && Mappable(root, s) && |d.pool| >= Bound(s.pages)
      modifies frames, `pagesMapped
      ensures pagesMapped <= |freePages|
      ensures Stands(MapRun(d.mem, root, s, s.pages, d.pool), frames[..], freePages[pagesMapped..])
    {
      for j := 0 to s.pages
        invariant pagesMapped <= |freePages|
        invariant Stands(MapRun(d.mem, root, s, j, d.pool), frames[..], freePages[pagesMapped..])
      {
        ghost var tabs1 := PageReady(d.mem, root, tabs, s, j, d.pool);
        hide Sound, Mappable, Bound, Lacking, PageOf, Install;
        MapPage(VirtOf(s, j), PhysOf(s, j), freePages, tabs1);
      }
    }
  }

  /** The state of the loops is that of the descent. */
  predicate Stands(d: Descent, mem: Memory, pool: seq<nat>) { mem == d.mem && pool == d.pool }

  lemma {:induction false} BudgetMonotone(segs: seq<Segment>, i: nat)
    requires i <= |segs|
    ensures Budget(segs[..i]) <= Budget(segs)
  {
    if i < |segs| {
      BudgetMonotone(segs[..|segs| - 1], i);
      assert segs[..|segs| - 1][..i] == segs[..i];
    } else {
      assert segs[..i] == segs;
    }
  }

  /** Before each segment the pool still has that segment's budget. */
  lemma SegmentReady(mem: Memory, root: Top, tabs: map<Table, nat>, segs: seq<Segment>, i: nat, pool: seq<nat>)
    returns (tabs1: map<Table, nat>, d: Descent)
    requires i < |segs| && Sound(Descent(mem, root.frame, pool), root, tabs) && |pool| >= Budget(segs)
    requires forall i | 0 <= i < |segs| :: Mappable(root, segs[i])
    ensures d == MapSegments(mem, root, segs[..i], pool)
    ensures Sound(d, root, tabs1) && Sound(Descent(d.mem, root.frame, d.pool), root, tabs1)
    ensures |d.pool| >= Bound(segs[i].pages)
  {
    d := MapSegments(mem, root, segs[..i], pool);
    assert segs[..i + 1][..i] == segs[..i];
    BudgetMonotone(segs, i + 1);
    hide Bound, TableTree, PoolFrames, WroteTables, AllMapped, Mappable;
    var used;
    tabs1, used := SegmentsMapPages(mem, root, tabs, segs[..i], pool);
  }
}
