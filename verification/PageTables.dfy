/** Four-level page tables held in physical memory, and the page walk over them.

    Physical memory is a sequence of 4 KiB frames of 512 words.  A physical address `pa` names
    word `(pa / 8) % 512` of frame `pa / 4096`.  The kernel reaches memory through a direct map
    that occupies one slot of the root table; that slot is left to its own tables.
  */
module PageTables {
  import opened Basics

  const WORDS: nat := 0x1_0000_0000_0000_0000  // 2^64
  const FRAMES: nat := 0x100_0000_0000         // 2^40, the frame numbers an entry can hold

  type Word = w: int | 0 <= w < WORDS
  type Index = i: int | 0 <= i < 512
  type Frame = f: seq<Word> | |f| == 512 witness seq(512, _ => 0)
  type Memory = seq<Frame>

  function ZeroFrame(): (f: Frame)
    ensures forall i: Index :: f[i] == 0
  {
    seq(512, _ => 0)
  }

  /** Writes one word.  Frames beyond the end of memory do not exist. */
  function Store(mem: Memory, f: nat, i: Index, w: Word): (mem': Memory)
    ensures |mem'| == |mem|
  {
    if f < |mem| then mem[f := mem[f][i := w]] else mem
  }

  /** Clears one frame. */
  function Zero(mem: Memory, f: nat): (mem': Memory)
    ensures |mem'| == |mem|
  {
    if f < |mem| then mem[f := ZeroFrame()] else mem
  }

  /** Unsigned 64-bit wrap-around. */
  function Wrap(n: int): Word { n % WORDS }

  lemma WrapAdd(n: int, m: int)
    ensures Wrap(Wrap(n) + m) == Wrap(n + m)
  {
    var q := n / WORDS;
    assert n == q * WORDS + Wrap(n);
    assert (n + m) / WORDS == (Wrap(n) + m) / WORDS + q;
  }

  // ---------- entries ----------

  /** Bit 0, the present flag. */
  predicate Present(w: Word) { w % 2 == 1 }

  /** Bit 7, which turns an entry of the middle levels into a large page. */
  predicate Large(w: Word) { w / 128 % 2 == 1 }

  /** Bits 12 to 51, as a frame number. */
  function Target(w: Word): (f: nat)
    ensures f < FRAMES
  {
    w / 4096 % FRAMES
  }

  /** Bit 1, which allows writes. */
  predicate Writeable(w: Word) { w / 2 % 2 == 1 }

  /** Bits 0 and 1 are set, and all others outside the address are clear. */
  predicate Plain(w: Word) { w % 4096 == 3 && w < FRAMES * 4096 }

  lemma PlainIs(w: Word)
    requires Plain(w)
    ensures Present(w) && Writeable(w) && !Large(w) && w == Target(w) * 4096 + 3
  {
    hide Present, Writeable, Large, Target;
    var t := w / 4096;
    assert w == t * 4096 + 3 && t < FRAMES;
    PlainDecodes(t);
  }

  lemma PlainDecodes(t: nat)
    requires t < FRAMES
    ensures var w := t * 4096 + 3; Present(w) && Writeable(w) && !Large(w) && Target(w) == t
  {
    hide Present, Writeable, Large, Target;
    PlainBits(t);
    PlainTarget(t);
  }

  lemma PlainTarget(t: nat)
    requires t < FRAMES
    ensures var w := t * 4096 + 3; w < WORDS && Target(w) == t
  {
    var w := t * 4096 + 3;
    assert w / 4096 == t;
  }

  lemma OddNumber(q: nat)
    ensures (2 * q + 1) % 2 == 1 && (2 * q + 1) / 2 == q && 2 * q % 2 == 0
  {
  }

  lemma SeventhBit(q: nat)
    ensures (128 * q + 3) / 128 == q
  {
  }

  lemma PlainBits(t: nat)
    requires t < FRAMES
    ensures var w := t * 4096 + 3; w < WORDS && Present(w) && Writeable(w) && !Large(w)
  {
    hide Present, Writeable, Large;
    var w: Word, half, pages := t * 4096 + 3, 2 * (t * 1024) + 1, 2 * (t * 16);
    OddNumber(half);
    OddNumber(t * 1024);
    OddNumber(t * 16);
    SeventhBit(pages);
    assert w == 2 * half + 1 && w == 128 * pages + 3;
    BitsAre(w, half, pages);
  }

  lemma BitsAre(w: Word, half: nat, pages: nat)
    requires w % 2 == 1 && w / 2 == half && half % 2 == 1 && w / 128 == pages && pages % 2 == 0
    ensures Present(w) && Writeable(w) && !Large(w)
  {
  }

  /** The entry the kernel stores: the masked address, present and writeable. */
  function Entry(pa: Word): Word {
    Target(pa) * 4096 + 3
  }

  lemma EntryDecodes(pa: Word)
    ensures Plain(Entry(pa)) && Present(Entry(pa)) && !Large(Entry(pa)) && Target(Entry(pa)) == Target(pa)
  {
    PlainDecodes(Target(pa));
  }

  // ---------- virtual addresses ----------

  /** The four table indices of a virtual address. */
  datatype Page = Page(i4: Index, i3: Index, i2: Index, i1: Index)

  function PageOf(va: Word): Page {
    Page(va / 0x80_0000_0000 % 512, va / 0x4000_0000 % 512, va / 0x20_0000 % 512, va / 0x1000 % 512)
  }

  /** The indices depend on the page number only. */
  lemma PageOfNumber(v: Word)
    ensures var n, p := v / 4096, PageOf(v);
            p.i1 == n % 512 && p.i2 == n / 512 % 512 && p.i3 == n / 0x4_0000 % 512 && p.i4 == n / 0x800_0000 % 512
  {
    var n, r := v / 4096, v % 4096;
    TwoMegabytes(n, r);
    OneGigabyte(n, r);
    HalfTerabyte(n, r);
    assert v == n * 4096 + r;
  }

  lemma TwoMegabytes(n: nat, r: nat)
    requires r < 4096
    ensures (n * 4096 + r) / 0x20_0000 == n / 512
  {
    var q, s := n / 512, n % 512;
    assert n * 4096 + r == q * 0x20_0000 + (s * 4096 + r);
    assert s * 4096 + r < 0x20_0000;
  }

  lemma OneGigabyte(n: nat, r: nat)
    requires r < 4096
    ensures (n * 4096 + r) / 0x4000_0000 == n / 0x4_0000
  {
    var q, s := n / 0x4_0000, n % 0x4_0000;
    assert n * 4096 + r == q * 0x4000_0000 + (s * 4096 + r);
    assert s * 4096 + r < 0x4000_0000;
  }

  lemma HalfTerabyte(n: nat, r: nat)
    requires r < 4096
    ensures (n * 4096 + r) / 0x80_0000_0000 == n / 0x800_0000
  {
    var q, s := n / 0x800_0000, n % 0x800_0000;
    assert n * 4096 + r == q * 0x80_0000_0000 + (s * 4096 + r);
    assert s * 4096 + r < 0x80_0000_0000;
  }

  // ---------- the walk ----------

  /** The root table's frame, and the one root entry that is not part of the tree: the kernel's
      direct map of physical memory, or the loader's identity map. */
  datatype Top = Top(frame: nat, slot: Index)

  /** The translation of page `p`, as the processor computes it: four reads, where an entry of
      level 3 or 2 may end the walk with a large page. */
  function Walk(mem: Memory, root: Top, p: Page): Option<nat> {
    if root.frame >= |mem| || !Present(mem[root.frame][p.i4]) then None else
    var f3 := Target(mem[root.frame][p.i4]);
    if f3 >= |mem| || !Present(mem[f3][p.i3]) then None else
    var e3 := mem[f3][p.i3];
    var f2 := Target(e3);
    if Large(e3) then Some(f2 / 0x4_0000 * 0x4_0000 + p.i2 * 512 + p.i1) else
    if f2 >= |mem| || !Present(mem[f2][p.i2]) then None else
    var e2 := mem[f2][p.i2];
    var f1 := Target(e2);
    if Large(e2) then Some(f1 / 512 * 512 + p.i1) else
    if f1 >= |mem| || !Present(mem[f1][p.i1]) then None else
    Some(Target(mem[f1][p.i1]))
  }

  // ---------- the tables as a tree ----------

  /** A table named by the indices that lead to it from the root. */
  datatype Table =
    | Root
    | Pdpt(a: Index)
    | Pdt(a: Index, b: Index)
    | Pt(a: Index, b: Index, c: Index)

  function Child(t: Table, i: Index): Table
    requires !t.Pt?
  {
    match t
    case Root => Pdpt(i)
    case Pdpt(a) => Pdt(a, i)
    case Pdt(a, b) => Pt(a, b, i)
  }

  /** The entries that belong to the tree: all but the last level and the direct map's slot. */
  predicate Inner(root: Top, t: Table, i: Index) {
    !t.Pt? && !(t.Root? && i == root.slot)
  }

  predicate Linked(mem: Memory, tabs: map<Table, nat>, t: Table, i: Index)
    requires t in tabs && tabs[t] < |mem| && !t.Pt?
  {
    var e := mem[tabs[t]][i];
    if Child(t, i) in tabs then Present(e) && !Large(e) && Target(e) == tabs[Child(t, i)] else !Present(e)
  }

  predicate HasParent(tabs: map<Table, nat>, t: Table) {
    match t
    case Root => true
    case Pdpt(a) => Root in tabs
    case Pdt(a, b) => Pdpt(a) in tabs
    case Pt(a, b, c) => Pdt(a, b) in tabs
  }

  /** The names form a tree under the root, and no two tables share a frame. */
  ghost predicate TreeShape(tabs: map<Table, nat>, root: Top, frames: nat) {
    && Root in tabs && tabs[Root] == root.frame
    && (forall t <- tabs :: tabs[t] < frames && HasParent(tabs, t))
    && (forall t, u | t in tabs && u in tabs :: tabs[t] == tabs[u] ==> t == u)
  }

  /** Memory holds exactly the tables of `tabs`. */
  ghost predicate TableTree(mem: Memory, root: Top, tabs: map<Table, nat>) {
    && |mem| <= FRAMES
    && TreeShape(tabs, root, |mem|)
    && (forall t, i: Index | t in tabs && Inner(root, t, i) :: Linked(mem, tabs, t, i))
  }

  /** What the last-level table of page `p` says. */
  function Lookup(mem: Memory, tabs: map<Table, nat>, p: Page): Option<nat> {
    var t := Pt(p.i4, p.i3, p.i2);
    if t in tabs && tabs[t] < |mem| && Present(mem[tabs[t]][p.i1]) then Some(Target(mem[tabs[t]][p.i1])) else None
  }

  lemma WalkIsLookup(mem: Memory, root: Top, tabs: map<Table, nat>, p: Page)
    requires TableTree(mem, root, tabs) && p.i4 != root.slot
    ensures Walk(mem, root, p) == Lookup(mem, tabs, p)
  {
    assert Linked(mem, tabs, Root, p.i4);
    if Pdpt(p.i4) in tabs {
      assert Linked(mem, tabs, Pdpt(p.i4), p.i3);
      if Pdt(p.i4, p.i3) in tabs {
        assert Linked(mem, tabs, Pdt(p.i4, p.i3), p.i2);
      }
    }
  }

  // ---------- mapping one page ----------

  /** One level of the descent: follow entry `i` of frame `f`, or link a zeroed table taken from
      `pool` there. */
  datatype Descent = Descent(mem: Memory, frame: nat, pool: seq<nat>)

  function Descend(d: Descent, i: Index): Descent {
    if d.frame >= |d.mem| then d
    else if Present(d.mem[d.frame][i]) then Descent(d.mem, Target(d.mem[d.frame][i]), d.pool)
    else if d.pool == [] || d.pool[0] >= FRAMES then d
    else Descent(Store(Zero(d.mem, d.pool[0]), d.frame, i, Entry(d.pool[0] * 4096)), d.pool[0], d.pool[1..])
  }

  /** The tables after one level of descent. */
  function Grow(tabs: map<Table, nat>, t: Table, pool: seq<nat>): map<Table, nat>
  {
    if t in tabs || pool == [] then tabs else tabs[t := pool[0]]
  }

  function Rest(tabs: map<Table, nat>, t: Table, pool: seq<nat>): seq<nat>
  {
    if t in tabs || pool == [] then pool else pool[1..]
  }

  /** `mem'` differs from `mem` only in frames of `changed`. */
  predicate SameOutside(mem: Memory, mem': Memory, changed: set<nat>) {
    |mem'| == |mem| && forall f: nat | f < |mem| && f !in changed :: mem'[f] == mem[f]
  }

  ghost predicate PoolFrames(mem: Memory, tabs: map<Table, nat>, pool: seq<nat>) {
    && (forall k | 0 <= k < |pool| :: pool[k] < |mem| && pool[k] !in tabs.Values)
    && (forall j, k | 0 <= j < k < |pool| :: pool[j] != pool[k])
  }

  lemma ValuesOfInsert(tabs: map<Table, nat>, c: Table, f: nat)
    requires c !in tabs
    ensures tabs[c := f].Values == tabs.Values + {f}
  {
    var tabs' := tabs[c := f];
    forall v | v in tabs.Values ensures v in tabs'.Values {
      var t :| t in tabs && tabs[t] == v;
      assert tabs'[t] == v;
    }
    assert tabs'[c] == f;
  }

  lemma ShapeOfInsert(tabs: map<Table, nat>, root: Top, frames: nat, c: Table, f: nat)
    requires TreeShape(tabs, root, frames) && c !in tabs && HasParent(tabs, c)
    requires f < frames && f !in tabs.Values
    ensures TreeShape(tabs[c := f], root, frames)
  {
    var tabs' := tabs[c := f];
    assert forall u | u in tabs :: tabs[u] in tabs.Values;
    forall u | u in tabs' ensures tabs'[u] < frames && HasParent(tabs', u) {
      if u != c { assert u in tabs; }
    }
  }

  /** Linking a cleared frame from outside the tree keeps the tree. */
  lemma LinkKeepsTree(mem: Memory, root: Top, tabs: map<Table, nat>, t: Table, i: Index, f: nat)
    requires TableTree(mem, root, tabs) && t in tabs && Inner(root, t, i) && Child(t, i) !in tabs
    requires f < |mem| && f !in tabs.Values
    ensures TableTree(Store(Zero(mem, f), tabs[t], i, Entry(f * 4096)), root, tabs[Child(t, i) := f])
  {
    hide Plain;
    var c := Child(t, i);
    var mem', tabs' := Store(Zero(mem, f), tabs[t], i, Entry(f * 4096)), tabs[c := f];
    EntryDecodes(f * 4096);
    ShapeOfInsert(tabs, root, |mem|, c, f);
    forall u, j: Index | u in tabs' && Inner(root, u, j) ensures Linked(mem', tabs', u, j) {
      if u != c {
        assert Linked(mem, tabs, u, j) && tabs[u] in tabs.Values;
      } else {
        assert Child(u, j) in tabs ==> HasParent(tabs, Child(u, j));
      }
    }
  }

  lemma LinkKeepsLookup(mem: Memory, root: Top, tabs: map<Table, nat>, t: Table, i: Index, f: nat, p: Page)
    requires TableTree(mem, root, tabs) && t in tabs && Inner(root, t, i) && Child(t, i) !in tabs
    requires f < |mem| && f !in tabs.Values
    ensures Lookup(Store(Zero(mem, f), tabs[t], i, Entry(f * 4096)), tabs[Child(t, i) := f], p) == Lookup(mem, tabs, p)
  {
    hide Linked, HasParent, Target, Entry;
    var u := Pt(p.i4, p.i3, p.i2);
    if u in tabs {
      assert tabs[u] in tabs.Values;
      if u != t { assert tabs[u] != tabs[t]; }
    }
  }

  /** ... touches only that frame and the parent's entry, and moves no page. */
  lemma LinkMovesNoPage(mem: Memory, root: Top, tabs: map<Table, nat>, t: Table, i: Index, f: nat)
    requires TableTree(mem, root, tabs) && t in tabs && Inner(root, t, i) && Child(t, i) !in tabs
    requires f < |mem| && f !in tabs.Values
    ensures var mem' := Store(Zero(mem, f), tabs[t], i, Entry(f * 4096));
            && SameOutside(mem, mem', tabs.Values + {f})
            && mem'[root.frame][root.slot] == mem[root.frame][root.slot]
            && forall p: Page :: Lookup(mem', tabs[Child(t, i) := f], p) == Lookup(mem, tabs, p)
  {
    var mem' := Store(Zero(mem, f), tabs[t], i, Entry(f * 4096));
    var tabs' := tabs[Child(t, i) := f];
    assert forall u | u in tabs :: tabs[u] in tabs.Values;
    assert root.frame == tabs[Root];
    forall p: Page ensures Lookup(mem', tabs', p) == Lookup(mem, tabs, p) { LinkKeepsLookup(mem, root, tabs, t, i, f, p); }
  }

  /** Every page translates through (`mem'`, `tabs'`) as it did through (`mem`, `tabs`), and only
      table frames have changed. */
  ghost predicate Undisturbed(root: Top, mem: Memory, tabs: map<Table, nat>, mem': Memory, tabs': map<Table, nat>)
  {
    && root.frame < |mem| && SameOutside(mem, mem', tabs'.Values)
    && mem'[root.frame][root.slot] == mem[root.frame][root.slot]
    && forall p: Page :: Lookup(mem', tabs', p) == Lookup(mem, tabs, p)
  }

  lemma UndisturbedTwice(root: Top, mem: Memory, tabs: map<Table, nat>,
                         mem1: Memory, tabs1: map<Table, nat>, mem2: Memory, tabs2: map<Table, nat>)
    requires tabs1.Values <= tabs2.Values
    requires Undisturbed(root, mem, tabs, mem1, tabs1) && Undisturbed(root, mem1, tabs1, mem2, tabs2)
    ensures Undisturbed(root, mem, tabs, mem2, tabs2)
  {
    forall p: Page ensures Lookup(mem2, tabs2, p) == Lookup(mem, tabs, p) {
      assert Lookup(mem1, tabs1, p) == Lookup(mem, tabs, p);
    }
  }

  /** The descent stands at table `t` of a sound tree, with usable frames in its pool. */
  ghost predicate StandsAt(d: Descent, root: Top, tabs: map<Table, nat>, t: Table) {
    && TableTree(d.mem, root, tabs) && PoolFrames(d.mem, tabs, d.pool)
    && t in tabs && tabs[t] == d.frame
  }

  /** A descent step keeps the tree, adds at most the child's table, and moves no page. */
  lemma DescendKeepsTree(d: Descent, root: Top, tabs: map<Table, nat>, t: Table, i: Index)
    requires StandsAt(d, root, tabs, t) && Inner(root, t, i)
    requires Child(t, i) in tabs || d.pool != []
    ensures var d' := Descend(d, i);
            var tabs' := Grow(tabs, Child(t, i), d.pool);
            && StandsAt(d', root, tabs', Child(t, i))
            && d'.pool == Rest(tabs, Child(t, i), d.pool)
            && Undisturbed(root, d.mem, tabs, d'.mem, tabs')
            && tabs.Values <= tabs'.Values
  {
    assert Linked(d.mem, tabs, t, i);
    var c := Child(t, i);
    if c !in tabs {
      var f := d.pool[0];
      LinkKeepsTree(d.mem, root, tabs, t, i, f);
      LinkMovesNoPage(d.mem, root, tabs, t, i, f);
      ValuesOfInsert(tabs, c, f);
    }
  }

  /** Maps page `p` to the frame of `pa`: three levels of descent, then the last-level entry.
      Tables that are missing come from `pool`, in order. */
  function Install(mem: Memory, root: Top, p: Page, pa: Word, pool: seq<nat>): Descent {
    var d := Descend(Descend(Descend(Descent(mem, root.frame, pool), p.i4), p.i3), p.i2);
    Descent(Store(d.mem, d.frame, p.i1, Entry(pa)), d.frame, d.pool)
  }

  /** How many tables the mapping of `p` still lacks. */
  function Lacking(tabs: map<Table, nat>, p: Page): (n: nat)
    ensures n <= 3
  {
    (if Pdpt(p.i4) in tabs then 0 else 1) +
    (if Pdt(p.i4, p.i3) in tabs then 0 else 1) +
    (if Pt(p.i4, p.i3, p.i2) in tabs then 0 else 1)
  }

  /** The tree after page `p` has been mapped. */
  function Grown(tabs: map<Table, nat>, p: Page, pool: seq<nat>): map<Table, nat> {
    var t3, t2, t1 := Pdpt(p.i4), Pdt(p.i4, p.i3), Pt(p.i4, p.i3, p.i2);
    var (m3, p2) := (Grow(tabs, t3, pool), Rest(tabs, t3, pool));
    var (m2, p1) := (Grow(m3, t2, p2), Rest(m3, t2, p2));
    Grow(m2, t1, p1)
  }

  function Elements<T>(s: seq<T>): set<T> { set x | x in s }

  /** Frames only move from the pool into the tree. */
  lemma GrowMovesFrames(tabs: map<Table, nat>, t: Table, pool: seq<nat>)
    ensures Grow(tabs, t, pool).Values + Elements(Rest(tabs, t, pool)) == tabs.Values + Elements(pool)
    ensures tabs.Values <= Grow(tabs, t, pool).Values
  {
    if t !in tabs && pool != [] {
      ValuesOfInsert(tabs, t, pool[0]);
      assert pool == [pool[0]] + pool[1..];
    }
  }

  /** The pool lasts for the whole descent, and what is left of it is a suffix. */
  lemma PoolLasts(tabs: map<Table, nat>, p: Page, pool: seq<nat>)
    requires |pool| >= Lacking(tabs, p)
    ensures var t3, t2, t1 := Pdpt(p.i4), Pdt(p.i4, p.i3), Pt(p.i4, p.i3, p.i2);
            var m3, p2 := Grow(tabs, t3, pool), Rest(tabs, t3, pool);
            var m2, p1 := Grow(m3, t2, p2), Rest(m3, t2, p2);
            && (t3 in tabs || pool != []) && (t2 in m3 || p2 != []) && (t1 in m2 || p1 != [])
            && Rest(m2, t1, p1) == pool[Lacking(tabs, p)..]
  {
  }

  lemma GrownMovesFrames(tabs: map<Table, nat>, p: Page, pool: seq<nat>)
    requires |pool| >= Lacking(tabs, p)
    ensures Grown(tabs, p, pool).Values + Elements(pool[Lacking(tabs, p)..]) == tabs.Values + Elements(pool)
    ensures tabs.Values <= Grown(tabs, p, pool).Values
  {
    PoolLasts(tabs, p, pool);
    hide Grow, Rest, Lacking;
    var t3, t2, t1 := Pdpt(p.i4), Pdt(p.i4, p.i3), Pt(p.i4, p.i3, p.i2);
    var m3, p2 := Grow(tabs, t3, pool), Rest(tabs, t3, pool);
    var m2, p1 := Grow(m3, t2, p2), Rest(m3, t2, p2);
    GrowMovesFrames(tabs, t3, pool);
    GrowMovesFrames(m3, t2, p2);
    GrowMovesFrames(m2, t1, p1);
  }

  /** Three levels of descent reach the last-level table of `p` and move no page. */
  lemma DescendToLeaf(mem: Memory, root: Top, tabs: map<Table, nat>, p: Page, pool: seq<nat>)
    requires TableTree(mem, root, tabs) && PoolFrames(mem, tabs, pool)
    requires p.i4 != root.slot && |pool| >= Lacking(tabs, p)
    ensures var d := Descend(Descend(Descend(Descent(mem, root.frame, pool), p.i4), p.i3), p.i2);
            var tabs' := Grown(tabs, p, pool);
            && StandsAt(d, root, tabs', Pt(p.i4, p.i3, p.i2))
            && Undisturbed(root, mem, tabs, d.mem, tabs')
            && d.pool == pool[Lacking(tabs, p)..]
  {
    var t3, t2, t1 := Pdpt(p.i4), Pdt(p.i4, p.i3), Pt(p.i4, p.i3, p.i2);
    var d0 := Descent(mem, root.frame, pool);
    assert StandsAt(d0, root, tabs, Root);
    PoolLasts(tabs, p, pool);

    var d1, m1 := Descend(d0, p.i4), Grow(tabs, t3, pool);
    DescendKeepsTree(d0, root, tabs, Root, p.i4);
    var d2, m2 := Descend(d1, p.i3), Grow(m1, t2, d1.pool);
    DescendKeepsTree(d1, root, m1, t3, p.i3);
    UndisturbedTwice(root, mem, tabs, d1.mem, m1, d2.mem, m2);
    var d3, m3 := Descend(d2, p.i2), Grow(m2, t1, d2.pool);
    DescendKeepsTree(d2, root, m2, t2, p.i2);
    UndisturbedTwice(root, mem, tabs, d2.mem, m2, d3.mem, m3);
  }

  /** From (`mem`, `tabs`) to (`mem'`, `tabs'`) the only page that moved is `p`, which now leads
      to frame `f`, and only tables and the frames of `also` have been written. */
  ghost predicate OneUpdate(root: Top, mem: Memory, tabs: map<Table, nat>, mem': Memory, tabs': map<Table, nat>,
                            p: Page, f: nat, also: set<nat>)
  {
    && TableTree(mem', root, tabs')
    && (forall q: Page :: Lookup(mem', tabs', q) == if q == p then Some(f) else Lookup(mem, tabs, q))
    && SameOutside(mem, mem', tabs'.Values + also)
    && root.frame < |mem| && mem'[root.frame][root.slot] == mem[root.frame][root.slot]
  }

  /** A mapping is exactly one update of the translation.  The tree absorbs the frames it took. */
  lemma InstallIsOneUpdate(mem: Memory, root: Top, tabs: map<Table, nat>, p: Page, pa: Word, pool: seq<nat>)
    requires TableTree(mem, root, tabs) && PoolFrames(mem, tabs, pool)
    requires p.i4 != root.slot && |pool| >= Lacking(tabs, p)
    ensures var d := Install(mem, root, p, pa, pool);
            var tabs' := Grown(tabs, p, pool);
            OneUpdate(root, mem, tabs, d.mem, tabs', p, Target(pa), {}) && d.pool == pool[Lacking(tabs, p)..]
  {
    DescendToLeaf(mem, root, tabs, p, pool);
    var d := Descend(Descend(Descend(Descent(mem, root.frame, pool), p.i4), p.i3), p.i2);
    InstallEntry(d.mem, root, Grown(tabs, p, pool), p, pa);
  }

  /** The frames left in the pool stay outside the grown tree. */
  lemma InstallLeavesPool(mem: Memory, root: Top, tabs: map<Table, nat>, p: Page, pool: seq<nat>)
    requires TableTree(mem, root, tabs) && PoolFrames(mem, tabs, pool)
    requires p.i4 != root.slot && |pool| >= Lacking(tabs, p)
    ensures Grown(tabs, p, pool).Values !! Elements(pool[Lacking(tabs, p)..])
  {
    DescendToLeaf(mem, root, tabs, p, pool);
  }

  /** Writing a last-level entry changes one page. */
  lemma InstallEntry(mem: Memory, root: Top, tabs: map<Table, nat>, p: Page, pa: Word)
    requires TableTree(mem, root, tabs) && p.i4 != root.slot && Pt(p.i4, p.i3, p.i2) in tabs
    ensures var mem' := Store(mem, tabs[Pt(p.i4, p.i3, p.i2)], p.i1, Entry(pa));
            && TableTree(mem', root, tabs)
            && SameOutside(mem, mem', tabs.Values)
            && mem'[root.frame][root.slot] == mem[root.frame][root.slot]
            && tabs[Pt(p.i4, p.i3, p.i2)] < |mem'| && Plain(mem'[tabs[Pt(p.i4, p.i3, p.i2)]][p.i1])
            && forall q: Page :: Lookup(mem', tabs, q) == if q == p then Some(Target(pa)) else Lookup(mem, tabs, q)
  {
    var t := Pt(p.i4, p.i3, p.i2);
    var mem' := Store(mem, tabs[t], p.i1, Entry(pa));
    EntryDecodes(pa);
    assert tabs[t] in tabs.Values && tabs[Root] == root.frame && tabs[t] != root.frame;
    forall u, j: Index | u in tabs && Inner(root, u, j) ensures Linked(mem', tabs, u, j) {
      assert Linked(mem, tabs, u, j);
    }
  }

  // ---------- the entry's own address ----------

  function EntryAt(mem: Memory, f: nat, i: Index): Word {
    if f < |mem| then mem[f][i] else 0
  }

  /** The physical address of the last-level entry of `p`, found without looking at present bits. */
  function EntryAddress(mem: Memory, root: Top, p: Page): Word {
    var f3 := Target(EntryAt(mem, root.frame, p.i4));
    var f2 := Target(EntryAt(mem, f3, p.i3));
    var f1 := Target(EntryAt(mem, f2, p.i2));
    f1 * 4096 + p.i1 * 8
  }

  /** Where the tables of `p` exist, the entry's address is in its last-level table. */
  lemma EntryAddressIsInLeaf(mem: Memory, root: Top, tabs: map<Table, nat>, p: Page)
    requires TableTree(mem, root, tabs) && p.i4 != root.slot && Pt(p.i4, p.i3, p.i2) in tabs
    ensures EntryAddress(mem, root, p) == tabs[Pt(p.i4, p.i3, p.i2)] * 4096 + p.i1 * 8
  {
    assert HasParent(tabs, Pt(p.i4, p.i3, p.i2)) && HasParent(tabs, Pdt(p.i4, p.i3));
    assert Linked(mem, tabs, Root, p.i4);
    assert Linked(mem, tabs, Pdpt(p.i4), p.i3);
    assert Linked(mem, tabs, Pdt(p.i4, p.i3), p.i2);
  }

  // ---------- the direct map's slot ----------

  /** Below the root, the walk of `p` reads tables only from `own`. */
  predicate ReadsOnly(mem: Memory, root: Top, p: Page, own: set<nat>) {
    root.frame < |mem| && Present(mem[root.frame][p.i4]) ==>
      var f3 := Target(mem[root.frame][p.i4]);
      f3 in own &&
      (f3 < |mem| && Present(mem[f3][p.i3]) && !Large(mem[f3][p.i3]) ==>
        var f2 := Target(mem[f3][p.i3]);
        f2 in own &&
        (f2 < |mem| && Present(mem[f2][p.i2]) && !Large(mem[f2][p.i2]) ==>
          Target(mem[f2][p.i2]) in own))
  }

  /** A walk that reads unchanged tables is unchanged. */
  lemma WalkKept(mem: Memory, mem': Memory, root: Top, p: Page, own: set<nat>, changed: set<nat>)
    requires SameOutside(mem, mem', changed) && own !! changed
    requires root.frame < |mem| && mem'[root.frame][p.i4] == mem[root.frame][p.i4] && ReadsOnly(mem, root, p, own)
    ensures Walk(mem', root, p) == Walk(mem, root, p) && ReadsOnly(mem', root, p, own)
  {
  }
}
