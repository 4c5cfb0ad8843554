/** What the entries of the page tables allow: which words a mapping writes, and which pages can be
    written through. */
module PageRights {
  import opened Basics
  import opened PageTables

  /** Word `i` of a table.  A table that does not exist reads as a cleared one. */
  function WordAt(mem: Memory, tabs: map<Table, nat>, t: Table, i: Index): Word {
    if t in tabs then EntryAt(mem, tabs[t], i) else 0
  }

  /** The page that a last-level word belongs to. */
  function LeafPage(t: Table, i: Index): Page
    requires t.Pt?
  {
    Page(t.a, t.b, t.c, i)
  }

  /** The last-level words of the pages of `mapped` are plain, the others are as they were; and of the
      inner words only absent ones have changed, to plain ones. */
  ghost predicate Filled(mem: Memory, tabs: map<Table, nat>, mem': Memory, tabs': map<Table, nat>, mapped: iset<Page>) {
    forall t: Table, i: Index ::
      var w, w' := WordAt(mem, tabs, t, i), WordAt(mem', tabs', t, i);
      if t.Pt? then if LeafPage(t, i) in mapped then Plain(w') else w' == w
      else w' == w || (!Present(w) && Plain(w'))
  }

  lemma FilledWord(mem: Memory, tabs: map<Table, nat>, mem': Memory, tabs': map<Table, nat>, mapped: iset<Page>, t: Table, i: Index)
    requires Filled(mem, tabs, mem', tabs', mapped)
    ensures var w, w' := WordAt(mem, tabs, t, i), WordAt(mem', tabs', t, i);
            if t.Pt? then if LeafPage(t, i) in mapped then Plain(w') else w' == w
            else w' == w || (!Present(w) && Plain(w'))
  {
  }

  lemma FilledNothing(mem: Memory, tabs: map<Table, nat>)
    ensures Filled(mem, tabs, mem, tabs, iset{})
  {
  }

  lemma FilledTwice(mem: Memory, tabs: map<Table, nat>, mem1: Memory, tabs1: map<Table, nat>,
                    mem2: Memory, tabs2: map<Table, nat>, a: iset<Page>, b: iset<Page>)
    requires Filled(mem, tabs, mem1, tabs1, a) && Filled(mem1, tabs1, mem2, tabs2, b)
    ensures Filled(mem, tabs, mem2, tabs2, a + b)
  {
    hide WordAt;
    forall t: Table, i: Index
      ensures var w, w' := WordAt(mem, tabs, t, i), WordAt(mem2, tabs2, t, i);
              if t.Pt? then if LeafPage(t, i) in a + b then Plain(w') else w' == w
              else w' == w || (!Present(w) && Plain(w'))
    {
      FilledWord(mem, tabs, mem1, tabs1, a, t, i);
      FilledWord(mem1, tabs1, mem2, tabs2, b, t, i);
    }
  }

  // ---------- what a mapping writes ----------

  /** One level of descent fills at most its own entry. */
  lemma DescendFills(d: Descent, root: Top, tabs: map<Table, nat>, t: Table, i: Index)
    requires StandsAt(d, root, tabs, t) && Inner(root, t, i)
    requires Child(t, i) in tabs || d.pool != []
    ensures Filled(d.mem, tabs, Descend(d, i).mem, Grow(tabs, Child(t, i), d.pool), iset{})
  {
    assert Linked(d.mem, tabs, t, i) && tabs[t] in tabs.Values;
    var c := Child(t, i);
    if c !in tabs {
      var f := d.pool[0];
      EntryDecodes(f * 4096);
      assert forall u | u in tabs :: tabs[u] in tabs.Values;
      forall u: Table, j: Index
        ensures var w, w' := WordAt(d.mem, tabs, u, j), WordAt(Descend(d, i).mem, tabs[c := f], u, j);
                w' == if u == t && j == i then Entry(f * 4096) else w
      {
        if u in tabs && u != t { assert tabs[u] != tabs[t]; }
      }
    }
  }

  /** A mapping makes the page's last-level word plain, and fills the inner words that were missing. */
  lemma InstallFills(mem: Memory, root: Top, tabs: map<Table, nat>, p: Page, pa: Word, pool: seq<nat>)
    requires TableTree(mem, root, tabs) && PoolFrames(mem, tabs, pool)
    requires p.i4 != root.slot && |pool| >= Lacking(tabs, p)
    ensures Filled(mem, tabs, Install(mem, root, p, pa, pool).mem, Grown(tabs, p, pool), iset{p})
  {
    hide Filled, Lacking, Grow, Rest, Descend;
    var t3, t2, t1 := Pdpt(p.i4), Pdt(p.i4, p.i3), Pt(p.i4, p.i3, p.i2);
    var d0 := Descent(mem, root.frame, pool);
    PoolLasts(tabs, p, pool);
    var d1, m1 := Descend(d0, p.i4), Grow(tabs, t3, pool);
    DescendKeepsTree(d0, root, tabs, Root, p.i4);
    DescendFills(d0, root, tabs, Root, p.i4);
    var d2, m2 := Descend(d1, p.i3), Grow(m1, t2, d1.pool);
    DescendKeepsTree(d1, root, m1, t3, p.i3);
    DescendFills(d1, root, m1, t3, p.i3);
    FilledTwice(mem, tabs, d1.mem, m1, d2.mem, m2, iset{}, iset{});
    var d3, m3 := Descend(d2, p.i2), Grow(m2, t1, d2.pool);
    DescendKeepsTree(d2, root, m2, t2, p.i2);
    DescendFills(d2, root, m2, t2, p.i2);
    FilledTwice(mem, tabs, d2.mem, m2, d3.mem, m3, iset{} + iset{}, iset{});
    LeafFills(d3, root, m3, p, pa);
    FilledTwice(mem, tabs, d3.mem, m3, Store(d3.mem, d3.frame, p.i1, Entry(pa)), m3, iset{} + iset{} + iset{}, iset{p});
    assert iset{} + iset{} + iset{} + iset{p} == iset{p};
  }

  lemma LeafFills(d: Descent, root: Top, tabs: map<Table, nat>, p: Page, pa: Word)
    requires StandsAt(d, root, tabs, Pt(p.i4, p.i3, p.i2))
    ensures Filled(d.mem, tabs, Store(d.mem, d.frame, p.i1, Entry(pa)), tabs, iset{p})
  {
    var t, mem' := Pt(p.i4, p.i3, p.i2), Store(d.mem, d.frame, p.i1, Entry(pa));
    EntryDecodes(pa);
    assert forall u | u in tabs :: tabs[u] in tabs.Values;
    forall u: Table, j: Index
      ensures WordAt(mem', tabs, u, j) == if u == t && j == p.i1 then Entry(pa) else WordAt(d.mem, tabs, u, j)
    {
      if u in tabs && u != t { assert tabs[u] != tabs[t]; }
    }
  }

  /** Writing frames that are no tables changes no word of a table. */
  lemma OutsideFillsNothing(mem: Memory, mem': Memory, tabs: map<Table, nat>, changed: set<nat>)
    requires SameOutside(mem, mem', changed) && changed !! tabs.Values
    ensures Filled(mem, tabs, mem', tabs, iset{})
  {
    assert forall u | u in tabs :: tabs[u] in tabs.Values;
  }

  // ---------- which pages can be written ----------

  /** The processor's walk, asking at each level whether writes are allowed. */
  predicate WalkWrites(mem: Memory, root: Top, p: Page) {
    root.frame < |mem| && Present(mem[root.frame][p.i4]) && Writeable(mem[root.frame][p.i4]) &&
    var f3 := Target(mem[root.frame][p.i4]);
    f3 < |mem| && Present(mem[f3][p.i3]) && Writeable(mem[f3][p.i3]) &&
    (Large(mem[f3][p.i3]) ||
      var f2 := Target(mem[f3][p.i3]);
      f2 < |mem| && Present(mem[f2][p.i2]) && Writeable(mem[f2][p.i2]) &&
      (Large(mem[f2][p.i2]) ||
        var f1 := Target(mem[f2][p.i2]);
        f1 < |mem| && Present(mem[f1][p.i1]) && Writeable(mem[f1][p.i1])))
  }

  predicate Allows(w: Word) { Present(w) && Writeable(w) }

  predicate Forbids(w: Word) { Present(w) && !Writeable(w) }

  /** In a tree of tables all four words must allow it. */
  lemma WritesIsWords(mem: Memory, root: Top, tabs: map<Table, nat>, p: Page)
    requires TableTree(mem, root, tabs) && p.i4 != root.slot
    ensures WalkWrites(mem, root, p)
            <==> && Allows(WordAt(mem, tabs, Root, p.i4)) && Allows(WordAt(mem, tabs, Pdpt(p.i4), p.i3))
                 && Allows(WordAt(mem, tabs, Pdt(p.i4, p.i3), p.i2)) && Allows(WordAt(mem, tabs, Pt(p.i4, p.i3, p.i2), p.i1))
  {
    assert Linked(mem, tabs, Root, p.i4);
    if Pdpt(p.i4) in tabs {
      assert Linked(mem, tabs, Pdpt(p.i4), p.i3);
      if Pdt(p.i4, p.i3) in tabs {
        assert Linked(mem, tabs, Pdt(p.i4, p.i3), p.i2);
      }
    }
  }

  /** Some table that is on the way to a page already is linked without the right to write. */
  predicate Barred(mem: Memory, tabs: map<Table, nat>, p: Page) {
    || Forbids(WordAt(mem, tabs, Root, p.i4)) || Forbids(WordAt(mem, tabs, Pdpt(p.i4), p.i3))
    || Forbids(WordAt(mem, tabs, Pdt(p.i4, p.i3), p.i2))
  }

  /** A mapped page can be written unless it is barred so, and every other page exactly if it could. */
  lemma FilledWrites(mem: Memory, root: Top, tabs: map<Table, nat>, mem': Memory, tabs': map<Table, nat>, mapped: iset<Page>, p: Page)
    requires TableTree(mem, root, tabs) && TableTree(mem', root, tabs') && Filled(mem, tabs, mem', tabs', mapped)
    requires p.i4 != root.slot && (p in mapped ==> Lookup(mem', tabs', p).Some?)
    ensures WalkWrites(mem', root, p) <==> if p in mapped then !Barred(mem, tabs, p) else WalkWrites(mem, root, p)
  {
    hide Filled, WalkWrites, WordAt;
    WritesIsWords(mem, root, tabs, p);
    WritesIsWords(mem', root, tabs', p);
    FilledAllows(mem, tabs, mem', tabs', mapped, Root, p.i4);
    FilledAllows(mem, tabs, mem', tabs', mapped, Pdpt(p.i4), p.i3);
    FilledAllows(mem, tabs, mem', tabs', mapped, Pdt(p.i4, p.i3), p.i2);
    FilledWord(mem, tabs, mem', tabs', mapped, Pt(p.i4, p.i3, p.i2), p.i1);
    if p in mapped {
      PathPresent(mem', root, tabs', p);
      PlainIs(WordAt(mem', tabs', Pt(p.i4, p.i3, p.i2), p.i1));
    } else {
      PathAbsent(mem, root, tabs, p);
    }
  }

  lemma FilledAllows(mem: Memory, tabs: map<Table, nat>, mem': Memory, tabs': map<Table, nat>, mapped: iset<Page>, t: Table, i: Index)
    requires Filled(mem, tabs, mem', tabs', mapped) && !t.Pt?
    ensures var w, w' := WordAt(mem, tabs, t, i), WordAt(mem', tabs', t, i);
            (Present(w) ==> w' == w) && (!Present(w) && Present(w') ==> Writeable(w'))
  {
    hide Filled;
    FilledWord(mem, tabs, mem', tabs', mapped, t, i);
    if WordAt(mem', tabs', t, i) != WordAt(mem, tabs, t, i) { PlainIs(WordAt(mem', tabs', t, i)); }
  }

  /** A page that translates has all its tables. */
  lemma PathPresent(mem: Memory, root: Top, tabs: map<Table, nat>, p: Page)
    requires TableTree(mem, root, tabs) && p.i4 != root.slot && Lookup(mem, tabs, p).Some?
    ensures Present(WordAt(mem, tabs, Root, p.i4)) && Present(WordAt(mem, tabs, Pdpt(p.i4), p.i3))
            && Present(WordAt(mem, tabs, Pdt(p.i4, p.i3), p.i2))
  {
    assert HasParent(tabs, Pt(p.i4, p.i3, p.i2)) && HasParent(tabs, Pdt(p.i4, p.i3));
    assert Linked(mem, tabs, Root, p.i4) && Linked(mem, tabs, Pdpt(p.i4), p.i3) && Linked(mem, tabs, Pdt(p.i4, p.i3), p.i2);
  }

  /** A page without one of its inner words has no last-level word. */
  lemma PathAbsent(mem: Memory, root: Top, tabs: map<Table, nat>, p: Page)
    requires TableTree(mem, root, tabs) && p.i4 != root.slot
    ensures Present(WordAt(mem, tabs, Pt(p.i4, p.i3, p.i2), p.i1)) ==>
              Present(WordAt(mem, tabs, Root, p.i4)) && Present(WordAt(mem, tabs, Pdpt(p.i4), p.i3))
              && Present(WordAt(mem, tabs, Pdt(p.i4, p.i3), p.i2))
  {
    if Present(WordAt(mem, tabs, Pt(p.i4, p.i3, p.i2), p.i1)) { PathPresent(mem, root, tabs, p); }
  }
}
