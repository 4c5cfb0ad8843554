/** `remap_physical_memory`: the loader's identity map of memory becomes the kernel's direct map. */
module Remap {
  import opened Basics
  import opened PageTables
  import opened PageRights

  const DIRECT_MAP: Index := 256  // the root entry of address 0xffff800000000000

  /** Root entry 0 moves to the direct map's slot. */
  function Remapped(mem: Memory, root: nat): Memory
    requires root < |mem|
  {
    Store(Store(mem, root, DIRECT_MAP, mem[root][0]), root, 0, 0)
  }

  /** The tables below the root that the walk of `p` reads are not the root table itself. */
  predicate LeavesRoot(mem: Memory, root: nat, p: Page) {
    && root < |mem|
    && (Present(mem[root][p.i4]) ==>
          var f3 := Target(mem[root][p.i4]);
          && f3 != root
          && (f3 < |mem| && Present(mem[f3][p.i3]) && !Large(mem[f3][p.i3]) ==>
                var f2 := Target(mem[f3][p.i3]);
                && f2 != root
                && (f2 < |mem| && Present(mem[f2][p.i2]) && !Large(mem[f2][p.i2]) ==> Target(mem[f2][p.i2]) != root)))
  }

  /** Every page of the direct map translates as the identity-mapped page below it did, nothing is
      mapped at slot 0 any more, and the other slots translate as before. */
  lemma RemapMovesIdentity(mem: Memory, root: Top, p: Page)
    requires root.frame < |mem| && LeavesRoot(mem, root.frame, p.(i4 := if p.i4 == DIRECT_MAP then 0 else p.i4))
    ensures Walk(Remapped(mem, root.frame), root, p)
            == if p.i4 == DIRECT_MAP then Walk(mem, root, p.(i4 := 0)) else if p.i4 == 0 then None else Walk(mem, root, p)
    ensures WalkWrites(Remapped(mem, root.frame), root, p)
            <==> if p.i4 == DIRECT_MAP then WalkWrites(mem, root, p.(i4 := 0)) else p.i4 != 0 && WalkWrites(mem, root, p)
  {
    var mem' := Remapped(mem, root.frame);
    var q := p.(i4 := if p.i4 == DIRECT_MAP then 0 else p.i4);
    assert forall f | 0 <= f < |mem| && f != root.frame :: mem'[f] == mem[f];
    if p.i4 != 0 {
      assert mem'[root.frame][p.i4] == mem[root.frame][q.i4];
    }
  }

  /** The loader's tables, which leave out its identity slot, become the kernel's tables, which leave
      out the direct map, when the loader mapped nothing there. */
  lemma RemapHandsOverTree(mem: Memory, root: nat, tabs: map<Table, nat>)
    requires TableTree(mem, Top(root, 0), tabs)
    requires Pdpt(0) !in tabs && Pdpt(DIRECT_MAP) !in tabs
    ensures root < |mem| && TableTree(Remapped(mem, root), Top(root, DIRECT_MAP), tabs)
  {
    assert tabs[Root] < |mem|;
    var mem' := Remapped(mem, root);
    forall t, i: Index | t in tabs && Inner(Top(root, DIRECT_MAP), t, i) ensures Linked(mem', tabs, t, i) {
      if t != Root {
        assert tabs[t] != tabs[Root];
        assert Linked(mem, tabs, t, i);
      } else if i != 0 {
        assert Linked(mem, tabs, t, i);
      }
    }
  }
}
