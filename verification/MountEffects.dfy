/** What a mount that goes through does to every path, whatever the file system answers. */
module MountEffects {
  import opened Basics
  import opened CanonicalPath
  import opened MountTree

  // ---------- below a tree node without a child of the new name ----------

  /** What a path shows that comes to a tree node with file `f`, when the loop has hung `count` new nodes
      below it: it goes on from one to the next by their names, and from any of them into its file. */
  function Through<F>(fs: Files<F>, f: Option<F>, name: string, count: nat, root: F, rest: seq<string>): Option<F>
    decreases count
  {
    var g := Find(fs, f, name);
    if count == 0 then Chain(fs, Some(root), rest)
    else if g.Some? && rest != [] && rest[0] == fs.name(g.value) then Through(fs, g, "", count - 1, root, rest[1..])
    else Chain(fs, f, rest)
  }

  /** The last new node carries the root, and stands where the names of the nodes found lead. */
  ghost predicate Hung<F>(ns: seq<Node<F>>, at: seq<string>, root: F) {
    && TreeOk(ns) && Deepest(ns, 0, at) == (|ns| - 1, |at|)
    && ns[|ns| - 1].children == [] && ns[|ns| - 1].file == Some(root)
  }

  lemma InsertHangs<F>(ns: seq<Node<F>>, n: nat, names: seq<string>, name: string, root: F)
    requires TreeOk(ns) && Deepest(ns, 0, names) == (n, |names|)
    requires ChildrenExist(ns, n) && ChildNamed(ns, ns[n].children, name) == |ns[n].children|
    ensures Hung(Insert(ns, n, name, Some(root)), names + [name], root)
  {
    InsertKeepsTree(ns, n, name, Some(root));
    InsertReached(ns, n, names, name, Some(root), []);
    assert names + [name] + [] == names + [name];
  }

  lemma LastInsert<F>(ns: seq<Node<F>>, n: nat, name: string, g: F, root: F)
    requires n < |ns|
    ensures var ns1 := Insert(ns, n, name, Some(g));
            ns1[|ns| := ns1[|ns|].(file := Some(root))] == Insert(ns, n, name, Some(root))
  {
  }

  lemma {:induction false} ExtendHangs<F>(fs: Files<F>, ns: seq<Node<F>>, n: nat, names: seq<string>,
                                          name: string, count: nat, root: F)
    requires TreeOk(ns) && Deepest(ns, 0, names) == (n, |names|) && NewName(fs, ns, n, name)
    requires count > 0 && Extend(fs, ns, n, name, count, root).Mounted?
    ensures var ns' := Extend(fs, ns, n, name, count, root).nodes;
            |ns'| == |ns| + count && Hung(ns', names + Added(fs, ns[n].file, name, count), root)
    decreases count
  {
    hide Deepest, ParentsKnow, ChildNamed;
    assert ChildrenExist(ns, n);
    var g := Find(fs, ns[n].file, name).value;
    var gname := fs.name(g);
    var ns1, at := Insert(ns, n, gname, Some(g)), names + [gname];
    if count == 1 {
      InsertHangs(ns, n, names, gname, root);
      LastInsert(ns, n, gname, g, root);
      assert Added(fs, Some(g), "", 0) == [] && [gname] + [] == [gname];
    } else {
      InsertHangs(ns, n, names, gname, g);
      LeafIsNew(fs, ns1, |ns|, "");
      ExtendHangs(fs, ns1, |ns|, at, "", count - 1, root);
      assert names + ([gname] + Added(fs, Some(g), "", count - 1)) == at + Added(fs, Some(g), "", count - 1);
    }
  }

  /** A path's next name leads to the first new node, or past it. */
  lemma ThroughStep<F>(fs: Files<F>, f: Option<F>, name: string, count: nat, root: F, names: seq<string>, q: seq<string>)
    requires count > 0 && Find(fs, f, name).Some?
    ensures var g := Find(fs, f, name);
            var at := names + [fs.name(g.value)];
            && (at <= q ==> Through(fs, f, name, count, root, q[|names|..]) == Through(fs, g, "", count - 1, root, q[|at|..]))
            && (names <= q && !(at <= q) ==> Through(fs, f, name, count, root, q[|names|..]) == Chain(fs, f, q[|names|..]))
  {
    var at := names + [fs.name(Find(fs, f, name).value)];
    var rest := if names <= q then q[|names|..] else [];
    if at <= q {
      assert rest[0] == at[|names|] && rest[1..] == q[|at|..];
    } else if names <= q && rest != [] {
      assert q == names + [rest[0]] + rest[1..];
    }
  }

  lemma {:induction false} ExtendResolves<F(!new)>(fs: Files<F>, ns: seq<Node<F>>, n: nat, names: seq<string>,
                                                   name: string, count: nat, root: F)
    requires TreeOk(ns) && Deepest(ns, 0, names) == (n, |names|) && NewName(fs, ns, n, name)
    requires count > 0 && Extend(fs, ns, n, name, count, root).Mounted?
    ensures var ns', f := Extend(fs, ns, n, name, count, root).nodes, ns[n].file;
            && Linked(ns') && f.Some? && fs.find(f.value, name).Some?
            && forall q: seq<string> ::
                 GetFsNode(fs, ns', q) == if names + [fs.name(fs.find(f.value, name).value)] <= q
                                          then Through(fs, f, name, count, root, q[|names|..]) else GetFsNode(fs, ns, q)
    decreases count
  {
    hide Deepest, ParentsKnow, ChildNamed, GetFsNode, Chain, Through;
    assert ChildrenExist(ns, n);
    var f := ns[n].file;
    var g := Find(fs, f, name).value;
    var gname := fs.name(g);
    var ns1, at := Insert(ns, n, gname, Some(g)), names + [gname];
    var ns' := Extend(fs, ns, n, name, count, root).nodes;
    if count == 1 {
      InsertOverlays(fs, ns, n, names, gname, root);
      LastInsert(ns, n, gname, g, root);
      forall q: seq<string> | at <= q
        ensures Through(fs, f, name, 1, root, q[|names|..]) == Chain(fs, Some(root), q[|at|..])
      {
        ThroughStep(fs, f, name, 1, root, names, q);
        ThroughNone(fs, Some(g), root, q[|at|..]);
      }
    } else {
      InsertHangs(ns, n, names, gname, g);
      InsertOverlays(fs, ns, n, names, gname, g);
      LeafIsNew(fs, ns1, |ns|, "");
      ExtendResolves(fs, ns1, |ns|, at, "", count - 1, root);
      forall q: seq<string>
        ensures GetFsNode(fs, ns', q) == if at <= q then Through(fs, f, name, count, root, q[|names|..]) else GetFsNode(fs, ns, q)
      {
        ThroughStep(fs, f, name, count, root, names, q);
        ThroughStep(fs, Some(g), "", count - 1, root, at, q);
      }
    }
  }

  lemma ThroughNone<F>(fs: Files<F>, f: Option<F>, root: F, rest: seq<string>)
    ensures Through(fs, f, "", 0, root, rest) == Chain(fs, Some(root), rest)
  {
  }

  /** A walk ends at the last new node exactly when it begins with the names that lead there. */
  lemma HungWalk<F>(ns: seq<Node<F>>, at: seq<string>, root: F, q: seq<string>)
    requires Hung(ns, at, root)
    ensures Deepest(ns, 0, q).0 == |ns| - 1 <==> at <= q
    ensures at <= q ==> Deepest(ns, 0, q) == (|ns| - 1, |at|)
  {
    hide Deepest, ParentsKnow, ChildrenExist;
    DeepestPath(ns, 0, at);
    DeepestPath(ns, 0, q);
    assert [] + at[..|at|] == at && [] + q[..Deepest(ns, 0, q).1] == q[..Deepest(ns, 0, q).1];
    if at <= q {
      assert q == at + q[|at|..];
      DeepestConcat(ns, 0, at, q[|at|..]);
      LeafStops(ns, |ns| - 1, q[|at|..]);
    }
  }

  // ---------- below a tree node that has a child of the new name ----------

  /** `ns'` is `ns` with a second child of a name below node `n`, and anything below that one. */
  ghost predicate Shadows<F>(ns: seq<Node<F>>, ns': seq<Node<F>>, n: nat) {
    && Linked(ns) && n < |ns| < |ns'| && ChildrenExist(ns, n)
    && (forall i | 0 <= i < |ns| :: ns'[i].name == ns[i].name && ns'[i].file == ns[i].file)
    && (forall i | 0 <= i < |ns| :: ns'[i].children == ns[i].children + if i == n then [|ns|] else [])
    && ChildNamed(ns, ns[n].children, ns'[|ns|].name) < |ns[n].children|
  }

  /** The first child of a name is found, so no walk gets to the second one. */
  lemma {:induction false} ShadowedWalk<F>(ns: seq<Node<F>>, ns': seq<Node<F>>, n: nat, at: nat, q: seq<string>)
    requires Shadows(ns, ns', n) && Linked(ns') && at < |ns|
    ensures Deepest(ns', at, q) == Deepest(ns, at, q)
    decreases |q|
  {
    if q != [] {
      var i := ShadowedChild(ns, ns', n, at, q[0]);
      hide ChildNamed, Shadows;
      if i < |ns[at].children| { ShadowedWalk(ns, ns', n, ns[at].children[i], q[1..]); }
    }
  }

  lemma ShadowedChild<F>(ns: seq<Node<F>>, ns': seq<Node<F>>, n: nat, at: nat, name: string) returns (i: nat)
    requires Shadows(ns, ns', n) && Linked(ns') && at < |ns|
    ensures ChildrenExist(ns, at) && ChildrenExist(ns', at) && i == ChildNamed(ns, ns[at].children, name)
    ensures if i < |ns[at].children|
            then i == ChildNamed(ns', ns'[at].children, name) && i < |ns'[at].children|
                 && ns'[at].children[i] == ns[at].children[i] < |ns|
            else ChildNamed(ns', ns'[at].children, name) == |ns'[at].children|
  {
    assert ChildrenExist(ns, at) && ChildrenExist(ns', at);
    var cs, cs' := ns[at].children, ns'[at].children;
    i := ChildNamed(ns, cs, name);
    assert forall j | 0 <= j < |cs| :: cs'[j] == cs[j];
    ChildNamedIs(ns', cs', name, if i < |cs| then i else |cs'|);
  }

  lemma {:induction false} ExtendShadows<F>(fs: Files<F>, ns: seq<Node<F>>, n: nat, ns1: seq<Node<F>>, at: nat,
                                            name: string, count: nat, root: F)
    requires Shadows(ns, ns1, n) && Linked(ns1) && |ns| <= at < |ns1| && Extend(fs, ns1, at, name, count, root).Mounted?
    ensures var ns' := Extend(fs, ns1, at, name, count, root).nodes;
            Shadows(ns, ns', n) && Linked(ns') && |ns'| == |ns1| + count
    decreases count
  {
    hide ChildNamed;
    if count == 0 {
      var ns' := ns1[at := ns1[at].(file := Some(root))];
      forall i | 0 <= i < |ns'| ensures ChildrenExist(ns', i) { assert ChildrenExist(ns1, i); }
    } else {
      var g := Find(fs, ns1[at].file, name).value;
      InsertKeepsLinks(ns1, at, fs.name(g), Some(g));
      ExtendShadows(fs, ns, n, Insert(ns1, at, fs.name(g), Some(g)), |ns1|, "", count - 1, root);
    }
  }

  // ---------- every mount ----------

  /** The tree node that gets the mounted root. */
  function MountNode<F>(ns: seq<Node<F>>, path: string): nat
    requires Linked(ns)
  {
    if Missing(ns, path) == 0 then Deepest(ns, 0, Names(path)).0 else |ns| + Missing(ns, path) - 1
  }

  /** The first tree node that the loop makes has a name of its own, or it makes none. */
  predicate Reachable<F>(fs: Files<F>, ns: seq<Node<F>>, path: string)
    requires Linked(ns)
  {
    Missing(ns, path) == 0 || NewName(fs, ns, Deepest(ns, 0, Names(path)).0, FirstMissing(ns, path))
  }

  /** The mount is the loop, from the deepest node on. */
  lemma MountIsExtend<F>(fs: Files<F>, ns: seq<Node<F>>, path: string, root: F)
    requires Linked(ns) && Mount(fs, ns, path, Some(root)).Mounted? && Missing(ns, path) > 0
    ensures Mount(fs, ns, path, Some(root))
            == Extend(fs, ns, Deepest(ns, 0, Names(path)).0, FirstMissing(ns, path), Missing(ns, path), root)
  {
    hide Extend, Allowed;
  }

  lemma WalkBefore<F>(ns: seq<Node<F>>, path: string)
    requires Linked(ns)
    ensures var (n, k) := Deepest(ns, 0, Names(path)); Deepest(ns, 0, Names(path)[..k]) == (n, |Names(path)[..k]|)
  {
    DeepestPrefix(ns, 0, Names(path));
  }

  /** No name is missing: just the walks that end at the node lead into the mounted file system. */
  lemma MountOnNode<F(!new)>(fs: Files<F>, ns: seq<Node<F>>, path: string, root: F)
    requires TreeOk(ns) && Mount(fs, ns, path, Some(root)).Mounted? && Missing(ns, path) == 0
    ensures var ns', names := Mount(fs, ns, path, Some(root)).nodes, Names(path);
            && TreeOk(ns') && |ns'| == |ns|
            && (forall q: seq<string> :: Deepest(ns', 0, q) == Deepest(ns, 0, q))
            && GetFsNode(fs, ns', names) == Some(root)
            && forall q: seq<string> ::
                 GetFsNode(fs, ns', q) == if Deepest(ns, 0, q).0 == Deepest(ns, 0, names).0
                                          then Chain(fs, Some(root), q[Deepest(ns, 0, q).1..]) else GetFsNode(fs, ns, q)
  {
    hide Deepest, Chain, ParentsKnow, Allowed;
    var ns', names := Mount(fs, ns, path, Some(root)).nodes, Names(path);
    ShapeKeepsTree(ns, ns');
    forall q: seq<string> ensures Deepest(ns', 0, q) == Deepest(ns, 0, q) { ShapeDecides(ns, ns', 0, q); }
    assert names[|names|..] == [];
    ChainNothing(fs, Some(root));
  }

  lemma ChainNothing<F>(fs: Files<F>, f: Option<F>)
    ensures Chain(fs, f, []) == f
  {
  }

  /** Names are missing, and the first new node has a name of its own: just the paths through the landing
      path are walked to the mounted root, and the others go through the new nodes that they name. */
  lemma MountBelow<F(!new)>(fs: Files<F>, ns: seq<Node<F>>, path: string, root: F)
    requires TreeOk(ns) && Mount(fs, ns, path, Some(root)).Mounted? && Missing(ns, path) > 0 && Reachable(fs, ns, path)
    ensures var ns', names, at := Mount(fs, ns, path, Some(root)).nodes, Names(path), Landing(fs, ns, path);
            && TreeOk(ns') && |ns'| == |ns| + Missing(ns, path) && |at| == |names|
            && (forall q: seq<string> :: Deepest(ns', 0, q).0 == MountNode(ns, path) <==> at <= q)
            && (forall q: seq<string> | at <= q :: GetFsNode(fs, ns', q) == Chain(fs, Some(root), q[|names|..]))
    ensures var ns', k := Mount(fs, ns, path, Some(root)).nodes, |Names(path)| - Missing(ns, path);
            forall q: seq<string> ::
              GetFsNode(fs, ns', q) == if Landing(fs, ns, path)[..k + 1] <= q
                                       then Through(fs, ns[Deepest(ns, 0, Names(path)).0].file, FirstMissing(ns, path),
                                                    Missing(ns, path), root, q[k..])
                                       else GetFsNode(fs, ns, q)
  {
    hide Deepest, ParentsKnow, Mount, Extend, GetFsNode, Chain, Through, NewName;
    var names, count, name := Names(path), Missing(ns, path), FirstMissing(ns, path);
    var (n, k) := Deepest(ns, 0, names);
    var at, ns' := Landing(fs, ns, path), Mount(fs, ns, path, Some(root)).nodes;
    MountIsExtend(fs, ns, path, root);
    WalkBefore(ns, path);
    ExtendHangs(fs, ns, n, names[..k], name, count, root);
    ExtendResolves(fs, ns, n, names[..k], name, count, root);
    ExtendEndsExactly(fs, ns, n, name, count, root);
    assert at[..k + 1] == names[..k] + [Added(fs, ns[n].file, name, count)[0]];
    forall q: seq<string>
      ensures Deepest(ns', 0, q).0 == MountNode(ns, path) <==> at <= q
      ensures at <= q ==> GetFsNode(fs, ns', q) == Chain(fs, Some(root), q[|names|..])
    {
      HungWalk(ns', at, root, q);
      if at <= q { LeafShows(fs, ns', at, root, q); }
    }
  }

  lemma LeafShows<F>(fs: Files<F>, ns: seq<Node<F>>, at: seq<string>, root: F, q: seq<string>)
    requires Hung(ns, at, root) && at <= q
    ensures GetFsNode(fs, ns, q) == Chain(fs, Some(root), q[|at|..])
  {
    hide Deepest, Chain;
    HungWalk(ns, at, root, q);
  }

  /** Names are missing, and the first new node has the name of a sibling: the mount reports success and
      changes no path at all. */
  lemma MountUnseen<F(!new)>(fs: Files<F>, ns: seq<Node<F>>, path: string, root: F)
    requires TreeOk(ns) && Mount(fs, ns, path, Some(root)).Mounted? && !Reachable(fs, ns, path)
    ensures var ns' := Mount(fs, ns, path, Some(root)).nodes;
            && Linked(ns') && |ns'| == |ns| + Missing(ns, path)
            && forall q: seq<string> :: Deepest(ns', 0, q) == Deepest(ns, 0, q) && GetFsNode(fs, ns', q) == GetFsNode(fs, ns, q)
  {
    hide Deepest, Mount, Chain, ChildNamed, ParentsKnow;
    var count, name := Missing(ns, path), FirstMissing(ns, path);
    var n := Deepest(ns, 0, Names(path)).0;
    MountIsExtend(fs, ns, path, root);
    var g := Find(fs, ns[n].file, name).value;
    var ns1, ns' := Insert(ns, n, fs.name(g), Some(g)), Mount(fs, ns, path, Some(root)).nodes;
    InsertKeepsLinks(ns, n, fs.name(g), Some(g));
    assert ChildrenExist(ns, n);
    assert Shadows(ns, ns1, n);
    ExtendShadows(fs, ns, n, ns1, |ns|, "", count - 1, root);
    forall q: seq<string> ensures Deepest(ns', 0, q) == Deepest(ns, 0, q) { ShadowedWalk(ns, ns', n, 0, q); }
  }

  /** The promise of a mount, exactly: the mount point is walked to the mounted root if and only if no name
      is missing, or the first new node has a name of its own and the nodes found have the missing names. */
  lemma MountPointExactly<F(!new)>(fs: Files<F>, ns: seq<Node<F>>, path: string, root: F)
    requires TreeOk(ns) && Mount(fs, ns, path, Some(root)).Mounted?
    ensures var ns', names := Mount(fs, ns, path, Some(root)).nodes, Names(path);
            && Linked(ns') && MountNode(ns, path) < |ns'| && ns'[MountNode(ns, path)].file == Some(root)
            && (Deepest(ns', 0, names).0 == MountNode(ns, path)
                <==> Missing(ns, path) == 0 || (Reachable(fs, ns, path) && Landing(fs, ns, path) == names))
            && (Deepest(ns', 0, names).0 == MountNode(ns, path) ==> GetFsNode(fs, ns', names) == Some(root))
  {
    hide Deepest, ParentsKnow, Mount, Extend, GetFsNode, Chain, Through, NewName, Landing, Missing, Reachable;
    var names := Names(path);
    RootIsStored(fs, ns, path, root);
    ChainNothing(fs, Some(root));
    assert names[|names|..] == [];
    if Missing(ns, path) == 0 {
      MountOnNode(fs, ns, path, root);
    } else if Reachable(fs, ns, path) {
      MountBelow(fs, ns, path, root);
    } else {
      MountUnseen(fs, ns, path, root);
      assert Deepest(ns, 0, names).0 < |ns|;
    }
  }

  // ---------- every tree that mounts make ----------

  lemma {:induction false} ExtendKeepsTree<F>(fs: Files<F>, ns: seq<Node<F>>, at: nat, name: string, count: nat, root: F)
    requires TreeOk(ns) && at < |ns| && Extend(fs, ns, at, name, count, root).Mounted?
    ensures TreeOk(Extend(fs, ns, at, name, count, root).nodes)
    decreases count
  {
    if count == 0 {
      ShapeKeepsTree(ns, ns[at := ns[at].(file := Some(root))]);
    } else {
      hide TreeOk;
      var g := Find(fs, ns[at].file, name).value;
      InsertKeepsTree(ns, at, fs.name(g), Some(g));
      ExtendKeepsTree(fs, Insert(ns, at, fs.name(g), Some(g)), |ns|, "", count - 1, root);
    }
  }

  lemma MountKeepsTree<F>(fs: Files<F>, ns: seq<Node<F>>, path: string, root: Option<F>)
    requires TreeOk(ns) && Mount(fs, ns, path, root).Mounted?
    ensures TreeOk(Mount(fs, ns, path, root).nodes)
  {
    hide Extend, Deepest, Allowed, ParentsKnow;
    var (n, k) := Deepest(ns, 0, Names(path));
    var name := if k < |Names(path)| then Names(path)[k] else "";
    ExtendKeepsTree(fs, ns, n, name, |Names(path)| - k, root.value);
    var ns1 := Extend(fs, ns, n, name, |Names(path)| - k, root.value).nodes;
    ShapeKeepsTree(ns1, ns1[0 := ns1[0].(name := "[root]")]);
  }

  /** The tree after a run of mounts, up to the first that follows a null pointer. */
  function Mounts<F>(fs: Files<F>, ns: seq<Node<F>>, requests: seq<(string, Option<F>)>): (ns': seq<Node<F>>)
    requires TreeOk(ns)
    ensures TreeOk(ns')
    decreases |requests|
  {
    if requests == [] then ns
    else
      match Mount(fs, ns, requests[0].0, requests[0].1)
      case Mounted(ns1) =>
        MountKeepsTree(fs, ns, requests[0].0, requests[0].1);
        Mounts(fs, ns1, requests[1..])
      case Refused => Mounts(fs, ns, requests[1..])
      case Faulted => ns
  }

  lemma RootIsStored<F>(fs: Files<F>, ns: seq<Node<F>>, path: string, root: F)
    requires Linked(ns) && Mount(fs, ns, path, Some(root)).Mounted?
    ensures var ns' := Mount(fs, ns, path, Some(root)).nodes;
            |ns'| == |ns| + Missing(ns, path) && ns'[MountNode(ns, path)].file == Some(root)
  {
    hide Deepest, Allowed;
    ExtendStores(fs, ns, Deepest(ns, 0, Names(path)).0, FirstMissing(ns, path), Missing(ns, path), root);
  }

  lemma {:induction false} ExtendStores<F>(fs: Files<F>, ns: seq<Node<F>>, at: nat, name: string, count: nat, root: F)
    requires at < |ns| && Extend(fs, ns, at, name, count, root).Mounted?
    ensures var ns' := Extend(fs, ns, at, name, count, root).nodes;
            |ns'| == |ns| + count && ns'[if count == 0 then at else |ns'| - 1].file == Some(root)
    decreases count
  {
    if count > 0 {
      var g := Find(fs, ns[at].file, name).value;
      ExtendStores(fs, Insert(ns, at, fs.name(g), Some(g)), |ns|, "", count - 1, root);
    }
  }
}
