/** Mounting inside a tar archive, whose driver answers the empty name. */
module MountTar {
  import opened Basics
  import opened CanonicalPath
  import opened MountTree
  import opened MountEffects

  /** A node of the archive, by the path in its header; the root has none. */
  datatype TarNode = TarNode(path: string, isDir: bool)

  const ROOT := TarNode("", true)

  /** The loop of `tarfs_finddir`: the first header whose path begins so. */
  function FirstWith(es: seq<TarNode>, start: string): (r: Option<TarNode>)
    ensures r.Some? ==> r.value in es && start <= r.value.path
    ensures r.None? ==> forall e | e in es :: !(start <= e.path)
  {
    if es == [] then None else if start <= es[0].path then Some(es[0]) else FirstWith(es[1..], start)
  }

  /** `tarfs_finddir_root` and `tarfs_finddir`; a file has neither. */
  function TarFind(es: seq<TarNode>, f: TarNode, name: string): Option<TarNode> {
    if f.isDir then FirstWith(es, f.path + name) else None
  }

  /** The name that `tarfs_node_from_hdr` leaves; the scan does not look at the first character. */
  function TarName(f: TarNode): string {
    if f.path == "" then "[tarfs]"
    else
      var t := if f.isDir then f.path[..|f.path| - 1] else f.path;
      if LastSlash(t) > 1 then t[LastSlash(t)..] else t
  }

  function TarFiles(es: seq<TarNode>): Files<TarNode> {
    Files((f, name) => TarFind(es, f, name), f => TarName(f), (f: TarNode) => f.isDir)
  }

  /** What a lookup finds is the first entry with its own path, too. */
  lemma {:induction false} FoundIsFirst(es: seq<TarNode>, start: string, d: TarNode)
    requires FirstWith(es, start) == Some(d)
    ensures FirstWith(es, d.path) == Some(d)
  {
    if !(start <= es[0].path) {
      assert !(d.path <= es[0].path);
      FoundIsFirst(es[1..], start, d);
    }
  }

  /** The empty name leads from every directory that a lookup finds to itself. */
  lemma EmptyNameStays(es: seq<TarNode>, f: TarNode, name: string, d: TarNode)
    requires TarFind(es, f, name) == Some(d) && d.isDir
    ensures TarFind(es, d, "") == Some(d)
  {
    FoundIsFirst(es, f.path + name, d);
    assert d.path + "" == d.path;
  }

  function Repeat(s: string, n: nat): (r: seq<string>)
    ensures |r| == n
  {
    seq(n, _ => s)
  }

  lemma {:induction false} EmptyNamesStay(es: seq<TarNode>, d: TarNode, n: nat)
    requires TarFind(es, d, "") == Some(d)
    ensures Chain(TarFiles(es), Some(d), Asked("", n)) == Some(d)
    ensures Added(TarFiles(es), Some(d), "", n) == Repeat(TarName(d), n)
    decreases n
  {
    if n > 0 {
      EmptyNamesStay(es, d, n - 1);
      assert Asked("", n)[0] == "" && Asked("", n)[1..] == Asked("", n - 1);
      assert Repeat(TarName(d), n) == [TarName(d)] + Repeat(TarName(d), n - 1);
    }
  }

  /** What the lookup of the first missing name finds. */
  function FirstFound(es: seq<TarNode>, ns: seq<Node<TarNode>>, path: string): Option<TarNode>
    requires Linked(ns)
  {
    Find(TarFiles(es), ns[Deepest(ns, 0, Names(path)).0].file, FirstMissing(ns, path))
  }

  lemma FirstFoundIsDirectory(es: seq<TarNode>, ns: seq<Node<TarNode>>, path: string)
    requires Linked(ns) && Allowed(TarFiles(es), ns, path) && Missing(ns, path) >= 2
    ensures var g := FirstFound(es, ns, path); g.Some? && g.value.isDir
  {
    hide Deepest;
    var fs, names := TarFiles(es), Names(path);
    var (n, k) := Deepest(ns, 0, names);
    AllowedFinds(fs, ns, path);
    assert names[k..][0] == names[k];
    ChainStarts(fs, FirstFound(es, ns, path), names[k..][1..]);
  }

  lemma RepeatedLookups(es: seq<TarNode>, f: Option<TarNode>, g: TarNode, name: string, count: nat)
    requires (count > 1 ==> g.isDir) && Find(TarFiles(es), f, name) == Some(g) && count > 0
    ensures Chain(TarFiles(es), f, Asked(name, count)) == Some(g)
    ensures Added(TarFiles(es), f, name, count) == Repeat(TarName(g), count)
  {
    var fs := TarFiles(es);
    if count > 1 {
      EmptyNameStays(es, f.value, name, g);
      EmptyNamesStay(es, g, count - 1);
    }
    assert Asked(name, count)[0] == name && Asked(name, count)[1..] == Asked("", count - 1);
    assert Chain(fs, f, Asked(name, count)) == Chain(fs, Some(g), Asked("", count - 1));
    assert Added(fs, f, name, count) == [TarName(g)] + Repeat(TarName(g), count - 1);
    assert Repeat(TarName(g), count) == [TarName(g)] + Repeat(TarName(g), count - 1);
  }

  /** Over any archive every allowed mount goes through, however many names are missing; the nodes found
      all have the name that the first lookup finds. */
  lemma TarMountLands(es: seq<TarNode>, ns: seq<Node<TarNode>>, path: string, root: TarNode)
    requires Linked(ns) && Allowed(TarFiles(es), ns, path)
    ensures Mount(TarFiles(es), ns, path, Some(root)).Mounted?
    ensures var k := Deepest(ns, 0, Names(path)).1;
            Missing(ns, path) > 0 ==>
              && FirstFound(es, ns, path).Some?
              && Landing(TarFiles(es), ns, path)
                 == Names(path)[..k] + Repeat(TarName(FirstFound(es, ns, path).value), Missing(ns, path))
  {
    hide Deepest, Mount, Allowed, Chain, Added, Asked, FirstMissing, TarName, Repeat;
    MountEndsExactly(TarFiles(es), ns, path, root);
    if Missing(ns, path) > 0 {
      AllowedFinds(TarFiles(es), ns, path);
      if Missing(ns, path) > 1 { FirstFoundIsDirectory(es, ns, path); }
      RepeatedLookups(es, ns[Deepest(ns, 0, Names(path)).0].file, FirstFound(es, ns, path).value,
                      FirstMissing(ns, path), Missing(ns, path));
    }
  }

  /** When an allowed mount over an archive keeps its promise: no name is missing, or all the missing names
      are the one that the lookup of the first finds, and no sibling has it.  With such a sibling no path
      changes; otherwise the root hangs at that name, repeated. */
  lemma TarMountExactly(es: seq<TarNode>, ns: seq<Node<TarNode>>, path: string, root: TarNode)
    requires TreeOk(ns) && Allowed(TarFiles(es), ns, path)
    ensures var fs, out, names, count := TarFiles(es), Mount(TarFiles(es), ns, path, Some(root)), Names(path), Missing(ns, path);
            && out.Mounted? && Linked(out.nodes) && count <= |names| && (count > 0 ==> FirstFound(es, ns, path).Some?)
            && (Deepest(out.nodes, 0, names).0 == MountNode(ns, path)
                <==> count == 0
                     || (Reachable(fs, ns, path)
                         && names[|names| - count..] == Repeat(TarName(FirstFound(es, ns, path).value), count)))
            && (!Reachable(fs, ns, path) ==> forall q: seq<string> :: GetFsNode(fs, out.nodes, q) == GetFsNode(fs, ns, q))
            && (count > 0 && Reachable(fs, ns, path) ==>
                  var at := names[..|names| - count] + Repeat(TarName(FirstFound(es, ns, path).value), count);
                  forall q: seq<string> | at <= q :: GetFsNode(fs, out.nodes, q) == Chain(fs, Some(root), q[|names|..]))
  {
    hide Deepest, ParentsKnow, Mount, Allowed, GetFsNode, Chain, NewName, FirstMissing, FirstFound, TarName, Repeat;
    var fs, names := TarFiles(es), Names(path);
    TarMountLands(es, ns, path, root);
    MountPointExactly(fs, ns, path, root);
    if !Reachable(fs, ns, path) {
      MountUnseen(fs, ns, path, root);
    } else if Missing(ns, path) > 0 {
      MountBelow(fs, ns, path, root);
    }
    if Missing(ns, path) > 0 {
      var k, added := |names| - Missing(ns, path), Repeat(TarName(FirstFound(es, ns, path).value), Missing(ns, path));
      assert (names[..k] + added)[k..] == added && names == names[..k] + names[k..];
    }
  }

  /** So with two missing names, of which the first one's lookup gives a directory of that name, an allowed
      mount reports success, the first name repeated leads into the mounted file system, and the mount
      point itself, unless it is that path, leads where it did before. */
  lemma TarMountMisses(es: seq<TarNode>, ns: seq<Node<TarNode>>, path: string, root: TarNode)
    requires TreeOk(ns) && Allowed(TarFiles(es), ns, path) && Missing(ns, path) == 2
    requires FirstFound(es, ns, path).Some? && TarName(FirstFound(es, ns, path).value) == FirstMissing(ns, path)
    ensures var fs, out, names := TarFiles(es), Mount(TarFiles(es), ns, path, Some(root)), Names(path);
            var first := FirstMissing(ns, path);
            && out.Mounted? && TreeOk(out.nodes)
            && Overlays(fs, ns, out.nodes, names[..|names| - 2] + [first, first], root)
            && (names[|names| - 1] != first ==> GetFsNode(fs, out.nodes, names) == GetFsNode(fs, ns, names))
  {
    hide Deepest, ChildNamed, ParentsKnow, PathTo, GetFsNode, Mount, Allowed, Chain;
    var fs, names, first := TarFiles(es), Names(path), FirstMissing(ns, path);
    var (n, k) := Deepest(ns, 0, names);
    TarMountLands(es, ns, path, root);
    DeepestPrefix(ns, 0, names);
    assert Repeat(first, 2) == [first, first];
    assert Steady(fs, ns[n].file, first, 2);
    MountLands(fs, ns, path, root);
    if names[|names| - 1] != first {
      assert (names[..k] + [first, first])[|names| - 1] == first;
    }
  }

  const SMALL := [TarNode("a/", true), TarNode("a/b/", true)]

  lemma SmallLookups()
    ensures TarFind(SMALL, ROOT, "a") == Some(SMALL[0]) && TarFind(SMALL, SMALL[0], "b") == Some(SMALL[1])
    ensures TarName(SMALL[0]) == "a"
  {
    assert "" + "a" == "a" && "a" <= "a/";
    assert "a/" + "b" == "a/b" && !("a/b" <= "a/") && "a/b" <= "a/b/";
    assert SMALL[1..][0] == SMALL[1];
    assert SMALL[0].path[..1] == "a";
    LastSlashIs("a", 0);
  }

  lemma SmallChain()
    ensures Chain(TarFiles(SMALL), Some(ROOT), ["a", "b"]) == Some(SMALL[1])
  {
    var fs := TarFiles(SMALL);
    SmallLookups();
    assert ["a", "b"][1..] == ["b"] && ["b"][1..] == [];
    assert Chain(fs, Some(ROOT), ["a", "b"]) == Chain(fs, Some(SMALL[0]), ["b"]);
    assert Chain(fs, Some(SMALL[0]), ["b"]) == Chain(fs, Some(SMALL[1]), []);
  }

  /** The archive of the directories a and a/b, mounted as the root: a mount on /a/b hangs at /a/a. */
  lemma MountOnTarDirectory(root: TarNode)
    ensures var fs, ns := TarFiles(SMALL), [Node("[root]", Some(ROOT), 0, [])];
            && TreeOk(ns) && Allowed(fs, ns, "/a/b")
            && var out := Mount(fs, ns, "/a/b", Some(root));
            && out.Mounted? && TreeOk(out.nodes) && Overlays(fs, ns, out.nodes, ["a", "a"], root)
            && GetFsNode(fs, out.nodes, ["a", "b"]) == Some(SMALL[1])
  {
    hide Mount, Overlays, Chain, LastSlash, TarFind, TarName;
    var fs, ns := TarFiles(SMALL), [Node("[root]", Some(ROOT), 0, [])];
    assert ChildrenExist(ns, 0);
    NamesOfTwo("a", "b");
    assert "/a/b" == "/" + "a" + "/" + "b";
    SmallLookups();
    SmallChain();
    assert Deepest(ns, 0, ["a", "b"]) == (0, 0) && ["a", "b"][0..] == ["a", "b"];
    TarMountMisses(SMALL, ns, "/a/b", root);
    assert ["a", "b"][..0] + ["a", "a"] == ["a", "a"];
  }

  // ---------- what else can go wrong ----------

  const NESTED := [TarNode("a/", true), TarNode("a/a/", true), TarNode("a/a/c/", true)]

  lemma NestedLookups()
    ensures TarFind(NESTED, ROOT, "a") == Some(NESTED[0]) && TarFind(NESTED, NESTED[0], "a") == Some(NESTED[1])
    ensures TarFind(NESTED, NESTED[1], "c") == Some(NESTED[2])
    ensures TarFind(NESTED, NESTED[0], "") == Some(NESTED[0]) && TarName(NESTED[0]) == "a"
  {
    assert "" + "a" == "a" && "a/" + "" == "a/" && "a" <= "a/";
    assert "a/" + "a" == "a/a" && !("a/a" <= "a/") && "a/a" <= "a/a/";
    assert "a/a/" + "c" == "a/a/c" && !("a/a/c" <= "a/a/") && "a/a/c" <= "a/a/c/";
    var others := NESTED[1..];
    assert others == [NESTED[1], NESTED[2]] && others[1..] == [NESTED[2]];
    assert FirstWith(others, "a/a") == Some(NESTED[1]) && FirstWith(others[1..], "a/a/c") == Some(NESTED[2]);
    assert FirstWith(others, "a/a/c") == Some(NESTED[2]);
    assert "a/a/c"[3] == '/' && !("a/a/c" <= "a/");
    assert NESTED[0].path[..1] == "a";
    LastSlashIs("a", 0);
  }

  lemma NestedLacks()
    ensures TarFind(NESTED, NESTED[0], "c") == None
  {
    assert "a/" + "c" == "a/c";
    forall e | e in NESTED ensures !("a/c" <= e.path) {
      assert e == NESTED[0] || e == NESTED[1] || e == NESTED[2];
      assert |e.path| > 2 ==> e.path[2] == 'a' && "a/c"[2] == 'c';
    }
  }

  lemma NestedChain()
    ensures Chain(TarFiles(NESTED), Some(ROOT), ["a", "a", "c"]) == Some(NESTED[2])
    ensures Chain(TarFiles(NESTED), Some(NESTED[0]), ["c"]) == None
    ensures Through(TarFiles(NESTED), Some(ROOT), "a", 3, ROOT, ["a", "a", "c"]) == None
  {
    hide TarFind, TarName;
    var fs := TarFiles(NESTED);
    NestedLookups();
    NestedLacks();
    assert ["a", "a", "c"][1..] == ["a", "c"] && ["a", "c"][1..] == ["c"] && ["c"][1..] == [];
    assert Chain(fs, Some(ROOT), ["a", "a", "c"]) == Chain(fs, Some(NESTED[0]), ["a", "c"]);
    assert Chain(fs, Some(NESTED[0]), ["a", "c"]) == Chain(fs, Some(NESTED[1]), ["c"]);
    assert Through(fs, Some(ROOT), "a", 3, ROOT, ["a", "a", "c"]) == Through(fs, Some(NESTED[0]), "", 2, ROOT, ["a", "c"]);
    assert Through(fs, Some(NESTED[0]), "", 2, ROOT, ["a", "c"]) == Through(fs, Some(NESTED[0]), "", 1, ROOT, ["c"]);
  }

  /** The archive of a, a/a and a/a/c, mounted as the root: a mount on /a/a/c hangs at /a/a/a, and what was
      at the mount point is hidden, since the new node for /a/a stands for the directory a. */
  lemma MountHidesPoint()
    ensures var fs, ns := TarFiles(NESTED), [Node("[root]", Some(ROOT), 0, [])];
            && TreeOk(ns) && Allowed(fs, ns, "/a/a/c") && GetFsNode(fs, ns, ["a", "a", "c"]) == Some(NESTED[2])
            && var out := Mount(fs, ns, "/a/a/c", Some(ROOT));
            && out.Mounted? && TreeOk(out.nodes) && GetFsNode(fs, out.nodes, ["a", "a", "c"]) == None
  {
    hide Mount, Chain, LastSlash, TarFind, TarName, Through, Names;
    var fs, ns, names := TarFiles(NESTED), [Node("[root]", Some(ROOT), 0, [])], ["a", "a", "c"];
    assert ChildrenExist(ns, 0) && ParentsKnow(ns, 0);
    assert Names("/a/a/c") == names by {
      NamesOfThree("a", "a", "c");
      assert "/a/a/c" == "/" + "a" + "/" + "a" + "/" + "c";
    }
    NestedLookups();
    NestedChain();
    assert Deepest(ns, 0, names) == (0, 0) && names[0..] == names;
    MountHides(fs, ns, "/a/a/c");
  }

  lemma MountHides(fs: Files<TarNode>, ns: seq<Node<TarNode>>, path: string)
    requires fs == TarFiles(NESTED) && TreeOk(ns) && |ns| == 1 && ns[0].file == Some(ROOT) && ns[0].children == []
    requires Names(path) == ["a", "a", "c"] && Deepest(ns, 0, Names(path)) == (0, 0) && Allowed(fs, ns, path)
    requires Find(fs, Some(ROOT), "a") == Some(NESTED[0]) && TarName(NESTED[0]) == "a"
    requires Through(fs, Some(ROOT), "a", 3, ROOT, ["a", "a", "c"]) == None
    ensures var out := Mount(fs, ns, path, Some(ROOT));
            out.Mounted? && TreeOk(out.nodes) && GetFsNode(fs, out.nodes, ["a", "a", "c"]) == None
  {
    hide Mount, Deepest, Chain, LastSlash, TarFind, TarName, Through, Names, Landing, Allowed;
    var names := Names(path);
    TarMountLands(NESTED, ns, path, ROOT);
    MountBelow(fs, ns, path, ROOT);
    assert names[..0] + Repeat("a", 3) == ["a", "a", "a"] && ["a", "a", "a"][..1] == ["a"] && ["a"] <= names;
    assert names[0..] == names;
  }

  const PREFIXED := [TarNode("abc/", true), TarNode("abc/b/", true)]

  lemma PrefixedLookups()
    ensures TarFind(PREFIXED, ROOT, "ab") == Some(PREFIXED[0]) && TarFind(PREFIXED, PREFIXED[0], "b") == Some(PREFIXED[1])
    ensures TarName(PREFIXED[0]) == "abc"
  {
    assert "" + "ab" == "ab" && "ab" <= "abc/";
    assert "abc/" + "b" == "abc/b" && !("abc/b" <= "abc/") && "abc/b" <= "abc/b/";
    assert PREFIXED[1..][0] == PREFIXED[1];
    assert PREFIXED[0].path[..3] == "abc";
    LastSlashIs("abc", 0);
  }

  /** Its tree after an earlier mount on /abc. */
  function Taken(first: TarNode): (ns: seq<Node<TarNode>>)
    ensures TreeOk(ns)
  {
    var ns := [Node("[root]", Some(ROOT), 0, [1]), Node("abc", Some(first), 0, [])];
    assert ChildrenExist(ns, 0) && ChildrenExist(ns, 1) && ParentsKnow(ns, 0) && ParentsKnow(ns, 1);
    ns
  }

  /** The archive of abc and abc/b as the root, with an earlier mount on /abc: mounts on /ab and on /ab/b find
      abc, whose name the sibling has, and change nothing, though they report success. */
  lemma MountUnderTakenName(path: string, first: TarNode, root: TarNode)
    requires path == "/ab" || path == "/ab/b"
    ensures var fs, out := TarFiles(PREFIXED), Mount(TarFiles(PREFIXED), Taken(first), path, Some(root));
            && Allowed(fs, Taken(first), path) && out.Mounted? && TreeOk(out.nodes)
            && forall q: seq<string> :: GetFsNode(fs, out.nodes, q) == GetFsNode(fs, Taken(first), q)
  {
    hide Mount, Chain, LastSlash, TarFind, TarName, Names, Split;
    var fs, ns := TarFiles(PREFIXED), Taken(first);
    PrefixedNames();
    PrefixedWalk(ns, Names(path));
    PrefixedLookups();
    PrefixedChains();
    assert Names(path)[0..] == Names(path);
    TarMountLands(PREFIXED, ns, path, root);
    NameTaken(ns);
    MountKeepsTree(fs, ns, path, Some(root));
    MountUnseen(fs, ns, path, root);
  }

  lemma NameTaken(ns: seq<Node<TarNode>>)
    requires Linked(ns) && |ns| == 2 && ns[0].children == [1] && ns[1].name == "abc"
    ensures ChildNamed(ns, ns[0].children, "abc") == 0
  {
    ChildNamedIs(ns, [1], "abc", 0);
  }

  lemma PrefixedWalk(ns: seq<Node<TarNode>>, names: seq<string>)
    requires Linked(ns) && |ns| == 2 && ns[0].children == [1] && ns[1].name == "abc"
    requires names != [] && names[0] == "ab"
    ensures Deepest(ns, 0, names) == (0, 0)
  {
    ChildNamedIs(ns, [1], "ab", 1);
  }

  lemma PrefixedNames()
    ensures Names("/ab") == ["ab"] && Names("/ab/b") == ["ab", "b"]
  {
    hide Names;
    NamesOfOne("ab");
    NamesOfTwo("ab", "b");
    assert "/ab" == "/" + "ab" && "/ab/b" == "/" + "ab" + "/" + "b";
  }

  lemma PrefixedChains()
    ensures var fs := TarFiles(PREFIXED);
            && Chain(fs, Some(ROOT), ["ab"]) == Some(PREFIXED[0])
            && Chain(fs, Some(ROOT), ["ab", "b"]) == Some(PREFIXED[1])
  {
    hide TarFind;
    var fs := TarFiles(PREFIXED);
    PrefixedLookups();
    assert ["ab"][1..] == [] && ["ab", "b"][1..] == ["b"] && ["b"][1..] == [];
    assert Chain(fs, Some(ROOT), ["ab"]) == Chain(fs, Some(PREFIXED[0]), []);
    assert Chain(fs, Some(ROOT), ["ab", "b"]) == Chain(fs, Some(PREFIXED[0]), ["b"]);
    assert Chain(fs, Some(PREFIXED[0]), ["b"]) == Chain(fs, Some(PREFIXED[1]), []);
  }

  lemma NamesOfOne(a: string)
    requires NoSlash(a) && a != ""
    ensures Names("/" + a) == [a]
  {
    assert "/" + a == "" + [SLASH] + a;
    SplitJoin("", a);
    LastSlashIs("", 0);
    assert a[0..] == a;
    LastSlashIs(a, 0);
  }

  lemma NamesOfTwo(a: string, b: string)
    requires NoSlash(a) && NoSlash(b)
    ensures Names("/" + a + "/" + b) == [a, b]
  {
    var t := a + [SLASH] + b;
    assert "/" + a + "/" + b == "" + [SLASH] + t;
    SplitJoin("", t);
    SplitJoin(a, b);
    assert a[0..] == a && b[0..] == b;
    LastSlashIs("", 0);
    LastSlashIs(a, 0);
    LastSlashIs(b, 0);
  }

  lemma NamesOfThree(a: string, b: string, c: string)
    requires NoSlash(a) && NoSlash(b) && NoSlash(c)
    ensures Names("/" + a + "/" + b + "/" + c) == [a, b, c]
  {
    NamesOfTwo(a, b);
    var t := a + [SLASH] + b;
    assert "/" + a + "/" + b + "/" + c == ("" + [SLASH] + t) + [SLASH] + c;
    assert "/" + a + "/" + b == "" + [SLASH] + t;
    SplitJoin("" + [SLASH] + t, c);
    assert c[0..] == c;
    LastSlashIs(c, 0);
    assert |("" + [SLASH] + t) + [SLASH] + c| > 1 && |"" + [SLASH] + t| > 1;
  }
}
