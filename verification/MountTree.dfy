/** The mount tree that lies over the file systems: path resolution and mounting, by component names. */
module MountTree {
  import opened Basics
  import opened CanonicalPath

  /** A file system as the virtual layer sees it: looking a name up in a directory, and what a node
      is called. */
  datatype Files<!F> = Files(find: (F, string) -> Option<F>, name: F -> string, isDirectory: F -> bool)

  /** A node of the mount tree.  The nodes lie in one sequence, the root first, and name each other
      by index. */
  datatype Node<+F> = Node(name: string, file: Option<F>, parent: nat, children: seq<nat>)

  // ---------- names ----------

  /** The component names that a path is split into; "/" has none. */
  function Names(path: string): seq<string> { if path == [SLASH] then [] else Components(path) }

  // ---------- walking down ----------

  predicate ChildrenExist<F>(ns: seq<Node<F>>, i: nat)
    requires i < |ns|
  {
    forall j | 0 <= j < |ns[i].children| :: i < ns[i].children[j] < |ns|
  }

  predicate Linked<F>(ns: seq<Node<F>>) {
    |ns| > 0 && forall i | 0 <= i < |ns| :: ChildrenExist(ns, i)
  }

  /** The first child with a given name, as an index into `cs`, or `|cs|`. */
  function ChildNamed<F>(ns: seq<Node<F>>, cs: seq<nat>, name: string): (i: nat)
    requires forall j | 0 <= j < |cs| :: cs[j] < |ns|
    ensures i <= |cs| && (i < |cs| ==> ns[cs[i]].name == name) && forall j | 0 <= j < i :: ns[cs[j]].name != name
  {
    if cs == [] || ns[cs[0]].name == name then 0 else ChildNamed(ns, cs[1..], name) + 1
  }

  /** `get_deepest_tree_node`: the last tree node on the way, and how many names lead to it. */
  function Deepest<F>(ns: seq<Node<F>>, at: nat, names: seq<string>): (r: (nat, nat))
    requires Linked(ns) && at < |ns|
    ensures r.0 < |ns| && r.1 <= |names|
    decreases |names|
  {
    if names == [] then (at, 0)
    else
      assert ChildrenExist(ns, at);
      var i := ChildNamed(ns, ns[at].children, names[0]);
      if i == |ns[at].children| then (at, 0)
      else
        var r := Deepest(ns, ns[at].children[i], names[1..]);
        (r.0, r.1 + 1)
  }

  /** Following names through `finddir`. */
  function Chain<F>(fs: Files<F>, f: Option<F>, names: seq<string>): Option<F>
    decreases |names|
  {
    if f.None? || names == [] then f else Chain(fs, fs.find(f.value, names[0]), names[1..])
  }

  /** `vfs_get_fs_node` */
  function GetFsNode<F>(fs: Files<F>, ns: seq<Node<F>>, names: seq<string>): Option<F>
    requires Linked(ns)
  {
    var r := Deepest(ns, 0, names);
    Chain(fs, ns[r.0].file, names[r.1..])
  }

  // ---------- mounting ----------

  /** Mounted, refused with an error, or stopped by a null pointer. */
  datatype Outcome<+F> = Mounted(nodes: seq<Node<F>>) | Refused | Faulted

  /** `tree_node_insert_child` */
  function Insert<F>(ns: seq<Node<F>>, at: nat, name: string, file: Option<F>): (ns': seq<Node<F>>)
    requires at < |ns|
    ensures |ns'| == |ns| + 1
  {
    ns[at := ns[at].(children := ns[at].children + [|ns|])] + [Node(name, file, at, [])]
  }

  /** The loop of `vfs_mount` that adds tree nodes for the names below the deepest one.  The step to
      the next name stops at the end of the present one, so from the second round on the name is
      empty. */
  function Extend<F>(fs: Files<F>, ns: seq<Node<F>>, at: nat, name: string, count: nat, root: F): Outcome<F>
    requires at < |ns|
    decreases count
  {
    if count == 0 then Mounted(ns[at := ns[at].(file := Some(root))])
    else
      match (if ns[at].file.Some? then fs.find(ns[at].file.value, name) else None)
      case None => Faulted
      case Some(f) => Extend(fs, Insert(ns, at, fs.name(f), Some(f)), |ns|, "", count - 1, root)
  }

  predicate Allowed<F>(fs: Files<F>, ns: seq<Node<F>>, path: string)
    requires Linked(ns)
  {
    if path == [SLASH] then ns[0].file.None?
    else
      var f := GetFsNode(fs, ns, Names(path));
      f.Some? && fs.isDirectory(f.value)
  }

  /** `vfs_mount`, where `root` is what the driver's own mount function returned, if there is a
      driver. */
  function Mount<F>(fs: Files<F>, ns: seq<Node<F>>, path: string, root: Option<F>): Outcome<F>
    requires Linked(ns)
  {
    if !Allowed(fs, ns, path) || root.None? then Refused
    else
      var names := Names(path);
      var (n, k) := Deepest(ns, 0, names);
      var out := Extend(fs, ns, n, if k < |names| then names[k] else "", |names| - k, root.value);
      if path == [SLASH] && out.Mounted? && out.nodes != [] then
        Mounted(out.nodes[0 := out.nodes[0].(name := "[root]")])
      else out
  }

  /** What `vfs_mount` refuses: a mount without a root, a second one on the root, and one on what is no
      directory. */
  predicate Unmountable<F>(fs: Files<F>, ns: seq<Node<F>>, path: string, root: Option<F>)
    requires Linked(ns)
  {
    || root.None?
    || (path == "/" && ns[0].file.Some?)
    || (path != "/" && (GetFsNode(fs, ns, Names(path)).None? || !fs.isDirectory(GetFsNode(fs, ns, Names(path)).value)))
  }

  lemma {:induction false} ExtendNeverRefuses<F>(fs: Files<F>, ns: seq<Node<F>>, at: nat, name: string, count: nat, root: F)
    requires at < |ns|
    ensures !Extend(fs, ns, at, name, count, root).Refused?
    decreases count
  {
    if count > 0 && ns[at].file.Some? && fs.find(ns[at].file.value, name).Some? {
      var f := fs.find(ns[at].file.value, name);
      ExtendNeverRefuses(fs, Insert(ns, at, fs.name(f.value), f), |ns|, "", count - 1, root);
    }
  }

  lemma MountRefusedExactly<F>(fs: Files<F>, ns: seq<Node<F>>, path: string, root: Option<F>)
    requires Linked(ns)
    ensures Mount(fs, ns, path, root).Refused? <==> Unmountable(fs, ns, path, root)
  {
    hide Extend, GetFsNode, Deepest;
    var (n, k) := Deepest(ns, 0, Names(path));
    if root.Some? {
      ExtendNeverRefuses(fs, ns, n, if k < |Names(path)| then Names(path)[k] else "", |Names(path)| - k, root.value);
    }
  }

  /** A mount that reports success has a root, does not replace a mounted root, and hides no file. */
  lemma MountedOnDirectory<F>(fs: Files<F>, ns: seq<Node<F>>, path: string, root: Option<F>)
    requires Linked(ns) && Mount(fs, ns, path, root).Mounted?
    ensures root.Some? && if path == "/" then ns[0].file == None
                          else GetFsNode(fs, ns, Names(path)).Some? && fs.isDirectory(GetFsNode(fs, ns, Names(path)).value)
  {
    hide Mount, GetFsNode;
    MountRefusedExactly(fs, ns, path, root);
  }

  // ---------- the shape of the tree ----------

  /** Looking a name up gives a node of that name. */
  ghost predicate KeepsNames<F(!new)>(fs: Files<F>) {
    forall f, s :: fs.find(f, s).Some? ==> fs.name(fs.find(f, s).value) == s
  }

  predicate SiblingsDiffer<F>(ns: seq<Node<F>>, i: nat)
    requires i < |ns| && ChildrenExist(ns, i)
  {
    var cs := ns[i].children;
    forall j, k | 0 <= j < k < |cs| :: ns[cs[j]].name != ns[cs[k]].name
  }

  predicate ParentsKnow<F>(ns: seq<Node<F>>, i: nat)
    requires i < |ns| && ChildrenExist(ns, i)
  {
    forall j | 0 <= j < |ns[i].children| :: ns[ns[i].children[j]].parent == i
  }

  /** The nodes form a tree.  Siblings may have the same name. */
  predicate TreeOk<F>(ns: seq<Node<F>>) {
    Linked(ns) && forall i | 0 <= i < |ns| :: ChildrenExist(ns, i) && ParentsKnow(ns, i)
  }

  predicate SiblingsApart<F>(ns: seq<Node<F>>) {
    Linked(ns) && forall i | 0 <= i < |ns| :: ChildrenExist(ns, i) && SiblingsDiffer(ns, i)
  }

  /** The names that lead from the root to a node. */
  function PathTo<F>(ns: seq<Node<F>>, i: nat): seq<string>
    requires i < |ns|
    decreases i
  {
    if i == 0 || ns[i].parent >= i then [] else PathTo(ns, ns[i].parent) + [ns[i].name]
  }

  lemma {:induction false} DeepestPath<F>(ns: seq<Node<F>>, at: nat, names: seq<string>)
    requires TreeOk(ns) && at < |ns|
    ensures var (n, k) := Deepest(ns, at, names); PathTo(ns, n) == PathTo(ns, at) + names[..k]
    decreases |names|
  {
    if names != [] {
      assert ChildrenExist(ns, at) && ParentsKnow(ns, at);
      var i := ChildNamed(ns, ns[at].children, names[0]);
      if i < |ns[at].children| {
        var c := ns[at].children[i];
        DeepestPath(ns, c, names[1..]);
        var k := Deepest(ns, c, names[1..]).1;
        assert [names[0]] + names[1..][..k] == names[..k + 1];
        assert PathTo(ns, c) == PathTo(ns, at) + [names[0]];
        assert PathTo(ns, at) + [names[0]] + names[1..][..k] == PathTo(ns, at) + ([names[0]] + names[1..][..k]);
      }
    }
  }

  /** A walk that uses up its names goes on from where it got. */
  lemma {:induction false} DeepestConcat<F>(ns: seq<Node<F>>, at: nat, names: seq<string>, rest: seq<string>)
    requires Linked(ns) && at < |ns| && Deepest(ns, at, names).1 == |names|
    ensures var n := Deepest(ns, at, names).0;
            var r := Deepest(ns, n, rest);
            Deepest(ns, at, names + rest) == (r.0, |names| + r.1)
    decreases |names|
  {
    hide Deepest, Linked;
    if names == [] {
      DeepestOfNone(ns, at);
      assert names + rest == rest;
    } else {
      var all := names + rest;
      assert all[0] == names[0] && all[1..] == names[1..] + rest;
      var c := DeepestStep(ns, at, names, all);
      DeepestConcat(ns, c, names[1..], rest);
    }
  }

  lemma DeepestOfNone<F>(ns: seq<Node<F>>, at: nat)
    requires Linked(ns) && at < |ns|
    ensures Deepest(ns, at, []) == (at, 0)
  {
  }

  /** A walk that gets anywhere takes the same first step as any other that begins with that name. */
  lemma DeepestStep<F>(ns: seq<Node<F>>, at: nat, names: seq<string>, all: seq<string>) returns (c: nat)
    requires Linked(ns) && at < |ns| && Deepest(ns, at, names).1 > 0
    requires names != [] && all != [] && all[0] == names[0]
    ensures c < |ns|
    ensures Deepest(ns, at, names) == (Deepest(ns, c, names[1..]).0, Deepest(ns, c, names[1..]).1 + 1)
    ensures Deepest(ns, at, all) == (Deepest(ns, c, all[1..]).0, Deepest(ns, c, all[1..]).1 + 1)
  {
    hide ChildNamed;
    assert ChildrenExist(ns, at);
    c := ns[at].children[ChildNamed(ns, ns[at].children, names[0])];
  }

  /** A walk that stops is the walk of the names up to there, and has no child for the next name. */
  lemma {:induction false} DeepestPrefix<F>(ns: seq<Node<F>>, at: nat, names: seq<string>)
    requires Linked(ns) && at < |ns|
    ensures var (n, k) := Deepest(ns, at, names);
            && Deepest(ns, at, names[..k]) == (n, k)
            && (k < |names| ==> ChildrenExist(ns, n) && ChildNamed(ns, ns[n].children, names[k]) == |ns[n].children|)
    decreases |names|
  {
    if names != [] {
      assert ChildrenExist(ns, at);
      var i := ChildNamed(ns, ns[at].children, names[0]);
      if i < |ns[at].children| {
        var c := ns[at].children[i];
        DeepestPrefix(ns, c, names[1..]);
        var k := Deepest(ns, c, names[1..]).1;
        assert names[..k + 1][1..] == names[1..][..k];
      }
    }
  }

  // ---------- inserting and replacing ----------

  lemma {:induction false} ChildNamedIs<F>(ns: seq<Node<F>>, cs: seq<nat>, name: string, i: nat)
    requires forall j | 0 <= j < |cs| :: cs[j] < |ns|
    requires i <= |cs| && (i < |cs| ==> ns[cs[i]].name == name) && forall j | 0 <= j < i :: ns[cs[j]].name != name
    ensures ChildNamed(ns, cs, name) == i
  {
    var k := ChildNamed(ns, cs, name);
    assert k < |cs| ==> ns[cs[k]].name == name;
  }

  /** Nodes that differ in their files only, or in the root's name, which is never asked for. */
  ghost predicate SameShape<F>(ns: seq<Node<F>>, ns': seq<Node<F>>) {
    |ns| == |ns'| && forall i | 0 <= i < |ns| ::
      ns'[i].children == ns[i].children && ns'[i].parent == ns[i].parent && (i > 0 ==> ns'[i].name == ns[i].name)
  }

  lemma {:induction false} ShapeDecides<F>(ns: seq<Node<F>>, ns': seq<Node<F>>, at: nat, names: seq<string>)
    requires Linked(ns) && SameShape(ns, ns') && at < |ns|
    ensures Linked(ns') && Deepest(ns', at, names) == Deepest(ns, at, names)
    decreases |names|
  {
    forall i | 0 <= i < |ns'| ensures ChildrenExist(ns', i) { assert ChildrenExist(ns, i); }
    if names != [] {
      assert ChildrenExist(ns, at) && ChildrenExist(ns', at);
      var i := ChildNamed(ns, ns[at].children, names[0]);
      ChildNamedIs(ns', ns'[at].children, names[0], i);
      if i < |ns[at].children| { ShapeDecides(ns, ns', ns[at].children[i], names[1..]); }
    }
  }

  lemma InsertKeepsLinks<F>(ns: seq<Node<F>>, at: nat, name: string, file: Option<F>)
    requires Linked(ns) && at < |ns|
    ensures Linked(Insert(ns, at, name, file))
  {
    var ns' := Insert(ns, at, name, file);
    forall i | 0 <= i < |ns'| ensures ChildrenExist(ns', i) {
      if i < |ns| { assert ChildrenExist(ns, i); }
    }
  }

  /** A new node keeps the tree, and keeps siblings apart exactly when its name is new. */
  lemma InsertKeepsTree<F>(ns: seq<Node<F>>, at: nat, name: string, file: Option<F>)
    requires TreeOk(ns) && at < |ns|
    ensures TreeOk(Insert(ns, at, name, file))
    ensures ChildrenExist(ns, at) && (SiblingsApart(ns) ==>
              (SiblingsApart(Insert(ns, at, name, file)) <==> ChildNamed(ns, ns[at].children, name) == |ns[at].children|))
  {
    hide ChildrenExist, ParentsKnow, SiblingsDiffer, ChildNamed;
    var ns' := Insert(ns, at, name, file);
    forall i | 0 <= i < |ns'| ensures ChildrenExist(ns', i) && ParentsKnow(ns', i) {
      if i < |ns| { assert ChildrenExist(ns, i) && ParentsKnow(ns, i); }
      InsertKeepsNode(ns, at, name, file, i);
    }
    assert ChildrenExist(ns, at);
    if SiblingsApart(ns) { InsertKeepsSiblings(ns, at, name, file); }
  }

  lemma InsertKeepsNode<F>(ns: seq<Node<F>>, at: nat, name: string, file: Option<F>, i: nat)
    requires at < |ns| && i <= |ns| && (i < |ns| ==> ChildrenExist(ns, i) && ParentsKnow(ns, i))
    ensures var ns' := Insert(ns, at, name, file); ChildrenExist(ns', i) && ParentsKnow(ns', i)
  {
  }

  lemma InsertKeepsSiblings<F>(ns: seq<Node<F>>, at: nat, name: string, file: Option<F>)
    requires TreeOk(ns) && SiblingsApart(ns) && at < |ns| && ChildrenExist(ns, at) && TreeOk(Insert(ns, at, name, file))
    ensures SiblingsApart(Insert(ns, at, name, file)) <==> ChildNamed(ns, ns[at].children, name) == |ns[at].children|
  {
    var ns', j := Insert(ns, at, name, file), ChildNamed(ns, ns[at].children, name);
    if j == |ns[at].children| {
      forall i | 0 <= i < |ns'| ensures ChildrenExist(ns', i) && SiblingsDiffer(ns', i) {
        assert ChildrenExist(ns', i);
        if i < |ns| { assert ChildrenExist(ns, i) && SiblingsDiffer(ns, i); }
      }
    } else {
      assert ChildrenExist(ns', at) && ns'[ns'[at].children[j]].name == ns'[ns'[at].children[|ns[at].children|]].name;
      assert !SiblingsDiffer(ns', at);
    }
  }

  lemma FirstIsPrefix(path: seq<string>, names: seq<string>)
    requires names != []
    ensures path + [names[0]] <= path + names
  {
    assert path + names == path + [names[0]] + names[1..];
  }

  /** A walk that does not go through the new node is as it was. */
  lemma {:induction false} InsertMissed<F>(ns: seq<Node<F>>, n: nat, name: string, file: Option<F>, at: nat, names: seq<string>)
    requires TreeOk(ns) && n < |ns| && at < |ns| && TreeOk(Insert(ns, n, name, file))
    requires !(PathTo(ns, n) + [name] <= PathTo(ns, at) + names)
    ensures Deepest(Insert(ns, n, name, file), at, names) == Deepest(ns, at, names)
    decreases |names|
  {
    hide ChildNamed;
    if names != [] {
      var ns' := Insert(ns, n, name, file);
      assert ChildrenExist(ns, at) && ChildrenExist(ns', at) && ParentsKnow(ns, at);
      var i := ChildNamed(ns, ns[at].children, names[0]);
      FirstIsPrefix(PathTo(ns, at), names);
      if i < |ns[at].children| {
        var c := ns[at].children[i];
        ChildNamedIs(ns', ns'[at].children, names[0], i);
        assert PathTo(ns, c) + names[1..] == PathTo(ns, at) + names;
        InsertMissed(ns, n, name, file, c, names[1..]);
      } else {
        ChildNamedIs(ns', ns'[at].children, names[0], |ns'[at].children|);
      }
    }
  }

  /** From the parent on, a walk through the new node stops there. */
  lemma InsertStops<F>(ns: seq<Node<F>>, n: nat, name: string, file: Option<F>, rest: seq<string>)
    requires n < |ns| && Linked(ns) && Linked(Insert(ns, n, name, file))
    requires ChildrenExist(ns, n) && ChildNamed(ns, ns[n].children, name) == |ns[n].children|
    ensures Deepest(Insert(ns, n, name, file), n, [name] + rest) == (|ns|, 1)
  {
    hide ChildNamed;
    var ns' := Insert(ns, n, name, file);
    assert ChildrenExist(ns', n);
    ChildNamedIs(ns', ns'[n].children, name, |ns[n].children|);
    assert ([name] + rest)[1..] == rest && ns'[n].children[|ns[n].children|] == |ns|;
    LeafStops(ns', |ns|, rest);
  }

  lemma LeafStops<F>(ns: seq<Node<F>>, i: nat, names: seq<string>)
    requires Linked(ns) && i < |ns| && ns[i].children == []
    ensures Deepest(ns, i, names) == (i, 0)
  {
  }

  /** A walk through the new node stops there. */
  lemma InsertReached<F>(ns: seq<Node<F>>, n: nat, names: seq<string>, name: string, file: Option<F>, rest: seq<string>)
    requires TreeOk(ns) && Deepest(ns, 0, names) == (n, |names|) && TreeOk(Insert(ns, n, name, file))
    requires ChildrenExist(ns, n) && ChildNamed(ns, ns[n].children, name) == |ns[n].children|
    ensures Deepest(Insert(ns, n, name, file), 0, names + [name] + rest) == (|ns|, |names| + 1)
  {
    hide Deepest, ParentsKnow, Insert;
    var ns' := Insert(ns, n, name, file);
    DeepestPath(ns, 0, names);
    assert names[..|names|] == names && [] + names == names;
    assert !(names + [name] <= names);
    InsertMissed(ns, n, name, file, 0, names);
    DeepestConcat(ns', 0, names, [name] + rest);
    assert names + ([name] + rest) == names + [name] + rest;
    InsertStops(ns, n, name, file, rest);
  }

  // ---------- the overlay ----------

  /** What a mount promises: paths through the mount point lead into the mounted file system, and all
      others where they led before. */
  ghost predicate Overlays<F(!new)>(fs: Files<F>, ns: seq<Node<F>>, ns': seq<Node<F>>, at: seq<string>, root: F)
    requires Linked(ns) && Linked(ns')
  {
    forall q: seq<string> ::
      GetFsNode(fs, ns', q) == if at <= q then Chain(fs, Some(root), q[|at|..]) else GetFsNode(fs, ns, q)
  }

  /** One path, when the file of the childless node `n` has been replaced. */
  lemma ReplaceResolves<F>(fs: Files<F>, ns: seq<Node<F>>, n: nat, names: seq<string>, root: F, ns': seq<Node<F>>, q: seq<string>)
    requires TreeOk(ns) && Deepest(ns, 0, names) == (n, |names|) && ns[n].children == [] && Linked(ns')
    requires Deepest(ns', 0, q) == Deepest(ns, 0, q)
    requires |ns'| == |ns| && ns'[n].file == Some(root) && forall i | 0 <= i < |ns| && i != n :: ns'[i].file == ns[i].file
    ensures GetFsNode(fs, ns', q) == if names <= q then Chain(fs, Some(root), q[|names|..]) else GetFsNode(fs, ns, q)
  {
    hide Deepest, Chain, ChildrenExist, ParentsKnow;
    DeepestPath(ns, 0, names);
    DeepestPath(ns, 0, q);
    var (m, k) := Deepest(ns, 0, q);
    assert [] + names[..|names|] == names && [] + q[..k] == q[..k];
    if names <= q {
      assert q == names + q[|names|..];
      DeepestConcat(ns, 0, names, q[|names|..]);
      LeafStops(ns, n, q[|names|..]);
    }
  }

  /** Mounting on a tree node without children. */
  lemma ReplaceOverlays<F(!new)>(fs: Files<F>, ns: seq<Node<F>>, n: nat, names: seq<string>, root: F, ns': seq<Node<F>>)
    requires TreeOk(ns) && Deepest(ns, 0, names) == (n, |names|) && ns[n].children == []
    requires SameShape(ns, ns') && ns'[n].file == Some(root) && forall i | 0 <= i < |ns| && i != n :: ns'[i].file == ns[i].file
    ensures Linked(ns') && Overlays(fs, ns, ns', names, root)
  {
    hide Deepest, GetFsNode, Chain;
    ShapeDecides(ns, ns', 0, []);
    forall q: seq<string>
      ensures GetFsNode(fs, ns', q) == if names <= q then Chain(fs, Some(root), q[|names|..]) else GetFsNode(fs, ns, q)
    {
      ShapeDecides(ns, ns', 0, q);
      ReplaceResolves(fs, ns, n, names, root, ns', q);
    }
  }

  lemma ShapeKeepsTree<F>(ns: seq<Node<F>>, ns': seq<Node<F>>)
    requires TreeOk(ns) && SameShape(ns, ns')
    ensures TreeOk(ns')
  {
    forall i | 0 <= i < |ns'| ensures ChildrenExist(ns', i) && ParentsKnow(ns', i) {
      assert ChildrenExist(ns, i) && ParentsKnow(ns, i);
    }
  }

  /** Mounting one name below a tree node. */
  lemma InsertOverlays<F(!new)>(fs: Files<F>, ns: seq<Node<F>>, n: nat, names: seq<string>, name: string, root: F)
    requires TreeOk(ns) && Deepest(ns, 0, names) == (n, |names|)
    requires ChildrenExist(ns, n) && ChildNamed(ns, ns[n].children, name) == |ns[n].children|
    ensures var ns' := Insert(ns, n, name, Some(root)); TreeOk(ns') && Overlays(fs, ns, ns', names + [name], root)
  {
    var ns' := Insert(ns, n, name, Some(root));
    InsertKeepsTree(ns, n, name, Some(root));
    DeepestPath(ns, 0, names);
    assert [] + names[..|names|] == names;
    var at := names + [name];
    forall q: seq<string>
      ensures GetFsNode(fs, ns', q) == if at <= q then Chain(fs, Some(root), q[|at|..]) else GetFsNode(fs, ns, q)
    {
      if at <= q {
        assert q == names + [name] + q[|at|..];
        InsertReached(ns, n, names, name, Some(root), q[|at|..]);
      } else {
        assert [] + q == q;
        InsertMissed(ns, n, name, Some(root), 0, q);
      }
    }
  }

  // ---------- where a mount lands ----------

  /** How many names of a path lie below the deepest tree node. */
  function Missing<F>(ns: seq<Node<F>>, path: string): nat
    requires Linked(ns)
  {
    |Names(path)| - Deepest(ns, 0, Names(path)).1
  }

  /** The first of the missing names. */
  function FirstMissing<F>(ns: seq<Node<F>>, path: string): string
    requires Linked(ns)
  {
    var names, k := Names(path), Deepest(ns, 0, Names(path)).1;
    if k < |names| then names[k] else ""
  }

  /** The names that the loop looks up for `count` new tree nodes: one, and then empty ones. */
  function Asked(name: string, count: nat): (names: seq<string>)
    ensures |names| == count
    decreases count
  {
    if count == 0 then [] else [name] + Asked("", count - 1)
  }

  function Find<F>(fs: Files<F>, f: Option<F>, name: string): Option<F> {
    if f.Some? then fs.find(f.value, name) else None
  }

  /** The names that the new tree nodes get, which are those of the nodes found. */
  function Added<F>(fs: Files<F>, f: Option<F>, name: string, count: nat): (names: seq<string>)
    ensures |names| <= count
    decreases count
  {
    if count == 0 || Find(fs, f, name).None? then []
    else
      var g := Find(fs, f, name);
      [fs.name(g.value)] + Added(fs, g, "", count - 1)
  }

  /** The loop goes through exactly when every lookup of a name and then of empty names succeeds; if
      one fails, the code follows a null pointer. */
  lemma {:induction false} ExtendEndsExactly<F>(fs: Files<F>, ns: seq<Node<F>>, at: nat, name: string, count: nat, root: F)
    requires at < |ns|
    ensures var out := Extend(fs, ns, at, name, count, root);
            if count == 0 || Chain(fs, ns[at].file, Asked(name, count)).Some?
            then out.Mounted? && |Added(fs, ns[at].file, name, count)| == count else out.Faulted?
    decreases count
  {
    if count > 0 {
      var names := Asked(name, count);
      assert names[0] == name && names[1..] == Asked("", count - 1);
      var f := Find(fs, ns[at].file, name);
      assert ns[at].file.Some? ==> Chain(fs, ns[at].file, names) == Chain(fs, f, names[1..]);
      if f.Some? { ExtendEndsExactly(fs, Insert(ns, at, fs.name(f.value), f), |ns|, "", count - 1, root); }
    }
  }

  /** An allowed mount goes through exactly when at most one name is missing from the tree, or the file
      system answers the first missing name and then the empty name for every other one.  In all other
      cases the code follows a null pointer. */
  lemma MountEndsExactly<F>(fs: Files<F>, ns: seq<Node<F>>, path: string, root: F)
    requires Linked(ns) && Allowed(fs, ns, path)
    ensures var out, n := Mount(fs, ns, path, Some(root)), Deepest(ns, 0, Names(path)).0;
            if Missing(ns, path) <= 1 || Chain(fs, ns[n].file, Asked(FirstMissing(ns, path), Missing(ns, path))).Some?
            then out.Mounted? else out.Faulted?
  {
    hide Deepest, ChildNamed;
    var names := Names(path);
    var (n, k) := Deepest(ns, 0, names);
    ExtendEndsExactly(fs, ns, n, FirstMissing(ns, path), Missing(ns, path), root);
    if Missing(ns, path) == 1 {
      assert names[k..] == [names[k]] && Asked("", 0) == [];
      assert Asked(names[k], 1) == [names[k]];
    }
  }

  /** The path at which the mounted root hangs. */
  function Landing<F>(fs: Files<F>, ns: seq<Node<F>>, path: string): seq<string>
    requires Linked(ns)
  {
    var names := Names(path);
    var (n, k) := Deepest(ns, 0, names);
    names[..k] + Added(fs, ns[n].file, FirstMissing(ns, path), |names| - k)
  }

  /** Each new tree node but the last stands for the file found under its own name. */
  ghost predicate Steady<F>(fs: Files<F>, f: Option<F>, name: string, count: nat)
    decreases count
  {
    count <= 1 || Find(fs, f, name).None?
    || (var g := Find(fs, f, name); Find(fs, f, fs.name(g.value)) == g && Steady(fs, g, "", count - 1))
  }

  /** The first new tree node does not get the name of a sibling. */
  predicate NewName<F>(fs: Files<F>, ns: seq<Node<F>>, n: nat, name: string)
    requires Linked(ns) && n < |ns|
  {
    assert ChildrenExist(ns, n);
    var g := Find(fs, ns[n].file, name);
    g.None? || ChildNamed(ns, ns[n].children, fs.name(g.value)) == |ns[n].children|
  }

  lemma NoChildStops<F>(ns: seq<Node<F>>, n: nat, name: string, rest: seq<string>)
    requires Linked(ns) && n < |ns| && ChildrenExist(ns, n) && ChildNamed(ns, ns[n].children, name) == |ns[n].children|
    ensures Deepest(ns, n, [name] + rest) == (n, 0)
  {
  }

  /** Through a node that has no child for the next name, a path goes on in the file system. */
  lemma LeavesTree<F>(fs: Files<F>, ns: seq<Node<F>>, n: nat, names: seq<string>, name: string, rest: seq<string>)
    requires Linked(ns) && Deepest(ns, 0, names) == (n, |names|)
    requires ChildrenExist(ns, n) && ChildNamed(ns, ns[n].children, name) == |ns[n].children|
    ensures GetFsNode(fs, ns, names + ([name] + rest)) == Chain(fs, Find(fs, ns[n].file, name), rest)
  {
    hide ChildNamed;
    DeepestConcat(ns, 0, names, [name] + rest);
    NoChildStops(ns, n, name, rest);
    assert (names + ([name] + rest))[|names|..] == [name] + rest && ([name] + rest)[1..] == rest;
  }

  /** A tree node for a file that is found under its name changes no path. */
  lemma InsertChangesNothing<F(!new)>(fs: Files<F>, ns: seq<Node<F>>, n: nat, names: seq<string>, name: string, g: F)
    requires TreeOk(ns) && Deepest(ns, 0, names) == (n, |names|)
    requires ChildrenExist(ns, n) && ChildNamed(ns, ns[n].children, name) == |ns[n].children|
    requires Find(fs, ns[n].file, name) == Some(g)
    ensures var ns' := Insert(ns, n, name, Some(g));
            TreeOk(ns') && forall q: seq<string> :: GetFsNode(fs, ns', q) == GetFsNode(fs, ns, q)
  {
    hide Deepest, GetFsNode, Chain, Insert, ChildNamed, ParentsKnow;
    var ns', at := Insert(ns, n, name, Some(g)), names + [name];
    InsertOverlays(fs, ns, n, names, name, g);
    forall q: seq<string> ensures GetFsNode(fs, ns', q) == GetFsNode(fs, ns, q) {
      if at <= q {
        var rest := q[|at|..];
        assert q == names + ([name] + rest);
        LeavesTree(fs, ns, n, names, name, rest);
      }
    }
  }

  /** The loop hangs the root at the names of the nodes it finds, and changes no other path. */
  lemma {:induction false} ExtendOverlays<F(!new)>(fs: Files<F>, ns: seq<Node<F>>, n: nat, names: seq<string>,
                                                   name: string, count: nat, root: F)
    requires TreeOk(ns) && Deepest(ns, 0, names) == (n, |names|) && NewName(fs, ns, n, name)
    requires count > 0 && Extend(fs, ns, n, name, count, root).Mounted? && Steady(fs, ns[n].file, name, count)
    ensures var ns' := Extend(fs, ns, n, name, count, root).nodes;
            TreeOk(ns') && Overlays(fs, ns, ns', names + Added(fs, ns[n].file, name, count), root)
    decreases count
  {
    hide Deepest, ParentsKnow, GetFsNode, ChildNamed;
    assert ChildrenExist(ns, n);
    var g := Find(fs, ns[n].file, name).value;
    var gname := fs.name(g);
    var ns1 := Insert(ns, n, gname, Some(g));
    if count == 1 {
      InsertOverlays(fs, ns, n, names, gname, root);
      assert Insert(ns, n, gname, Some(g))[|ns| := Node(gname, Some(root), n, [])] == Insert(ns, n, gname, Some(root));
      assert Added(fs, Some(g), "", 0) == [] && [gname] + [] == [gname];
    } else {
      InsertChangesNothing(fs, ns, n, names, gname, g);
      InsertReached(ns, n, names, gname, Some(g), []);
      assert names + [gname] + [] == names + [gname];
      LeafIsNew(fs, ns1, |ns|, "");
      ExtendOverlays(fs, ns1, |ns|, names + [gname], "", count - 1, root);
      assert names + ([gname] + Added(fs, Some(g), "", count - 1)) == (names + [gname]) + Added(fs, Some(g), "", count - 1);
    }
  }

  lemma LeafIsNew<F>(fs: Files<F>, ns: seq<Node<F>>, n: nat, name: string)
    requires Linked(ns) && n < |ns| && ns[n].children == []
    ensures NewName(fs, ns, n, name)
  {
    assert ChildrenExist(ns, n);
  }

  /** When a mount that goes through leaves all paths but the ones through its landing path as they were:
      a tree node that is mounted on has no children, or the first one made has a name of its own and all
      but the last stand for the files found under their names. */
  lemma MountLands<F(!new)>(fs: Files<F>, ns: seq<Node<F>>, path: string, root: F)
    requires TreeOk(ns) && Mount(fs, ns, path, Some(root)).Mounted?
    requires var n, name, count := Deepest(ns, 0, Names(path)).0, FirstMissing(ns, path), Missing(ns, path);
             if count == 0 then ns[n].children == [] else NewName(fs, ns, n, name) && Steady(fs, ns[n].file, name, count)
    ensures var ns' := Mount(fs, ns, path, Some(root)).nodes;
            TreeOk(ns') && Overlays(fs, ns, ns', Landing(fs, ns, path), root)
  {
    hide Deepest, ChildNamed, ParentsKnow, Overlays, PathTo, Allowed;
    var names := Names(path);
    var (n, k) := Deepest(ns, 0, names);
    DeepestPrefix(ns, 0, names);
    if k == |names| {
      assert names[..k] == names && names + [] == names;
      var ns' := Mount(fs, ns, path, Some(root)).nodes;
      ShapeKeepsTree(ns, ns');
      ReplaceOverlays(fs, ns, n, names, root, ns');
    } else {
      ExtendOverlays(fs, ns, n, names[..k], names[k], |names| - k, root);
    }
  }

  /** With at most one missing name, whose lookup gives a node of that name, an allowed mount lands
      where it should. */
  lemma MountOverlays<F(!new)>(fs: Files<F>, ns: seq<Node<F>>, path: string, root: F)
    requires TreeOk(ns) && Allowed(fs, ns, path) && Missing(ns, path) <= 1
    requires var n, name := Deepest(ns, 0, Names(path)).0, FirstMissing(ns, path);
             if Missing(ns, path) == 0 then ns[n].children == []
             else Find(fs, ns[n].file, name).Some? ==> fs.name(Find(fs, ns[n].file, name).value) == name
    ensures var out := Mount(fs, ns, path, Some(root));
            out.Mounted? && TreeOk(out.nodes) && Overlays(fs, ns, out.nodes, Names(path), root)
  {
    hide Deepest, ChildNamed, ParentsKnow, Overlays, PathTo, GetFsNode, Mount;
    var names := Names(path);
    var (n, k) := Deepest(ns, 0, names);
    MountEndsExactly(fs, ns, path, root);
    DeepestPrefix(ns, 0, names);
    MountLands(fs, ns, path, root);
    if k == |names| {
      assert names[..k] == names && names + [] == names;
    } else {
      AllowedFinds(fs, ns, path);
      assert Added(fs, ns[n].file, names[k], 1) == [names[k]] + Added(fs, Find(fs, ns[n].file, names[k]), "", 0);
      assert Added(fs, ns[n].file, names[k], 1) == [names[k]];
      assert names[..k] + [names[k]] == names;
      assert Landing(fs, ns, path) == names;
    }
  }

  lemma AllowedFinds<F>(fs: Files<F>, ns: seq<Node<F>>, path: string)
    requires Linked(ns) && Allowed(fs, ns, path) && Missing(ns, path) > 0
    ensures Find(fs, ns[Deepest(ns, 0, Names(path)).0].file, FirstMissing(ns, path)).Some?
  {
    hide Deepest;
    var (n, k) := Deepest(ns, 0, Names(path));
    ChainStarts(fs, ns[n].file, Names(path)[k..]);
  }

  lemma ChainStarts<F>(fs: Files<F>, f: Option<F>, names: seq<string>)
    requires Chain(fs, f, names).Some? && names != []
    ensures f.Some? && fs.find(f.value, names[0]).Some?
  {
    if f.Some? { assert Chain(fs, fs.find(f.value, names[0]), names[1..]).Some?; }
  }

  lemma {:induction false} KeptNamesAreSteady<F(!new)>(fs: Files<F>, f: Option<F>, name: string, count: nat)
    requires KeepsNames(fs)
    ensures Steady(fs, f, name, count)
    decreases count
  {
    if count > 1 && f.Some? { KeptNamesAreSteady(fs, Find(fs, f, name), "", count - 1); }
  }

  /** A file system that names what it finds by what was asked for never gets there, unless the path
      itself has an empty name: the mount reports success, and the mount point shows what it did. */
  lemma KeptNamesMiss<F(!new)>(fs: Files<F>, ns: seq<Node<F>>, path: string, root: F)
    requires TreeOk(ns) && KeepsNames(fs) && Mount(fs, ns, path, Some(root)).Mounted? && Missing(ns, path) >= 2
    requires Names(path)[Deepest(ns, 0, Names(path)).1 + 1] != ""
    ensures var ns' := Mount(fs, ns, path, Some(root)).nodes;
            && TreeOk(ns') && Landing(fs, ns, path) != Names(path)
            && GetFsNode(fs, ns', Names(path)) == GetFsNode(fs, ns, Names(path))
  {
    hide Deepest, Extend, Allowed, ChildNamed, ParentsKnow, GetFsNode;
    var names := Names(path);
    var (n, k) := Deepest(ns, 0, names);
    DeepestPrefix(ns, 0, names);
    KeptNamesAreSteady(fs, ns[n].file, names[k], |names| - k);
    KeptNamesLand(fs, ns, path);
    MountLands(fs, ns, path, root);
    ExtendEndsExactly(fs, ns, n, FirstMissing(ns, path), |names| - k, root);
    assert |Landing(fs, ns, path)| == |names|;
  }

  lemma KeptNamesLand<F(!new)>(fs: Files<F>, ns: seq<Node<F>>, path: string)
    requires Linked(ns) && KeepsNames(fs) && Missing(ns, path) >= 2
    requires Names(path)[Deepest(ns, 0, Names(path)).1 + 1] != ""
    ensures Landing(fs, ns, path) != Names(path)
  {
    hide Deepest;
    var names := Names(path);
    var (n, k) := Deepest(ns, 0, names);
    var g := Find(fs, ns[n].file, names[k]);
    var added := Added(fs, ns[n].file, names[k], |names| - k);
    if |added| > 1 {
      assert added[1..] == Added(fs, g, "", |names| - k - 1);
      assert added[1] == fs.name(Find(fs, g, "").value);
    }
    assert |added| > 1 ==> Landing(fs, ns, path)[k + 1] == added[1];
  }
}
