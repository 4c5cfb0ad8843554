/** `vfs_get_fs_node` and `vfs_mount` on split path buffers, with their moving path pointer. */
module MountCode {
  import opened Basics
  import opened CanonicalPath
  import opened CanonicalPathCode
  import opened MountTree

  // ---------- split paths ----------

  /** From index `at` on, the buffer holds the names one behind the other, each terminated. */
  ghost predicate PointsAt(buf: seq<char>, at: nat, names: seq<string>)
    decreases |names|
  {
    names == [] || (Holds(buf, at, names[0]) && PointsAt(buf, at + |names[0]| + 1, names[1..]))
  }

  function Terminated(c: char): char { if c == SLASH then NUL else c }

  function Terminate(s: string): (t: seq<char>)
    ensures |t| == |s|
  {
    seq(|s|, i requires 0 <= i < |s| => Terminated(s[i]))
  }

  function FirstSlash(s: string): (i: nat)
    ensures i <= |s| && NoSlash(s[..i]) && (i < |s| ==> s[i] == SLASH)
  {
    if s == [] || s[0] == SLASH then 0
    else
      var i := FirstSlash(s[1..]);
      assert s[..i + 1] == [s[0]] + s[1..][..i];
      i + 1
  }

  /** A path whose slashes have become terminators holds its pieces one behind the other. */
  lemma {:induction false} SplitPoints(buf: seq<char>, at: nat, s: string)
    requires at + |s| < |buf| && buf[at..at + |s|] == Terminate(s) && buf[at + |s|] == NUL && NUL !in s
    ensures PointsAt(buf, at, Split(s))
    decreases |s|
  {
    hide Holds, Terminate, Split, NoSlash, FirstSlash;
    var i := FirstSlash(s);
    var c := s[..i];
    FirstPiece(buf, at, s, i);
    if i == |s| {
      assert c == s;
    } else {
      var t := s[i + 1..];
      assert s == c + [SLASH] + t;
      SplitJoin(c, t);
      OtherPieces(buf, at, s, i + 1);
      SplitPoints(buf, at + i + 1, t);
      assert ([c] + Split(t))[1..] == Split(t);
    }
  }

  lemma FirstPiece(buf: seq<char>, at: nat, s: string, i: nat)
    requires at + |s| < |buf| && buf[at..at + |s|] == Terminate(s) && buf[at + |s|] == NUL && NUL !in s
    requires i <= |s| && NoSlash(s[..i]) && (i < |s| ==> s[i] == SLASH)
    ensures Holds(buf, at, s[..i]) && Split(s[..i]) == [s[..i]]
  {
    var c := s[..i];
    forall k | 0 <= k < i ensures buf[at + k] == c[k] {
      assert c[k] in c;
      assert buf[at..at + |s|][k] == Terminated(s[k]);
    }
    assert buf[at..at + i] == c;
    assert i < |s| ==> buf[at..at + |s|][i] == NUL;
    assert c[0..] == c;
    LastSlashIs(c, 0);
  }

  lemma OtherPieces(buf: seq<char>, at: nat, s: string, i: nat)
    requires i <= |s| && at + |s| < |buf| && buf[at..at + |s|] == Terminate(s)
    ensures buf[at + i..at + i + |s[i..]|] == Terminate(s[i..])
  {
    assert buf[at + i..at + |s|] == buf[at..at + |s|][i..];
  }

  lemma {:induction false} SlashesCount(s: string)
    ensures |Split(s)| == Slashes(s) + 1
    decreases |s|
  {
    var i := LastSlash(s);
    if i == 0 {
      assert s[0..] == s;
      NoSlashes(s);
    } else {
      SlashesCount(s[..i - 1]);
      assert s == s[..i - 1] + [SLASH] + s[i..];
      SlashesConcat(s[..i - 1], [SLASH] + s[i..]);
      SlashesConcat([SLASH], s[i..]);
      NoSlashes(s[i..]);
      assert [SLASH][..0] == [];
      assert s[..i - 1] + [SLASH] + s[i..] == s[..i - 1] + ([SLASH] + s[i..]);
    }
  }

  /** The components of an absolute path are the pieces behind its first slash. */
  lemma AbsoluteComponents(path: string)
    requires path != "" && path[0] == SLASH
    ensures Components(path) == Split(path[1..])
  {
    assert path == "" + [SLASH] + path[1..];
    SplitJoin("", path[1..]);
    LastSlashIs("", 0);
    assert Split("") == [""];
  }

  lemma OnlyRoot(buf: seq<char>)
    ensures PointsAt(buf, 1, [])
  {
  }

  /** `strdup`, then `split_path_and_get_depth` */
  method SplitPath(path: string) returns (buf: array<char>, depth: nat)
    requires path != "" && path[0] == SLASH && NUL !in path
    ensures fresh(buf) && depth == |Names(path)| && PointsAt(buf[..], 1, Names(path))
  {
    hide PointsAt, Split;
    var n := |path|;
    buf := new char[n + 1](i requires 0 <= i <= n => if i < n then path[i] else NUL);
    depth := 0;
    if n == 1 && buf[0] == SLASH {
      buf[0] := NUL;
      OnlyRoot(buf[..]);
      return;
    }
    for i := 0 to n
      invariant depth == Slashes(path[..i])
      invariant forall k | 0 <= k < n :: buf[k] == if k < i then Terminated(path[k]) else path[k]
      invariant buf[n] == NUL
    {
      assert path[..i + 1][..i] == path[..i];
      if buf[i] == SLASH {
        buf[i] := NUL;
        depth := depth + 1;
      }
    }
    assert path[..n] == path;
    SlashesCount(path);
    AbsoluteComponents(path);
    assert buf[..][1..1 + |path[1..]|] == Terminate(path[1..]);
    SplitPoints(buf[..], 1, path[1..]);
  }

  /** The string that a pointer shows. */
  method ReadName(buf: array<char>, at: nat, ghost s: string) returns (r: string)
    requires Holds(buf[..], at, s)
    ensures r == s
  {
    var n := StrLen(buf, at, s);
    r := buf[at..at + n];
  }

  // ---------- the mount table ----------

  datatype Status = Done | Error | NullPointer

  /** The names of the file system are strings. */
  ghost predicate NamesAreStrings<F(!new)>(fs: Files<F>) { forall f :: NUL !in fs.name(f) }

  class MountTable<F(!new)> {
    const fs: Files<F>
    var nodes: seq<Node<F>>

    ghost predicate Valid()
      reads this
    {
      Linked(nodes) && forall i | 0 <= i < |nodes| :: NUL !in nodes[i].name
    }

    /** `vfs_init` */
    constructor (fs: Files<F>)
      ensures Valid() && TreeOk(nodes) && this.fs == fs
      ensures forall names :: GetFsNode(fs, nodes, names) == None
    {
      this.fs := fs;
      nodes := [Node("", None, 0, [])];
    }

    /** The inner loop of `get_deepest_tree_node`. */
    method FindChild(at: nat, buf: array<char>, currPath: nat, ghost name: string) returns (i: nat)
      requires Valid() && at < |nodes| && Holds(buf[..], currPath, name)
      ensures ChildrenExist(nodes, at) && i == ChildNamed(nodes, nodes[at].children, name)
    {
      assert ChildrenExist(nodes, at);
      i := 0;
      var cs := nodes[at].children;
      while i < |cs|
        invariant i <= |cs| && forall j | 0 <= j < i :: nodes[cs[j]].name != name
      {
        var same := StrEq(buf, currPath, nodes[cs[i]].name, name);
        if same {
          break;
        }
        i := i + 1;
      }
      ChildNamedIs(nodes, cs, name, i);
    }

    /** `get_deepest_tree_node` */
    method GetDeepest(buf: array<char>, depth: nat, ghost names: seq<string>)
      returns (node: nat, currPath: nat, currDepth: nat)
      requires Valid() && depth == |names| && PointsAt(buf[..], 1, names)
      ensures (node, currDepth) == Deepest(nodes, 0, names) && PointsAt(buf[..], currPath, names[currDepth..])
    {
      hide Holds, ChildNamed;
      node, currPath, currDepth := 0, 1, 0;
      while currDepth < depth
        invariant currDepth <= depth && node < |nodes| && PointsAt(buf[..], currPath, names[currDepth..])
        invariant Deepest(nodes, 0, names) == (Deepest(nodes, node, names[currDepth..]).0,
                                               currDepth + Deepest(nodes, node, names[currDepth..]).1)
      {
        ghost var rest := names[currDepth..];
        var i := FindChild(node, buf, currPath, rest[0]);
        if i == |nodes[node].children| {
          break;
        }
        var len := StrLen(buf, currPath, rest[0]);
        node := nodes[node].children[i];
        currPath := currPath + len + 1;
        currDepth := currDepth + 1;
        assert rest[1..] == names[currDepth..];
      }
    }

    /** `vfs_get_fs_node` */
    method Lookup(path: string) returns (f: Option<F>)
      requires Valid() && path != "" && path[0] == SLASH && NUL !in path
      ensures f == GetFsNode(fs, nodes, Names(path))
    {
      hide Holds, Deepest, Names;
      var buf, depth := SplitPath(path);
      ghost var names := Names(path);
      var node, start, found := GetDeepest(buf, depth, names);
      var currPath: nat, currDepth: nat := start, found;
      f := nodes[node].file;
      while f.Some? && currDepth < depth
        invariant currDepth <= depth && PointsAt(buf[..], currPath, names[currDepth..])
        invariant Chain(fs, f, names[currDepth..]) == GetFsNode(fs, nodes, names)
        decreases depth - currDepth
      {
        ghost var rest := names[currDepth..];
        var name := ReadName(buf, currPath, rest[0]);
        f := fs.find(f.value, name);
        currPath := currPath + |name| + 1;
        currDepth := currDepth + 1;
        assert rest[1..] == names[currDepth..];
      }
    }

    /** `vfs_mount`.  `root` is what the driver's mount function returns, and nothing if there is no
        such driver.  The path pointer is moved to the end of a name, not behind it. */
    method MountAt(path: string, root: Option<F>) returns (status: Status)
      requires Valid() && path != "" && path[0] == SLASH && NUL !in path && NamesAreStrings(fs)
      modifies this
      ensures match Mount(fs, old(nodes), path, root)
              case Mounted(ns) => status == Done && nodes == ns && Valid()
              case Refused => status == Error && nodes == old(nodes)
              case Faulted => status == NullPointer
      ensures status == Error <==> old(Unmountable(fs, nodes, path, root))
    {
      hide Deepest, Extend, GetFsNode, NamesAreStrings, Names;
      MountRefusedExactly(fs, nodes, path, root);
      if path == [SLASH] {
        if nodes[0].file.Some? {
          return Error;
        }
      } else {
        var mountNode := Lookup(path);
        if mountNode.None? || !fs.isDirectory(mountNode.value) {
          return Error;
        }
      }
      if root.None? {
        return Error;
      }
      var buf, depth := SplitPath(path);
      ghost var names := Names(path);
      var node, currPath, currDepth := GetDeepest(buf, depth, names);
      status := AddNodes(node, buf, currPath, depth - currDepth, root.value, if currDepth < depth then names[currDepth] else "");
      if status == Done && path == [SLASH] {
        SameChildrenLinked(nodes, 0, nodes[0].(name := "[root]"));
        nodes := nodes[0 := nodes[0].(name := "[root]")];
      }
    }

    /** The loop that adds tree nodes, and the change of the mount point's file. */
    method AddNodes(at: nat, buf: array<char>, start: nat, count: nat, root: F, ghost name: string) returns (status: Status)
      requires Valid() && at < |nodes| && (count > 0 ==> Holds(buf[..], start, name)) && NamesAreStrings(fs)
      modifies this
      ensures match Extend(fs, old(nodes), at, name, count, root)
              case Mounted(ns) => status == Done && nodes == ns && Valid()
              case Refused => false
              case Faulted => status == NullPointer
    {
      hide Holds;
      var node: nat, currPath: nat, left: nat := at, start, count;
      ghost var cur := name;
      while left > 0
        invariant Valid() && node < |nodes| && (left > 0 ==> Holds(buf[..], currPath, cur))
        invariant Extend(fs, old(nodes), at, name, count, root) == Extend(fs, nodes, node, cur, left, root)
      {
        var dir := ReadName(buf, currPath, cur);
        if nodes[node].file.None? {
          return NullPointer;
        }
        var file := fs.find(nodes[node].file.value, dir);
        if file.None? {
          return NullPointer;
        }
        InsertKeepsLinks(nodes, node, fs.name(file.value), file);
        nodes, node := Insert(nodes, node, fs.name(file.value), file), |nodes|;
        left := left - 1;
        currPath := currPath + |dir|;
        AtTheEnd(buf[..], currPath - |dir|, cur);
        cur := "";
      }
      SameChildrenLinked(nodes, node, nodes[node].(file := Some(root)));
      nodes := nodes[node := nodes[node].(file := Some(root))];
      status := Done;
    }
  }

  /** The pointer at the end of a name shows the empty string. */
  lemma AtTheEnd(buf: seq<char>, at: nat, s: string)
    requires Holds(buf, at, s)
    ensures Holds(buf, at + |s|, "")
  {
  }

  lemma SameChildrenLinked<F>(ns: seq<Node<F>>, i: nat, n: Node<F>)
    requires Linked(ns) && i < |ns| && n.children == ns[i].children
    ensures Linked(ns[i := n])
  {
    var ns' := ns[i := n];
    forall j | 0 <= j < |ns'| ensures ChildrenExist(ns', j) { assert ChildrenExist(ns, j); }
  }
}
