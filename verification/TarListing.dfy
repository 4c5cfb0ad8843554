/** Directory listing in a tar archive: counting slashes finds the immediate children. */
module TarListing {
  import opened Basics
  import opened PageTables
  import opened CanonicalPath
  import opened Tar
  import Ramdisk

  datatype Found = Nothing | Name(name: string)

  /** `count_slashes`: a slash at the very end does not count. */
  function CountSlashes(s: string): nat {
    if s == "" then 0 else (if s[0] == SLASH && |s| > 1 then 1 else 0) + CountSlashes(s[1..])
  }

  /** The tests of `tarfs_readdir_root` and `tarfs_readdir`; the root has no name. */
  predicate Matches(dir: string, name: string) {
    if dir == "" then CountSlashes(name) == 0 && name != ""
    else CountSlashes(name) == CountSlashes(dir) + 1 && dir <= name
  }

  /** The last component, without a slash at the end. */
  function BaseName(name: string): string {
    var t := if name != "" && name[|name| - 1] == SLASH then name[..|name| - 1] else name;
    t[LastSlash(t)..]
  }

  // ---------- what the tests mean ----------

  /** `base` is the name, within directory `dir`, of a file or directory called `name`. */
  predicate IsChild(dir: string, base: string, name: string) {
    base != "" && NoSlash(base) && (name == dir + base || name == dir + base + [SLASH])
  }

  predicate IsPiece(base: string, r: string) {
    base != "" && NoSlash(base) && (r == base || r == base + [SLASH])
  }

  lemma ChildIsPiece(dir: string, base: string, name: string)
    ensures IsChild(dir, base, name) <==> dir <= name && IsPiece(base, name[|dir|..])
  {
    assert dir + (base + [SLASH]) == dir + base + [SLASH];
    if dir <= name { assert name == dir + name[|dir|..]; }
    assert (dir + base)[|dir|..] == base && (dir + (base + [SLASH]))[|dir|..] == base + [SLASH];
  }

  ghost predicate HasChild(dir: string, name: string) { exists base :: IsChild(dir, base, name) }

  predicate DirOk(dir: string) { dir == "" || (NameOk(dir) && dir[|dir| - 1] == SLASH) }

  predicate EndsInSlash(s: string) { s != "" && s[|s| - 1] == SLASH }

  lemma {:induction false} CountIs(s: string)
    ensures CountSlashes(s) == Slashes(s) - if EndsInSlash(s) then 1 else 0
  {
    if s != "" {
      CountIs(s[1..]);
      assert s == [s[0]] + s[1..];
      SlashesConcat([s[0]], s[1..]);
      assert [s[0]][..0] == "";
      assert Slashes([s[0]]) == if s[0] == SLASH then 1 else 0;
      if |s| == 1 { assert s[1..] == ""; } else { assert s[1..][|s| - 2] == s[|s| - 1]; }
    }
  }

  /** The part of a name behind a directory counts no slash exactly when it is one component. */
  lemma OneComponent(r: string)
    requires r != "" && r[0] != SLASH
    ensures CountSlashes(r) == 0 <==> (exists base :: IsPiece(base, r))
  {
    CountIs(r);
    if EndsInSlash(r) {
      var base := r[..|r| - 1];
      assert r == base + [SLASH];
      SlashesConcat(base, [SLASH]);
      assert [SLASH][..0] == "";
      if CountSlashes(r) == 0 {
        SomeSlash(base);
        assert IsPiece(base, r);
      }
    } else if CountSlashes(r) == 0 {
      SomeSlash(r);
      assert IsPiece(r, r);
    }
    if base :| IsPiece(base, r) {
      NoSlashes(base);
      SlashesConcat(base, [SLASH]);
      assert [SLASH][..0] == "";
    }
  }

  lemma CountBehind(dir: string, r: string)
    requires DirOk(dir) && r != ""
    ensures CountSlashes(dir + r) == (if dir == "" then 0 else CountSlashes(dir) + 1) + CountSlashes(r)
  {
    CountIs(dir + r);
    CountIs(dir);
    CountIs(r);
    SlashesConcat(dir, r);
    assert (dir + r)[|dir + r| - 1] == r[|r| - 1];
  }

  /** The code's tests pick exactly the names of immediate children. */
  lemma MatchesIsHasChild(dir: string, name: string)
    requires DirOk(dir) && NameOk(name)
    ensures Matches(dir, name) <==> HasChild(dir, name)
  {
    hide NameOk, DirOk, IsPiece, IsChild, CountSlashes;
    if dir <= name && name != dir {
      var r := name[|dir|..];
      assert name == dir + r;
      CountBehind(dir, r);
      BehindDirectory(dir, name);
      OneComponent(r);
      if Matches(dir, name) {
        var base :| IsPiece(base, r);
        ChildIsPiece(dir, base, name);
      }
    }
    if base :| IsChild(dir, base, name) {
      ChildIsPiece(dir, base, name);
      PieceIsSome(base, name[|dir|..]);
    }
    SameNameMissed(dir, name);
  }

  lemma PieceIsSome(base: string, r: string)
    requires IsPiece(base, r)
    ensures r != ""
  {
  }

  /** A directory does not match itself. */
  lemma SameNameMissed(dir: string, name: string)
    requires NameOk(name)
    ensures name != "" && !Matches(name, name)
  {
  }

  /** No empty component follows a directory's slash. */
  lemma BehindDirectory(dir: string, name: string)
    requires DirOk(dir) && NameOk(name) && dir <= name && name != dir
    ensures name[|dir|] != SLASH
  {
    if dir != "" { assert name[|dir| - 1] == SLASH; }
  }

  /** The name that is listed is the child's own. */
  lemma BaseOfChild(dir: string, base: string, name: string)
    requires DirOk(dir) && IsChild(dir, base, name)
    ensures BaseName(name) == base
  {
    var t := dir + base;
    assert base[|base| - 1] in base;
    assert t[|t| - 1] == base[|base| - 1];
    if name != t { assert name[..|name| - 1] == t; }
    assert t[|dir|..] == base;
    LastSlashIs(t, |dir|);
  }

  // ---------- listing ----------

  /** The immediate children of a directory, in archive order. */
  ghost function Listing(es: seq<Entry>, dir: string): seq<string> {
    if es == [] then []
    else
      var name := es[|es| - 1].name;
      Listing(es[..|es| - 1], dir)
      + if HasChild(dir, name) then (var base :| IsChild(dir, base, name); [base]) else []
  }

  /** What listing entry number `index` should be: the two dots, the children, and then nothing. */
  ghost function Listed(es: seq<Entry>, dir: string, index: nat): Found {
    if index == 0 then Name(".")
    else if index == 1 then Name("..")
    else if index - 2 < |Listing(es, dir)| then Name(Listing(es, dir)[index - 2])
    else Nothing
  }

  /** One more entry, as the code sees it. */
  lemma ListingStep(es: seq<Entry>, dir: string, i: nat)
    requires DirOk(dir) && i < |es| && NameOk(es[i].name)
    ensures Listing(es[..i + 1], dir)
            == Listing(es[..i], dir) + if Matches(dir, es[i].name) then [BaseName(es[i].name)] else []
  {
    assert es[..i + 1][..i] == es[..i];
    MatchesIsHasChild(dir, es[i].name);
    if HasChild(dir, es[i].name) {
      var base :| IsChild(dir, base, es[i].name) && Listing(es[..i + 1], dir) == Listing(es[..i], dir) + [base];
      BaseOfChild(dir, base, es[i].name);
    }
  }

  /** An earlier child keeps its place. */
  lemma {:induction false} ListingPrefix(es: seq<Entry>, dir: string, i: nat)
    requires i <= |es|
    ensures Listing(es[..i], dir) <= Listing(es, dir)
  {
    if i == |es| {
      assert es[..i] == es;
    } else {
      ListingPrefix(es[..|es| - 1], dir, i);
      assert es[..|es| - 1][..i] == es[..i];
    }
  }

  // ---------- reading a file ----------

  /** `tarfs_read` of a member gives the bytes of its body exactly when the read does not end on a
      block boundary of the disk. */
  lemma FileReadExactly(es: seq<Entry>, k: nat, i: nat, offset: nat, size: nat)
    requires AllWellFormed(es) && i < |es| && |Archive(es, k)| < WORDS
    requires offset < es[i].size && size > 0 && offset + size < WORDS
    ensures var data, at := Archive(es, k), OffsetOf(es, i) + TAR_BLOCK + offset;
            var n := if offset + size > es[i].size then es[i].size - offset else size;
            && at + n <= |data| && offset + n <= |es[i].body|
            && (Ramdisk.Read(data, at, n) == Ramdisk.Delivered(es[i].body[offset..offset + n]) <==> (at + n) % Ramdisk.BLOCK != 0)
  {
    hide Ramdisk.Read, Archive, OffsetOf, Ramdisk.Clip;
    var n := if offset + size > es[i].size then es[i].size - offset else size;
    FileBytes(es, k, i, offset, n);
    var data, at := Archive(es, k), OffsetOf(es, i) + TAR_BLOCK + offset;
    ClipInside(|data|, at, n);
    Ramdisk.ReadIsSliceExactly(data, at, n);
  }

  lemma ClipInside(length: nat, at: Word, n: Word)
    requires n > 0 && at + n <= length < WORDS
    ensures Ramdisk.Clip(length, at, n) == n
  {
  }

  /** Where a member's bytes lie in the archive. */
  lemma FileBytes(es: seq<Entry>, k: nat, i: nat, offset: nat, n: nat)
    requires AllWellFormed(es) && i < |es| && es[i] in es && offset + n <= es[i].size
    ensures var data, at := Archive(es, k), OffsetOf(es, i) + TAR_BLOCK + offset;
            at + n <= |data| && offset + n <= |es[i].body| && data[at..at + n] == es[i].body[offset..offset + n]
  {
    hide Serialize, Archive, Member, RoundUp;
    ArchiveAt(es, k, i);
    RoundUpIs(es[i].size);
    BodyIs(es[i], offset, n);
    var o, size := OffsetOf(es, i), TAR_BLOCK + RoundUp(es[i].size);
    SliceOfSlice(Archive(es, k), o, o + size, TAR_BLOCK + offset, TAR_BLOCK + offset + n);
  }

  lemma SliceOfSlice(s: string, a: nat, b: nat, c: nat, d: nat)
    requires a <= b <= |s| && c <= d <= b - a
    ensures s[a..b][c..d] == s[a + c..a + d]
  {
    assert |s[a..b][c..d]| == |s[a + c..a + d]|;
    forall i | 0 <= i < d - c ensures s[a..b][c..d][i] == s[a + c..a + d][i] {
      assert s[a..b][c + i] == s[a + (c + i)];
    }
  }

  lemma BodyIs(e: Entry, offset: nat, n: nat)
    requires WellFormed(e) && offset + n <= e.size
    ensures Member(e)[TAR_BLOCK + offset..TAR_BLOCK + offset + n] == e.body[offset..offset + n]
  {
    RoundUpIs(e.size);
    SliceOf(Header(e), e.body, Zeros(RoundUp(e.size) - e.size));
    assert Member(e)[TAR_BLOCK..TAR_BLOCK + e.size] == e.body;
    assert Member(e)[TAR_BLOCK..TAR_BLOCK + e.size][offset..offset + n] == Member(e)[TAR_BLOCK + offset..TAR_BLOCK + offset + n];
  }
}
