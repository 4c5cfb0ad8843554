/** `tarfs_readdir_root` and `tarfs_readdir` over an archive on a ramdisk. */
module TarCode {
  import opened Basics
  import opened PageTables
  import opened CanonicalPath
  import opened Tar
  import opened TarListing
  import Ramdisk
  import opened RamdiskCode

  /** `oct2bin` */
  method ParseOctal(s: string) returns (n: Word)
    ensures n == Oct2Bin(s)
  {
    n := 0;
    for i := 0 to |s|
      invariant n == Oct2Bin(s[..i])
    {
      assert s[..i + 1][..i] == s[..i];
      n := Wrap(n * 8 + s[i] as int - '0' as int);
    }
    assert s[..|s|] == s;
  }

  /** `count_slashes` */
  method SlashesIn(s: string) returns (n: nat)
    ensures n == CountSlashes(s)
  {
    n := 0;
    var i := 0;
    while i < |s|
      invariant i <= |s| && CountSlashes(s) == n + CountSlashes(s[i..])
    {
      assert s[i..][0] == s[i] && s[i..][1..] == s[i + 1..];
      if s[i] == SLASH {
        if i + 1 == |s| {
          return;
        }
        n := n + 1;
      }
      i := i + 1;
    }
  }

  lemma {:induction false} UptoIs(s: string, i: nat)
    requires i <= |s| && (forall j | 0 <= j < i :: s[j] != NUL) && (i < |s| ==> s[i] == NUL)
    ensures Upto(s) == s[..i]
  {
    if i > 0 {
      UptoIs(s[1..], i - 1);
      assert s[..i] == [s[0]] + s[1..][..i - 1];
    }
  }

  /** `strncat`: the characters of a field up to a terminator. */
  method ReadField(s: string) returns (t: string)
    ensures t == Upto(s)
  {
    var i := 0;
    while i < |s| && s[i] != NUL
      invariant i <= |s| && forall j | 0 <= j < i :: s[j] != NUL
    {
      i := i + 1;
    }
    UptoIs(s, i);
    t := s[..i];
  }

  lemma LastSlashFrom(s: string, i: nat)
    requires i <= |s| && (forall j | i <= j < |s| :: s[j] != SLASH) && (i > 0 ==> s[i - 1] == SLASH)
    ensures LastSlash(s) == i
  {
    LastSlashIs(s, i);
  }

  /** The pointer walk back to the start of the last component. */
  method LastName(fileName: string) returns (base: string)
    requires fileName != "" && fileName != [SLASH]
    ensures base == BaseName(fileName)
  {
    hide LastSlash;
    var name, ptr := fileName, |fileName| - 1;
    if name[ptr] == SLASH {
      name, ptr := name[..ptr], ptr - 1;
    }
    while name[ptr] != SLASH && ptr > 0
      invariant 0 <= ptr < |name| && forall j | ptr < j < |name| :: name[j] != SLASH
      decreases ptr
    {
      ptr := ptr - 1;
    }
    if name[ptr] == SLASH {
      ptr := ptr + 1;
    }
    LastSlashFrom(name, ptr);
    base := name[ptr..];
  }

  class Tarfs {
    const disk: Disk
    ghost const es: seq<Entry>
    ghost const k: nat

    ghost predicate Valid()
      reads disk, disk.blocks, disk.memory
    {
      disk.Valid() && AllWellFormed(es) && disk.memory[..] == Archive(es, k)
    }

    constructor (disk: Disk, ghost es: seq<Entry>, ghost k: nat)
      requires disk.Valid() && AllWellFormed(es) && disk.memory[..] == Archive(es, k)
      ensures Valid() && this.disk == disk && this.es == es && this.k == k
    {
      this.disk, this.es, this.k := disk, es, k;
    }

    /** A read at `off` returned `n`: it is 0 exactly at the end, and otherwise `hdr` is the header there. */
    ghost predicate Shows(hdr: string, off: nat, n: nat) {
      && AllWellFormed(es)
      && (n > 0 <==> off < |Archive(es, k)|)
      && (n > 0 ==> off + HEADER <= |Archive(es, k)| && hdr == Archive(es, k)[off..off + HEADER])
    }

    /** One header read of the walk, at the offset of an entry or of the end. */
    method ReadHeader(off: Word, hdr: array<char>, ghost i: nat) returns (n: Word)
      requires Valid() && i <= |es| && off == OffsetOf(es, i) && hdr.Length == HEADER && hdr != disk.memory
      modifies hdr
      ensures Valid() && Shows(hdr[..], off, n)
    {
      hide Archive, OffsetOf, AllWellFormed, Ramdisk.Read, WellFormed;
      ReadIsKnown(i);
      var ok;
      n, ok := disk.Read(off, HEADER, hdr);
      assert hdr[..HEADER] == hdr[..];
    }

    lemma ReadIsKnown(i: nat)
      requires Valid() && i <= |es|
      ensures var data, off := Archive(es, k), OffsetOf(es, i);
              && off <= |data| && |data| == disk.length
              && if off < |data| then off + HEADER <= |data| && Ramdisk.Clip(|data|, off, HEADER) == HEADER
                                      && Ramdisk.Read(data, off, HEADER) == Ramdisk.Delivered(data[off..off + HEADER])
                 else Ramdisk.Clip(|data|, off, HEADER) == 0 && Ramdisk.Read(data, off, HEADER) == Ramdisk.Delivered([])
    {
      hide Archive, OffsetOf, Visited, Ramdisk.Read;
      var data, off := Archive(es, k), OffsetOf(es, i);
      ArchiveAt(es, k, i);
      if i < |es| { EntrySeen(es, k, i); } else { EndSeen(es, k); }
      if off < |data| {
        AlignedHeader(data, off);
      } else {
        Ramdisk.ReadNothingExactly(data, off, HEADER);
      }
    }

    /** The loop over the headers: the `toFind`th match, counted from 1. */
    method FindMatch(dir: string, toFind: nat) returns (r: Found)
      requires Valid() && DirOk(dir) && toFind > 0
      ensures r == Listed(es, dir, toFind + 1)
    {
      hide Archive, OffsetOf, Serialize, Listing, Listed, DirOk, FileName, Matches, BaseName, NextOffset, AllWellFormed, NameOk, Shows;
      var hdr := new char[HEADER];
      var off: Word, left: nat := 0, toFind;
      ghost var i: nat := 0;
      var dirDepth := SlashesIn(dir);
      Start(dir);
      var n := ReadHeader(off, hdr, 0);
      while n > 0
        invariant Valid() && fresh(hdr) && i <= |es| && off == OffsetOf(es, i) && left > 0
        invariant left + |Listing(es[..i], dir)| == toFind
        invariant Shows(hdr[..], off, n)
        decreases |es| - i
      {
        var fileName := ReadName(hdr);
        NameSeen(hdr[..], off, n, i);
        if fileName == "" {
          break;
        }
        ListingStep(es, dir, i);
        var matching := Test(dir, dirDepth, fileName);
        if matching {
          left := left - 1;
          if left == 0 {
            var base := LastName(fileName);
            FoundHere(dir, i, toFind);
            return Name(base);
          }
        }
        off := NextHeader(hdr, off);
        i := i + 1;
        n := ReadHeader(off, hdr, i);
      }
      AtTheEnd(hdr[..], i, off, n);
      FoundNowhere(dir, toFind);
      r := Nothing;
    }

    /** The test on one name.  The root has no name, and its test no prefix. */
    method Test(dir: string, dirDepth: nat, fileName: string) returns (matching: bool)
      requires fileName != "" && dirDepth == CountSlashes(dir)
      ensures matching == Matches(dir, fileName)
    {
      var slashes := SlashesIn(fileName);
      if dir == "" {
        return slashes == 0;
      }
      matching := slashes == dirDepth + 1 && dir <= fileName;
    }

    lemma FoundHere(dir: string, i: nat, toFind: nat)
      requires i < |es| && toFind > 0 && |Listing(es[..i], dir)| == toFind - 1
      requires Listing(es[..i + 1], dir) == Listing(es[..i], dir) + [BaseName(es[i].name)]
      ensures Listed(es, dir, toFind + 1) == Name(BaseName(es[i].name))
    {
      ListingPrefix(es, dir, i + 1);
    }

    lemma FoundNowhere(dir: string, toFind: nat)
      requires toFind > |Listing(es, dir)|
      ensures Listed(es, dir, toFind + 1) == Nothing
    {
    }

    lemma Start(dir: string)
      requires Valid()
      ensures OffsetOf(es, 0) == 0 && Listing(es[..0], dir) == []
    {
      FirstOffset(es);
    }

    lemma AtTheEnd(hdr: string, i: nat, off: nat, n: nat)
      requires Valid() && i <= |es| && off == OffsetOf(es, i) && Shows(hdr, off, n) && (n == 0 || i == |es|)
      ensures i == |es| && es[..i] == es
    {
      if i < |es| { EntrySeen(es, k, i); }
    }

    method ReadName(hdr: array<char>) returns (s: string)
      requires hdr.Length == HEADER
      ensures s == FileName(hdr[..])
    {
      var prefix := ReadField(hdr[345..500]);
      var name := ReadField(hdr[..100]);
      s := prefix + name;
      assert hdr[..][345..500] == hdr[345..500] && hdr[..][..100] == hdr[..100];
    }

    /** At an entry the name is the entry's; behind the last one it is empty. */
    lemma NameSeen(hdr: string, off: nat, n: nat, i: nat)
      requires Valid() && i <= |es| && off == OffsetOf(es, i) && |hdr| == HEADER && Shows(hdr, off, n) && n > 0
      ensures FileName(hdr) == (if i < |es| then es[i].name else "")
      ensures i < |es| ==> NameOk(es[i].name) && es[i].name != "" && es[i].name != [SLASH] && NextOffset(hdr, off) == OffsetOf(es, i + 1)
    {
      hide Archive, OffsetOf, FileName, NextOffset;
      if i < |es| { EntrySeen(es, k, i); } else { EndSeen(es, k); }
    }

    method NextHeader(hdr: array<char>, off: Word) returns (next: Word)
      requires hdr.Length == HEADER
      ensures next == NextOffset(hdr[..], off)
    {
      var size := ParseOctal(hdr[124..135]);
      assert hdr[..][124..135] == hdr[124..135];
      next := Wrap(off + Wrap(TAR_BLOCK + Wrap((Wrap(size as int - 1) / TAR_BLOCK + 1) * TAR_BLOCK)));
    }

    /** `tarfs_readdir_root` */
    method ReaddirRoot(index: Word) returns (r: Found)
      requires Valid()
      ensures r == Listed(es, "", index)
    {
      if index == 0 { return Name("."); }
      if index == 1 { return Name(".."); }
      r := FindMatch("", index - 2 + 1);
    }

    /** `tarfs_readdir` of the directory whose header is entry `d`. */
    method Readdir(inode: Word, index: Word, ghost d: nat) returns (r: Found)
      requires Valid() && d < |es| && inode == OffsetOf(es, d) && DirOk(es[d].name)
      ensures r == Listed(es, es[d].name, index)
    {
      hide Archive, OffsetOf, FileName, NextOffset, Listing, DirOk, WellFormed;
      if index == 0 { return Name("."); }
      if index == 1 { return Name(".."); }
      var hdr := new char[HEADER];
      EntrySeen(es, k, d);
      var _ := ReadHeader(inode, hdr, d);
      var dirName := ReadName(hdr);
      r := FindMatch(dirName, index - 2 + 1);
    }
  }
}
