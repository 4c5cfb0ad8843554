/** A tar archive as blocks of bytes, the walk over its headers, and what a directory lists. */
module Tar {
  import opened Basics
  import opened PageTables
  import opened CanonicalPath
  import opened Powers
  import Ramdisk

  const HEADER: nat := 500   // the fields of a header, without the padding to a block
  const TAR_BLOCK: nat := 512

  // ---------- archives ----------

  /** A member of an archive in the ustar format, with an empty name prefix.  `before` holds mode and
      owner numbers, `after` the fields from the end of the size up to the prefix. */
  datatype Entry = Entry(name: string, before: string, size: nat, after: string, body: string)

  const MAX_SIZE: nat := 0x2_0000_0000  // 8^11

  /** A relative path without empty components. */
  predicate NameOk(name: string) {
    && name != "" && name[0] != SLASH && NUL !in name
    && forall i | 0 <= i < |name| - 1 :: !(name[i] == SLASH && name[i + 1] == SLASH)
  }

  predicate WellFormed(e: Entry) {
    && NameOk(e.name) && |e.name| <= 100
    && |e.before| == 24 && |e.after| == 210
    && |e.body| == e.size < MAX_SIZE
  }

  function Zeros(n: nat): (s: string)
    ensures |s| == n && forall i | 0 <= i < n :: s[i] == NUL
  {
    seq(n, _ => NUL)
  }

  /** The last `k` octal digits of a number. */
  function Octal(n: nat, k: nat): (s: string)
    ensures |s| == k
  {
    if k == 0 then "" else Octal(n / 8, k - 1) + [('0' as int + n % 8) as char]
  }

  function Header(e: Entry): (s: string)
    requires WellFormed(e)
    ensures |s| == TAR_BLOCK
  {
    e.name + Zeros(100 - |e.name|) + e.before + Octal(e.size, 11) + e.after + Zeros(155 + 12)
  }

  function RoundUp(n: nat): nat { (n + TAR_BLOCK - 1) / TAR_BLOCK * TAR_BLOCK }

  lemma RoundUpIs(n: nat)
    ensures n <= RoundUp(n) < n + TAR_BLOCK && RoundUp(n) % TAR_BLOCK == 0
  {
  }

  function Member(e: Entry): (s: string)
    requires WellFormed(e)
    ensures |s| == TAR_BLOCK + RoundUp(e.size)
  {
    RoundUpIs(e.size);
    Header(e) + e.body + Zeros(RoundUp(e.size) - e.size)
  }

  predicate AllWellFormed(es: seq<Entry>) { forall e <- es :: WellFormed(e) }

  function Serialize(es: seq<Entry>): string
    requires AllWellFormed(es)
  {
    if es == [] then "" else Serialize(es[..|es| - 1]) + Member(es[|es| - 1])
  }

  /** An archive ends with any number of zero blocks. */
  function Archive(es: seq<Entry>, k: nat): string
    requires AllWellFormed(es)
  {
    Serialize(es) + Zeros(k * TAR_BLOCK)
  }

  function OffsetOf(es: seq<Entry>, i: nat): nat
    requires AllWellFormed(es) && i <= |es|
  {
    |Serialize(es[..i])|
  }

  lemma {:induction false} SerializePrefix(es: seq<Entry>, i: nat)
    requires AllWellFormed(es) && i <= |es|
    ensures Serialize(es[..i]) <= Serialize(es)
  {
    if i == |es| {
      assert es[..i] == es;
    } else {
      SerializePrefix(es[..|es| - 1], i);
      assert es[..|es| - 1][..i] == es[..i];
    }
  }

  lemma OffsetStep(es: seq<Entry>, i: nat)
    requires AllWellFormed(es) && i < |es|
    ensures WellFormed(es[i]) && OffsetOf(es, i + 1) == OffsetOf(es, i) + TAR_BLOCK + RoundUp(es[i].size)
    ensures Serialize(es[..i + 1]) == Serialize(es[..i]) + Member(es[i])
  {
    assert es[i] in es;
    assert es[..i + 1][..i] == es[..i];
  }

  lemma {:induction false} OffsetsAligned(es: seq<Entry>, i: nat)
    requires AllWellFormed(es) && i <= |es|
    ensures OffsetOf(es, i) % TAR_BLOCK == 0
  {
    hide Serialize, RoundUp, Member, AllWellFormed, OffsetOf;
    if i == 0 {
      FirstOffset(es);
    } else {
      OffsetsAligned(es, i - 1);
      OffsetStep(es, i - 1);
      RoundUpIs(es[i - 1].size);
      SumAligned(OffsetOf(es, i - 1), RoundUp(es[i - 1].size));
    }
  }

  lemma SumAligned(a: nat, b: nat)
    requires a % TAR_BLOCK == 0 && b % TAR_BLOCK == 0
    ensures (a + TAR_BLOCK + b) % TAR_BLOCK == 0
  {
    assert a == a / 512 * 512 && b == b / 512 * 512;
    assert a + TAR_BLOCK + b == (a / 512 + 1 + b / 512) * 512;
  }

  // ---------- what the code reads from a header ----------

  /** The characters up to the first terminator. */
  function Upto(s: string): (t: string)
    ensures t <= s
  {
    if s == "" || s[0] == NUL then "" else [s[0]] + Upto(s[1..])
  }

  /** `oct2bin`, in machine arithmetic. */
  function Oct2Bin(s: string): Word {
    if s == "" then 0 else Wrap(Oct2Bin(s[..|s| - 1]) * 8 + s[|s| - 1] as int - '0' as int)
  }

  function FileName(hdr: string): string
    requires |hdr| == HEADER
  {
    Upto(hdr[345..500]) + Upto(hdr[..100])
  }

  /** The step from a header to the next one: with size 0, the rounded size wraps to 0. */
  function StepOver(size: Word): Word {
    Wrap(TAR_BLOCK + Wrap((Wrap(size - 1) / TAR_BLOCK + 1) * TAR_BLOCK))
  }

  function NextOffset(hdr: string, off: nat): Word
    requires |hdr| == HEADER
  {
    Wrap(off + StepOver(Oct2Bin(hdr[124..135])))
  }

  lemma StepIs(size: nat)
    requires size < MAX_SIZE
    ensures StepOver(size) == TAR_BLOCK + RoundUp(size)
  {
    if size > 0 {
      hide Wrap;
      var q := (size - 1) / TAR_BLOCK;
      assert size - 1 == q * TAR_BLOCK + (size - 1) % TAR_BLOCK;
      assert (size + TAR_BLOCK - 1) / TAR_BLOCK == q + 1;
      WrapSmall(size - 1);
      WrapSmall((q + 1) * TAR_BLOCK);
      WrapSmall(TAR_BLOCK + (q + 1) * TAR_BLOCK);
    }
  }

  lemma WrapSmall(n: int)
    requires 0 <= n < WORDS
    ensures Wrap(n) == n
  {
  }

  lemma {:induction false} UptoZeros(s: string, n: nat)
    requires NUL !in s
    ensures Upto(s + Zeros(n)) == s
  {
    if s == "" {
      assert s + Zeros(n) == Zeros(n);
    } else {
      assert (s + Zeros(n))[1..] == s[1..] + Zeros(n);
      assert s[0] in s;
      UptoZeros(s[1..], n);
    }
  }

  lemma {:induction false} OctalReads(n: nat, k: nat)
    requires n < Pow(8, k) && k <= 11
    ensures Oct2Bin(Octal(n, k)) == n
  {
    hide Octal, Pow;
    PowZero();
    if k > 0 {
      PowStep(n, k);
      OctalReads(n / 8, k - 1);
      OctalBound(k);
      OctalStep(n, k);
      assert n == n / 8 * 8 + n % 8;
    }
  }

  lemma OctalStep(n: nat, k: nat)
    requires k > 0
    ensures var s := Octal(n, k); s[..k - 1] == Octal(n / 8, k - 1) && s[k - 1] as int - '0' as int == n % 8
  {
  }

  lemma PowZero()
    ensures Pow(8, 0) == 1
  {
  }

  lemma PowStep(n: nat, k: nat)
    requires n < Pow(8, k) && k > 0
    ensures n / 8 < Pow(8, k - 1)
  {
  }

  lemma OctalBound(k: nat)
    requires k <= 11
    ensures Pow(8, k) <= MAX_SIZE == Pow(8, 11)
  {
    assert Pow(8, 3) == 512 && Pow(8, 6) == 512 * Pow(8, 3) && Pow(8, 9) == 512 * Pow(8, 6) && Pow(8, 11) == 64 * Pow(8, 9);
    PowGrows(8, k, 11);
  }

  // ---------- the header at an entry's offset ----------

  lemma SliceOf(a: string, b: string, c: string)
    ensures (a + b + c)[|a|..|a| + |b|] == b
  {
  }

  /** What the code makes of a member's header. */
  lemma HeaderReads(e: Entry)
    requires WellFormed(e)
    ensures var h := Header(e)[..HEADER];
            FileName(h) == e.name && Oct2Bin(h[124..135]) == e.size
  {
    hide Octal, Zeros, Oct2Bin;
    var h := Header(e);
    var digits := Octal(e.size, 11);
    HeaderFields(e);
    OctalBound(11);
    OctalReads(e.size, 11);
    assert h[..HEADER][124..135] == h[124..135];
    UptoZeros(e.name, 100 - |e.name|);
    assert h[..HEADER][..100] == h[..100];
    UptoZeros("", 155);
    assert "" + Zeros(155) == Zeros(155);
    assert h[..HEADER][345..500] == h[345..500];
  }

  lemma HeaderFields(e: Entry)
    requires WellFormed(e)
    ensures var h := Header(e);
            h[..100] == e.name + Zeros(100 - |e.name|) && h[124..135] == Octal(e.size, 11) && h[345..500] == Zeros(155)
  {
    hide Octal, Oct2Bin, NameOk;
    var name, digits, tail := e.name + Zeros(100 - |e.name|), Octal(e.size, 11), Zeros(155 + 12);
    assert Header(e) == name + e.before + digits + e.after + tail;
    SliceOf(name + e.before, digits, e.after + tail);
    assert name + e.before + digits + (e.after + tail) == Header(e);
    assert Header(e)[345..500] == tail[..155] == Zeros(155);
  }

  /** The bytes of an archive from an entry's offset on. */
  lemma ArchiveAt(es: seq<Entry>, k: nat, i: nat)
    requires AllWellFormed(es) && i <= |es|
    ensures var data, o := Archive(es, k), OffsetOf(es, i);
            && o % TAR_BLOCK == 0 && |data| % TAR_BLOCK == 0
            && if i < |es| then WellFormed(es[i]) && o + TAR_BLOCK + RoundUp(es[i].size) <= |data|
                                && data[o..o + TAR_BLOCK + RoundUp(es[i].size)] == Member(es[i])
               else |data| == o + k * TAR_BLOCK && data[o..] == Zeros(k * TAR_BLOCK)
  {
    hide Member, Zeros, RoundUp;
    OffsetsAligned(es, i);
    OffsetsAligned(es, |es|);
    assert es[..|es|] == es;
    var data := Archive(es, k);
    AlignedEnd(|Serialize(es)|, k);
    if i < |es| {
      OffsetStep(es, i);
      SerializePrefix(es, i + 1);
      assert Serialize(es[..i]) + Member(es[i]) <= data;
    }
  }

  lemma AlignedEnd(a: nat, k: nat)
    requires a % TAR_BLOCK == 0
    ensures (a + k * TAR_BLOCK) % TAR_BLOCK == 0
  {
    assert a == a / 512 * 512;
    assert a + k * TAR_BLOCK == (a / 512 + k) * 512;
  }

  // ---------- the walk ----------

  /** A header that the loop goes on with: there are bytes to read, and a name. */
  predicate Visited(data: string, off: nat) { off + HEADER <= |data| && FileName(data[off..off + HEADER]) != "" }

  /** The offset of the `i`th header that the loop visits. */
  function Walk(data: string, i: nat): (r: Visit)
    ensures r.At? ==> Visited(data, r.off)
  {
    if i == 0 then (if Visited(data, 0) then At(0) else Ended)
    else
      match Walk(data, i - 1)
      case Ended => Ended
      case At(off) =>
        var next := NextOffset(data[off..off + HEADER], off);
        if Visited(data, next) then At(next) else Ended
  }

  datatype Visit = Ended | At(off: nat)

  lemma SliceStart(s: string, at: nat, n: nat, m: nat)
    requires n <= m && at + m <= |s|
    ensures s[at..at + n] == s[at..at + m][..n]
  {
  }

  /** At an entry the loop sees that entry, and steps to the next one. */
  lemma EntrySeen(es: seq<Entry>, k: nat, i: nat)
    requires AllWellFormed(es) && i < |es| && |Archive(es, k)| < WORDS
    ensures var data, o := Archive(es, k), OffsetOf(es, i);
            && o + TAR_BLOCK <= |data| && Visited(data, o)
            && FileName(data[o..o + HEADER]) == es[i].name && es[i] in es
            && NextOffset(data[o..o + HEADER], o) == OffsetOf(es, i + 1)
  {
    hide Zeros, RoundUp, FileName, Oct2Bin, StepOver, OffsetOf, Archive, Header, Wrap;
    ArchiveAt(es, k, i);
    ArchiveAt(es, k, i + 1);
    OffsetStep(es, i);
    var data, o := Archive(es, k), OffsetOf(es, i);
    SliceStart(data, o, HEADER, TAR_BLOCK + RoundUp(es[i].size));
    assert data[o..o + HEADER] == Header(es[i])[..HEADER];
    HeaderReads(es[i]);
    StepIs(es[i].size);
    WrapSmall(o + TAR_BLOCK + RoundUp(es[i].size));
  }

  /** Behind the last entry the loop ends: nothing is left, or the name is empty. */
  lemma EndSeen(es: seq<Entry>, k: nat)
    requires AllWellFormed(es) && |Archive(es, k)| < WORDS
    ensures var data, o := Archive(es, k), OffsetOf(es, |es|);
            && o <= |data| && !Visited(data, o) && (o < |data| ==> o + HEADER <= |data|)
  {
    ArchiveAt(es, k, |es|);
    var data, o := Archive(es, k), OffsetOf(es, |es|);
    hide Archive, OffsetOf;
    if k > 0 {
      assert |data| >= o + TAR_BLOCK;
      var h := data[o..o + HEADER];
      assert data[o] == data[o..][0] == NUL && data[o + 345] == data[o..][345] == NUL;
      assert h[345..500][0] == NUL && h[..100][0] == NUL;
    }
  }

  /** The walk visits exactly the entries' headers, in order, and then ends. */
  lemma {:induction false} WalkVisits(es: seq<Entry>, k: nat, i: nat)
    requires AllWellFormed(es) && |Archive(es, k)| < WORDS
    ensures Walk(Archive(es, k), i) == if i < |es| then At(OffsetOf(es, i)) else Ended
  {
    hide Archive, OffsetOf, Visited, NextOffset;
    if i == 0 {
      FirstOffset(es);
      if |es| > 0 { EntrySeen(es, k, 0); } else { EndSeen(es, k); }
    } else {
      WalkVisits(es, k, i - 1);
      if i <= |es| { EntrySeen(es, k, i - 1); }
      if i < |es| { EntrySeen(es, k, i); }
      if i == |es| { EndSeen(es, k); }
    }
  }

  lemma FirstOffset(es: seq<Entry>)
    requires AllWellFormed(es)
    ensures OffsetOf(es, 0) == 0
  {
  }

  /** Every header read of the walk is one that `ramdisk_read` does exactly. */
  lemma HeaderReadIsExact(es: seq<Entry>, k: nat, i: nat)
    requires AllWellFormed(es) && i < |es| && |Archive(es, k)| < WORDS
    ensures var data, o := Archive(es, k), OffsetOf(es, i);
            && o + HEADER <= |data|
            && Ramdisk.Read(data, o, HEADER) == Ramdisk.Delivered(data[o..o + HEADER])
            && Ramdisk.Clip(|data|, o, HEADER) == HEADER
  {
    EntrySeen(es, k, i);
    ArchiveAt(es, k, i);
    hide Archive, OffsetOf, Visited, NextOffset, Ramdisk.Read;
    AlignedHeader(Archive(es, k), OffsetOf(es, i));
  }

  lemma AlignedHeader(data: string, o: nat)
    requires o % TAR_BLOCK == 0 && o + HEADER <= |data| < WORDS
    ensures Ramdisk.Read(data, o, HEADER) == Ramdisk.Delivered(data[o..o + HEADER])
    ensures Ramdisk.Clip(|data|, o, HEADER) == HEADER
  {
    hide Ramdisk.Read;
    EndsInside(o);
    Ramdisk.ReadIsSliceExactly(data, o, HEADER);
  }

  /** A header that starts on a block of the archive does not end on a block of the disk. */
  lemma EndsInside(o: nat)
    requires o % TAR_BLOCK == 0
    ensures (o + HEADER) % Ramdisk.BLOCK != 0
  {
    var p, q, r := o / 512, (o + HEADER) / 4096, (o + HEADER) % 4096;
    assert o == 512 * p && o + HEADER == 4096 * q + r;
    assert r == 512 * (p - 8 * q) + HEADER;
  }
}
