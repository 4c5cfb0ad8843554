/** Reading a ramdisk block by block (`ramdisk_read`), and when that is reading a slice. */
module Ramdisk {
  import opened PageTables

  const BLOCK: nat := 4096

  /** The bytes delivered, or a copy that leaves the disk or the caller's buffer. */
  datatype Outcome = Delivered(bytes: seq<char>) | Overrun

  /** The size after clipping to the disk. */
  function Clip(length: nat, offset: Word, size: Word): Word {
    if offset >= length then 0
    else if Wrap(offset + size) > length then Wrap(length - offset)
    else size
  }

  function StartBlock(offset: Word): nat { offset / BLOCK }

  function EndBlock(offset: Word, size: Word): nat { Wrap(offset + size - 1) / BLOCK }

  /** Where a block's copy starts within the block, and how many bytes it takes.  The count of the
      last block is the end modulo the block size; it may come out negative, which is a huge size. */
  function ChunkStart(offset: Word, b: nat): nat { if b == StartBlock(offset) then offset % BLOCK else 0 }

  function ChunkSize(offset: Word, size: Word, b: nat): int {
    if b == EndBlock(offset, size) then Wrap(offset + size) % BLOCK - ChunkStart(offset, b)
    else BLOCK - ChunkStart(offset, b)
  }

  /** Whether block `b` exists, and its copy stays within the disk's memory and the room left in the
      buffer. */
  predicate CopyFits(data: seq<char>, offset: Word, size: Word, b: nat, room: int) {
    var n := ChunkSize(offset, size, b);
    0 <= n <= room && b * BLOCK < |data| && (n == 0 || b * BLOCK + ChunkStart(offset, b) + n <= |data|)
  }

  /** The block loop, from block `b` on, with `room` bytes left in the buffer. */
  function ReadFrom(data: seq<char>, offset: Word, size: Word, b: nat, room: int): Outcome
    decreases EndBlock(offset, size) + 1 - b
  {
    if b > EndBlock(offset, size) then Delivered([])
    else if !CopyFits(data, offset, size, b, room) then Overrun
    else
      var n := ChunkSize(offset, size, b);
      var at := if n == 0 then 0 else b * BLOCK + ChunkStart(offset, b);
      match ReadFrom(data, offset, size, b + 1, room - n)
      case Overrun => Overrun
      case Delivered(rest) => Delivered(data[at..at + n] + rest)
  }

  /** `ramdisk_read` of `size` bytes into a buffer of that size, on a disk that is `data`. */
  function Read(data: seq<char>, offset: Word, size: Word): Outcome {
    ReadFrom(data, offset, Clip(|data|, offset, size), StartBlock(offset), size)
  }

  // ---------- when the read is exact ----------

  /** One round of the loop. */
  lemma ReadStep(data: seq<char>, offset: Word, n: Word, b: nat, room: int, at: nat, c: nat, rest: seq<char>)
    requires b <= EndBlock(offset, n) && at == b * BLOCK + ChunkStart(offset, b) && c == ChunkSize(offset, n, b)
    requires 0 < c <= room && at + c <= |data| && ReadFrom(data, offset, n, b + 1, room - c) == Delivered(rest)
    ensures ReadFrom(data, offset, n, b, room) == Delivered(data[at..at + c] + rest)
  {
    hide ChunkSize, ChunkStart, EndBlock;
  }

  /** From a later block on, an end inside a block gives the rest of the slice. */
  lemma {:induction false} TailIsSlice(data: seq<char>, offset: Word, n: Word, b: nat, room: int)
    requires n > 0 && offset + n <= |data| < WORDS && (offset + n) % BLOCK != 0
    requires StartBlock(offset) < b <= EndBlock(offset, n) + 1
    requires room >= if b <= EndBlock(offset, n) then offset + n - b * BLOCK else 0
    ensures ReadFrom(data, offset, n, b, room)
            == Delivered(if b <= EndBlock(offset, n) then data[b * BLOCK..offset + n] else [])
    decreases EndBlock(offset, n) + 1 - b
  {
    hide ReadFrom, EndBlock, StartBlock;
    var e := EndBlock(offset, n);
    EndOf(offset, n);
    if b < e {
      LaterBlock(b + 1, e);
      TailIsSlice(data, offset, n, b + 1, room - BLOCK);
      ReadStep(data, offset, n, b, room, b * BLOCK, BLOCK, data[(b + 1) * BLOCK..offset + n]);
      assert data[b * BLOCK..(b + 1) * BLOCK] + data[(b + 1) * BLOCK..offset + n] == data[b * BLOCK..offset + n];
    } else if b == e {
      NothingLeft(data, offset, n, room - ChunkSize(offset, n, b));
      ReadStep(data, offset, n, b, room, b * BLOCK, offset + n - e * BLOCK, []);
      assert data[e * BLOCK..offset + n] + [] == data[e * BLOCK..offset + n];
    } else {
      NothingLeft(data, offset, n, room);
    }
  }

  lemma NothingLeft(data: seq<char>, offset: Word, n: Word, room: int)
    ensures ReadFrom(data, offset, n, EndBlock(offset, n) + 1, room) == Delivered([])
  {
  }

  lemma LaterBlock(b: nat, e: nat)
    requires b <= e
    ensures b * BLOCK <= e * BLOCK
  {
  }

  /** The last block, and what is in it. */
  lemma EndOf(offset: Word, n: Word)
    requires n > 0 && offset + n < WORDS
    ensures var e := EndBlock(offset, n);
            && e * BLOCK < offset + n <= e * BLOCK + BLOCK && StartBlock(offset) <= e
            && (offset + n) % BLOCK == (if offset + n == e * BLOCK + BLOCK then 0 else offset + n - e * BLOCK)
  {
    var e := (offset + n - 1) / BLOCK;
    assert offset + n - 1 == e * BLOCK + (offset + n - 1) % BLOCK;
    if offset + n < e * BLOCK + BLOCK { assert (offset + n) / BLOCK == e; }
  }

  lemma SliceWhenInside(data: seq<char>, offset: Word, n: Word, room: int)
    requires n > 0 && offset + n <= |data| < WORDS && (offset + n) % BLOCK != 0 && room >= n
    ensures ReadFrom(data, offset, n, StartBlock(offset), room) == Delivered(data[offset..offset + n])
  {
    hide ReadFrom, EndBlock;
    var s, e := StartBlock(offset), EndBlock(offset, n);
    EndOf(offset, n);
    assert offset == s * BLOCK + offset % BLOCK;
    var c := ChunkSize(offset, n, s);
    LaterBlock(s + 1, if s < e then e else s + 1);
    TailIsSlice(data, offset, n, s + 1, room - c);
    var rest := if s < e then data[(s + 1) * BLOCK..offset + n] else [];
    ReadStep(data, offset, n, s, room, offset, c, rest);
    assert data[offset..offset + c] + rest == data[offset..offset + n];
  }

  /** An end on a block boundary delivers too little, or overruns. */
  lemma {:induction false} ShortOnBoundary(data: seq<char>, offset: Word, n: Word, b: nat, room: int)
    requires n > 0 && offset + n <= |data| < WORDS && (offset + n) % BLOCK == 0
    requires StartBlock(offset) <= b <= EndBlock(offset, n)
    ensures var r := ReadFrom(data, offset, n, b, room);
            r.Delivered? ==> |r.bytes| < offset + n - (if b == StartBlock(offset) then offset else b * BLOCK)
    decreases EndBlock(offset, n) + 1 - b
  {
    var e := EndBlock(offset, n);
    EndOf(offset, n);
    assert offset == StartBlock(offset) * BLOCK + offset % BLOCK;
    if b < e {
      ShortOnBoundary(data, offset, n, b + 1, room - ChunkSize(offset, n, b));
      assert (b + 1) * BLOCK == b * BLOCK + BLOCK;
    } else {
      assert ReadFrom(data, offset, n, b + 1, room - ChunkSize(offset, n, b)) == Delivered([]);
    }
  }

  /** Reading some bytes within the disk gives exactly these if and only if the read does not end on a
      block boundary. */
  lemma ReadIsSliceExactly(data: seq<char>, offset: Word, size: Word)
    requires |data| < WORDS && Clip(|data|, offset, size) > 0 && !WrapsUnseen(|data|, offset, size)
    ensures var n := Clip(|data|, offset, size);
            && n == (if offset + size > |data| then |data| - offset else size)
            && (Read(data, offset, size) == Delivered(data[offset..offset + n]) <==> (offset + n) % BLOCK != 0)
  {
    var n := Clip(|data|, offset, size);
    hide ReadFrom, EndBlock;
    if (offset + n) % BLOCK != 0 {
      SliceWhenInside(data, offset, n, size);
    } else {
      EndOf(offset, n);
      ShortOnBoundary(data, offset, n, StartBlock(offset), size);
    }
  }

  /** A read of no bytes, or at or past the end of the disk, delivers nothing exactly when its offset is on
      a block boundary other than 0, or in a block that the disk has.  Otherwise the loop looks up a block
      that does not exist; at offset 0 it copies whole blocks, since the last block's number wraps. */
  lemma ReadNothingExactly(data: seq<char>, offset: Word, size: Word)
    requires Clip(|data|, offset, size) == 0 && |data| < WORDS
    ensures Read(data, offset, size) == Delivered([]) <==> offset > 0 && (offset % BLOCK == 0 || offset / BLOCK * BLOCK < |data|)
    ensures Read(data, offset, size) != Delivered([]) ==> Read(data, offset, size) == Overrun
  {
    var s := StartBlock(offset);
    assert offset == s * BLOCK + offset % BLOCK;
    if offset > 0 && offset % BLOCK != 0 {
      assert EndBlock(offset, 0) == s && ChunkSize(offset, 0, s) == 0;
      assert ReadFrom(data, offset, 0, s + 1, size) == Delivered([]);
    } else if offset > 0 {
      assert EndBlock(offset, 0) == s - 1;
    } else {
      assert EndBlock(0, 0) == (WORDS - 1) / BLOCK != 0;
      EmptyReadRunsAway(data, size);
    }
  }

  /** An empty read at offset 0 copies the whole first block, for which there is no room or no disk. */
  lemma EmptyReadRunsAway(data: seq<char>, size: Word)
    requires |data| < WORDS && (size == 0 || data == [])
    ensures ReadFrom(data, 0, 0, 0, size) == Overrun
  {
    assert ChunkSize(0, 0, 0) == BLOCK;
  }

  /** The bytes that a read should give. */
  function Wanted(data: seq<char>, offset: Word, size: Word): seq<char> {
    if offset >= |data| then [] else data[offset..if offset + size > |data| then |data| else offset + size]
  }

  /** The sum of offset and size wraps, and the wrapped sum lies within the disk: nothing is clipped. */
  predicate WrapsUnseen(length: nat, offset: Word, size: Word) {
    offset < length && offset + size >= WORDS && Wrap(offset + size) <= length
  }

  /** Then the last block is before the first, or has a negative size, or lies far behind the disk. */
  lemma WrappedReadFails(data: seq<char>, offset: Word, size: Word)
    requires |data| < WORDS && WrapsUnseen(|data|, offset, size)
    ensures Read(data, offset, size) != Delivered(Wanted(data, offset, size))
  {
    hide ReadFrom;
    var s, w := StartBlock(offset), Wrap(offset + size);
    assert w == offset + size - WORDS < offset;
    assert Clip(|data|, offset, size) == size;
    assert |Wanted(data, offset, size)| == |data| - offset > 0;
    if w == 0 {
      LastBlockShort(data, offset, size, s, size);
    } else {
      assert EndBlock(offset, size) == (w - 1) / BLOCK <= s;
      WrappedStop(data, offset, size, s, w);
    }
  }

  lemma WrappedStop(data: seq<char>, offset: Word, size: Word, s: nat, w: nat)
    requires 0 < w < offset && w == Wrap(offset + size) && s == StartBlock(offset) && EndBlock(offset, size) == (w - 1) / BLOCK <= s
    ensures var r := ReadFrom(data, offset, size, s, size); r == Overrun || r == Delivered([])
  {
    if (w - 1) / BLOCK == s {
      assert offset == s * BLOCK + offset % BLOCK && w - 1 == s * BLOCK + (w - 1) % BLOCK;
      assert w % BLOCK == w - s * BLOCK;
      assert ChunkSize(offset, size, s) < 0;
    }
  }

  /** A wrapped sum of 0: the loop runs to the last block of all, which gives nothing. */
  lemma {:induction false} LastBlockShort(data: seq<char>, offset: Word, size: Word, b: nat, room: int)
    requires |data| < WORDS && offset < |data| && Wrap(offset + size) == 0 && size > 0
    requires StartBlock(offset) <= b <= WORDS / BLOCK - 1
    ensures var r := ReadFrom(data, offset, size, b, room);
            r.Delivered? ==> |r.bytes| <= (WORDS / BLOCK - 1) * BLOCK - (if b == StartBlock(offset) then offset else b * BLOCK)
                             && (WORDS / BLOCK - 1) * BLOCK < |data|
    decreases WORDS / BLOCK - b
  {
    var last := WORDS / BLOCK - 1;
    assert EndBlock(offset, size) == last;
    assert offset == StartBlock(offset) * BLOCK + offset % BLOCK;
    if b < last {
      LastBlockShort(data, offset, size, b + 1, room - ChunkSize(offset, size, b));
      assert b * BLOCK + BLOCK == (b + 1) * BLOCK;
    } else {
      assert ChunkSize(offset, size, b) == 0 - ChunkStart(offset, b);
      assert ReadFrom(data, offset, size, b + 1, room - ChunkSize(offset, size, b)) == Delivered([]);
    }
  }

  /** Every read, exactly: when it gives the bytes that it should. */
  lemma ReadExactly(data: seq<char>, offset: Word, size: Word)
    requires |data| < WORDS
    ensures var want := Wanted(data, offset, size);
            Read(data, offset, size) == Delivered(want)
            <==> if want == [] then offset > 0 && (offset % BLOCK == 0 || offset / BLOCK * BLOCK < |data|)
                 else (offset + |want|) % BLOCK != 0 && !WrapsUnseen(|data|, offset, size)
  {
    hide ReadFrom, EndBlock, StartBlock;
    if Clip(|data|, offset, size) == 0 {
      ReadNothingExactly(data, offset, size);
    } else if WrapsUnseen(|data|, offset, size) {
      WrappedReadFails(data, offset, size);
    } else {
      ReadIsSliceExactly(data, offset, size);
    }
  }
}
