/** The ramdisk in memory: its block table, and the block loop of `ramdisk_read`. */
module RamdiskCode {
  import opened PageTables
  import opened Ramdisk

  function Prepend(done: seq<char>, r: Outcome): Outcome {
    match r
    case Overrun => Overrun
    case Delivered(rest) => Delivered(done + rest)
  }

  class Disk {
    const memory: array<char>
    const length: Word
    const blocks: array<nat>  // where each block starts in memory

    ghost predicate Valid()
      reads this, blocks
    {
      && 0 < length == memory.Length && (blocks.Length - 1) * BLOCK < length <= blocks.Length * BLOCK
      && forall i | 0 <= i < blocks.Length :: blocks[i] == i * BLOCK
    }

    /** `create_ramdisk_from_address` */
    constructor (memory: array<char>)
      requires 0 < memory.Length < WORDS
      ensures Valid() && this.memory == memory
    {
      this.memory, length := memory, memory.Length;
      var numBlocks := (memory.Length - 1) / BLOCK + 1;
      blocks := new nat[numBlocks](i requires 0 <= i => i * BLOCK);
    }

    /** `ramdisk_read`.  Where a copy would leave the disk or the buffer, `ok` is false. */
    method Read(offset: Word, size: Word, buffer: array<char>) returns (n: Word, ok: bool)
      requires Valid() && buffer != memory && buffer.Length >= size
      modifies buffer
      ensures match Ramdisk.Read(memory[..], offset, size)
              case Delivered(bytes) => ok && n == Clip(length, offset, size) && |bytes| <= size && buffer[..|bytes|] == bytes
              case Overrun => !ok
    {
      hide ReadFrom, CopyFits, ChunkSize, ChunkStart, Prepend;
      n := Clip(length, offset, size);
      ok := true;
      var startBlock, endBlock := offset / BLOCK, Wrap(offset + n - 1) / BLOCK;
      var block: nat, pos: nat := startBlock, 0;
      ghost var data := memory[..];
      assert buffer[..0] == [];
      PrependNothing(Ramdisk.Read(data, offset, size));
      while block <= endBlock
        invariant pos <= size && startBlock <= block && memory[..] == data
        invariant Ramdisk.Read(data, offset, size) == Prepend(buffer[..pos], ReadFrom(data, offset, n, block, size - pos))
        decreases endBlock + 1 - block
      {
        StepOrStop(data, offset, n, block, size - pos, buffer[..pos]);
        pos, ok := ReadBlock(block, startBlock, endBlock, offset, n, buffer, pos, size);
        if !ok {
          PrependOverrun();
          return;
        }
        block := block + 1;
      }
      NothingAfter(data, offset, n, block, size - pos, buffer[..pos]);
    }

    /** The body of the block loop. */
    method ReadBlock(block: nat, startBlock: nat, endBlock: nat, offset: Word, n: Word, buffer: array<char>, pos: nat, size: Word)
      returns (pos': nat, ok: bool)
      requires Valid() && buffer != memory && buffer.Length >= size >= pos
      requires startBlock == StartBlock(offset) && endBlock == EndBlock(offset, n)
      modifies buffer
      ensures ok <==> CopyFits(memory[..], offset, n, block, size - pos)
      ensures ok ==>
                var c := ChunkSize(offset, n, block);
                var at := if c == 0 then 0 else block * BLOCK + ChunkStart(offset, block);
                pos' == pos + c <= size && buffer[..pos'] == old(buffer[..pos]) + memory[..][at..at + c]
    {
      hide EndBlock, StartBlock;
      var toReadSize: int, toReadOffset: nat := BLOCK, 0;
      if block == startBlock {
        toReadOffset := offset % BLOCK;
        toReadSize := toReadSize - toReadOffset;
      }
      if block == endBlock {
        toReadSize := Wrap(offset + n) % BLOCK - toReadOffset;
      }
      InTable(block);
      pos' := pos;
      ok := 0 <= toReadSize <= size - pos && block < blocks.Length
            && (toReadSize == 0 || blocks[block] + toReadOffset + toReadSize <= memory.Length);
      if ok {
        var at := if toReadSize == 0 then 0 else blocks[block] + toReadOffset;
        CopyIn(buffer, pos, at, toReadSize);
        pos' := pos + toReadSize;
      }
    }

    lemma InTable(b: nat)
      requires Valid()
      ensures b < blocks.Length <==> b * BLOCK < length
      ensures b < blocks.Length ==> blocks[b] == b * BLOCK
    {
    }

    /** `memcpy(buffer + pos, memory + at, n)` */
    method CopyIn(buffer: array<char>, pos: nat, at: nat, n: nat)
      requires buffer != memory && pos + n <= buffer.Length && at + n <= memory.Length
      modifies buffer
      ensures buffer[..pos + n] == old(buffer[..pos]) + memory[..][at..at + n]
    {
      forall i | pos <= i < pos + n { buffer[i] := memory[at + (i - pos)]; }
      SlicesAgree(buffer[..], pos, memory[..], at, n);
      assert buffer[..pos] == old(buffer[..pos]) && buffer[pos..pos + n] == memory[..][at..at + n];
      assert buffer[..pos + n] == buffer[..pos] + buffer[pos..pos + n];
    }
  }

  lemma SlicesAgree(a: seq<char>, i: nat, b: seq<char>, j: nat, n: nat)
    requires i + n <= |a| && j + n <= |b| && forall k | i <= k < i + n :: a[k] == b[j + (k - i)]
    ensures a[i..i + n] == b[j..j + n]
  {
  }

  lemma PrependNothing(r: Outcome)
    ensures Prepend([], r) == r
  {
    if r.Delivered? { assert [] + r.bytes == r.bytes; }
  }

  /** One round of the loop, with what has been delivered before it. */
  lemma StepOrStop(data: seq<char>, offset: Word, n: Word, b: nat, room: int, done: seq<char>)
    requires b <= EndBlock(offset, n)
    ensures var c := ChunkSize(offset, n, b);
            if CopyFits(data, offset, n, b, room) then
              var at := if c == 0 then 0 else b * BLOCK + ChunkStart(offset, b);
              Prepend(done, ReadFrom(data, offset, n, b, room))
              == Prepend(done + data[at..at + c], ReadFrom(data, offset, n, b + 1, room - c))
            else ReadFrom(data, offset, n, b, room) == Overrun
  {
    var c := ChunkSize(offset, n, b);
    if CopyFits(data, offset, n, b, room) {
      var at := if c == 0 then 0 else b * BLOCK + ChunkStart(offset, b);
      var r := ReadFrom(data, offset, n, b + 1, room - c);
      if r.Delivered? { assert done + (data[at..at + c] + r.bytes) == (done + data[at..at + c]) + r.bytes; }
    }
  }

  lemma PrependOverrun()
    ensures forall d: seq<char> :: Prepend(d, Overrun) == Overrun
  {
  }

  lemma NothingAfter(data: seq<char>, offset: Word, n: Word, b: nat, room: int, done: seq<char>)
    requires b > EndBlock(offset, n)
    ensures Prepend(done, ReadFrom(data, offset, n, b, room)) == Delivered(done)
  {
    assert done + [] == done;
  }
}
