/** The file system itself: a disk, a bitmap and a file table changed in place. */
module FileSystemImpl {
  import opened Prelude
  import opened FsSpec

  /** `1 << k` in a byte. */
  function Mask(k: nat): bv8
    requires k < 8
  {
    (1 as bv8) << k
  }

  predicate TestBit(b: bv8, k: nat)
    requires k < 8
  {
    b & Mask(k) != 0
  }

  lemma SetBit(b: bv8, k: nat, j: nat)
    requires k < 8 && j < 8
    ensures TestBit(b | Mask(k), j) <==> j == k || TestBit(b, j)
  {
  }

  lemma ClearBit(b: bv8, k: nat, j: nat)
    requires k < 8 && j < 8
    ensures TestBit(b & !Mask(k), j) <==> j != k && TestBit(b, j)
  {
  }

  /** The bitmap bytes read bit by bit, lowest bit first. */
  ghost function Bits(bitmap: seq<bv8>): (bits: seq<bool>)
    requires |bitmap| == TOTAL_BLOCKS / 8
    ensures |bits| == TOTAL_BLOCKS
  {
    seq(TOTAL_BLOCKS, i requires 0 <= i < TOTAL_BLOCKS => TestBit(bitmap[i / 8], i % 8))
  }

  class FileSystem {
    const disk: array<byte>
    const bitmap: array<bv8>
    const table: array<FileEntry>

    ghost predicate Valid()
      reads this, disk, bitmap, table
    {
      bitmap.Length == TOTAL_BLOCKS / 8 && Sane(State())
    }

    ghost function State(): Fs
      requires bitmap.Length == TOTAL_BLOCKS / 8
      reads this, disk, bitmap, table
    {
      Fs(disk[..], Bits(bitmap[..]), table[..])
    }

    constructor ()
      ensures Valid() && State() == Boot() && fresh(disk) && fresh(bitmap) && fresh(table)
    {
      disk := new byte[DISK_SIZE](_ => 0);
      bitmap := new bv8[TOTAL_BLOCKS / 8](_ => 0);
      table := new FileEntry[MAX_FILES](_ => Blank());
      new;
      assert Bits(bitmap[..]) == seq(TOTAL_BLOCKS, _ => false);
      assert table[..] == seq(MAX_FILES, _ => Blank());
      assert SaneEntry(Blank());
    }

    method IsBlockFree(index: nat) returns (free: bool)
      requires bitmap.Length == TOTAL_BLOCKS / 8 && index < TOTAL_BLOCKS
      ensures free == !Bits(bitmap[..])[index]
    {
      free := bitmap[index / 8] & Mask(index % 8) == 0;
    }

    method SetBlockUsed(index: nat)
      requires bitmap.Length == TOTAL_BLOCKS / 8 && index < TOTAL_BLOCKS
      modifies bitmap
      ensures Bits(bitmap[..]) == old(Bits(bitmap[..]))[index := true]
    {
      bitmap[index / 8] := bitmap[index / 8] | Mask(index % 8);
      forall i | 0 <= i < TOTAL_BLOCKS ensures Bits(bitmap[..])[i] == old(Bits(bitmap[..]))[index := true][i] {
        SetBit(old(bitmap[index / 8]), index % 8, i % 8);
      }
    }

    method SetBlockFree(index: nat)
      requires bitmap.Length == TOTAL_BLOCKS / 8 && index < TOTAL_BLOCKS
      modifies bitmap
      ensures Bits(bitmap[..]) == old(Bits(bitmap[..]))[index := false]
    {
      bitmap[index / 8] := bitmap[index / 8] & !Mask(index % 8);
      forall i | 0 <= i < TOTAL_BLOCKS ensures Bits(bitmap[..])[i] == old(Bits(bitmap[..]))[index := false][i] {
        ClearBit(old(bitmap[index / 8]), index % 8, i % 8);
      }
    }

    method AllocateBlock() returns (r: int)
      requires bitmap.Length == TOTAL_BLOCKS / 8
      modifies bitmap
      ensures var bits := old(Bits(bitmap[..]));
        if LowestFree(bits) == TOTAL_BLOCKS then r == -1 && Bits(bitmap[..]) == bits
        else r == LowestFree(bits) && Bits(bitmap[..]) == bits[r := true]
    {
      var i := 0;
      while i < TOTAL_BLOCKS
        invariant i <= LowestFree(Bits(bitmap[..])) && bitmap[..] == old(bitmap[..])
      {
        var free := IsBlockFree(i);
        if free {
          SetBlockUsed(i);
          return i;
        }
        i := i + 1;
      }
      r := -1;
    }

    method CreateFile(name: seq<byte>) returns (r: int)
      requires Valid()
      modifies table
      ensures Valid()
      ensures (State(), r) == Create(old(State()), name)
    {
      var i := 0;
      while i < MAX_FILES
        invariant i <= FirstUnused(table[..]) && table[..] == old(table[..])
      {
        if !table[i].used {
          assert SaneEntry(table[..][i]);
          var e := table[i].(used := true, size := 0);
          var blocks := e.blocks;
          for j := 0 to MAX_BLOCKS_PER_FILE
            invariant |blocks| == MAX_BLOCKS_PER_FILE && forall k :: 0 <= k < j ==> blocks[k] == -1
          {
            blocks := blocks[j := -1];
          }
          var newName, k := e.name, 0;
          while k < 31 && k < |name| && name[k] != 0
            invariant k <= StrLen(name) && k <= 31 && |newName| == 32
            invariant forall m :: 0 <= m < 32 ==> newName[m] == if m < k then name[m] else e.name[m]
            decreases 31 - k
          {
            newName := newName[k := name[k]];
            k := k + 1;
          }
          newName := newName[31 := 0];
          assert newName == NameOver(e.name, name);
          assert blocks == seq(MAX_BLOCKS_PER_FILE, _ => -1);
          table[i] := e.(name := newName, blocks := blocks);
          assert table[..] == old(table[..])[i := e.(name := newName, blocks := blocks)];
          return i;
        }
        i := i + 1;
      }
      r := -1;
    }

    /** The loop of fs_delete. */
    method FreeBlocks(blocks: seq<int>)
      requires bitmap.Length == TOTAL_BLOCKS / 8
      requires forall j :: 0 <= j < |blocks| ==> -1 <= blocks[j] < TOTAL_BLOCKS
      modifies bitmap
      ensures Bits(bitmap[..]) == ClearBits(old(Bits(bitmap[..])), blocks)
    {
      for i := 0 to |blocks|
        invariant ClearBits(Bits(bitmap[..]), blocks[i..]) == ClearBits(old(Bits(bitmap[..])), blocks)
      {
        assert blocks[i..][1..] == blocks[i + 1..];
        if blocks[i] != -1 {
          SetBlockFree(blocks[i]);
        }
      }
    }

    method DeleteFile(index: nat)
      requires Valid() && index < MAX_FILES
      modifies bitmap, table
      ensures Valid()
      ensures State() == Delete(old(State()), index)
    {
      if !table[index].used {
        return;
      }
      assert SaneEntry(table[..][index]);
      FreeBlocks(table[index].blocks);
      table[index] := table[index].(used := false);
      assert table[..] == old(table[..])[index := old(table[index]).(used := false)];
    }

    /** The inner copy loop of fs_write. */
    method CopyToDisk(at: nat, data: seq<byte>, from: nat, n: nat)
      requires at + n <= disk.Length && from + n <= |data|
      modifies disk
      ensures disk[..] == Blit(old(disk[..]), at, data[from..from + n])
    {
      var j := 0;
      while j < n
        invariant 0 <= j <= n
        invariant forall k :: 0 <= k < disk.Length ==>
          disk[k] == if at <= k < at + j then data[from + k - at] else old(disk[k])
      {
        disk[at + j] := data[from + j];
        j := j + 1;
      }
    }

    /** Slot `i` of the file gets a block unless it has one; -1 when the disk is full. */
    method AcquireBlock(f: nat, i: nat) returns (block: int)
      requires Valid() && f < MAX_FILES && i < MAX_BLOCKS_PER_FILE
      modifies bitmap, table
      ensures Valid()
      ensures State() == Acquire(old(State()), f, i)
      ensures block == table[f].blocks[i]
    {
      assert SaneEntry(State().table[f]);
      block := table[f].blocks[i];
      if block == -1 {
        block := AllocateBlock();
        if block != -1 {
          table[f] := table[f].(blocks := table[f].blocks[i := block]);
          assert table[..] == old(table[..])[f := old(table[f]).(blocks := old(table[f]).blocks[i := block])];
        }
      }
    }

    /** One round of the loop of fs_write, once the slot has a block. */
    method StoreChunk(f: nat, i: nat, block: nat, data: seq<byte>, written: nat) returns (toWrite: nat)
      requires Valid() && f < MAX_FILES && i < MAX_BLOCKS_PER_FILE && table[f].blocks[i] == block
      requires written == BLOCK_SIZE * i < |data|
      modifies disk
      ensures Valid() && State() == Store(old(State()), f, i, Chunk(data, i))
      ensures toWrite == |Chunk(data, i)|
    {
      toWrite := if |data| - written < BLOCK_SIZE then |data| - written else BLOCK_SIZE;
      assert SaneEntry(State().table[f]);
      CopyToDisk(block * BLOCK_SIZE, data, written, toWrite);
      assert data[written..written + toWrite] == Chunk(data, i);
    }

    method WriteFile(f: nat, data: seq<byte>) returns (written: int)
      requires Valid() && f < MAX_FILES
      modifies disk, bitmap, table
      ensures Valid()
      ensures (State(), written) == Write(old(State()), f, data)
    {
      var i := 0;
      written := 0;
      while i < MAX_BLOCKS_PER_FILE && written < |data|
        invariant 0 <= i <= MAX_BLOCKS_PER_FILE && written == Min(|data|, BLOCK_SIZE * i)
        invariant Valid()
        invariant WriteFrom(State(), f, data, i) == Write(old(State()), f, data)
      {
        var block := AcquireBlock(f, i);
        if block == -1 {
          return;
        }
        var n := StoreChunk(f, i, block, data, written);
        written := written + n;
        i := i + 1;
      }
      ghost var last := State();
      table[f] := table[f].(size := written);
      assert State() == SetSize(last, f, written);
    }

    method ReadFile(f: nat, size: nat) returns (buffer: seq<byte>)
      requires Valid() && f < MAX_FILES
      ensures buffer == Read(State(), f, size)
    {
      buffer := [];
      var i := 0;
      assert SaneEntry(State().table[f]);
      ghost var h := HeldCount(table[f].blocks);
      while i < MAX_BLOCKS_PER_FILE && |buffer| < size
        invariant 0 <= i <= h && |buffer| == Min(size, BLOCK_SIZE * i)
        invariant buffer == Content(State(), f)[..|buffer|]
      {
        if table[f].blocks[i] == -1 {
          break;
        }
        var toRead := if size - |buffer| < BLOCK_SIZE then size - |buffer| else BLOCK_SIZE;
        var j := 0;
        ghost var start := |buffer|;
        while j < toRead
          invariant 0 <= j <= toRead && |buffer| == start + j
          invariant buffer == Content(State(), f)[..|buffer|]
        {
          assert Content(State(), f)[start + j] == Cell(State(), f, i, j);
          buffer := buffer + [disk[table[f].blocks[i] * BLOCK_SIZE + j]];
          j := j + 1;
        }
        i := i + 1;
      }
    }
  }
}
