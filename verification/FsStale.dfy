/** Writing to a slot that is not in use: fs_write does not check, and the entry still names the blocks it
  * had, or block 0 if it has never been used. */
module FsStale {
  import opened Prelude
  import opened FsSpec
  import opened FsTheorems

  /** What fs_write leaves behind, whatever the slot. */
  lemma {:induction false} WriteGrows(fs: Fs, f: nat, data: seq<byte>, i: nat)
    requires Sane(fs) && f < MAX_FILES && i <= MAX_BLOCKS_PER_FILE
    ensures var fs' := WriteFrom(fs, f, data, i).0;
      && (forall b :: 0 <= b < TOTAL_BLOCKS && fs.bits[b] ==> fs'.bits[b])
      && (forall g :: 0 <= g < MAX_FILES && g != f ==> fs'.table[g] == fs.table[g])
      && fs'.table[f].used == fs.table[f].used
    decreases MAX_BLOCKS_PER_FILE - i
  {
    if i < MAX_BLOCKS_PER_FILE && BLOCK_SIZE * i < |data| {
      var fs1 := Acquire(fs, f, i);
      if fs1.table[f].blocks[i] != -1 {
        WriteGrows(Store(fs1, f, i, Chunk(data, i)), f, data, i + 1);
      }
    }
  }

  // ----- An empty slot: a block is taken that no used file holds

  /** The write goes through slot `j`. */
  predicate Reaches(n: nat, j: nat) {
    j < MAX_BLOCKS_PER_FILE && BLOCK_SIZE * j < n
  }

  lemma {:induction false} EmptySlotGrabs(fs: Fs, f: nat, data: seq<byte>, i: nat, j: nat) returns (b: nat)
    requires Sane(fs) && f < MAX_FILES && i <= j && Reaches(|data|, j)
    requires fs.table[f].blocks[j] == -1 && LowestFree(fs.bits) < TOTAL_BLOCKS
    ensures b < TOTAL_BLOCKS && !fs.bits[b] && WriteFrom(fs, f, data, i).0.bits[b]
    decreases MAX_BLOCKS_PER_FILE - i
  {
    var fs1 := Acquire(fs, f, i);
    assert SaneEntry(fs.table[f]);
    if fs.table[f].blocks[i] == -1 {
      b := LowestFree(fs.bits);
      WriteGrows(Store(fs1, f, i, Chunk(data, i)), f, data, i + 1);
    } else {
      b := EmptySlotGrabs(Store(fs1, f, i, Chunk(data, i)), f, data, i + 1, j);
    }
  }

  lemma GrabBreaksInv(fs: Fs, f: nat, data: seq<byte>, j: nat)
    requires Inv(fs) && f < MAX_FILES && !fs.table[f].used && Reaches(|data|, j) && fs.table[f].blocks[j] == -1
    ensures !Inv(Write(fs, f, data).0)
  {
    var fs' := Write(fs, f, data).0;
    FreeBlockBelowCapacity(fs, f, 0);
    var b := EmptySlotGrabs(fs, f, data, 0, j);
    WriteGrows(fs, f, data, 0);
    if Inv(fs') {
      assert Held(fs', b);
      var g, k :| 0 <= g < MAX_FILES && 0 <= k < MAX_BLOCKS_PER_FILE && Slot(fs', g, k) == b;
      assert Slot(fs, g, k) == b;
      assert Held(fs, b);
    }
  }

  // ----- Blocks nobody holds: nothing happens to the used files

  /** Every slot the write goes through names a block that no used file holds. */
  ghost predicate Unheld(fs: Fs, f: nat, n: nat)
    requires Sane(fs) && f < MAX_FILES
  {
    forall j: nat | Reaches(n, j) :: fs.table[f].blocks[j] != -1 && !Held(fs, fs.table[f].blocks[j])
  }

  /** Only bytes in blocks nobody holds, and a size nobody looks at, have changed. */
  ghost predicate Harmless(fs: Fs, fs': Fs, f: nat)
    requires Sane(fs) && f < MAX_FILES
  {
    && Sane(fs') && OthersKept(fs, fs', f) && fs'.bits == fs.bits && fs'.table[f].blocks == fs.table[f].blocks
  }

  lemma HarmlessHeld(fs: Fs, fs': Fs, f: nat)
    requires Sane(fs) && f < MAX_FILES && !fs.table[f].used && Harmless(fs, fs', f)
    ensures forall b :: Held(fs, b) <==> Held(fs', b)
    ensures Exclusive(fs) <==> Exclusive(fs')
  {
    SameSlots(fs, fs');
  }

  lemma StoreHarmless(fs: Fs, f: nat, i: nat, chunk: seq<byte>)
    requires Sane(fs) && f < MAX_FILES && i < MAX_BLOCKS_PER_FILE && |chunk| <= BLOCK_SIZE
    requires fs.table[f].blocks[i] != -1 && !Held(fs, fs.table[f].blocks[i])
    ensures Harmless(fs, Store(fs, f, i, chunk), f)
  {
    var fs' := Store(fs, f, i, chunk);
    assert SaneEntry(fs.table[f]);
    forall g, j, o | 0 <= g < MAX_FILES && g != f && 0 <= j < MAX_BLOCKS_PER_FILE && 0 <= o < BLOCK_SIZE && Slot(fs, g, j) != -1
      ensures Cell(fs', g, j, o) == Cell(fs, g, j, o)
    {
      assert Slot(fs, g, j) != fs.table[f].blocks[i];
    }
  }

  lemma {:induction false} UnheldHarmless(fs: Fs, f: nat, data: seq<byte>, i: nat)
    requires Sane(fs) && f < MAX_FILES && !fs.table[f].used && i <= MAX_BLOCKS_PER_FILE && Unheld(fs, f, |data|)
    ensures Harmless(fs, WriteFrom(fs, f, data, i).0, f)
    decreases MAX_BLOCKS_PER_FILE - i
  {
    if i < MAX_BLOCKS_PER_FILE && BLOCK_SIZE * i < |data| {
      assert Reaches(|data|, i);
      var fs1 := Store(fs, f, i, Chunk(data, i));
      StoreHarmless(fs, f, i, Chunk(data, i));
      HarmlessHeld(fs, fs1, f);
      UnheldHarmless(fs1, f, data, i + 1);
      OthersKeptCompose(fs, fs1, WriteFrom(fs1, f, data, i + 1).0, f);
    }
  }

  lemma HarmlessInv(fs: Fs, fs': Fs, f: nat)
    requires Inv(fs) && f < MAX_FILES && !fs.table[f].used && Harmless(fs, fs', f)
    ensures Inv(fs') && Abs(fs') == Abs(fs)
  {
    HarmlessHeld(fs, fs', f);
    forall g, j | 0 <= g < MAX_FILES && 0 <= j < MAX_BLOCKS_PER_FILE ensures Slot(fs', g, j) == Slot(fs, g, j) {}
    forall g: nat | g < MAX_FILES && fs.table[g].used ensures Content(fs', g) == Content(fs, g) {
      ContentKept(fs, fs', f, g);
    }
  }

  // ----- A block somebody holds: its file changes under it

  /** Writing the same byte throughout puts it at the start of every block the write goes through. */
  lemma {:induction false} SameByteFills(fs: Fs, f: nat, data: seq<byte>, i: nat, v: byte, b: nat)
    requires Sane(fs) && f < MAX_FILES && i <= MAX_BLOCKS_PER_FILE && b < TOTAL_BLOCKS
    requires forall k :: 0 <= k < |data| ==> data[k] == v
    requires forall j: nat | Reaches(|data|, j) :: fs.table[f].blocks[j] != -1
    ensures var fs' := WriteFrom(fs, f, data, i).0;
      && (fs.disk[b * BLOCK_SIZE] == v ==> fs'.disk[b * BLOCK_SIZE] == v)
      && ((exists j: nat | Reaches(|data|, j) :: i <= j && fs.table[f].blocks[j] == b) ==> fs'.disk[b * BLOCK_SIZE] == v)
    decreases MAX_BLOCKS_PER_FILE - i
  {
    if i < MAX_BLOCKS_PER_FILE && BLOCK_SIZE * i < |data| {
      assert Reaches(|data|, i) && SaneEntry(fs.table[f]);
      SameByteFills(Store(fs, f, i, Chunk(data, i)), f, data, i + 1, v, b);
    }
  }

  lemma HeldChanges(fs: Fs, f: nat, n: nat, j: nat) returns (data: seq<byte>)
    requires Inv(fs) && f < MAX_FILES && !fs.table[f].used && Reaches(n, j)
    requires forall k: nat | Reaches(n, k) :: fs.table[f].blocks[k] != -1
    requires Held(fs, fs.table[f].blocks[j])
    ensures |data| == n && (Inv(Write(fs, f, data).0) ==> Abs(Write(fs, f, data).0) != Abs(fs))
  {
    assert SaneEntry(fs.table[f]);
    var b := fs.table[f].blocks[j];
    var g, m :| 0 <= g < MAX_FILES && 0 <= m < MAX_BLOCKS_PER_FILE && Slot(fs, g, m) == b;
    var v: byte := if fs.disk[b * BLOCK_SIZE] == 0 then 1 else 0;
    data := seq(n, _ => v);
    var fs' := Write(fs, f, data).0;
    SameByteFills(fs, f, data, 0, v, b);
    WriteGrows(fs, f, data, 0);
    assert SaneEntry(fs.table[g]) && Packed(fs.table[g]);
    FirstOfBlock(fs, g, m);
    FirstOfBlock(fs', g, m);
    assert Content(fs', g) != Content(fs, g);
    assert g in Abs(fs);
  }

  lemma FirstOfBlock(fs: Fs, g: nat, m: nat)
    requires Sane(fs) && g < MAX_FILES && m < HeldCount(fs.table[g].blocks)
    ensures SaneEntry(fs.table[g]) && BLOCK_SIZE * m < |Content(fs, g)|
    ensures Content(fs, g)[BLOCK_SIZE * m] == fs.disk[fs.table[g].blocks[m] * BLOCK_SIZE]
  {
    assert SaneEntry(fs.table[g]);
    assert BLOCK_SIZE * m / BLOCK_SIZE == m && BLOCK_SIZE * m % BLOCK_SIZE == 0;
  }

  /** Writing `n` bytes to a slot that is not in use keeps the invariant and every used file, for all
    * data, if and only if each slot the write goes through names a block that no used file holds. */
  lemma UnusedWriteExactly(fs: Fs, f: nat, n: nat)
    requires Inv(fs) && f < MAX_FILES && !fs.table[f].used
    ensures (forall data | |data| == n :: Inv(Write(fs, f, data).0) && Abs(Write(fs, f, data).0) == Abs(fs)) <==> Unheld(fs, f, n)
  {
    if Unheld(fs, f, n) {
      forall data | |data| == n ensures Inv(Write(fs, f, data).0) && Abs(Write(fs, f, data).0) == Abs(fs) {
        UnheldHarmless(fs, f, data, 0);
        HarmlessInv(fs, Write(fs, f, data).0, f);
      }
    } else if j: nat :| Reaches(n, j) && fs.table[f].blocks[j] == -1 {
      var data: seq<byte> := seq(n, _ => 0);
      GrabBreaksInv(fs, f, data, j);
      assert |data| == n;
    } else {
      var j: nat :| Reaches(n, j) && Held(fs, fs.table[f].blocks[j]);
      var data := HeldChanges(fs, f, n, j);
    }
  }

  // ----- An input

  /** The first file of a fresh disk gets block 0, which is what every slot never used names too: one byte
    * written to slot 1 is then read from file 0. */
  lemma StrayWrite(name: seq<byte>, a: byte, b: byte)
    ensures var fs := Write(Create(Boot(), name).0, 0, [a]).0;
      && Create(Boot(), name).1 == 0 && !fs.table[1].used
      && Read(fs, 0, 1) == [a] && Read(Write(fs, 1, [b]).0, 0, 1) == [b]
  {
    BootInv();
    var fs0 := Create(Boot(), name).0;
    CreateInv(Boot(), name);
    assert fs0.table[0].blocks[0] == -1 && LowestFree(fs0.bits) == 0;
    OneByte(fs0, 0, a);
    var fs := Write(fs0, 0, [a]).0;
    assert fs.table[1] == Blank() && SaneEntry(Blank());
    OneByte(fs, 1, b);
    FirstByteRead(fs);
    FirstByteRead(Write(fs, 1, [b]).0);
  }

  /** One byte goes to the start of the first block, which is taken if need be. */
  lemma OneByte(fs: Fs, f: nat, a: byte)
    requires Sane(fs) && f < MAX_FILES && LowestFree(fs.bits) < TOTAL_BLOCKS
    ensures var fs1, fs' := Acquire(fs, f, 0), Write(fs, f, [a]).0;
      && fs1.table[f].blocks[0] != -1 && SaneEntry(fs1.table[f])
      && fs'.disk == fs.disk[fs1.table[f].blocks[0] * BLOCK_SIZE := a]
      && fs'.table == fs1.table[f := fs1.table[f].(size := 1)]
  {
    assert SaneEntry(fs.table[f]);
    var fs1 := Acquire(fs, f, 0);
    assert SaneEntry(fs1.table[f]);
    var fs2 := Store(fs1, f, 0, Chunk([a], 0));
    assert Chunk([a], 0) == [a];
    assert WriteFrom(fs2, f, [a], 1) == (SetSize(fs2, f, 1), 1);
  }

  lemma FirstByteRead(fs: Fs)
    requires Sane(fs) && fs.table[0].blocks[0] == 0
    ensures Read(fs, 0, 1) == [fs.disk[0]]
  {
    assert SaneEntry(fs.table[0]);
    FirstOfBlock(fs, 0, 0);
  }
}
