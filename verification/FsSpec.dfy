/** The block file system of sys/kernel/fs/filesystem.c as functions on its state. */
module FsSpec {
  import opened Prelude

  const BLOCK_SIZE: nat := 512
  const MAX_FILES: nat := 64
  const MAX_BLOCKS_PER_FILE: nat := 10
  const TOTAL_BLOCKS: nat := 2048
  const DISK_SIZE: nat := 0x10_0000

  /** The most one file can hold. */
  const FILE_LIMIT: nat := 5120

  datatype FileEntry = FileEntry(name: seq<byte>, size: nat, blocks: seq<int>, used: bool)

  /** `bits[b]` says that block `b` is marked used in the bitmap. */
  datatype Fs = Fs(disk: seq<byte>, bits: seq<bool>, table: seq<FileEntry>)

  /** Array sizes, and block numbers that the disk has. This is all the code relies on not to leave
    * its arrays. */
  ghost predicate Sane(fs: Fs) {
    && |fs.disk| == DISK_SIZE && |fs.bits| == TOTAL_BLOCKS && |fs.table| == MAX_FILES
    && forall f :: 0 <= f < MAX_FILES ==> SaneEntry(fs.table[f])
  }

  ghost predicate SaneEntry(e: FileEntry) {
    && |e.name| == 32 && |e.blocks| == MAX_BLOCKS_PER_FILE
    && forall j :: 0 <= j < MAX_BLOCKS_PER_FILE ==> -1 <= e.blocks[j] < TOTAL_BLOCKS
  }

  /** A statically zeroed table entry. */
  function Blank(): FileEntry {
    FileEntry(seq(32, _ => 0), 0, seq(MAX_BLOCKS_PER_FILE, _ => 0), false)
  }

  /** The statically zeroed arrays at boot. */
  ghost function Boot(): Fs {
    Fs(seq(DISK_SIZE, _ => 0), seq(TOTAL_BLOCKS, _ => false), seq(MAX_FILES, _ => Blank()))
  }

  // ----- allocate_block

  function LowestFree(bits: seq<bool>): (b: nat)
    ensures b <= |bits|
    ensures b < |bits| ==> !bits[b]
    ensures forall c :: 0 <= c < b ==> bits[c]
  {
    if bits == [] || !bits[0] then 0 else 1 + LowestFree(bits[1..])
  }

  // ----- fs_create

  function FirstUnused(table: seq<FileEntry>): (f: nat)
    ensures f <= |table|
    ensures f < |table| ==> !table[f].used
    ensures forall g :: 0 <= g < f ==> table[g].used
  {
    if table == [] || !table[0].used then 0 else 1 + FirstUnused(table[1..])
  }

  /** Length of a C string: up to its first NUL. */
  function StrLen(s: seq<byte>): (n: nat)
    ensures n <= |s|
    ensures n < |s| ==> s[n] == 0
    ensures forall k :: 0 <= k < n ==> s[k] != 0
  {
    if s == [] || s[0] == 0 then 0 else 1 + StrLen(s[1..])
  }

  /** At most 31 characters are copied over the old name; only byte 31 is cleared. */
  function NameOver(was: seq<byte>, name: seq<byte>): seq<byte>
    requires |was| == 32
  {
    seq(32, k requires 0 <= k < 32 => if k == 31 then 0 else if k < StrLen(name) then name[k] else was[k])
  }

  ghost function Create(fs: Fs, name: seq<byte>): (r: (Fs, int))
    requires Sane(fs)
    ensures Sane(r.0)
  {
    var f := FirstUnused(fs.table);
    if f == MAX_FILES then (fs, -1 as int)
    else
      var e := FileEntry(NameOver(fs.table[f].name, name), 0, seq(MAX_BLOCKS_PER_FILE, _ => -1), true);
      (fs.(table := fs.table[f := e]), f as int)
  }

  // ----- fs_delete

  function ClearBits(bits: seq<bool>, blocks: seq<int>): (r: seq<bool>)
    requires forall j :: 0 <= j < |blocks| ==> -1 <= blocks[j] < |bits|
    ensures |r| == |bits|
    ensures forall b :: 0 <= b < |bits| ==> (r[b] <==> bits[b] && b !in blocks)
    decreases |blocks|
  {
    if blocks == [] then bits
    else ClearBits(if blocks[0] == -1 then bits else bits[blocks[0] := false], blocks[1..])
  }

  ghost function Delete(fs: Fs, f: nat): (fs': Fs)
    requires Sane(fs) && f < MAX_FILES
    ensures Sane(fs')
  {
    var e := fs.table[f];
    if !e.used then fs
    else
      assert SaneEntry(e);
      fs.(bits := ClearBits(fs.bits, e.blocks), table := fs.table[f := e.(used := false)])
  }

  // ----- fs_write

  function Blit(disk: seq<byte>, at: nat, chunk: seq<byte>): (r: seq<byte>)
    requires at + |chunk| <= |disk|
    ensures |r| == |disk|
    ensures forall k :: 0 <= k < |disk| ==> r[k] == if at <= k < at + |chunk| then chunk[k - at] else disk[k]
  {
    disk[..at] + chunk + disk[at + |chunk|..]
  }

  /** The part of `data` that goes into block slot `i`. */
  function Chunk(data: seq<byte>, i: nat): (c: seq<byte>)
    requires BLOCK_SIZE * i <= |data|
    ensures |c| <= BLOCK_SIZE
  {
    data[BLOCK_SIZE * i..Min(|data|, BLOCK_SIZE * i + BLOCK_SIZE)]
  }

  /** Give slot `i` of file `f` the lowest free block, if it has none and there is one. */
  ghost function Acquire(fs: Fs, f: nat, i: nat): (fs': Fs)
    requires Sane(fs) && f < MAX_FILES && i < MAX_BLOCKS_PER_FILE
    ensures Sane(fs') && fs'.disk == fs.disk
  {
    assert SaneEntry(fs.table[f]);
    var b := LowestFree(fs.bits);
    if fs.table[f].blocks[i] != -1 || b == TOTAL_BLOCKS then fs
    else
      var e := fs.table[f].(blocks := fs.table[f].blocks[i := b]);
      fs.(bits := fs.bits[b := true], table := fs.table[f := e])
  }

  ghost function Store(fs: Fs, f: nat, i: nat, chunk: seq<byte>): (fs': Fs)
    requires Sane(fs) && f < MAX_FILES && i < MAX_BLOCKS_PER_FILE && |chunk| <= BLOCK_SIZE
    requires fs.table[f].blocks[i] != -1
    ensures Sane(fs')
  {
    assert SaneEntry(fs.table[f]);
    fs.(disk := Blit(fs.disk, fs.table[f].blocks[i] * BLOCK_SIZE, chunk))
  }

  ghost function SetSize(fs: Fs, f: nat, n: nat): (fs': Fs)
    requires Sane(fs) && f < MAX_FILES
    ensures Sane(fs')
  {
    fs.(table := fs.table[f := fs.table[f].(size := n)])
  }

  /** The loop of fs_write from slot `i` on. When no block is left it returns early, without
    * recording the size. */
  ghost function WriteFrom(fs: Fs, f: nat, data: seq<byte>, i: nat): (r: (Fs, int))
    requires Sane(fs) && f < MAX_FILES && i <= MAX_BLOCKS_PER_FILE
    ensures Sane(r.0)
    decreases MAX_BLOCKS_PER_FILE - i
  {
    if i == MAX_BLOCKS_PER_FILE || |data| <= BLOCK_SIZE * i then
      var n := Min(|data|, BLOCK_SIZE * i);
      (SetSize(fs, f, n), n)
    else
      var fs1 := Acquire(fs, f, i);
      if fs1.table[f].blocks[i] == -1 then (fs1, BLOCK_SIZE * i)
      else WriteFrom(Store(fs1, f, i, Chunk(data, i)), f, data, i + 1)
  }

  ghost function Write(fs: Fs, f: nat, data: seq<byte>): (Fs, int)
    requires Sane(fs) && f < MAX_FILES
  {
    WriteFrom(fs, f, data, 0)
  }

  // ----- fs_read

  /** Number of leading block slots in use. */
  function HeldCount(blocks: seq<int>): (h: nat)
    ensures h <= |blocks|
    ensures h < |blocks| ==> blocks[h] == -1
    ensures forall j :: 0 <= j < h ==> blocks[j] != -1
  {
    if blocks == [] || blocks[0] == -1 then 0 else 1 + HeldCount(blocks[1..])
  }

  /** Byte `o` of the block in slot `j` of file `f`. */
  ghost function Cell(fs: Fs, f: nat, j: nat, o: nat): byte
    requires Sane(fs) && f < MAX_FILES && j < MAX_BLOCKS_PER_FILE && o < BLOCK_SIZE
    requires fs.table[f].blocks[j] != -1
  {
    assert SaneEntry(fs.table[f]);
    fs.disk[fs.table[f].blocks[j] * BLOCK_SIZE + o]
  }

  /** All the bytes fs_read can deliver for file `f`. */
  ghost function Content(fs: Fs, f: nat): (c: seq<byte>)
    requires Sane(fs) && f < MAX_FILES
    ensures |c| == BLOCK_SIZE * HeldCount(fs.table[f].blocks)
  {
    assert SaneEntry(fs.table[f]);
    var h := HeldCount(fs.table[f].blocks);
    seq(BLOCK_SIZE * h, k requires 0 <= k < BLOCK_SIZE * h => Cell(fs, f, k / BLOCK_SIZE, k % BLOCK_SIZE))
  }

  /** What fs_read puts into the buffer when asked for `n` bytes; the recorded size plays no part. */
  ghost function Read(fs: Fs, f: nat, n: nat): seq<byte>
    requires Sane(fs) && f < MAX_FILES
  {
    Content(fs, f)[..Min(n, |Content(fs, f)|)]
  }
}
