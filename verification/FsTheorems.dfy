/** Block ownership, capacity, and the refinement of the file system to a map from slot to bytes. */
module FsTheorems {
  import opened Prelude
  import opened FsSpec

  // ----- The invariant

  /** The block that slot `j` of file `f` holds, or -1. */
  ghost function Slot(fs: Fs, f: nat, j: nat): int
    requires Sane(fs) && f < MAX_FILES && j < MAX_BLOCKS_PER_FILE
  {
    assert SaneEntry(fs.table[f]);
    if fs.table[f].used then fs.table[f].blocks[j] else -1
  }

  /** Some slot of a used file holds block `b`. */
  ghost predicate Held(fs: Fs, b: int)
    requires Sane(fs)
  {
    exists f, j :: 0 <= f < MAX_FILES && 0 <= j < MAX_BLOCKS_PER_FILE && Slot(fs, f, j) == b
  }

  /** No block is held twice. */
  ghost predicate Exclusive(fs: Fs)
    requires Sane(fs)
  {
    forall f, j, g, k
      | 0 <= f < MAX_FILES && 0 <= j < MAX_BLOCKS_PER_FILE && 0 <= g < MAX_FILES && 0 <= k < MAX_BLOCKS_PER_FILE
      :: Slot(fs, f, j) == Slot(fs, g, k) != -1 ==> f == g && j == k
  }

  /** Held slots come first, and the recorded size fits in them. */
  ghost predicate Packed(e: FileEntry)
    requires SaneEntry(e)
  {
    && (forall j :: HeldCount(e.blocks) <= j < MAX_BLOCKS_PER_FILE ==> e.blocks[j] == -1)
    && e.size <= BLOCK_SIZE * HeldCount(e.blocks)
  }

  /** The most blocks that can ever be held at once. */
  const CAPACITY: nat := 640

  ghost predicate Inv(fs: Fs) {
    && Sane(fs)
    && (forall b :: 0 <= b < TOTAL_BLOCKS ==> (fs.bits[b] <==> Held(fs, b)))
    && Exclusive(fs)
    && (forall f :: 0 <= f < MAX_FILES && fs.table[f].used ==> SaneEntry(fs.table[f]) && Packed(fs.table[f]))
    && (forall f, j :: 0 <= f < MAX_FILES && 0 <= j < MAX_BLOCKS_PER_FILE ==> Slot(fs, f, j) < CAPACITY)
  }

  lemma BootInv()
    ensures Inv(Boot())
  {
    assert SaneEntry(Blank());
  }

  // ----- Capacity: 64 files of 10 blocks never exhaust 2048 blocks

  /** The codes 10 f + j of the slots that hold blocks 0 .. n - 1: one each. */
  lemma {:induction false} HolderCodes(fs: Fs, n: nat) returns (codes: set<nat>)
    requires Inv(fs) && n <= TOTAL_BLOCKS
    requires forall b :: 0 <= b < n ==> fs.bits[b]
    ensures |codes| == n
    ensures forall c :: c in codes ==> c < CAPACITY && 0 <= Slot(fs, c / 10, c % 10) < n
  {
    if n == 0 {
      codes := {};
    } else {
      var fewer := HolderCodes(fs, n - 1);
      assert Held(fs, n - 1);
      var f, j :| 0 <= f < MAX_FILES && 0 <= j < MAX_BLOCKS_PER_FILE && Slot(fs, f, j) == n - 1;
      var code := 10 * f + j;
      assert code / 10 == f && code % 10 == j;
      codes := fewer + {code};
    }
  }

  lemma {:induction false} BelowCard(n: nat, s: set<nat>)
    requires forall x :: x in s ==> x < n
    ensures |s| <= n
  {
    if n > 0 {
      BelowCard(n - 1, s - {n - 1});
    }
  }

  /** While some file still has an empty slot, one of the first 640 blocks is free. */
  lemma FreeBlockBelowCapacity(fs: Fs, f: nat, i: nat)
    requires Inv(fs) && f < MAX_FILES && i < MAX_BLOCKS_PER_FILE
    requires Slot(fs, f, i) == -1
    ensures LowestFree(fs.bits) < CAPACITY
  {
    if LowestFree(fs.bits) >= CAPACITY {
      var codes := HolderCodes(fs, CAPACITY);
      var mine := 10 * f + i;
      assert mine / 10 == f && mine % 10 == i;
      BelowCard(CAPACITY, codes + {mine});
    }
  }

  // ----- create and delete

  lemma CreateInv(fs: Fs, name: seq<byte>)
    requires Inv(fs)
    ensures Inv(Create(fs, name).0)
  {
    var (fs', r) := Create(fs, name);
    if r != -1 {
      forall f, j | 0 <= f < MAX_FILES && 0 <= j < MAX_BLOCKS_PER_FILE ensures Sane(fs') && Slot(fs', f, j) == Slot(fs, f, j) {
        assert SaneEntry(fs.table[f]);
        assert forall g :: 0 <= g < MAX_FILES && g != r ==> fs'.table[g] == fs.table[g] && SaneEntry(fs.table[g]);
        assert SaneEntry(fs'.table[r]);
      }
      SameSlots(fs, fs');
    }
  }

  // ----- Sizes and slots

  /** A disk of one megabyte in 2048 blocks, and 64 slots for files of ten blocks and 5120 bytes. */
  lemma Sizes(fs: Fs, f: nat)
    requires Sane(fs) && f < 64
    ensures |fs.disk| == 1048576 && |fs.bits| == 2048 && |fs.table| == 64
    ensures BLOCK_SIZE * |fs.bits| == |fs.disk| && BLOCK_SIZE * |fs.table[f].blocks| == FILE_LIMIT == 5120
    ensures |fs.table[f].name| == 32
  {
    assert SaneEntry(fs.table[f]);
  }

  /** Deleting a file that exists frees its slot, which keeps everything else that is in it, its blocks among
    * them; deleting an unused slot does nothing. */
  lemma DeletedEntryStays(fs: Fs, f: nat)
    requires Sane(fs) && f < MAX_FILES
    ensures var fs' := Delete(fs, f);
      && fs'.disk == fs.disk && (!fs.table[f].used ==> fs' == fs)
      && (forall g :: 0 <= g < MAX_FILES && g != f ==> fs'.table[g] == fs.table[g])
      && !fs'.table[f].used && fs'.table[f].name == fs.table[f].name
      && fs'.table[f].size == fs.table[f].size && fs'.table[f].blocks == fs.table[f].blocks
  {
  }

  /** On a full disk, which the limits on files rule out but damage does not, a write that needs more blocks
    * than the file has stops there: it returns what it has stored and records no size. */
  lemma {:induction false} FullDiskStops(fs: Fs, f: nat, data: seq<byte>, i: nat)
    requires Sane(fs) && f < MAX_FILES && LowestFree(fs.bits) == TOTAL_BLOCKS
    requires var h := HeldCount(fs.table[f].blocks); i <= h < MAX_BLOCKS_PER_FILE && BLOCK_SIZE * h < |data|
    ensures var (fs', w) := WriteFrom(fs, f, data, i);
      w == BLOCK_SIZE * HeldCount(fs.table[f].blocks) && fs'.table == fs.table && fs'.bits == fs.bits
    decreases MAX_BLOCKS_PER_FILE - i
  {
    assert SaneEntry(fs.table[f]);
    if i < HeldCount(fs.table[f].blocks) {
      FullDiskStops(Store(fs, f, i, Chunk(data, i)), f, data, i + 1);
    }
  }

  // ----- Names

  /** A C string: what stands before the first NUL. */
  function CString(s: seq<byte>): (c: seq<byte>)
    ensures |c| <= |s| && c == s[..|c|] && (forall k :: 0 <= k < |c| ==> c[k] != 0) && (|c| < |s| ==> s[|c|] == 0)
  {
    s[..StrLen(s)]
  }

  /** At most 31 characters of a name are kept. */
  function Cut31(name: seq<byte>): (c: seq<byte>)
    ensures |c| == Min(|name|, 31)
  {
    name[..Min(|name|, 31)]
  }

  lemma {:induction false} StrLenIs(s: seq<byte>, n: nat)
    requires n <= |s| && (forall k :: 0 <= k < n ==> s[k] != 0) && (n < |s| ==> s[n] == 0)
    ensures StrLen(s) == n
  {
    if n > 0 {
      StrLenIs(s[1..], n - 1);
    }
  }

  lemma OneCString(s: seq<byte>, c: seq<byte>)
    requires |c| <= |s| && c == s[..|c|] && (forall k :: 0 <= k < |c| ==> c[k] != 0) && (|c| < |s| ==> s[|c|] == 0)
    ensures CString(s) == c
  {
    assert forall k :: 0 <= k < |c| ==> s[k] == c[k];
    StrLenIs(s, |c|);
  }

  /** A name is written over the old one of the slot, byte for byte up to its end or 31 bytes; what stands
    * behind stays, but for the last byte, which is cleared. */
  lemma NameStored(fs: Fs, name: seq<byte>)
    requires Sane(fs) && Create(fs, name).1 >= 0
    ensures var (fs', r) := Create(fs, name);
      var c, was, now := Cut31(CString(name)), fs.table[r].name, fs'.table[r].name;
      && |now| == |was| == 32
      && now[..|c|] == c && now[31] == 0 && now[|c|..31] == was[|c|..31]
  {
    var (fs', r) := Create(fs, name);
    assert SaneEntry(fs.table[r]) && SaneEntry(fs'.table[r]);
  }

  /** As a C string the stored name is the one given, cut to 31 characters, if and only if it has all 31 or
    * the old name of the slot has a NUL right behind where the new one ends. */
  lemma NameStoredExactly(fs: Fs, name: seq<byte>)
    requires Sane(fs) && Create(fs, name).1 >= 0
    ensures var (fs', r) := Create(fs, name);
      var c := Cut31(CString(name));
      && |fs.table[r].name| == 32
      && (CString(fs'.table[r].name) == c <==> |c| == 31 || fs.table[r].name[|c|] == 0)
  {
    var (fs', r) := Create(fs, name);
    var c, now := Cut31(CString(name)), fs'.table[r].name;
    NameStored(fs, name);
    if |c| == 31 || fs.table[r].name[|c|] == 0 {
      assert |c| < 31 ==> now[|c|..31][0] == fs.table[r].name[|c|..31][0];
      OneCString(now, c);
    } else {
      assert now[|c|..31][0] == fs.table[r].name[|c|..31][0];
    }
  }

  lemma CreatedInFirst(fs: Fs, name: seq<byte>)
    requires Sane(fs) && !fs.table[0].used
    ensures var (fs', r) := Create(fs, name); r == 0 && fs'.table[0].used && fs'.table[0].name == NameOver(fs.table[0].name, name)
  {
  }

  /** From boot: a file "ab" is created and deleted, and another named "c" created. Its name is then "cb". */
  lemma OldNameShows()
    ensures var fs := Delete(Create(Boot(), Ascii("ab")).0, 0);
      Create(fs, Ascii("c")).1 == 0 && CString(Create(fs, Ascii("c")).0.table[0].name) == Ascii("cb")
  {
    var ab, c := Ascii("ab"), Ascii("c");
    CreatedInFirst(Boot(), ab);
    var fs := Delete(Create(Boot(), ab).0, 0);
    CreatedInFirst(fs, c);
    StrLenIs(ab, 2);
    StrLenIs(c, 1);
    var now := Create(fs, c).0.table[0].name;
    assert now[0] == 99 && now[1] == 98 && now[2] == 0;
    assert now[..2] == Ascii("cb");
    OneCString(now, Ascii("cb"));
  }

  /** Two states whose slots hold the same blocks agree on who holds what. */
  lemma SameSlots(a: Fs, b: Fs)
    requires Sane(a) && Sane(b)
    requires forall f, j :: 0 <= f < MAX_FILES && 0 <= j < MAX_BLOCKS_PER_FILE ==> Slot(b, f, j) == Slot(a, f, j)
    ensures forall x :: Held(a, x) <==> Held(b, x)
    ensures Exclusive(a) <==> Exclusive(b)
  {
    forall x ensures Held(a, x) <==> Held(b, x) {
      if Held(a, x) {
        var f, j :| 0 <= f < MAX_FILES && 0 <= j < MAX_BLOCKS_PER_FILE && Slot(a, f, j) == x;
        assert Slot(b, f, j) == x;
      }
      if Held(b, x) {
        var f, j :| 0 <= f < MAX_FILES && 0 <= j < MAX_BLOCKS_PER_FILE && Slot(b, f, j) == x;
        assert Slot(a, f, j) == x;
      }
    }
  }

  /** File `f` has been deleted. */
  ghost predicate Deleted(fs: Fs, fs': Fs, f: nat) {
    && Sane(fs) && Sane(fs') && f < MAX_FILES && fs.table[f].used && fs' == Delete(fs, f)
  }

  lemma DeletedSlots(fs: Fs, fs': Fs, f: nat)
    requires Deleted(fs, fs', f)
    ensures forall g, j | 0 <= g < MAX_FILES && 0 <= j < MAX_BLOCKS_PER_FILE
      :: Slot(fs', g, j) == if g == f then -1 else Slot(fs, g, j)
  {
  }

  lemma DeletedBit(fs: Fs, fs': Fs, f: nat, b: nat)
    requires Deleted(fs, fs', f) && b < TOTAL_BLOCKS && Exclusive(fs) && (fs.bits[b] <==> Held(fs, b))
    ensures fs'.bits[b] <==> Held(fs', b)
  {
    DeletedSlots(fs, fs', f);
    var e := fs.table[f];
    assert SaneEntry(e);
    assert fs'.bits[b] <==> fs.bits[b] && b !in e.blocks;
    forall k | 0 <= k < |e.blocks| ensures Slot(fs, f, k) == e.blocks[k] {}
    if fs'.bits[b] {
      var g, j :| 0 <= g < MAX_FILES && 0 <= j < MAX_BLOCKS_PER_FILE && Slot(fs, g, j) == b;
      assert Slot(fs', g, j) == b;
    }
    if Held(fs', b) {
      var g, j :| 0 <= g < MAX_FILES && 0 <= j < MAX_BLOCKS_PER_FILE && Slot(fs', g, j) == b;
      assert Slot(fs, g, j) == b && g != f;
    }
  }

  lemma DeletedExclusive(fs: Fs, fs': Fs, f: nat)
    requires Deleted(fs, fs', f) && Exclusive(fs)
    ensures Exclusive(fs')
  {
    DeletedSlots(fs, fs', f);
  }

  lemma DeleteInv(fs: Fs, f: nat)
    requires Inv(fs) && f < MAX_FILES
    ensures Inv(Delete(fs, f))
  {
    var fs' := Delete(fs, f);
    if fs.table[f].used {
      DeletedSlots(fs, fs', f);
      DeletedExclusive(fs, fs', f);
      forall b | 0 <= b < TOTAL_BLOCKS ensures fs'.bits[b] <==> Held(fs', b) {
        DeletedBit(fs, fs', f, b);
      }
    }
  }

  // ----- write, one slot at a time

  /** Everything but what file `f` holds is the same. */
  ghost predicate OthersKept(fs: Fs, fs': Fs, f: nat)
    requires Sane(fs) && Sane(fs') && f < MAX_FILES
  {
    && (forall g :: 0 <= g < MAX_FILES && g != f ==> fs'.table[g] == fs.table[g])
    && fs'.table[f].used == fs.table[f].used && fs'.table[f].name == fs.table[f].name
    && forall g, j, o | 0 <= g < MAX_FILES && g != f && 0 <= j < MAX_BLOCKS_PER_FILE && 0 <= o < BLOCK_SIZE
         :: Slot(fs, g, j) != -1 ==> Cell(fs', g, j, o) == Cell(fs, g, j, o)
  }

  lemma {:induction false} HeldCountIs(blocks: seq<int>, h: nat)
    requires h <= |blocks| && (forall j :: 0 <= j < h ==> blocks[j] != -1)
    requires h < |blocks| ==> blocks[h] == -1
    ensures HeldCount(blocks) == h
  {
    if h > 0 {
      HeldCountIs(blocks[1..], h - 1);
    }
  }

  /** Slot `i` of file `f` has been given block `b`, and holds the blocks before it. */
  ghost predicate TookBlock(fs: Fs, fs': Fs, f: nat, i: nat, b: nat)
    requires f < MAX_FILES && i < MAX_BLOCKS_PER_FILE
  {
    && Sane(fs) && Sane(fs') && fs.table[f].used && b < TOTAL_BLOCKS && !fs.bits[b]
    && SaneEntry(fs.table[f]) && i == HeldCount(fs.table[f].blocks)
    && fs' == fs.(bits := fs.bits[b := true], table := fs.table[f := fs.table[f].(blocks := fs.table[f].blocks[i := b])])
  }

  lemma TookSlots(fs: Fs, fs': Fs, f: nat, i: nat, b: nat)
    requires f < MAX_FILES && i < MAX_BLOCKS_PER_FILE && TookBlock(fs, fs', f, i, b)
    ensures Slot(fs, f, i) == -1
    ensures forall g, j | 0 <= g < MAX_FILES && 0 <= j < MAX_BLOCKS_PER_FILE
      :: Slot(fs', g, j) == if g == f && j == i then b else Slot(fs, g, j)
  {
  }

  lemma TookHeld(fs: Fs, fs': Fs, f: nat, i: nat, b: nat)
    requires f < MAX_FILES && i < MAX_BLOCKS_PER_FILE && TookBlock(fs, fs', f, i, b)
    requires forall x :: 0 <= x < TOTAL_BLOCKS ==> (fs.bits[x] <==> Held(fs, x))
    ensures forall x :: 0 <= x < TOTAL_BLOCKS ==> (fs'.bits[x] <==> Held(fs', x))
  {
    TookSlots(fs, fs', f, i, b);
    HeldAfterTaking(fs, fs', f, i, b);
  }

  lemma TookExclusive(fs: Fs, fs': Fs, f: nat, i: nat, b: nat)
    requires f < MAX_FILES && i < MAX_BLOCKS_PER_FILE && TookBlock(fs, fs', f, i, b)
    requires Exclusive(fs) && !Held(fs, b)
    ensures Exclusive(fs')
  {
    TookSlots(fs, fs', f, i, b);
    assert forall g, j :: 0 <= g < MAX_FILES && 0 <= j < MAX_BLOCKS_PER_FILE ==> Slot(fs, g, j) != b;
  }

  lemma TookPacked(fs: Fs, fs': Fs, f: nat, i: nat, b: nat)
    requires f < MAX_FILES && i < MAX_BLOCKS_PER_FILE && TookBlock(fs, fs', f, i, b) && Packed(fs.table[f])
    ensures SaneEntry(fs'.table[f]) && Packed(fs'.table[f]) && HeldCount(fs'.table[f].blocks) == i + 1
  {
    assert SaneEntry(fs'.table[f]);
    HeldCountIs(fs'.table[f].blocks, i + 1);
  }

  lemma TookInv(fs: Fs, fs': Fs, f: nat, i: nat, b: nat)
    requires f < MAX_FILES && i < MAX_BLOCKS_PER_FILE && TookBlock(fs, fs', f, i, b) && Inv(fs) && b < CAPACITY
    ensures Inv(fs')
  {
    TookSlots(fs, fs', f, i, b);
    TookHeld(fs, fs', f, i, b);
    TookExclusive(fs, fs', f, i, b);
    TookPacked(fs, fs', f, i, b);
  }

  lemma AcquireEffect(fs: Fs, f: nat, i: nat)
    requires Inv(fs) && f < MAX_FILES && i < MAX_BLOCKS_PER_FILE
    requires fs.table[f].used && i <= HeldCount(fs.table[f].blocks)
    ensures var fs' := Acquire(fs, f, i);
      && Inv(fs') && fs'.table[f].blocks[i] != -1
      && (forall g :: 0 <= g < MAX_FILES && g != f ==> fs'.table[g] == fs.table[g])
      && fs'.table[f] == fs.table[f].(blocks := fs.table[f].blocks[i := fs'.table[f].blocks[i]])
      && (i < HeldCount(fs.table[f].blocks) ==> fs' == fs)
      && HeldCount(fs'.table[f].blocks) == if i < HeldCount(fs.table[f].blocks) then HeldCount(fs.table[f].blocks) else i + 1
  {
    assert SaneEntry(fs.table[f]);
    if i == HeldCount(fs.table[f].blocks) {
      var fs', b := Acquire(fs, f, i), LowestFree(fs.bits);
      assert Slot(fs, f, i) == -1;
      FreeBlockBelowCapacity(fs, f, i);
      TookInv(fs, fs', f, i, b);
      TookPacked(fs, fs', f, i, b);
    }
  }

  lemma HeldAfterTaking(fs: Fs, fs': Fs, f: nat, i: nat, b: nat)
    requires Sane(fs) && Sane(fs') && f < MAX_FILES && i < MAX_BLOCKS_PER_FILE && Slot(fs, f, i) == -1
    requires forall g, j | 0 <= g < MAX_FILES && 0 <= j < MAX_BLOCKS_PER_FILE
      :: Slot(fs', g, j) == if g == f && j == i then b else Slot(fs, g, j)
    ensures forall x :: 0 <= x < TOTAL_BLOCKS ==> (Held(fs', x) <==> x == b || Held(fs, x))
  {
    assert Slot(fs', f, i) == b;
    forall x | 0 <= x < TOTAL_BLOCKS ensures Held(fs', x) <==> x == b || Held(fs, x) {
      if Held(fs, x) {
        var g, j :| 0 <= g < MAX_FILES && 0 <= j < MAX_BLOCKS_PER_FILE && Slot(fs, g, j) == x;
        assert Slot(fs', g, j) == x;
      }
      if Held(fs', x) {
        var g, j :| 0 <= g < MAX_FILES && 0 <= j < MAX_BLOCKS_PER_FILE && Slot(fs', g, j) == x;
        assert x == b || Slot(fs, g, j) == x;
      }
    }
  }

  lemma StoreEffect(fs: Fs, f: nat, i: nat, chunk: seq<byte>)
    requires Inv(fs) && f < MAX_FILES && i < MAX_BLOCKS_PER_FILE && fs.table[f].used
    requires fs.table[f].blocks[i] != -1 && |chunk| <= BLOCK_SIZE
    ensures var fs' := Store(fs, f, i, chunk);
      && Inv(fs') && fs'.table == fs.table && OthersKept(fs, fs', f)
      && forall j, o | 0 <= j < MAX_BLOCKS_PER_FILE && 0 <= o < BLOCK_SIZE && fs.table[f].blocks[j] != -1
           :: Cell(fs', f, j, o) == if j == i && o < |chunk| then chunk[o] else Cell(fs, f, j, o)
  {
    var fs' := Store(fs, f, i, chunk);
    SameSlots(fs, fs');
    forall g, j, o | 0 <= g < MAX_FILES && 0 <= j < MAX_BLOCKS_PER_FILE && 0 <= o < BLOCK_SIZE && Slot(fs, g, j) != -1
      ensures Cell(fs', g, j, o) == if g == f && j == i && o < |chunk| then chunk[o] else Cell(fs, g, j, o)
    {
      assert Slot(fs, f, i) == fs.table[f].blocks[i];
      assert Slot(fs, g, j) == Slot(fs, f, i) ==> g == f && j == i;
    }
    forall j | 0 <= j < MAX_BLOCKS_PER_FILE && fs.table[f].blocks[j] != -1 ensures Slot(fs, f, j) != -1 {}
  }

  function Max(a: int, b: int): int {
    if a < b then b else a
  }

  /** Blocks that `w` bytes take. */
  function BlocksFor(w: nat): nat {
    (w + BLOCK_SIZE - 1) / BLOCK_SIZE
  }

  /** What the rest of fs_write, from slot `i` on, does to file `f` and to nothing else. */
  ghost predicate WriteDone(fs: Fs, f: nat, data: seq<byte>, i: nat, fs': Fs, w: int)
    requires Inv(fs) && f < MAX_FILES && fs.table[f].used
  {
    && w == Min(|data|, FILE_LIMIT)
    && Inv(fs') && OthersKept(fs, fs', f)
    && var e, e' := fs.table[f], fs'.table[f];
    && SaneEntry(e) && SaneEntry(e')
    && e'.size == w
    && HeldCount(e'.blocks) == Max(HeldCount(e.blocks), BlocksFor(w))
    && (forall j | 0 <= j < HeldCount(e.blocks) :: e'.blocks[j] == e.blocks[j])
    && (forall j, o | 0 <= j < HeldCount(e'.blocks) && 0 <= o < BLOCK_SIZE
          :: if i <= j && BLOCK_SIZE * j + o < w then Cell(fs', f, j, o) == data[BLOCK_SIZE * j + o]
             else j < HeldCount(e.blocks) ==> Cell(fs', f, j, o) == Cell(fs, f, j, o))
  }

  lemma SetSizeDone(fs: Fs, f: nat, data: seq<byte>, i: nat)
    requires Inv(fs) && f < MAX_FILES && fs.table[f].used && i <= MAX_BLOCKS_PER_FILE
    requires i <= HeldCount(fs.table[f].blocks) && BLOCK_SIZE * (i - 1) < Max(1, |data|)
    requires i == MAX_BLOCKS_PER_FILE || |data| <= BLOCK_SIZE * i
    ensures var n := Min(|data|, BLOCK_SIZE * i); WriteDone(fs, f, data, i, SetSize(fs, f, n), n)
  {
    assert SaneEntry(fs.table[f]);
    var n := Min(|data|, BLOCK_SIZE * i);
    var fs' := SetSize(fs, f, n);
    assert SaneEntry(fs'.table[f]);
    SameSlots(fs, fs');
    assert BlocksFor(n) <= i;
  }

  /** What filling slot `i` with its part of the data does to the cells of file `f`. */
  ghost predicate SlotDone(fs: Fs, fs2: Fs, f: nat, data: seq<byte>, i: nat)
    requires Sane(fs) && Sane(fs2) && f < MAX_FILES
  {
    && SaneEntry(fs.table[f]) && SaneEntry(fs2.table[f])
    && HeldCount(fs2.table[f].blocks) == Max(HeldCount(fs.table[f].blocks), i + 1)
    && (forall j | 0 <= j < HeldCount(fs.table[f].blocks) :: fs2.table[f].blocks[j] == fs.table[f].blocks[j])
    && (forall j, o | 0 <= j < HeldCount(fs2.table[f].blocks) && 0 <= o < BLOCK_SIZE
          :: if i == j && BLOCK_SIZE * j + o < |data| then Cell(fs2, f, j, o) == data[BLOCK_SIZE * j + o]
             else j < HeldCount(fs.table[f].blocks) ==> Cell(fs2, f, j, o) == Cell(fs, f, j, o))
  }

  /** One slot done, then the rest. */
  lemma WriteCompose(fs: Fs, f: nat, data: seq<byte>, i: nat, fs2: Fs, fs': Fs, w: int)
    requires Inv(fs) && Inv(fs2) && f < MAX_FILES && fs.table[f].used && fs2.table[f].used
    requires i < MAX_BLOCKS_PER_FILE && BLOCK_SIZE * i < |data|
    requires OthersKept(fs, fs2, f) && SlotDone(fs, fs2, f, data, i)
    requires WriteDone(fs2, f, data, i + 1, fs', w)
    ensures WriteDone(fs, f, data, i, fs', w)
  {
    OthersKeptCompose(fs, fs2, fs', f);
    assert i + 1 <= BlocksFor(w);
  }

  lemma OthersKeptCompose(a: Fs, b: Fs, c: Fs, f: nat)
    requires Sane(a) && Sane(b) && Sane(c) && f < MAX_FILES
    requires OthersKept(a, b, f) && OthersKept(b, c, f)
    ensures OthersKept(a, c, f)
  {
    forall g, j, o | 0 <= g < MAX_FILES && g != f && 0 <= j < MAX_BLOCKS_PER_FILE && 0 <= o < BLOCK_SIZE && Slot(a, g, j) != -1
      ensures Cell(c, g, j, o) == Cell(a, g, j, o)
    {
      assert Slot(b, g, j) == Slot(a, g, j);
    }
  }

  lemma SlotFilled(fs: Fs, fs1: Fs, fs2: Fs, f: nat, data: seq<byte>, i: nat)
    requires Sane(fs) && Sane(fs1) && Sane(fs2) && f < MAX_FILES && i < MAX_BLOCKS_PER_FILE && BLOCK_SIZE * i < |data|
    requires SaneEntry(fs.table[f]) && SaneEntry(fs1.table[f]) && fs2.table == fs1.table && fs1.disk == fs.disk
    requires fs1.table[f].blocks == fs.table[f].blocks[i := fs1.table[f].blocks[i]]
    requires i < HeldCount(fs.table[f].blocks) ==> fs1.table[f].blocks[i] == fs.table[f].blocks[i]
    requires i <= HeldCount(fs.table[f].blocks)
    requires HeldCount(fs1.table[f].blocks) == Max(HeldCount(fs.table[f].blocks), i + 1)
    requires forall j, o | 0 <= j < MAX_BLOCKS_PER_FILE && 0 <= o < BLOCK_SIZE && fs1.table[f].blocks[j] != -1
      :: Cell(fs2, f, j, o) == if j == i && o < |Chunk(data, i)| then Chunk(data, i)[o] else Cell(fs1, f, j, o)
    ensures SlotDone(fs, fs2, f, data, i)
  {
    var h, chunk := HeldCount(fs.table[f].blocks), Chunk(data, i);
    forall j, o | 0 <= j < HeldCount(fs2.table[f].blocks) && 0 <= o < BLOCK_SIZE
      ensures if i == j && BLOCK_SIZE * j + o < |data| then Cell(fs2, f, j, o) == data[BLOCK_SIZE * j + o]
              else j < h ==> Cell(fs2, f, j, o) == Cell(fs, f, j, o)
    {
      if i == j && BLOCK_SIZE * j + o < |data| {
        assert o < |chunk| && chunk[o] == data[BLOCK_SIZE * i + o];
      }
    }
  }

  /** Acquire a block for slot `i` if need be, and fill it. */
  lemma OneSlot(fs: Fs, f: nat, data: seq<byte>, i: nat)
    requires Inv(fs) && f < MAX_FILES && fs.table[f].used && i < MAX_BLOCKS_PER_FILE
    requires i <= HeldCount(fs.table[f].blocks) && BLOCK_SIZE * i < |data|
    ensures var fs1 := Acquire(fs, f, i);
      && fs1.table[f].blocks[i] != -1
      && var fs2 := Store(fs1, f, i, Chunk(data, i));
      && Inv(fs2) && OthersKept(fs, fs2, f) && SlotDone(fs, fs2, f, data, i)
  {
    var fs1 := Acquire(fs, f, i);
    AcquireEffect(fs, f, i);
    assert SaneEntry(fs.table[f]) && SaneEntry(fs1.table[f]);
    StoreEffect(fs1, f, i, Chunk(data, i));
    SlotFilled(fs, fs1, Store(fs1, f, i, Chunk(data, i)), f, data, i);
    SameDiskOthersKept(fs, fs1, f);
    OthersKeptCompose(fs, fs1, Store(fs1, f, i, Chunk(data, i)), f);
  }

  lemma SameDiskOthersKept(a: Fs, b: Fs, f: nat)
    requires Sane(a) && Sane(b) && f < MAX_FILES && a.disk == b.disk
    requires forall g :: 0 <= g < MAX_FILES && g != f ==> b.table[g] == a.table[g]
    requires b.table[f].used == a.table[f].used && b.table[f].name == a.table[f].name
    ensures OthersKept(a, b, f)
  {
  }

  lemma {:induction false} WriteFromDone(fs: Fs, f: nat, data: seq<byte>, i: nat)
    requires Inv(fs) && f < MAX_FILES && fs.table[f].used && i <= MAX_BLOCKS_PER_FILE
    requires i <= HeldCount(fs.table[f].blocks) && BLOCK_SIZE * (i - 1) < Max(1, |data|)
    ensures var (fs', w) := WriteFrom(fs, f, data, i); WriteDone(fs, f, data, i, fs', w)
    decreases MAX_BLOCKS_PER_FILE - i
  {
    if i == MAX_BLOCKS_PER_FILE || |data| <= BLOCK_SIZE * i {
      SetSizeDone(fs, f, data, i);
    } else {
      var fs1 := Acquire(fs, f, i);
      OneSlot(fs, f, data, i);
      var fs2 := Store(fs1, f, i, Chunk(data, i));
      WriteFromDone(fs2, f, data, i + 1);
      var (fs', w) := WriteFrom(fs2, f, data, i + 1);
      WriteCompose(fs, f, data, i, fs2, fs', w);
    }
  }

  // ----- Refinement: a map from slot number to bytes

  type Files = map<nat, seq<byte>>

  ghost function Abs(fs: Fs): Files
    requires Sane(fs)
  {
    map f: nat | f < MAX_FILES && fs.table[f].used :: Content(fs, f)
  }

  datatype Op = Creates(name: seq<byte>) | Deletes(f: nat) | Writes(f: nat, data: seq<byte>) | Reads(f: nat, n: nat)

  /** Slots passed in exist, and a slot that is written is used; FsStale says what happens otherwise. */
  ghost predicate Allowed(fs: Fs, op: Op)
    requires Sane(fs)
  {
    match op
    case Creates(_) => true
    case Deletes(f) => f < MAX_FILES
    case Writes(f, _) => f < MAX_FILES && fs.table[f].used
    case Reads(f, _) => f < MAX_FILES
  }

  /** The next state, the return value, and the bytes read. */
  ghost function Perform(fs: Fs, op: Op): (Fs, int, seq<byte>)
    requires Sane(fs) && Allowed(fs, op)
  {
    match op
    case Creates(name) => (Create(fs, name).0, Create(fs, name).1, [])
    case Deletes(f) => (Delete(fs, f), 0, [])
    case Writes(f, data) => (Write(fs, f, data).0, Write(fs, f, data).1, [])
    case Reads(f, n) => (fs, |Read(fs, f, n)|, Read(fs, f, n))
  }

  /** `c'` is `c` overwritten from the front by `w` bytes of `data`. Bytes past both are those that
    * the newly taken blocks happened to hold. */
  ghost predicate Overwritten(c: seq<byte>, data: seq<byte>, w: nat, c': seq<byte>) {
    && w <= |data| && |c'| == Max(|c|, BLOCK_SIZE * BlocksFor(w)) && w <= |c'|
    && c'[..w] == data[..w]
    && forall k :: w <= k < |c| ==> c'[k] == c[k]
  }

  /** The simple file store: what each operation may do to the map, and what it returns. */
  ghost predicate AbsStep(m: Files, op: Op, m': Files, r: int, bytes: seq<byte>) {
    match op
    case Creates(_) =>
      if r == -1 then m' == m && forall f: nat :: f < MAX_FILES ==> f in m
      else 0 <= r < MAX_FILES && r !in m && m' == m[r := []] && forall f: nat :: f < r ==> f in m
    case Deletes(f) => m' == m - {f}
    case Writes(f, data) =>
      && f in m && r == Min(|data|, FILE_LIMIT)
      && exists c' :: Overwritten(m[f], data, r, c') && m' == m[f := c']
    case Reads(f, n) =>
      m' == m && r == |bytes| && (f in m ==> bytes == m[f][..Min(n, |m[f]|)])
  }

  lemma DoneOverwrites(fs: Fs, f: nat, data: seq<byte>, fs': Fs, w: int)
    requires Inv(fs) && f < MAX_FILES && fs.table[f].used
    requires WriteDone(fs, f, data, 0, fs', w)
    ensures w >= 0 && Overwritten(Content(fs, f), data, w, Content(fs', f))
  {
    var c, c' := Content(fs, f), Content(fs', f);
    forall k | 0 <= k < |c'|
      ensures if k < w then c'[k] == data[k] else k < |c| ==> c'[k] == c[k]
    {
      var j, o := k / BLOCK_SIZE, k % BLOCK_SIZE;
      assert BLOCK_SIZE * j + o == k;
      assert c'[k] == Cell(fs', f, j, o);
      assert k < |c| ==> c[k] == Cell(fs, f, j, o);
    }
    assert c'[..w] == data[..w];
  }

  /** Nothing but file `f` changed, so the map changed at `f` only. */
  lemma AbsChangedAt(fs: Fs, fs': Fs, f: nat)
    requires Inv(fs) && Inv(fs') && f < MAX_FILES && fs.table[f].used && fs'.table[f].used
    requires OthersKept(fs, fs', f)
    ensures Abs(fs') == Abs(fs)[f := Content(fs', f)]
  {
    forall g: nat | g < MAX_FILES && g != f && fs.table[g].used ensures Content(fs', g) == Content(fs, g) {
      ContentKept(fs, fs', f, g);
    }
  }

  lemma WriteRefines(fs: Fs, f: nat, data: seq<byte>)
    requires Inv(fs) && f < MAX_FILES && fs.table[f].used
    ensures var (fs', w) := Write(fs, f, data);
      && Inv(fs') && fs'.table[f].size == w == Min(|data|, FILE_LIMIT)
      && Overwritten(Content(fs, f), data, w, Content(fs', f))
      && Abs(fs') == Abs(fs)[f := Content(fs', f)]
      && OthersKept(fs, fs', f)
  {
    var (fs', w) := Write(fs, f, data);
    WriteFromDone(fs, f, data, 0);
    DoneOverwrites(fs, f, data, fs', w);
    AbsChangedAt(fs, fs', f);
  }

  lemma ContentKept(fs: Fs, fs': Fs, f: nat, g: nat)
    requires Inv(fs) && Inv(fs') && f < MAX_FILES && g < MAX_FILES && g != f
    requires OthersKept(fs, fs', f) && fs.table[g].used
    ensures Content(fs', g) == Content(fs, g)
  {
    assert SaneEntry(fs.table[g]);
    forall k | 0 <= k < |Content(fs, g)| ensures Content(fs', g)[k] == Content(fs, g)[k] {
      assert Slot(fs, g, k / BLOCK_SIZE) != -1;
    }
  }

  lemma SameEntrySameContent(a: Fs, b: Fs, g: nat)
    requires Sane(a) && Sane(b) && g < MAX_FILES
    requires a.table[g] == b.table[g] && a.disk == b.disk
    ensures Content(a, g) == Content(b, g)
  {
    assert SaneEntry(a.table[g]);
  }

  lemma CreateRefines(fs: Fs, name: seq<byte>)
    requires Inv(fs)
    ensures var (fs', r) := Create(fs, name);
      Inv(fs') && AbsStep(Abs(fs), Creates(name), Abs(fs'), r, [])
  {
    var (fs', r) := Create(fs, name);
    CreateInv(fs, name);
    if r != -1 {
      assert SaneEntry(fs'.table[r]);
      HeldCountIs(fs'.table[r].blocks, 0);
      forall g: nat | g < MAX_FILES && g != r ensures Content(fs', g) == Content(fs, g) {
        SameEntrySameContent(fs', fs, g);
      }
      assert Content(fs', r) == [];
      assert Abs(fs') == Abs(fs)[r as nat := []];
    }
  }

  lemma DeleteRefines(fs: Fs, f: nat)
    requires Sane(fs) && f < MAX_FILES
    ensures Abs(Delete(fs, f)) == Abs(fs) - {f}
  {
    var fs' := Delete(fs, f);
    forall g: nat | g < MAX_FILES && g != f ensures Content(fs', g) == Content(fs, g) {
      SameEntrySameContent(fs', fs, g);
    }
    assert Abs(fs').Keys == Abs(fs).Keys - {f};
  }

  /** Every operation keeps the invariant and is a step of the simple store. */
  lemma Refinement(fs: Fs, op: Op)
    requires Inv(fs) && Allowed(fs, op)
    ensures var (fs', r, bytes) := Perform(fs, op);
      Inv(fs') && AbsStep(Abs(fs), op, Abs(fs'), r, bytes)
  {
    match op {
      case Creates(name) => CreateRefines(fs, name);
      case Deletes(f) =>
        DeleteInv(fs, f);
        DeleteRefines(fs, f);
      case Writes(f, data) =>
        WriteRefines(fs, f, data);
        assert Overwritten(Abs(fs)[f], data, Write(fs, f, data).1, Content(Write(fs, f, data).0, f));
      case Reads(f, n) =>
    }
  }

  // ----- Consequences for callers

  /** Reading no more than a write returned gives back exactly what was written. */
  lemma ReadAfterWrite(fs: Fs, f: nat, data: seq<byte>, m: nat)
    requires Inv(fs) && f < MAX_FILES && fs.table[f].used
    requires m <= Min(|data|, FILE_LIMIT)
    ensures Write(fs, f, data).1 == Min(|data|, FILE_LIMIT)
    ensures Read(Write(fs, f, data).0, f, m) == data[..m]
  {
    WriteRefines(fs, f, data);
    PrefixOfOverwritten(Content(fs, f), data, Min(|data|, FILE_LIMIT), Content(Write(fs, f, data).0, f), m);
  }

  lemma PrefixOfOverwritten(c: seq<byte>, data: seq<byte>, w: nat, c': seq<byte>, m: nat)
    requires Overwritten(c, data, w, c') && m <= w
    ensures m <= |c'| && c'[..m] == data[..m]
  {
    assert c'[..m] == c'[..w][..m] && data[..m] == data[..w][..m];
  }

  /** After a shorter overwrite the old tail is still there, and can still be read. */
  lemma ShorterWriteKeepsTail(fs: Fs, f: nat, data: seq<byte>)
    requires Inv(fs) && f < MAX_FILES && fs.table[f].used
    requires |data| <= |Content(fs, f)|
    ensures Read(Write(fs, f, data).0, f, FILE_LIMIT) == data + Content(fs, f)[|data|..]
  {
    WriteRefines(fs, f, data);
    ContentLimit(fs, f);
    ShortOverwrite(Content(fs, f), data, Content(Write(fs, f, data).0, f));
  }

  lemma ContentLimit(fs: Fs, f: nat)
    requires Sane(fs) && f < MAX_FILES
    ensures |Content(fs, f)| <= FILE_LIMIT && |Content(fs, f)| % BLOCK_SIZE == 0
  {
    assert SaneEntry(fs.table[f]);
  }

  lemma ShortOverwrite(c: seq<byte>, data: seq<byte>, c': seq<byte>)
    requires |data| <= |c| <= FILE_LIMIT && |c| % BLOCK_SIZE == 0 && Overwritten(c, data, |data|, c')
    ensures c' == data + c[|data|..]
  {
    assert |c'| == |c|;
    assert c' == c'[..|data|] + c'[|data|..];
    assert c'[|data|..] == c[|data|..];
  }

  /** How many of `n` bytes go to slot `j`. */
  function Part(n: nat, j: nat): (m: nat)
    ensures m <= BLOCK_SIZE
  {
    if BLOCK_SIZE * j < n then Min(BLOCK_SIZE, n - BLOCK_SIZE * j) else 0
  }

  /** Writing `n` bytes from slot `i` on stores one of them at place `p` of the disk. */
  ghost predicate Hits(blocks: seq<int>, n: nat, i: nat, p: nat)
    requires |blocks| == MAX_BLOCKS_PER_FILE
  {
    exists j :: i <= j < MAX_BLOCKS_PER_FILE && blocks[j] * BLOCK_SIZE <= p < blocks[j] * BLOCK_SIZE + Part(n, j)
  }

  lemma StoreMisses(fs1: Fs, blocks: seq<int>, f: nat, data: seq<byte>, i: nat, p: nat)
    requires Sane(fs1) && f < MAX_FILES && i < MAX_BLOCKS_PER_FILE && BLOCK_SIZE * i < |data| && p < DISK_SIZE
    requires SaneEntry(fs1.table[f]) && |blocks| == MAX_BLOCKS_PER_FILE
    requires fs1.table[f].blocks[i] == blocks[i] != -1 && !Hits(blocks, |data|, i, p)
    ensures Store(fs1, f, i, Chunk(data, i)).disk[p] == fs1.disk[p]
  {
    assert |Chunk(data, i)| == Part(|data|, i);
  }

  /** The blocks named in `a` are named in the same places in `b`. */
  ghost predicate BlocksStay(a: seq<int>, b: seq<int>) {
    |a| == |b| == MAX_BLOCKS_PER_FILE && forall j :: 0 <= j < MAX_BLOCKS_PER_FILE && a[j] != -1 ==> b[j] == a[j]
  }

  lemma AcquireStays(fs: Fs, f: nat, i: nat)
    requires Sane(fs) && f < MAX_FILES && i < MAX_BLOCKS_PER_FILE
    ensures BlocksStay(fs.table[f].blocks, Acquire(fs, f, i).table[f].blocks)
  {
    assert SaneEntry(fs.table[f]);
  }

  lemma {:induction false} WriteStays(fs: Fs, f: nat, data: seq<byte>, i: nat)
    requires Sane(fs) && f < MAX_FILES && i <= MAX_BLOCKS_PER_FILE
    ensures BlocksStay(fs.table[f].blocks, WriteFrom(fs, f, data, i).0.table[f].blocks)
    decreases MAX_BLOCKS_PER_FILE - i
  {
    assert SaneEntry(fs.table[f]);
    if i < MAX_BLOCKS_PER_FILE && BLOCK_SIZE * i < |data| {
      var fs1 := Acquire(fs, f, i);
      AcquireStays(fs, f, i);
      if fs1.table[f].blocks[i] != -1 {
        WriteStays(Store(fs1, f, i, Chunk(data, i)), f, data, i + 1);
      }
    }
  }

  /** No byte changes but those the data go to. */
  lemma {:induction false} WriteMisses(fs: Fs, f: nat, data: seq<byte>, i: nat, p: nat)
    requires Sane(fs) && f < MAX_FILES && i <= MAX_BLOCKS_PER_FILE && p < DISK_SIZE
    requires var blocks := WriteFrom(fs, f, data, i).0.table[f].blocks;
      |blocks| == MAX_BLOCKS_PER_FILE && !Hits(blocks, |data|, i, p)
    ensures WriteFrom(fs, f, data, i).0.disk[p] == fs.disk[p]
    decreases MAX_BLOCKS_PER_FILE - i
  {
    if i < MAX_BLOCKS_PER_FILE && BLOCK_SIZE * i < |data| {
      var fs1 := Acquire(fs, f, i);
      assert SaneEntry(fs1.table[f]);
      if fs1.table[f].blocks[i] != -1 {
        var fs2 := Store(fs1, f, i, Chunk(data, i));
        var blocks := WriteFrom(fs2, f, data, i + 1).0.table[f].blocks;
        WriteStays(fs2, f, data, i + 1);
        StoreMisses(fs1, blocks, f, data, i, p);
        WriteMisses(fs2, f, data, i + 1, p);
      }
    }
  }

  /** The byte of a slot beyond the data is not among those written. */
  lemma BeyondMissed(fs': Fs, f: nat, n: nat, j: nat, o: nat)
    requires Inv(fs') && f < MAX_FILES && fs'.table[f].used && j < HeldCount(fs'.table[f].blocks) && o < BLOCK_SIZE
    requires BLOCK_SIZE * j + o >= Min(n, FILE_LIMIT)
    ensures SaneEntry(fs'.table[f])
    ensures var blocks := fs'.table[f].blocks; !Hits(blocks, n, 0, blocks[j] * BLOCK_SIZE + o)
  {
    assert SaneEntry(fs'.table[f]);
    var blocks := fs'.table[f].blocks;
    var p := blocks[j] * BLOCK_SIZE + o;
    forall k | 0 <= k < MAX_BLOCKS_PER_FILE ensures !(blocks[k] * BLOCK_SIZE <= p < blocks[k] * BLOCK_SIZE + Part(n, k)) {
      if blocks[k] == blocks[j] {
        assert Slot(fs', f, k) == Slot(fs', f, j);
      }
    }
  }

  /** Every byte that can be read after a write: the data, and beyond them what the disk held at that place
    * before, be it an old tail of the file or whatever was left in a block just taken. */
  lemma ContentAfterWrite(fs: Fs, f: nat, data: seq<byte>, k: nat)
    requires Inv(fs) && f < MAX_FILES && fs.table[f].used && k < |Content(Write(fs, f, data).0, f)|
    ensures var fs' := Write(fs, f, data).0; var c, b := Content(fs', f), fs'.table[f].blocks[k / BLOCK_SIZE];
      && 0 <= b < TOTAL_BLOCKS
      && c[k] == if k < Min(|data|, FILE_LIMIT) then data[k] else fs.disk[b * BLOCK_SIZE + k % BLOCK_SIZE]
  {
    WriteRefines(fs, f, data);
    var fs', j, o := Write(fs, f, data).0, k / BLOCK_SIZE, k % BLOCK_SIZE;
    var c, w := Content(fs', f), Min(|data|, FILE_LIMIT);
    assert SaneEntry(fs'.table[f]) && BLOCK_SIZE * j + o == k;
    assert c[k] == Cell(fs', f, j, o);
    if k < w {
      assert c[k] == c[..w][k];
    } else {
      BeyondMissed(fs', f, |data|, j, o);
      WriteMisses(fs, f, data, 0, fs'.table[f].blocks[j] * BLOCK_SIZE + o);
    }
  }

  lemma WholeExactly(c: seq<byte>, data: seq<byte>, w: nat, c': seq<byte>)
    requires Overwritten(c, data, w, c') && w == Min(|data|, FILE_LIMIT) && |c'| <= FILE_LIMIT
    ensures c' == data <==> |data| % BLOCK_SIZE == 0 && |c| <= |data| <= FILE_LIMIT
  {
    if |data| <= FILE_LIMIT {
      assert data[..w] == data;
      if |c'| == |data| {
        assert c'[..w] == c';
      }
    }
  }

  /** Reading all of a file after a write gives back just the data, if and only if the data fill whole
    * blocks, and at least as many as the file held, and fit in a file. Otherwise the read delivers more:
    * an old tail, or what a newly taken block happened to hold; or it delivers less. */
  lemma WholeReadExactly(fs: Fs, f: nat, data: seq<byte>)
    requires Inv(fs) && f < MAX_FILES && fs.table[f].used
    ensures Read(Write(fs, f, data).0, f, FILE_LIMIT) == data <==>
      |data| % BLOCK_SIZE == 0 && |Content(fs, f)| <= |data| <= FILE_LIMIT
  {
    WriteRefines(fs, f, data);
    var fs' := Write(fs, f, data).0;
    ContentLimit(fs', f);
    WholeExactly(Content(fs, f), data, Min(|data|, FILE_LIMIT), Content(fs', f));
    assert Content(fs', f)[..|Content(fs', f)|] == Content(fs', f);
  }

  /** The recorded size bounds what can be read, for every number of bytes asked for, if and only if it is
    * the length of the blocks held. */
  lemma SizeBoundsReadsExactly(fs: Fs, f: nat)
    requires Inv(fs) && f < MAX_FILES && fs.table[f].used
    ensures (forall n: nat :: |Read(fs, f, n)| <= fs.table[f].size) <==> fs.table[f].size == |Content(fs, f)|
  {
    assert SaneEntry(fs.table[f]) && Packed(fs.table[f]);
    assert |Read(fs, f, |Content(fs, f)|)| == |Content(fs, f)|;
  }

  /** From an empty disk, without any overwriting: one byte is written, its size recorded, and 512 bytes
    * are read. */
  lemma OneByteReadsBlock(name: seq<byte>, a: byte)
    ensures var (fs0, f) := Create(Boot(), name);
      && f == 0
      && var fs := Write(fs0, 0, [a]).0;
      && fs.table[0].size == 1 && |Read(fs, 0, BLOCK_SIZE)| == BLOCK_SIZE
  {
    BootInv();
    CreateRefines(Boot(), name);
    var fs0 := Create(Boot(), name).0;
    assert Content(fs0, 0) == [];
    WriteRefines(fs0, 0, [a]);
  }

  /** What can be read of one used file is untouched by any operation on another slot. */
  lemma Isolation(fs: Fs, op: Op, g: nat, n: nat)
    requires Inv(fs) && Allowed(fs, op) && g < MAX_FILES && fs.table[g].used
    requires match op
      case Creates(_) => true
      case Deletes(f) => f != g
      case Writes(f, _) => f != g
      case Reads(_, _) => true
    ensures Read(Perform(fs, op).0, g, n) == Read(fs, g, n) && Perform(fs, op).0.table[g] == fs.table[g]
  {
    Refinement(fs, op);
    var fs' := Perform(fs, op).0;
    match op {
      case Creates(name) => if fs' != fs { SameEntrySameContent(fs', fs, g); }
      case Deletes(f) => SameEntrySameContent(fs', fs, g);
      case Writes(f, data) =>
        WriteRefines(fs, f, data);
        ContentKept(fs, fs', f, g);
      case Reads(_, _) =>
    }
  }

  // ----- Whole runs

  ghost predicate Legal(fs: Fs, ops: seq<Op>)
    requires Inv(fs)
    decreases |ops|
  {
    ops == [] || (Allowed(fs, ops[0]) && (Refinement(fs, ops[0]); Legal(Perform(fs, ops[0]).0, ops[1..])))
  }

  /** In every reachable state the bitmap marks exactly the blocks of used files, each held by one
    * slot, and every file keeps its blocks in front. */
  ghost function Run(fs: Fs, ops: seq<Op>): (r: Fs)
    requires Inv(fs) && Legal(fs, ops)
    ensures Inv(r)
    decreases |ops|
  {
    if ops == [] then fs else Refinement(fs, ops[0]); Run(Perform(fs, ops[0]).0, ops[1..])
  }

  /** So in every state a run can reach, a write to a used file stores all of the data up to 5120
    * bytes, never less because of a full disk, and uses only the first 640 blocks. */
  lemma WritesNeverRunOut(fs: Fs, ops: seq<Op>, f: nat, data: seq<byte>)
    requires Inv(fs) && Legal(fs, ops) && f < MAX_FILES && Run(fs, ops).table[f].used
    ensures var (fs', w) := Write(Run(fs, ops), f, data);
      && w == Min(|data|, FILE_LIMIT)
      && forall g, j | 0 <= g < MAX_FILES && 0 <= j < MAX_BLOCKS_PER_FILE :: Slot(fs', g, j) < CAPACITY
  {
    WriteRefines(Run(fs, ops), f, data);
  }
}
