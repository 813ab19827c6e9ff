/** unpack_initramfs: walk the archive and load its files. */
module CpioUnpack {
  import opened Prelude
  import opened FsSpec
  import opened FileSystemImpl
  import opened CpioSpec

  /** Create a file for the visited entry and store its data, if it is one to load. */
  method RegisterFile(fs: FileSystem, mem: Memory, v: Visit)
    requires fs.Valid()
    modifies fs.disk, fs.bitmap, fs.table
    ensures fs.Valid()
    ensures fs.State() == Register(old(fs.State()), mem, v)
  {
    if v.size > 0 && !StringIs(mem, v.nameAt, DOT) && !StringIs(mem, v.nameAt, DOT_DOT) {
      var path := CleanPath(mem, v.nameAt);
      var index := fs.CreateFile(path);
      if index != -1 {
        var _ := fs.WriteFile(index, Bytes(mem, v.dataAt, v.size));
      }
    }
  }

  function NewInit(mem: Memory, v: Visit, init: (nat, nat)): (nat, nat) {
    if IsInit(mem, v) then (v.dataAt, v.size) else init
  }

  /** What the loop ends in when it stands at `p`, after the headers `seen`. */
  ghost function Outcome(fs: Fs, mem: Memory, p: nat, end: nat, seen: set<nat>, init: (nat, nat)): (Fs, bool, (nat, nat))
    requires Sane(fs)
  {
    var (visits, done) := Walk(mem, p, end, seen);
    (RegisterAll(fs, mem, visits), done, InitOf(mem, visits, init))
  }

  lemma OutcomeStep(fs: Fs, mem: Memory, p: nat, end: nat, seen: set<nat>, init: (nat, nat))
    requires Sane(fs) && Continues(mem, p, end) && p !in seen
    ensures var v := VisitAt(mem, p);
      Outcome(fs, mem, p, end, seen, init) ==
      Outcome(Register(fs, mem, v), mem, NextHeader(mem, p), end, seen + {p}, NewInit(mem, v, init))
  {
    var v := VisitAt(mem, p);
    var visits, rest := Walk(mem, p, end, seen).0, Walk(mem, NextHeader(mem, p), end, seen + {p}).0;
    assert visits == [v] + rest && visits[0] == v && visits[1..] == rest;
    assert RegisterAll(fs, mem, visits) == RegisterAll(Register(fs, mem, v), mem, rest);
    assert InitOf(mem, visits, init) == InitOf(mem, rest, NewInit(mem, v, init));
  }

  /** `init0` is the previous content of init_elf_start and init_elf_size. The code keeps no record of
    * the headers seen: where it stands at one for the second time it goes round for ever, and the method
    * leaves the loop with `done` false. */
  method UnpackInitramfs(fs: FileSystem, mem: Memory, start: nat, size: nat, init0: (nat, nat))
    returns (done: bool, init: (nat, nat))
    requires fs.Valid() && start < TWO_32 && size < TWO_32
    modifies fs.disk, fs.bitmap, fs.table
    ensures fs.Valid()
    ensures var (visits, d) := Walk(mem, start, (start + size) % TWO_32, {});
      (fs.State(), done, init) == (RegisterAll(old(fs.State()), mem, visits), d, InitOf(mem, visits, init0))
  {
    var ptr: nat := start;
    var end := (start + size) % TWO_32;
    var seen: set<nat> := {};
    init := init0;
    ghost var final := Outcome(fs.State(), mem, start, end, {}, init0);
    while ptr < end
      invariant fs.Valid() && Outcome(fs.State(), mem, ptr, end, seen, init) == final
      decreases Unseen(end, seen)
    {
      var v, next := ReadHeader(mem, ptr);
      if v.None? {
        break;
      }
      if ptr in seen {
        return false, init;
      }
      OutcomeStep(fs.State(), mem, ptr, end, seen, init);
      SeenShrinks(end, seen, ptr);
      RegisterFile(fs, mem, v.value);
      if IsInit(mem, v.value) {
        init := (v.value.dataAt, v.value.size);
      }
      seen := seen + {ptr};
      ptr := next;
    }
    done := true;
  }

  /** Decode the header at `ptr`; None for a wrong magic number or the trailer. */
  method ReadHeader(mem: Memory, ptr: nat) returns (v: Option<Visit>, next: nat)
    ensures v.None? <==> EndsAt(mem, ptr)
    ensures v.Some? ==> v.value == VisitAt(mem, ptr) && next == NextHeader(mem, ptr)
  {
    v, next := None, ptr;
    if Bytes(mem, ptr, 6) != MAGIC {
      return;
    }
    var nameSize := ParseHexAscii(Bytes(mem, ptr + 94, 8), 8);
    var fileSize := ParseHexAscii(Bytes(mem, ptr + 54, 8), 8);
    assert Bytes(mem, ptr + 94, 8)[..8] == Bytes(mem, ptr + 94, 8);
    assert Bytes(mem, ptr + 54, 8)[..8] == Bytes(mem, ptr + 54, 8);
    var fileName := ptr + HEADER;
    if StringIs(mem, fileName, TRAILER) {
      return;
    }
    var dataOffset := Round4((HEADER + nameSize) % TWO_32);
    v := Some(Visit(ptr, fileName, (ptr + dataOffset) % TWO_32, fileSize));
    next := (ptr + dataOffset + Round4(fileSize)) % TWO_32;
  }
}
