/** What the file system holds after an archive has been unpacked onto an empty one. */
module UnpackTheorem {
  import opened Prelude
  import opened FsSpec
  import opened FsTheorems
  import opened CpioSpec
  import opened CpioTheorems
  import opened FileSystemImpl
  import opened CpioUnpack

  /** Entries that become files: not empty, and neither "." nor "..". */
  predicate IsFile(e: Entry) {
    e.data != [] && e.name != DOT && e.name != DOT_DOT
  }

  function FileOf(e: Entry): seq<Entry> {
    if IsFile(e) then [e] else []
  }

  function FilesOf(es: seq<Entry>): seq<Entry> {
    if es == [] then [] else FileOf(es[0]) + FilesOf(es[1..])
  }

  /** The name without a leading "./", cut to 63 characters. */
  function CleanName(name: seq<byte>): (n: seq<byte>)
    ensures |n| <= 63
  {
    var n := if |name| >= 2 && name[..2] == DOT_SLASH then name[2..] else name;
    n[..Min(|n|, 63)]
  }

  /** The name of the program to run as init, in either spelling. */
  predicate IsInitEntry(e: Entry) {
    e.name == BIN_INIT || e.name == DOT_SLASH + BIN_INIT
  }

  /** The last entry of that name. */
  function LastInit(es: seq<Entry>): Option<Entry> {
    if es == [] then None
    else
      var later := LastInit(es[1..]);
      if later.Some? then later else if IsInitEntry(es[0]) then Some(es[0]) else None
  }

  /** Where init lies: its address and length give the data of the last such entry; without one nothing has
    * changed. */
  ghost predicate InitIs(mem: Memory, init: (nat, nat), was: (nat, nat), es: seq<Entry>) {
    match LastInit(es)
    case None => init == was
    case Some(e) => init.1 == |e.data| && Bytes(mem, init.0, init.1) == e.data
  }

  lemma InitVisit(mem: Memory, v: Visit, e: Entry)
    requires ValidEntry(e) && Carries(mem, v, e)
    ensures IsInit(mem, v) <==> IsInitEntry(e)
  {
    StringUnique(mem, v.nameAt, e.name, BIN_INIT);
    StringUnique(mem, v.nameAt, e.name, DOT_SLASH + BIN_INIT);
  }

  lemma {:induction false} InitFound(mem: Memory, vs: seq<Visit>, es: seq<Entry>, was: (nat, nat))
    requires |vs| == |es| && forall i :: 0 <= i < |es| ==> ValidEntry(es[i]) && Carries(mem, vs[i], es[i])
    ensures InitIs(mem, InitOf(mem, vs, was), was, es)
    decreases |es|
  {
    if es != [] {
      InitVisit(mem, vs[0], es[0]);
      InitFound(mem, vs[1..], es[1..], if IsInit(mem, vs[0]) then (vs[0].dataAt, vs[0].size) else was);
    }
  }

  /** How much of the data fits in a file. */
  function Kept(e: Entry): (n: nat)
    ensures n <= |e.data|
  {
    Min(|e.data|, FILE_LIMIT)
  }

  /** Slot `f` holds the file of entry `e`: its name, cut to 31 characters, and as much of its data as a file
    * can hold. */
  ghost predicate HoldsFile(fs: Fs, f: nat, e: Entry)
    requires Sane(fs) && f < MAX_FILES
  {
    && fs.table[f].used && fs.table[f].size == Kept(e)
    && CString(fs.table[f].name) == Cut31(CleanName(e.name))
    && Read(fs, f, Kept(e)) == e.data[..Kept(e)]
  }

  /** The first slots hold the files `done`, the others have never been used. */
  ghost predicate Loaded(fs: Fs, done: seq<Entry>) {
    && Inv(fs) && |done| <= MAX_FILES
    && (forall f :: 0 <= f < |done| ==> HoldsFile(fs, f, done[f]))
    && (forall f :: |done| <= f < MAX_FILES ==> fs.table[f] == Blank())
  }

  lemma StringAt(mem: Memory, a: nat, name: seq<byte>, i: nat)
    requires StringIs(mem, a, name) && i <= |name|
    ensures mem(a + i) == if i < |name| then name[i] else 0
  {
    assert Bytes(mem, a, |name| + 1)[i] == (name + [0])[i];
  }

  lemma CleanPathIs(mem: Memory, a: nat, name: seq<byte>)
    requires StringIs(mem, a, name) && forall i :: 0 <= i < |name| ==> name[i] != 0
    ensures CleanPath(mem, a) == CleanName(name)
  {
    var two := Bytes(mem, a, 2);
    forall k | 0 <= k < 2 && k <= |name| ensures two[k] == if k < |name| then name[k] else 0 {
      StringAt(mem, a, name, k);
    }
    assert if |name| >= 2 then two == name[..2] else two[|name|] == 0 != DOT_SLASH[|name|];
    var skip := if two == DOT_SLASH then 2 else 0;
    var n := name[skip..];
    var s := Bytes(mem, a + skip, 63);
    forall k | 0 <= k < 63 && k <= |n| ensures s[k] == if k < |n| then n[k] else 0 {
      StringAt(mem, a, name, skip + k);
      assert s[k] == mem(a + (skip + k));
    }
    StrLenIs(s, Min(|n|, 63));
    assert s[..Min(|n|, 63)] == n[..Min(|n|, 63)];
  }

  lemma {:induction false} FirstUnusedIs(table: seq<FileEntry>, f: nat)
    requires f <= |table| && (forall g :: 0 <= g < f ==> table[g].used) && (f < |table| ==> !table[f].used)
    ensures FirstUnused(table) == f
  {
    if f > 0 {
      FirstUnusedIs(table[1..], f - 1);
    }
  }

  lemma NextSlot(fs: Fs, done: seq<Entry>)
    requires Loaded(fs, done) && |done| < MAX_FILES
    ensures FirstUnused(fs.table) == |done|
  {
    forall g | 0 <= g < |done| ensures fs.table[g].used {
      assert HoldsFile(fs, g, done[g]);
    }
    FirstUnusedIs(fs.table, |done|);
  }

  /** A file that was there before stays as it was. */
  lemma FileStays(fs: Fs, path: seq<byte>, data: seq<byte>, done: seq<Entry>, g: nat)
    requires Loaded(fs, done) && g < |done| < MAX_FILES
    ensures var (fs1, f) := Create(fs, path);
      f == |done| && HoldsFile(Write(fs1, f, data).0, g, done[g])
  {
    NextSlot(fs, done);
    CreateRefines(fs, path);
    var (fs1, f) := Create(fs, path);
    WriteRefines(fs1, f, data);
    assert HoldsFile(fs, g, done[g]);
    SameEntrySameContent(fs, fs1, g);
    ContentKept(fs1, Write(fs1, f, data).0, f, g);
  }

  lemma NewName(fs: Fs, path: seq<byte>, done: seq<Entry>)
    requires Loaded(fs, done) && |done| < MAX_FILES && forall k :: 0 <= k < |path| ==> path[k] != 0
    ensures var (fs1, f) := Create(fs, path); f == |done| && CString(fs1.table[f].name) == Cut31(path)
  {
    NextSlot(fs, done);
    StrLenIs(path, |path|);
    NameStoredExactly(fs, path);
    assert path[..|path|] == path;
    assert fs.table[|done|] == Blank();
  }

  lemma NewFile(fs: Fs, e: Entry, path: seq<byte>, done: seq<Entry>)
    requires Loaded(fs, done) && |done| < MAX_FILES && path == CleanName(e.name) && ValidEntry(e)
    ensures var (fs1, f) := Create(fs, path);
      && f == |done|
      && var fs2 := Write(fs1, f, e.data).0;
      && Inv(fs2) && HoldsFile(fs2, f, e)
      && forall g :: |done| < g < MAX_FILES ==> fs2.table[g] == Blank()
  {
    NextSlot(fs, done);
    CreateRefines(fs, path);
    NewName(fs, path, done);
    var (fs1, f) := Create(fs, path);
    WriteRefines(fs1, f, e.data);
    var (fs2, w) := Write(fs1, f, e.data);
    assert Content(fs2, f)[..w] == e.data[..w];
  }

  /** Loading one more file puts it into the next slot and disturbs no other. */
  lemma LoadOne(fs: Fs, e: Entry, path: seq<byte>, done: seq<Entry>)
    requires Loaded(fs, done) && |done| < MAX_FILES && path == CleanName(e.name) && ValidEntry(e)
    ensures var (fs1, f) := Create(fs, path);
      f == |done| && Loaded(Write(fs1, f, e.data).0, done + [e])
  {
    NewFile(fs, e, path, done);
    var (fs1, f) := Create(fs, path);
    var fs2 := Write(fs1, f, e.data).0;
    forall g | 0 <= g < |done| ensures HoldsFile(fs2, g, done[g]) {
      FileStays(fs, path, e.data, done, g);
    }
  }

  /** With every slot in use nothing more is loaded. */
  lemma RegisterFull(fs: Fs, mem: Memory, v: Visit, done: seq<Entry>)
    requires Loaded(fs, done) && |done| == MAX_FILES
    ensures Register(fs, mem, v) == fs
  {
    forall g | 0 <= g < MAX_FILES ensures fs.table[g].used {
      assert HoldsFile(fs, g, done[g]);
    }
    FirstUnusedIs(fs.table, MAX_FILES);
  }

  /** The files there is a slot for. */
  function First64(files: seq<Entry>): (first: seq<Entry>)
    ensures |first| == Min(|files|, MAX_FILES)
  {
    files[..Min(|files|, MAX_FILES)]
  }

  lemma RegisterLoads(fs: Fs, mem: Memory, v: Visit, e: Entry, done: seq<Entry>)
    requires Loaded(fs, done) && ValidEntry(e) && Carries(mem, v, e)
    ensures Loaded(Register(fs, mem, v), First64(done + FileOf(e)))
  {
    StringUnique(mem, v.nameAt, e.name, DOT);
    StringUnique(mem, v.nameAt, e.name, DOT_DOT);
    if |done| == MAX_FILES {
      RegisterFull(fs, mem, v, done);
      assert First64(done + FileOf(e)) == done;
    } else if IsFile(e) {
      CleanPathIs(mem, v.nameAt, e.name);
      LoadOne(fs, e, CleanPath(mem, v.nameAt), done);
      assert First64(done + [e]) == done + [e];
    } else {
      assert First64(done + []) == done;
    }
  }

  lemma {:induction false} RegisterAllLoads(fs: Fs, mem: Memory, vs: seq<Visit>, es: seq<Entry>, done: seq<Entry>)
    requires Loaded(fs, done) && |vs| == |es|
    requires forall i :: 0 <= i < |es| ==> ValidEntry(es[i]) && Carries(mem, vs[i], es[i])
    ensures Loaded(RegisterAll(fs, mem, vs), First64(done + FilesOf(es)))
    decreases |es|
  {
    if es == [] {
      assert First64(done + []) == done;
    } else {
      RegisterLoads(fs, mem, vs[0], es[0], done);
      Regroup(done, FileOf(es[0]), FilesOf(es[1..]));
      RegisterAllLoads(Register(fs, mem, vs[0]), mem, vs[1..], es[1..], First64(done + FileOf(es[0])));
    }
  }

  lemma Regroup(a: seq<Entry>, b: seq<Entry>, c: seq<Entry>)
    ensures First64(First64(a + b) + c) == First64(a + (b + c))
  {
    assert a + (b + c) == (a + b) + c;
  }

  /** The file system at boot is the one nothing has been loaded into. */
  lemma BootLoaded()
    ensures Loaded(Boot(), [])
  {
    BootInv();
  }

  lemma WalkFindsInit(mem: Memory, start: nat, end: nat, es: seq<Entry>, was: (nat, nat))
    requires AllValid(es) && Holds(mem, start, Archive(es)) && start + |Archive(es)| <= end < TWO_32
    ensures InitIs(mem, InitOf(mem, Walk(mem, start, end, {}).0, was), was, es)
  {
    WalkVisitsEntries(mem, start, end, es);
    ArchivePacked(mem, start, es, end);
    forall i | 0 <= i < |es| ensures ValidEntry(es[i]) && Carries(mem, VisitsOf(es, start)[i], es[i]) {
      CarriesAt(mem, start, end, es, i);
    }
    InitFound(mem, VisitsOf(es, start), es, was);
  }

  lemma WalkLoads(fs: Fs, mem: Memory, start: nat, end: nat, es: seq<Entry>)
    requires AllValid(es) && Loaded(fs, [])
    requires Holds(mem, start, Archive(es)) && start + |Archive(es)| <= end < TWO_32
    ensures var (visits, done) := Walk(mem, start, end, {});
      done && |visits| == |es| && Loaded(RegisterAll(fs, mem, visits), First64(FilesOf(es)))
  {
    WalkVisitsEntries(mem, start, end, es);
    ArchivePacked(mem, start, es, end);
    forall i | 0 <= i < |es| ensures ValidEntry(es[i]) && Carries(mem, VisitsOf(es, start)[i], es[i]) {
      CarriesAt(mem, start, end, es, i);
    }
    RegisterAllLoads(fs, mem, VisitsOf(es, start), es, []);
    assert [] + FilesOf(es) == FilesOf(es);
  }

  /** Slot i holds the i-th file, in its name and in what can be read of it, and no other slot is used. */
  ghost predicate Unpacked(fs: Fs, files: seq<Entry>) {
    && Loaded(fs, files)
    && forall i :: 0 <= i < |files| ==> Read(fs, i, Kept(files[i])) == files[i].data[..Kept(files[i])]
  }

  /** Unpacking an archive onto the empty file system ends, after visiting every entry; the slots then hold
    * its first 64 files, in order, each cut to 5120 bytes, and init is the data of the last entry named so. */
  lemma UnpackRoundTrip(fs: Fs, mem: Memory, start: nat, end: nat, es: seq<Entry>, init0: (nat, nat))
    requires Loaded(fs, []) && AllValid(es)
    requires Holds(mem, start, Archive(es)) && start + |Archive(es)| <= end < TWO_32
    ensures var (visits, done) := Walk(mem, start, end, {});
      && done && |visits| == |es| && Unpacked(RegisterAll(fs, mem, visits), First64(FilesOf(es)))
      && InitIs(mem, InitOf(mem, visits, init0), init0, es)
  {
    WalkLoads(fs, mem, start, end, es);
    WalkFindsInit(mem, start, end, es, init0);
    var (visits, done) := Walk(mem, start, end, {});
    LoadedReads(RegisterAll(fs, mem, visits), First64(FilesOf(es)));
  }

  lemma LoadedReads(fs: Fs, files: seq<Entry>)
    requires Loaded(fs, files)
    ensures Unpacked(fs, files)
  {
    forall i | 0 <= i < |files| ensures Read(fs, i, Kept(files[i])) == files[i].data[..Kept(files[i])] {
      assert HoldsFile(fs, i, files[i]);
    }
  }

  method NewDisk() returns (fs: FileSystem)
    ensures fresh(fs) && fresh(fs.disk) && fresh(fs.bitmap) && fresh(fs.table)
    ensures fs.Valid() && Loaded(fs.State(), [])
  {
    fs := new FileSystem();
    BootLoaded();
  }

  lemma NoWrap(start: nat, size: nat)
    requires start + size < TWO_32
    ensures (start + size) % TWO_32 == start + size
  {
  }

  /** The same for the code, from boot: a new disk, and unpack_initramfs on an archive of any entries. */
  method UnpackAtBoot(mem: Memory, start: nat, size: nat, init0: (nat, nat), ghost es: seq<Entry>)
    returns (fs: FileSystem, done: bool, init: (nat, nat))
    requires AllValid(es) && Holds(mem, start, Archive(es)) && |Archive(es)| <= size && start + size < TWO_32
    ensures fresh(fs) && fs.Valid() && done && Unpacked(fs.State(), First64(FilesOf(es))) && InitIs(mem, init, init0, es)
  {
    fs := NewDisk();
    ghost var empty, end := fs.State(), start + size;
    ghost var visits := Walk(mem, start, end, {}).0;
    NoWrap(start, size);
    UnpackRoundTrip(empty, mem, start, end, es, init0);
    ghost var full := RegisterAll(empty, mem, visits);
    done, init := UnpackInitramfs(fs, mem, start, size, init0);
    assert fs.State() == full;
  }
}
