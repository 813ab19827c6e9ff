/** The newc archive walker of sys/kernel/main.c as functions on memory. */
module CpioSpec {
  import opened Prelude
  import opened FsSpec

  /** All of memory: a byte for every address. On the 32-bit machine it repeats after 2^32 bytes. */
  type Memory = nat -> byte

  function Bytes(mem: Memory, a: nat, n: nat): (s: seq<byte>)
    ensures |s| == n && forall i :: 0 <= i < n ==> s[i] == mem(a + i)
  {
    seq(n, i requires 0 <= i < n => mem(a + i))
  }

  // ----- parse_hex_ascii

  function HexDigit(c: byte): (d: Option<nat>)
    ensures d.Some? ==> d.value < 16
  {
    if '0' as int <= c <= '9' as int then Some(c - '0' as int)
    else if 'a' as int <= c <= 'f' as int then Some(c - 'a' as int + 10)
    else if 'A' as int <= c <= 'F' as int then Some(c - 'A' as int + 10)
    else None
  }

  /** Shift in digits until one is not hexadecimal; only the low 32 bits are kept. */
  function HexFrom(s: seq<byte>, result: nat): (r: nat)
    requires result < TWO_32
    ensures r < TWO_32
  {
    if s == [] || HexDigit(s[0]).None? then result
    else HexFrom(s[1..], result * 16 % TWO_32 + HexDigit(s[0]).value)
  }

  method ParseHexAscii(str: seq<byte>, len: nat) returns (result: nat)
    requires len <= |str|
    ensures result == HexFrom(str[..len], 0)
  {
    result := 0;
    var i := 0;
    while i < len
      invariant 0 <= i <= len && result < TWO_32
      invariant HexFrom(str[i..len], result) == HexFrom(str[..len], 0)
    {
      assert str[i..len][0] == str[i] && str[i..len][1..] == str[i + 1..len];
      var digit := HexDigit(str[i]);
      if digit.None? {
        return;
      }
      result := result * 16 % TWO_32 + digit.value;
      i := i + 1;
    }
    assert str[len..len] == [];
  }

  // ----- One header

  const HEADER: nat := 110
  const MAGIC: seq<byte> := [0x30, 0x37, 0x30, 0x37, 0x30, 0x31]
  const TRAILER: seq<byte> := [0x54, 0x52, 0x41, 0x49, 0x4C, 0x45, 0x52, 0x21, 0x21, 0x21]
  const DOT: seq<byte> := [0x2E]
  const DOT_DOT: seq<byte> := [0x2E, 0x2E]
  const DOT_SLASH: seq<byte> := [0x2E, 0x2F]
  const BIN_INIT: seq<byte> := [0x62, 0x69, 0x6E, 0x2F, 0x69, 0x6E, 0x69, 0x74]

  /** The C string at address `a` is exactly `s`. */
  predicate StringIs(mem: Memory, a: nat, s: seq<byte>) {
    Bytes(mem, a, |s| + 1) == s + [0]
  }

  function FileSize(mem: Memory, p: nat): nat {
    HexFrom(Bytes(mem, p + 54, 8), 0)
  }

  function NameSize(mem: Memory, p: nat): nat {
    HexFrom(Bytes(mem, p + 94, 8), 0)
  }

  /** `(n + 3) & ~3` on 32 bits. */
  function Round4(n: nat): nat {
    (n + 3) % TWO_32 / 4 * 4
  }

  function DataOffset(mem: Memory, p: nat): nat {
    Round4((HEADER + NameSize(mem, p)) % TWO_32)
  }

  /** The 32-bit pointer after the entry at `p`. */
  function NextHeader(mem: Memory, p: nat): nat {
    (p + DataOffset(mem, p) + Round4(FileSize(mem, p))) % TWO_32
  }

  predicate EndsAt(mem: Memory, p: nat) {
    Bytes(mem, p, 6) != MAGIC || StringIs(mem, p + HEADER, TRAILER)
  }

  /** An entry the walker has passed: where its header, name and data start, and its data length. */
  datatype Visit = Visit(header: nat, nameAt: nat, dataAt: nat, size: nat)

  function VisitAt(mem: Memory, p: nat): Visit {
    Visit(p, p + HEADER, (p + DataOffset(mem, p)) % TWO_32, FileSize(mem, p))
  }

  /** The loop goes on at `p`: it lies before the end, and a header other than the trailer stands there. */
  predicate Continues(mem: Memory, p: nat, end: nat) {
    p < end && !EndsAt(mem, p)
  }

  /** The addresses before `end` at which the walk has found no header yet. */
  function Unseen(end: nat, seen: set<nat>): set<nat> {
    set a: nat | a < end && a !in seen
  }

  lemma SeenShrinks(end: nat, seen: set<nat>, p: nat)
    requires p < end && p !in seen
    ensures Unseen(end, seen + {p}) < Unseen(end, seen)
  {
    assert p in Unseen(end, seen) && p !in Unseen(end, seen + {p});
  }

  /** The visits of the walk that goes on from `p` after the headers `seen`, and whether it comes to an
    * end. The pointer may wrap and go backwards; at a header seen before, the walk is in a circle. */
  function Walk(mem: Memory, p: nat, end: nat, seen: set<nat>): (seq<Visit>, bool)
    decreases Unseen(end, seen)
  {
    if !Continues(mem, p, end) then ([], true)
    else if p in seen then ([], false)
    else
      SeenShrinks(end, seen, p);
      var (rest, done) := Walk(mem, NextHeader(mem, p), end, seen + {p});
      ([VisitAt(mem, p)] + rest, done)
  }

  // ----- What a visit does to the file system

  predicate Loadable(mem: Memory, v: Visit) {
    v.size > 0 && !StringIs(mem, v.nameAt, DOT) && !StringIs(mem, v.nameAt, DOT_DOT)
  }

  /** At most 63 characters of the name, without a leading "./"; later bytes are NUL. */
  function CleanPath(mem: Memory, nameAt: nat): seq<byte> {
    var from := if Bytes(mem, nameAt, 2) == DOT_SLASH then nameAt + 2 else nameAt;
    var s := Bytes(mem, from, 63);
    s[..StrLen(s)]
  }

  ghost function Register(fs: Fs, mem: Memory, v: Visit): (fs': Fs)
    requires Sane(fs)
    ensures Sane(fs')
  {
    if !Loadable(mem, v) then fs
    else
      var (fs1, f) := Create(fs, CleanPath(mem, v.nameAt));
      if f == -1 then fs1 else Write(fs1, f, Bytes(mem, v.dataAt, v.size)).0
  }

  ghost function RegisterAll(fs: Fs, mem: Memory, vs: seq<Visit>): (fs': Fs)
    requires Sane(fs)
    ensures Sane(fs')
    decreases |vs|
  {
    if vs == [] then fs else RegisterAll(Register(fs, mem, vs[0]), mem, vs[1..])
  }

  predicate IsInit(mem: Memory, v: Visit) {
    StringIs(mem, v.nameAt, DOT_SLASH + BIN_INIT) || StringIs(mem, v.nameAt, BIN_INIT)
  }

  /** Where the program to run as init lies: the last entry of that name wins. */
  function InitOf(mem: Memory, vs: seq<Visit>, init: (nat, nat)): (nat, nat)
    decreases |vs|
  {
    if vs == [] then init
    else InitOf(mem, vs[1..], if IsInit(mem, vs[0]) then (vs[0].dataAt, vs[0].size) else init)
  }
}
