/** Unpacking undoes packing: the walker on a serialised newc archive (New ASCII Format in cpio(5)). */
module CpioTheorems {
  import opened Prelude
  import opened CpioSpec

  // ----- Eight hexadecimal digits

  function HexChar(d: nat, upper: bool): byte
    requires d < 16
  {
    if d < 10 then '0' as int + d else if upper then 'A' as int + d - 10 else 'a' as int + d - 10
  }

  /** The last `w` hexadecimal digits of `n`. */
  function Hex(n: nat, w: nat, upper: bool): (s: seq<byte>)
    ensures |s| == w
    ensures forall i :: 0 <= i < w ==> HexDigit(s[i]).Some?
  {
    if w == 0 then [] else Hex(n / 16, w - 1, upper) + [HexChar(n % 16, upper)]
  }

  function Pow16(w: nat): (p: nat)
    ensures p > 0
  {
    if w == 0 then 1 else 16 * Pow16(w - 1)
  }

  lemma {:induction false} HexFromSnoc(s: seq<byte>, c: byte, r: nat)
    requires r < TWO_32 && HexDigit(c).Some?
    requires forall i :: 0 <= i < |s| ==> HexDigit(s[i]).Some?
    ensures HexFrom(s + [c], r) == HexFrom(s, r) * 16 % TWO_32 + HexDigit(c).value
  {
    if s == [] {
      assert (s + [c])[1..] == [];
    } else {
      assert (s + [c])[1..] == s[1..] + [c];
      HexFromSnoc(s[1..], c, r * 16 % TWO_32 + HexDigit(s[0]).value);
    }
  }

  /** parse_hex_ascii reads back any number printed with enough digits, in either case. */
  lemma {:induction false} HexRoundTrip(n: nat, w: nat, upper: bool)
    requires n < TWO_32 && n < Pow16(w)
    ensures HexFrom(Hex(n, w, upper), 0) == n
    decreases w
  {
    if w > 0 {
      HexRoundTrip(n / 16, w - 1, upper);
      HexFromSnoc(Hex(n / 16, w - 1, upper), HexChar(n % 16, upper), 0);
    }
  }

  /** Exactly the ten figures and the letters a to f, in either case, are digits. */
  lemma HexDigitExactly(c: byte)
    ensures HexDigit(c).Some? <==> exists d: nat, upper :: d < 16 && HexChar(d, upper) == c
    ensures forall d: nat, upper :: d < 16 ==> HexDigit(HexChar(d, upper)) == Some(d)
  {
    if HexDigit(c).Some? {
      var d := HexDigit(c).value;
      assert HexChar(d, false) == c || HexChar(d, true) == c;
    }
  }

  lemma HexCharsSpelt(d: nat)
    requires d < 16
    ensures HexChar(d, false) == Ascii("0123456789abcdef")[d] && HexChar(d, true) == Ascii("0123456789ABCDEF")[d]
  {
  }

  /** Parsing stops at the first character that is not a digit, whatever follows. */
  lemma {:induction false} HexStops(s: seq<byte>, c: byte, rest: seq<byte>, r: nat)
    requires r < TWO_32 && HexDigit(c).None?
    ensures HexFrom(s + [c] + rest, r) == HexFrom(s, r)
    decreases |s|
  {
    var all := s + [c] + rest;
    if s == [] {
      assert all[0] == c;
    } else if HexDigit(s[0]).Some? {
      assert all[0] == s[0] && all[1..] == s[1..] + [c] + rest;
      HexStops(s[1..], c, rest, r * 16 % TWO_32 + HexDigit(s[0]).value);
    }
  }

  /** The texts the walk compares with. */
  lemma Spelt()
    ensures MAGIC == Ascii("070701") && TRAILER == Ascii("TRAILER!!!")
    ensures DOT == Ascii(".") && DOT_DOT == Ascii("..") && DOT_SLASH == Ascii("./") && BIN_INIT == Ascii("bin/init")
  {
  }

  lemma Pow16Eight()
    ensures Pow16(8) == TWO_32
  {
    assert Pow16(4) == 0x1_0000;
  }

  // ----- Serialising

  /** `meta` is inode .. mtime, `dev` the four device numbers; the walker looks at neither. */
  datatype Entry = Entry(name: seq<byte>, data: seq<byte>, meta: seq<byte>, dev: seq<byte>, check: seq<byte>, upper: bool)

  predicate Shaped(e: Entry) {
    |e.meta| == 48 && |e.dev| == 32 && |e.check| == 8
  }

  predicate ValidEntry(e: Entry) {
    && Shaped(e)
    && (forall i :: 0 <= i < |e.name| ==> e.name[i] != 0)
    && e.name != TRAILER
  }

  predicate AllValid(es: seq<Entry>) {
    es == [] || (ValidEntry(es[0]) && AllValid(es[1..]))
  }

  function Zeros(n: nat): (s: seq<byte>)
    ensures |s| == n
  {
    seq(n, _ => 0)
  }

  /** Filler up to the next multiple of four. */
  function Pad(n: nat): (p: nat)
    ensures p < 4 && (n + p) % 4 == 0
  {
    (4 - n % 4) % 4
  }

  /** A header with these fields, whatever follows it. */
  function Header(meta: seq<byte>, size: nat, dev: seq<byte>, nameSize: nat, check: seq<byte>, upper: bool): (s: seq<byte>)
    requires |meta| == 48 && |dev| == 32 && |check| == 8
    ensures |s| == HEADER
  {
    MAGIC + meta + Hex(size, 8, upper) + dev + Hex(nameSize, 8, upper) + check
  }

  function Head(e: Entry): (s: seq<byte>)
    requires Shaped(e)
    ensures |s| == HEADER
  {
    Header(e.meta, |e.data|, e.dev, |e.name| + 1, e.check, e.upper)
  }

  function DataStart(e: Entry): nat {
    HEADER + |e.name| + 1 + Pad(HEADER + |e.name| + 1)
  }

  function EntryLength(e: Entry): nat {
    DataStart(e) + |e.data| + Pad(|e.data|)
  }

  function Serialise(e: Entry): (s: seq<byte>)
    requires Shaped(e)
    ensures |s| == EntryLength(e)
  {
    Head(e) + e.name + [0] + Zeros(Pad(HEADER + |e.name| + 1)) + e.data + Zeros(Pad(|e.data|))
  }

  const END_ENTRY: Entry := Entry(TRAILER, [], Zeros(48), Zeros(32), Zeros(8), true)

  function Archive(es: seq<Entry>): seq<byte>
    requires AllValid(es)
  {
    if es == [] then Serialise(END_ENTRY) else Serialise(es[0]) + Archive(es[1..])
  }

  /** Memory from address `a` on holds `s`. */
  ghost predicate Holds(mem: Memory, a: nat, s: seq<byte>) {
    Bytes(mem, a, |s|) == s
  }

  lemma HoldsSlice(mem: Memory, a: nat, s: seq<byte>, i: nat, n: nat)
    requires Holds(mem, a, s) && i + n <= |s|
    ensures Bytes(mem, a + i, n) == s[i..i + n]
  {
    var all, part := Bytes(mem, a, |s|), Bytes(mem, a + i, n);
    forall k | 0 <= k < n ensures part[k] == s[i..i + n][k] {
      assert all[i + k] == mem(a + (i + k));
    }
  }

  lemma Middle(a: seq<byte>, b: seq<byte>, c: seq<byte>)
    ensures (a + b + c)[|a|..|a| + |b|] == b
  {
  }

  lemma HeaderFields(meta: seq<byte>, size: nat, dev: seq<byte>, nameSize: nat, check: seq<byte>, upper: bool)
    requires |meta| == 48 && |dev| == 32 && |check| == 8
    ensures var h := Header(meta, size, dev, nameSize, check, upper);
      h[..6] == MAGIC && h[54..62] == Hex(size, 8, upper) && h[94..102] == Hex(nameSize, 8, upper)
  {
    var h, a, b := Header(meta, size, dev, nameSize, check, upper), Hex(size, 8, upper), Hex(nameSize, 8, upper);
    assert h == (MAGIC + meta) + a + (dev + b + check);
    assert h == (MAGIC + meta + a + dev) + b + check;
    Middle(MAGIC + meta, a, dev + b + check);
    Middle(MAGIC + meta + a + dev, b, check);
  }

  lemma EntryFields(e: Entry)
    requires Shaped(e)
    ensures Serialise(e)[..HEADER] == Head(e)
    ensures Serialise(e)[HEADER..HEADER + |e.name| + 1] == e.name + [0]
    ensures Serialise(e)[DataStart(e)..DataStart(e) + |e.data|] == e.data
  {
    var fill, tail := Zeros(Pad(HEADER + |e.name| + 1)), Zeros(Pad(|e.data|));
    assert Serialise(e) == Head(e) + (e.name + [0]) + (fill + e.data + tail);
    Middle(Head(e), e.name + [0], fill + e.data + tail);
    Middle(Head(e) + e.name + [0] + fill, e.data, tail);
  }

  lemma SizesDecoded(mem: Memory, p: nat, meta: seq<byte>, size: nat, dev: seq<byte>, nameSize: nat, check: seq<byte>, upper: bool)
    requires |meta| == 48 && |dev| == 32 && |check| == 8 && size < TWO_32 && nameSize < TWO_32
    requires Holds(mem, p, Header(meta, size, dev, nameSize, check, upper))
    ensures Bytes(mem, p, 6) == MAGIC && FileSize(mem, p) == size && NameSize(mem, p) == nameSize
  {
    var h := Header(meta, size, dev, nameSize, check, upper);
    HeaderFields(meta, size, dev, nameSize, check, upper);
    HoldsSlice(mem, p, h, 0, 6);
    HoldsSlice(mem, p, h, 54, 8);
    HoldsSlice(mem, p, h, 94, 8);
    Pow16Eight();
    HexRoundTrip(size, 8, upper);
    HexRoundTrip(nameSize, 8, upper);
  }

  /** `v` names and carries what entry `e` was packed with. */
  ghost predicate Carries(mem: Memory, v: Visit, e: Entry) {
    StringIs(mem, v.nameAt, e.name) && v.size == |e.data| && Bytes(mem, v.dataAt, v.size) == e.data
  }

  /** The walker decodes a header that was written for `e`, and finds its name and data. */
  lemma EntryDecoded(mem: Memory, p: nat, e: Entry)
    requires Shaped(e)
    requires Holds(mem, p, Serialise(e)) && p + EntryLength(e) < TWO_32
    ensures Bytes(mem, p, 6) == MAGIC
    ensures VisitAt(mem, p) == Visit(p, p + HEADER, p + DataStart(e), |e.data|)
    ensures NextHeader(mem, p) == p + EntryLength(e)
    ensures Carries(mem, VisitAt(mem, p), e)
  {
    var s := Serialise(e);
    EntryFields(e);
    HoldsSlice(mem, p, s, 0, HEADER);
    SizesDecoded(mem, p, e.meta, |e.data|, e.dev, |e.name| + 1, e.check, e.upper);
    HoldsSlice(mem, p, s, HEADER, |e.name| + 1);
    HoldsSlice(mem, p, s, DataStart(e), |e.data|);
    Layout(mem, p, |e.name| + 1, |e.data|);
  }

  /** Where the data and the next header are when nothing wraps. */
  lemma Layout(mem: Memory, p: nat, n: nat, d: nat)
    requires NameSize(mem, p) == n && FileSize(mem, p) == d
    requires p + HEADER + n + Pad(HEADER + n) + d + Pad(d) < TWO_32
    ensures VisitAt(mem, p) == Visit(p, p + HEADER, p + HEADER + n + Pad(HEADER + n), d)
    ensures NextHeader(mem, p) == p + HEADER + n + Pad(HEADER + n) + d + Pad(d)
  {
    assert (HEADER + n) % TWO_32 == HEADER + n;
    RoundUp(HEADER + n);
    RoundUp(d);
    var offset := HEADER + n + Pad(HEADER + n);
    assert DataOffset(mem, p) == offset;
    assert (p + offset) % TWO_32 == p + offset;
    assert (p + offset + d + Pad(d)) % TWO_32 == p + offset + d + Pad(d);
  }

  lemma RoundUp(n: nat)
    requires n + Pad(n) < TWO_32
    ensures Round4(n) == n + Pad(n)
  {
  }

  // ----- The walk over a whole archive

  /** The visits the entries ask for, laid out from address `p`. */
  function VisitsOf(es: seq<Entry>, p: nat): (vs: seq<Visit>)
    requires AllValid(es)
    ensures |vs| == |es|
  {
    if es == [] then []
    else [Visit(p, p + HEADER, p + DataStart(es[0]), |es[0].data|)] + VisitsOf(es[1..], p + EntryLength(es[0]))
  }

  lemma StringUnique(mem: Memory, a: nat, s: seq<byte>, t: seq<byte>)
    requires StringIs(mem, a, s) && (forall i :: 0 <= i < |s| ==> s[i] != 0)
    requires forall i :: 0 <= i < |t| ==> t[i] != 0
    ensures StringIs(mem, a, t) <==> s == t
  {
    if StringIs(mem, a, t) {
      var x, y := Bytes(mem, a, |s| + 1), Bytes(mem, a, |t| + 1);
      var m := Min(|s|, |t|);
      assert x[m] == mem(a + m) == y[m];
      assert (s + [0])[m] == (t + [0])[m];
      assert x[..m] == y[..m];
      assert s == (s + [0])[..|s|] && t == (t + [0])[..|t|];
    }
  }

  lemma ArchiveSplits(mem: Memory, p: nat, es: seq<Entry>)
    requires AllValid(es) && es != [] && Holds(mem, p, Archive(es))
    ensures Holds(mem, p, Serialise(es[0])) && Holds(mem, p + EntryLength(es[0]), Archive(es[1..]))
    ensures EntryLength(es[0]) + |Archive(es[1..])| == |Archive(es)| && |Archive(es[1..])| > 0
  {
    var s, e, rest := Archive(es), es[0], es[1..];
    HoldsSlice(mem, p, s, 0, EntryLength(e));
    HoldsSlice(mem, p, s, EntryLength(e), |Archive(rest)|);
    assert s[..EntryLength(e)] == Serialise(e) && s[EntryLength(e)..] == Archive(rest);
    ArchiveNonEmpty(rest);
  }

  /** The walker does not stop at the entry, decodes it, and moves on past its end. */
  ghost predicate EntryHere(mem: Memory, p: nat, e: Entry) {
    && !EndsAt(mem, p) && p < NextHeader(mem, p) == p + EntryLength(e)
    && VisitAt(mem, p) == Visit(p, p + HEADER, p + DataStart(e), |e.data|)
    && Carries(mem, VisitAt(mem, p), e)
  }

  lemma EntryPassed(mem: Memory, p: nat, e: Entry)
    requires ValidEntry(e) && Holds(mem, p, Serialise(e)) && p + EntryLength(e) < TWO_32
    ensures EntryHere(mem, p, e)
  {
    EntryDecoded(mem, p, e);
    StringUnique(mem, p + HEADER, e.name, TRAILER);
  }

  /** Entry after entry can be passed, up to a place where the walker stops. */
  ghost predicate Packed(mem: Memory, p: nat, es: seq<Entry>, end: nat)
    decreases |es|
  {
    p < end &&
    if es == [] then EndsAt(mem, p)
    else EntryHere(mem, p, es[0]) && Packed(mem, p + EntryLength(es[0]), es[1..], end)
  }

  lemma {:induction false} ArchivePacked(mem: Memory, p: nat, es: seq<Entry>, end: nat)
    requires AllValid(es)
    requires Holds(mem, p, Archive(es)) && p + |Archive(es)| <= end < TWO_32
    ensures Packed(mem, p, es, end)
    decreases |es|
  {
    ArchiveNonEmpty(es);
    if es == [] {
      TrailerEnds(mem, p);
    } else {
      ArchiveSplits(mem, p, es);
      EntryPassed(mem, p, es[0]);
      ArchivePacked(mem, p + EntryLength(es[0]), es[1..], end);
    }
  }

  /** One round of the walk over the entry that is there. */
  lemma WalkFirst(mem: Memory, p: nat, end: nat, es: seq<Entry>, seen: set<nat>)
    requires Packed(mem, p, es, end) && es != [] && p !in seen
    ensures var (rest, done) := Walk(mem, p + EntryLength(es[0]), end, seen + {p});
      Walk(mem, p, end, seen) == ([Visit(p, p + HEADER, p + DataStart(es[0]), |es[0].data|)] + rest, done)
  {
    assert EntryHere(mem, p, es[0]);
    assert Continues(mem, p, end);
  }

  lemma WalkStops(mem: Memory, p: nat, end: nat, seen: set<nat>)
    requires Packed(mem, p, [], end)
    ensures Walk(mem, p, end, seen) == ([], true)
  {
  }

  ghost predicate WalkIs(mem: Memory, p: nat, end: nat, seen: set<nat>, vs: seq<Visit>) {
    Walk(mem, p, end, seen) == (vs, true)
  }

  lemma WalkExtends(mem: Memory, p: nat, end: nat, es: seq<Entry>, seen: set<nat>)
    requires AllValid(es) && es != [] && Packed(mem, p, es, end) && p !in seen
    requires WalkIs(mem, p + EntryLength(es[0]), end, seen + {p}, VisitsOf(es[1..], p + EntryLength(es[0])))
    ensures WalkIs(mem, p, end, seen, VisitsOf(es, p))
  {
    WalkFirst(mem, p, end, es, seen);
  }

  lemma PackedRest(mem: Memory, p: nat, es: seq<Entry>, end: nat)
    requires Packed(mem, p, es, end) && es != []
    ensures Packed(mem, p + EntryLength(es[0]), es[1..], end)
  {
  }

  lemma {:induction false} WalkPacked(mem: Memory, p: nat, end: nat, es: seq<Entry>, seen: set<nat>)
    requires AllValid(es) && Packed(mem, p, es, end) && forall a :: a in seen ==> a < p
    ensures WalkIs(mem, p, end, seen, VisitsOf(es, p))
    decreases |es|
  {
    if es == [] {
      WalkStops(mem, p, end, seen);
    } else {
      PackedRest(mem, p, es, end);
      WalkPacked(mem, p + EntryLength(es[0]), end, es[1..], seen + {p});
      WalkExtends(mem, p, end, es, seen);
    }
  }

  lemma {:induction false} CarriesAt(mem: Memory, p: nat, end: nat, es: seq<Entry>, i: nat)
    requires AllValid(es) && Packed(mem, p, es, end) && i < |es|
    ensures Carries(mem, VisitsOf(es, p)[i], es[i]) && ValidEntry(es[i])
    decreases i
  {
    if i > 0 {
      CarriesAt(mem, p + EntryLength(es[0]), end, es[1..], i - 1);
    }
  }

  /** Round trip: on an archive packed from `es` the walker visits exactly these entries, in order,
    * with their exact names and data, and then stops at the trailer. */
  lemma WalkVisitsEntries(mem: Memory, p: nat, end: nat, es: seq<Entry>)
    requires AllValid(es)
    requires Holds(mem, p, Archive(es)) && p + |Archive(es)| <= end < TWO_32
    ensures Walk(mem, p, end, {}) == (VisitsOf(es, p), true)
    ensures forall i :: 0 <= i < |es| ==> Carries(mem, VisitsOf(es, p)[i], es[i])
  {
    ArchivePacked(mem, p, es, end);
    WalkPacked(mem, p, end, es, {});
    forall i | 0 <= i < |es| ensures Carries(mem, VisitsOf(es, p)[i], es[i]) {
      CarriesAt(mem, p, end, es, i);
    }
  }

  lemma ArchiveNonEmpty(es: seq<Entry>)
    requires AllValid(es)
    ensures |Archive(es)| > 0
  {
  }

  lemma TrailerEnds(mem: Memory, p: nat)
    requires Holds(mem, p, Archive([]))
    ensures EndsAt(mem, p)
  {
    var s := Serialise(END_ENTRY);
    HoldsSlice(mem, p, s, HEADER, 11);
    assert s[HEADER..HEADER + 11] == TRAILER + [0];
  }
}
