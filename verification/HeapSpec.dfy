/** The kernel heap of sys/kernel/alloc.c seen as the list of its blocks.
  *
  * Addresses and sizes are counted in 4-byte words from the start of the heap array: every size the
  * allocator stores is a multiple of four, so nothing is lost. A header takes three words (i686).
  */
module HeapSpec {
  import opened Prelude

  const HEAP_WORDS: nat := 0x4000
  const HEADER: nat := 3

  /** A header at word `at`, followed by `words` words of payload. */
  datatype Block = Block(at: nat, words: nat, free: bool)

  function End(b: Block): nat {
    b.at + HEADER + b.words
  }

  const INITIAL: seq<Block> := [Block(0, HEAP_WORDS - HEADER, true)]

  /** The blocks cover the words from `lo` up to `hi`, in address order, without gap or overlap. */
  ghost predicate Tiles(bs: seq<Block>, lo: nat, hi: nat) {
    if bs == [] then lo == hi else bs[0].at == lo && Tiles(bs[1..], End(bs[0]), hi)
  }

  /** No two neighbouring blocks are both free. */
  ghost predicate Separated(bs: seq<Block>) {
    forall i :: 0 <= i < |bs| - 1 ==> !(bs[i].free && bs[i + 1].free)
  }

  ghost predicate WellFormed(bs: seq<Block>) {
    Tiles(bs, 0, HEAP_WORDS) && Separated(bs)
  }

  /** The blocks handed out and not yet given back. */
  ghost function Live(bs: seq<Block>): set<Block> {
    set b | b in bs && !b.free
  }

  // ----- alloc

  /** What `(size + 3) & ~3` leaves of a request, in words; the addition wraps at 32 bits. */
  function RoundedWords(size: nat): nat {
    (size + 3) % TWO_32 / 4
  }

  function FirstFit(bs: seq<Block>, n: nat): (i: nat)
    ensures i <= |bs|
    ensures i < |bs| ==> bs[i].free && bs[i].words >= n
    ensures forall j :: 0 <= j < i ==> !(bs[j].free && bs[j].words >= n)
  {
    if bs == [] || (bs[0].free && bs[0].words >= n) then 0 else 1 + FirstFit(bs[1..], n)
  }

  /** The pieces a chosen block of payload `b.words` is turned into. */
  function Carve(b: Block, n: nat): seq<Block>
    requires b.words >= n
  {
    if b.words > n + HEADER + 1 then
      [Block(b.at, n, false), Block(b.at + HEADER + n, b.words - n - HEADER, true)]
    else
      [b.(free := false)]
  }

  function Alloc(bs: seq<Block>, n: nat): (seq<Block>, Option<Block>) {
    var i := FirstFit(bs, n);
    if i == |bs| then (bs, None)
    else (bs[..i] + Carve(bs[i], n) + bs[i + 1..], Some(Carve(bs[i], n)[0]))
  }

  // ----- alloc_free

  function Merge(a: Block, b: Block): Block {
    a.(words := a.words + HEADER + b.words)
  }

  /** The sweep of `alloc_free`: a free block keeps swallowing its successor while that is free too. */
  function Coalesce(bs: seq<Block>): seq<Block>
    decreases |bs|
  {
    if |bs| < 2 then bs
    else if bs[0].free && bs[1].free then Coalesce([Merge(bs[0], bs[1])] + bs[2..])
    else [bs[0]] + Coalesce(bs[1..])
  }

  function Release(bs: seq<Block>, b: Block): seq<Block> {
    if bs == [] then bs
    else if bs[0] == b then [b.(free := true)] + bs[1..]
    else [bs[0]] + Release(bs[1..], b)
  }

  /** Give the live block `b` back. */
  function Free(bs: seq<Block>, b: Block): seq<Block> {
    Coalesce(Release(bs, b))
  }

  // ----- Addresses

  /** What alloc returns for a block of a heap that starts at address `base`. */
  function AddressOf(base: nat, b: Block): nat {
    base + 4 * (b.at + HEADER)
  }

  ghost function LiveAddresses(base: nat, bs: seq<Block>): set<nat> {
    set b | b in Live(bs) :: AddressOf(base, b)
  }

  ghost function BlockAt(base: nat, bs: seq<Block>, p: nat): (b: Block)
    requires p in LiveAddresses(base, bs)
    ensures b in Live(bs) && AddressOf(base, b) == p
  {
    var b :| b in Live(bs) && AddressOf(base, b) == p; b
  }
}
