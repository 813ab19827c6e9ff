/** The allocator of sys/kernel/alloc.c: headers linked through a static array of memory. */
module HeapAllocator {
  import opened Prelude
  import opened HeapSpec
  import opened HeapTheorems

  // ----- How a block list is laid out in memory

  /** What the `next` word of block `i - 1` holds: the address of block `i`, or NULL. */
  ghost function Link(base: nat, bs: seq<Block>, i: nat): nat {
    if i < |bs| then base + 4 * bs[i].at else 0
  }

  ghost predicate HeaderAt(base: nat, m: seq<nat>, bs: seq<Block>, i: nat)
    requires i < |bs| && |m| == HEAP_WORDS
  {
    && End(bs[i]) <= HEAP_WORDS
    && m[bs[i].at] == 4 * bs[i].words
    && (m[bs[i].at + 1] != 0 <==> bs[i].free)
    && m[bs[i].at + 2] == Link(base, bs, i + 1)
  }

  ghost predicate Represents(base: nat, m: seq<nat>, bs: seq<Block>) {
    && |m| == HEAP_WORDS
    && Tiles(bs, 0, HEAP_WORDS)
    && forall i :: 0 <= i < |bs| ==> HeaderAt(base, m, bs, i)
  }

  /** Rewriting the neighbours `mid` into `mid'` inside their own words leaves the rest represented. */
  lemma SpliceRepresents(base: nat, m: seq<nat>, m': seq<nat>,
                         pre: seq<Block>, mid: seq<Block>, mid': seq<Block>, post: seq<Block>)
    requires Represents(base, m, pre + mid + post) && Tiles(pre + mid' + post, 0, HEAP_WORDS)
    requires |m'| == |m| && |mid| > 0 && 1 <= |mid'| <= 2 && mid'[0].at == mid[0].at
    requires forall w :: 0 <= w < |m| && !(mid[0].at <= w < End(mid[|mid| - 1])) ==> m'[w] == m[w]
    requires HeaderAt(base, m', mid' + post, 0)
    requires |mid'| == 2 ==> HeaderAt(base, m', mid' + post, 1)
    ensures Represents(base, m', pre + mid' + post)
  {
    var bs, bs' := pre + mid + post, pre + mid' + post;
    var p, q := |pre|, |pre| + |mid'|;
    forall j | 0 <= j < |bs'| ensures HeaderAt(base, m', bs', j) {
      if j < p {
        TilesDisjoint(bs, 0, HEAP_WORDS, j, p);
        assert HeaderAt(base, m, bs, j);
      } else if j < q {
        assert bs'[j] == (mid' + post)[j - p];
        assert Link(base, bs', j + 1) == Link(base, mid' + post, j - p + 1);
      } else {
        var i := j - |mid'| + |mid|;
        TilesDisjoint(bs, 0, HEAP_WORDS, p + |mid| - 1, i);
        assert HeaderAt(base, m, bs, i);
      }
    }
  }

  /** The stores that turn a fitting free block at word `at` into an allocated one. */
  function TakeMem(base: nat, m: seq<nat>, at: nat, bytes: nat): (m': seq<nat>)
    requires at + 2 < |m| && bytes <= m[at] && bytes % 4 == 0 && at + 3 + m[at] / 4 <= |m|
    ensures |m'| == |m|
  {
    var cut := at + 3 + bytes / 4;
    if m[at] > bytes + 12 + 4 then
      m[cut := m[at] - bytes - 12][cut + 1 := 1][cut + 2 := m[at + 2]]
       [at := bytes][at + 2 := base + 4 * cut][at + 1 := 0]
    else
      m[at + 1 := 0]
  }

  lemma TakeRepresents(base: nat, m: seq<nat>, bs: seq<Block>, k: nat, n: nat)
    requires Represents(base, m, bs) && WellFormed(bs) && k < |bs| && k == FirstFit(bs, n)
    ensures HeaderAt(base, m, bs, k) && bs[k].at + 3 + m[bs[k].at] / 4 <= |m| && 4 * n <= m[bs[k].at]
    ensures WellFormed(Alloc(bs, n).0)
    ensures Represents(base, TakeMem(base, m, bs[k].at, 4 * n), Alloc(bs, n).0)
  {
    AllocWellFormed(bs, n);
    assert HeaderAt(base, m, bs, k);
    var at, c := bs[k].at, Carve(bs[k], n);
    var m' := TakeMem(base, m, at, 4 * n);
    assert bs == bs[..k] + [bs[k]] + bs[k + 1..];
    assert Link(base, c + bs[k + 1..], |c|) == Link(base, bs, k + 1);
    SpliceRepresents(base, m, m', bs[..k], [bs[k]], c, bs[k + 1..]);
  }

  lemma TakeKeepsPayload(base: nat, m: seq<nat>, bs: seq<Block>, k: nat, n: nat)
    requires Represents(base, m, bs) && k < |bs| && k == FirstFit(bs, n)
    ensures HeaderAt(base, m, bs, k) && bs[k].at + 3 + m[bs[k].at] / 4 <= |m| && 4 * n <= m[bs[k].at]
    ensures PayloadKept(Live(bs), m, TakeMem(base, m, bs[k].at, 4 * n))
  {
    assert HeaderAt(base, m, bs, k);
    FreeBlockStores(bs, k, m, TakeMem(base, m, bs[k].at, 4 * n));
  }

  /** Stores inside a free block leave the live payloads alone. */
  lemma FreeBlockStores(bs: seq<Block>, k: nat, m: seq<nat>, m': seq<nat>)
    requires Tiles(bs, 0, HEAP_WORDS) && k < |bs| && bs[k].free && |m| == |m'| == HEAP_WORDS
    requires forall w :: 0 <= w < |m| && !(bs[k].at <= w < End(bs[k])) ==> m'[w] == m[w]
    ensures PayloadKept(Live(bs), m, m')
  {
    forall b, w | b in Live(bs) && b.at + HEADER <= w < End(b) && w < |m| ensures m'[w] == m[w] {
      var j :| 0 <= j < |bs| && bs[j] == b;
      if j < k { TilesDisjoint(bs, 0, HEAP_WORDS, j, k); } else { TilesDisjoint(bs, 0, HEAP_WORDS, k, j); }
    }
  }

  /** The one store that marks block `k` free. */
  lemma MarkRepresents(base: nat, m: seq<nat>, bs: seq<Block>, k: nat)
    requires Represents(base, m, bs) && k < |bs| && !bs[k].free
    ensures HeaderAt(base, m, bs, k)
    ensures Represents(base, m[bs[k].at + 1 := 1], Release(bs, bs[k]))
  {
    assert HeaderAt(base, m, bs, k);
    var c, m' := [bs[k].(free := true)], m[bs[k].at + 1 := 1];
    ReleaseAt(bs, 0, HEAP_WORDS, k);
    ReleaseTiles(bs, bs[k], 0, HEAP_WORDS);
    assert bs == bs[..k] + [bs[k]] + bs[k + 1..];
    assert Link(base, c + bs[k + 1..], 1) == Link(base, bs, k + 1);
    SpliceRepresents(base, m, m', bs[..k], [bs[k]], c, bs[k + 1..]);
  }

  lemma MarkKeepsPayload(m: seq<nat>, bs: seq<Block>, k: nat)
    requires Tiles(bs, 0, HEAP_WORDS) && |m| == HEAP_WORDS && k < |bs| && bs[k].at + 1 < |m|
    ensures PayloadKept(Live(bs), m, m[bs[k].at + 1 := 1])
  {
    var m' := m[bs[k].at + 1 := 1];
    forall b, w | b in Live(bs) && b.at + HEADER <= w < End(b) && w < |m| ensures m'[w] == m[w] {
      var j :| 0 <= j < |bs| && bs[j] == b;
      if j < k { TilesDisjoint(bs, 0, HEAP_WORDS, j, k); }
      if k < j { TilesDisjoint(bs, 0, HEAP_WORDS, k, j); }
    }
  }

  /** The two stores that make the header at `at` swallow the one at `next`. */
  function MergeMem(m: seq<nat>, at: nat, next: nat): seq<nat>
    requires at + 2 < next && next + 2 < |m|
  {
    m[at := m[at] + 12 + m[next]][at + 2 := m[next + 2]]
  }

  function MergeAt(bs: seq<Block>, k: nat): seq<Block>
    requires k + 1 < |bs|
  {
    bs[..k] + [Merge(bs[k], bs[k + 1])] + bs[k + 2..]
  }

  lemma MergeTiles(bs: seq<Block>, k: nat)
    requires Tiles(bs, 0, HEAP_WORDS) && k + 1 < |bs|
    ensures Tiles(MergeAt(bs, k), 0, HEAP_WORDS)
  {
    var c := [Merge(bs[k], bs[k + 1])];
    TilesCut(bs, 0, HEAP_WORDS, k);
    TilesCut(bs, 0, HEAP_WORDS, k + 1);
    TilesOrdered(bs, 0, HEAP_WORDS, k);
    assert Tiles(c, bs[k].at, End(bs[k + 1])) by { assert c[1..] == []; }
    TilesSplit(bs[..k], c, 0, bs[k].at, End(bs[k + 1]));
    TilesSplit(bs[..k] + c, bs[k + 2..], 0, End(bs[k + 1]), HEAP_WORDS);
  }

  lemma MergeRepresents(base: nat, m: seq<nat>, bs: seq<Block>, k: nat)
    requires Represents(base, m, bs) && k + 1 < |bs| && bs[k].free && bs[k + 1].free
    ensures bs[k].at + 2 < bs[k + 1].at && bs[k + 1].at + 2 < |m|
    ensures Represents(base, MergeMem(m, bs[k].at, bs[k + 1].at), MergeAt(bs, k))
    ensures Live(MergeAt(bs, k)) == Live(bs)
    ensures PayloadKept(Live(bs), m, MergeMem(m, bs[k].at, bs[k + 1].at))
  {
    assert HeaderAt(base, m, bs, k) && HeaderAt(base, m, bs, k + 1);
    TilesOrdered(bs, 0, HEAP_WORDS, k);
    MergeTiles(bs, k);
    var c, m' := [Merge(bs[k], bs[k + 1])], MergeMem(m, bs[k].at, bs[k + 1].at);
    assert bs == bs[..k] + [bs[k], bs[k + 1]] + bs[k + 2..];
    assert Link(base, c + bs[k + 2..], 1) == Link(base, bs, k + 2);
    SpliceRepresents(base, m, m', bs[..k], [bs[k], bs[k + 1]], c, bs[k + 2..]);
    FreeBlockStores(bs, k, m, m');
  }

  lemma {:induction false} ReleaseAt(bs: seq<Block>, lo: nat, hi: nat, k: nat)
    requires Tiles(bs, lo, hi) && k < |bs|
    ensures Release(bs, bs[k]) == bs[..k] + [bs[k].(free := true)] + bs[k + 1..]
  {
    if k > 0 {
      TilesDisjoint(bs, lo, hi, 0, k);
      ReleaseAt(bs[1..], End(bs[0]), hi, k - 1);
      assert bs[1..][..k - 1] == bs[..k][1..];
    }
  }

  /** The sweep stands at block `k` of `bs` and will end in `final`, having kept the live set `live`. */
  ghost predicate Sweeping(base: nat, m: seq<nat>, bs: seq<Block>, k: nat, final: seq<Block>, live: set<Block>) {
    && Represents(base, m, bs)
    && Live(bs) == live
    && k < |bs| && HeaderAt(base, m, bs, k)
    && bs[..k] + Coalesce(bs[k..]) == final
  }

  /** Where the sweep finds the next header, and what either branch of its loop leads to. */
  lemma SweepStep(base: nat, m: seq<nat>, bs: seq<Block>, k: nat, final: seq<Block>, live: set<Block>)
    requires Sweeping(base, m, bs, k, final, live) && k + 1 < |bs|
    ensures HeaderAt(base, m, bs, k + 1)
    ensures if bs[k].free && bs[k + 1].free then
              && bs[k].at + 2 < bs[k + 1].at && bs[k + 1].at + 2 < |m|
              && Sweeping(base, MergeMem(m, bs[k].at, bs[k + 1].at), MergeAt(bs, k), k, final, live)
              && PayloadKept(live, m, MergeMem(m, bs[k].at, bs[k + 1].at))
            else Sweeping(base, m, bs, k + 1, final, live)
  {
    if bs[k].free && bs[k + 1].free {
      var bs' := MergeAt(bs, k);
      MergeRepresents(base, m, bs, k);
      assert bs'[..k] == bs[..k];
      assert bs'[k..] == [Merge(bs[k], bs[k + 1])] + bs[k..][2..];
    } else {
      assert bs[k..][1..] == bs[k + 1..];
      assert bs[..k] + [bs[k]] == bs[..k + 1];
    }
  }

  lemma SweepStarts(base: nat, m: seq<nat>, bs: seq<Block>, live: set<Block>)
    requires Represents(base, m, bs) && Live(bs) == live
    ensures Sweeping(base, m, bs, 0, Coalesce(bs), live) && bs[0].at == 0
  {
    TilesOrdered(bs, 0, HEAP_WORDS, 0);
    assert bs[..0] == [] && bs[0..] == bs;
  }

  lemma SweepEnds(base: nat, m: seq<nat>, bs: seq<Block>, k: nat, final: seq<Block>, live: set<Block>)
    requires Sweeping(base, m, bs, k, final, live) && m[bs[k].at + 2] == 0 && 0 < base
    ensures bs == final
  {
    assert bs == bs[..k] + bs[k..];
  }

  /** No payload word of a block in `bs` differs between the two memories. */
  ghost predicate PayloadKept(bs: set<Block>, m: seq<nat>, m': seq<nat>)
    requires |m| == |m'|
  {
    forall b, w :: b in bs && b.at + HEADER <= w < End(b) && w < |m| ==> m'[w] == m[w]
  }

  /** Callers may write whatever they like into the payloads they hold: the list survives. */
  lemma PayloadWritesHarmless(base: nat, m: seq<nat>, m': seq<nat>, bs: seq<Block>)
    requires Represents(base, m, bs) && |m'| == |m|
    requires forall w :: 0 <= w < |m| && m'[w] != m[w] ==> exists b :: b in Live(bs) && b.at + HEADER <= w < End(b)
    ensures Represents(base, m', bs)
  {
    forall i | 0 <= i < |bs| ensures HeaderAt(base, m', bs, i) {
      assert HeaderAt(base, m, bs, i);
      forall w | bs[i].at <= w < bs[i].at + HEADER ensures m'[w] == m[w] {
        HeaderOutsidePayloads(bs, i, w);
      }
    }
  }

  lemma HeaderOutsidePayloads(bs: seq<Block>, i: nat, w: nat)
    requires Tiles(bs, 0, HEAP_WORDS) && i < |bs| && bs[i].at <= w < bs[i].at + HEADER
    ensures forall b :: b in Live(bs) ==> !(b.at + HEADER <= w < End(b))
  {
    forall b | b in Live(bs) ensures !(b.at + HEADER <= w < End(b)) {
      var j :| 0 <= j < |bs| && bs[j] == b;
      if j < i { TilesDisjoint(bs, 0, HEAP_WORDS, j, i); }
      if i < j { TilesDisjoint(bs, 0, HEAP_WORDS, i, j); }
    }
  }

  lemma PayloadChain(all: set<Block>, some: set<Block>, a: seq<nat>, b: seq<nat>, c: seq<nat>)
    requires |a| == |b| == |c| && some <= all
    requires PayloadKept(all, a, b) && PayloadKept(some, b, c)
    ensures PayloadKept(some, a, c)
  {
  }

  // ----- The allocator

  /** Memory is the heap array, one element a word. A header is three words: payload size in bytes,
    * the free flag, and the address of the next header. Addresses are byte addresses; 0 is NULL. */
  class Heap {
    const base: nat
    const mem: array<nat>
    var initialized: bool
    ghost var blocks: seq<Block>

    ghost predicate Valid()
      reads this, mem
    {
      && base % 4 == 0 && 0 < base && base + 4 * HEAP_WORDS <= TWO_32
      && mem.Length == HEAP_WORDS
      && WellFormed(blocks)
      && (if initialized then Represents(base, mem[..], blocks) else blocks == INITIAL)
    }

    constructor (base: nat)
      requires base % 4 == 0 && 0 < base && base + 4 * HEAP_WORDS <= TWO_32
      ensures Valid() && fresh(mem) && this.base == base && blocks == INITIAL
    {
      this.base := base;
      mem := new nat[HEAP_WORDS](_ => 0);
      initialized := false;
      blocks := INITIAL;
      new;
      InitialWellFormed();
    }

    /** Store one word. */
    method Store(w: nat, v: nat)
      requires w < mem.Length
      modifies mem
      ensures mem[..] == old(mem[..])[w := v]
    {
      mem[w] := v;
    }

    /** First use: the whole array becomes one free block. */
    method Initialize()
      requires Valid()
      modifies this`initialized, mem
      ensures Valid() && initialized
      ensures PayloadKept(Live(blocks), old(mem[..]), mem[..])
    {
      if !initialized {
        mem[0] := 4 * HEAP_WORDS - 12;
        mem[1] := 1;
        mem[2] := 0;
        initialized := true;
        InitialWellFormed();
      }
    }

    /** The body of the search loop once the block whose header is at `curr` has been found to fit. */
    method Take(curr: nat, rounded: nat)
      requires base <= curr && (curr - base) % 4 == 0 && rounded % 4 == 0
      requires var at := (curr - base) / 4; at + 2 < mem.Length && at + 3 + mem[at] / 4 <= mem.Length && rounded <= mem[at]
      modifies mem
      ensures mem[..] == TakeMem(base, old(mem[..]), (curr - base) / 4, rounded)
    {
      var at := (curr - base) / 4;
      if mem[at] > rounded + 12 + 4 {
        var nextBlock := curr + 12 + rounded;
        var cut := (nextBlock - base) / 4;
        Store(cut, mem[at] - rounded - 12);
        Store(cut + 1, 1);
        Store(cut + 2, mem[at + 2]);
        Store(at, rounded);
        Store(at + 2, nextBlock);
      }
      Store(at + 1, 0);
    }

    /** The search loop of alloc: the address of the first header that fits, or NULL. */
    method Search(rounded: nat) returns (curr: nat)
      requires Valid() && initialized && rounded % 4 == 0
      ensures curr == Link(base, blocks, FirstFit(blocks, rounded / 4))
    {
      ghost var n := rounded / 4;
      ghost var k := 0;
      TilesOrdered(blocks, 0, HEAP_WORDS, 0);
      curr := base;
      while curr != 0
        invariant 0 <= k <= FirstFit(blocks, n) && curr == Link(base, blocks, k)
        decreases |blocks| - k
      {
        var at := (curr - base) / 4;
        assert at == blocks[k].at && HeaderAt(base, mem[..], blocks, k);
        if mem[at + 1] != 0 && mem[at] >= rounded {
          return;
        }
        curr := mem[at + 2];
        k := k + 1;
      }
    }

    method Allocate(size: nat) returns (ptr: nat)
      requires Valid() && size < TWO_32
      modifies this`initialized, this`blocks, mem
      ensures Valid() && initialized
      ensures blocks == Alloc(old(blocks), RoundedWords(size)).0
      ensures ptr == match Alloc(old(blocks), RoundedWords(size)).1
                     case None => 0
                     case Some(b) => AddressOf(base, b)
      ensures PayloadKept(Live(old(blocks)), old(mem[..]), mem[..])
    {
      Initialize();
      var rounded := (size + 3) % TWO_32 / 4 * 4;
      ghost var n := RoundedWords(size);
      ghost var k := FirstFit(blocks, n);
      assert rounded == 4 * n;
      var curr := Search(rounded);
      if curr == 0 {
        return 0;
      }
      assert (curr - base) / 4 == blocks[k].at && rounded == 4 * n;
      TakeAt(curr, rounded, k, n);
      ptr := curr + 12;
    }

    /** Taking the block the search stopped at, with the block list brought in line. */
    method TakeAt(curr: nat, rounded: nat, ghost k: nat, ghost n: nat)
      requires Valid() && initialized && k < |blocks| && k == FirstFit(blocks, n)
      requires curr == base + 4 * blocks[k].at && rounded == 4 * n
      modifies this`blocks, mem
      ensures Valid() && blocks == Alloc(old(blocks), n).0
      ensures PayloadKept(Live(old(blocks)), old(mem[..]), mem[..])
    {
      ghost var before := mem[..];
      TakeRepresents(base, before, blocks, k, n);
      TakeKeepsPayload(base, before, blocks, k, n);
      Take(curr, rounded);
      assert mem[..] == TakeMem(base, before, blocks[k].at, 4 * n);
      blocks := Alloc(blocks, n).0;
    }

    /** `ptr` is NULL or the address of a live payload; alloc_free trusts its caller with this. */
    method Deallocate(ptr: nat)
      requires Valid() && (ptr == 0 || ptr in LiveAddresses(base, blocks))
      modifies this`blocks, mem
      ensures Valid()
      ensures ptr == 0 ==> blocks == old(blocks)
      ensures ptr != 0 ==> blocks == Free(old(blocks), BlockAt(base, old(blocks), ptr))
      ensures PayloadKept(Live(blocks), old(mem[..]), mem[..])
    {
      if ptr == 0 {
        return;
      }
      ghost var b := BlockAt(base, blocks, ptr);
      ghost var i :| 0 <= i < |blocks| && blocks[i] == b;
      InitialWellFormed();
      ghost var live, final := Live(blocks) - {b}, Free(blocks, b);
      FreeWellFormed(blocks, b);
      ReleaseLive(blocks, b, 0, HEAP_WORDS);
      MarkRepresents(base, mem[..], blocks, i);
      MarkKeepsPayload(mem[..], blocks, i);
      var header := (ptr - 12 - base) / 4;
      Store(header + 1, 1);
      blocks := Release(blocks, b);
      ghost var marked := mem[..];
      Sweep(final, live);
      PayloadChain(Live(old(blocks)), live, old(mem[..]), marked, mem[..]);
    }

    /** The header at word `at` swallows the one at `next`. */
    method Absorb(at: nat, next: nat)
      requires at + 2 < next && next + 2 < mem.Length
      modifies mem
      ensures mem[..] == MergeMem(old(mem[..]), at, next)
    {
      Store(at, mem[at] + 12 + mem[next]);
      Store(at + 2, mem[next + 2]);
    }

    /** One round of the coalescing loop. */
    method SweepOnce(curr: nat, ghost k: nat, ghost final: seq<Block>, ghost live: set<Block>)
      returns (curr': nat, ghost k': nat)
      requires base % 4 == 0 && 0 < base && mem.Length == HEAP_WORDS
      requires Sweeping(base, mem[..], blocks, k, final, live) && curr == base + 4 * blocks[k].at
      requires k + 1 < |blocks|
      modifies this`blocks, mem
      ensures Sweeping(base, mem[..], blocks, k', final, live) && curr' == base + 4 * blocks[k'].at
      ensures |blocks| - k' < |old(blocks)| - k
      ensures PayloadKept(live, old(mem[..]), mem[..])
    {
      SweepStep(base, mem[..], blocks, k, final, live);
      var at := (curr - base) / 4;
      var next := (mem[at + 2] - base) / 4;
      assert at == blocks[k].at && next == blocks[k + 1].at;
      if mem[at + 1] != 0 && mem[next + 1] != 0 {
        ghost var before := mem[..];
        Absorb(at, next);
        assert mem[..] == MergeMem(before, blocks[k].at, blocks[k + 1].at);
        blocks := MergeAt(blocks, k);
        curr', k' := curr, k;
      } else {
        curr', k' := mem[at + 2], k + 1;
      }
    }

    /** The coalescing loop of alloc_free. */
    method Sweep(ghost final: seq<Block>, ghost live: set<Block>)
      requires base % 4 == 0 && 0 < base && mem.Length == HEAP_WORDS
      requires Represents(base, mem[..], blocks) && Coalesce(blocks) == final && Live(blocks) == live
      modifies this`blocks, mem
      ensures blocks == final && Represents(base, mem[..], blocks)
      ensures PayloadKept(live, old(mem[..]), mem[..])
    {
      var curr: nat := base;
      ghost var k: nat := 0;
      SweepStarts(base, mem[..], blocks, live);
      while curr != 0 && mem[(curr - base) / 4 + 2] != 0
        invariant Sweeping(base, mem[..], blocks, k, final, live)
        invariant curr == base + 4 * blocks[k].at
        invariant PayloadKept(live, old(mem[..]), mem[..])
        decreases |blocks| - k
      {
        curr, k := SweepOnce(curr, k, final, live);
      }
      SweepEnds(base, mem[..], blocks, k, final, live);
    }
  }
}
