/** What the allocator guarantees in every reachable state. */
module HeapTheorems {
  import opened Prelude
  import opened HeapSpec

  // ----- Tiling

  lemma {:induction false} TilesBounded(bs: seq<Block>, lo: nat, hi: nat)
    requires Tiles(bs, lo, hi)
    ensures lo <= hi
  {
    if bs != [] {
      TilesBounded(bs[1..], End(bs[0]), hi);
    }
  }

  lemma {:induction false} TilesOrdered(bs: seq<Block>, lo: nat, hi: nat, i: nat)
    requires Tiles(bs, lo, hi) && i < |bs|
    ensures lo <= bs[i].at && End(bs[i]) <= hi
    ensures i == 0 ==> bs[i].at == lo
    ensures i + 1 < |bs| ==> bs[i + 1].at == End(bs[i])
    ensures i + 1 == |bs| ==> End(bs[i]) == hi
    decreases i
  {
    if i > 0 {
      TilesOrdered(bs[1..], End(bs[0]), hi, i - 1);
    } else {
      TilesBounded(bs[1..], End(bs[0]), hi);
      assert bs[1..] == [] || bs[1..][0] == bs[1];
    }
  }

  /** Blocks at different positions do not overlap. */
  lemma {:induction false} TilesDisjoint(bs: seq<Block>, lo: nat, hi: nat, i: nat, j: nat)
    requires Tiles(bs, lo, hi) && i < j < |bs|
    ensures End(bs[i]) <= bs[j].at
  {
    if i == 0 {
      TilesOrdered(bs[1..], End(bs[0]), hi, j - 1);
    } else {
      TilesDisjoint(bs[1..], End(bs[0]), hi, i - 1, j - 1);
    }
  }

  lemma {:induction false} TilesSplit(a: seq<Block>, b: seq<Block>, lo: nat, mid: nat, hi: nat)
    requires Tiles(a, lo, mid) && Tiles(b, mid, hi)
    ensures Tiles(a + b, lo, hi)
  {
    if a == [] {
      assert a + b == b;
    } else {
      TilesSplit(a[1..], b, End(a[0]), mid, hi);
      assert (a + b)[1..] == a[1..] + b;
    }
  }

  lemma {:induction false} TilesCut(bs: seq<Block>, lo: nat, hi: nat, i: nat)
    requires Tiles(bs, lo, hi) && i < |bs|
    ensures Tiles(bs[..i], lo, bs[i].at) && Tiles(bs[i + 1..], End(bs[i]), hi)
    decreases i
  {
    if i == 0 {
      assert bs[..0] == [];
    } else {
      TilesCut(bs[1..], End(bs[0]), hi, i - 1);
      assert bs[1..][..i - 1] == bs[..i][1..];
      assert bs[1..][i..] == bs[i + 1..];
    }
  }

  // ----- Alloc keeps the list well formed and adds exactly one live block

  lemma AllocWellFormed(bs: seq<Block>, n: nat)
    requires WellFormed(bs)
    ensures WellFormed(Alloc(bs, n).0)
  {
    var i := FirstFit(bs, n);
    if i < |bs| {
      var c := Carve(bs[i], n);
      TilesCut(bs, 0, HEAP_WORDS, i);
      TilesOrdered(bs, 0, HEAP_WORDS, i);
      assert Tiles(c, bs[i].at, End(bs[i])) by {
        assert c[1..] == [] || (c[1..][1..] == [] && c[1..][0] == c[1]);
      }
      TilesSplit(bs[..i], c, 0, bs[i].at, End(bs[i]));
      TilesSplit(bs[..i] + c, bs[i + 1..], 0, End(bs[i]), HEAP_WORDS);
    }
  }

  lemma AllocLive(bs: seq<Block>, n: nat)
    requires WellFormed(bs)
    ensures var (bs', r) := Alloc(bs, n);
      && (r.None? ==> bs' == bs)
      && (r.Some? ==> !r.value.free && r.value !in Live(bs) && Live(bs') == Live(bs) + {r.value}
                      && n <= r.value.words <= n + 4)
  {
    var i := FirstFit(bs, n);
    if i < |bs| {
      var (bs', r) := Alloc(bs, n);
      var c := Carve(bs[i], n);
      assert bs == bs[..i] + [bs[i]] + bs[i + 1..];
      forall b | b in Live(bs) ensures b != c[0] {
        var j :| 0 <= j < |bs| && bs[j] == b;
        if j < i { TilesDisjoint(bs, 0, HEAP_WORDS, j, i); }
        if i < j { TilesDisjoint(bs, 0, HEAP_WORDS, i, j); }
      }
      assert Live(bs') == Live(bs) + {c[0]} by {
        assert forall b :: b in bs' <==> b in bs[..i] || b in c || b in bs[i + 1..];
        assert forall b :: b in bs <==> b in bs[..i] || b == bs[i] || b in bs[i + 1..];
        assert c[0] in bs';
      }
    }
  }

  // ----- Free keeps the list well formed and removes exactly the block given back

  lemma {:induction false} ReleaseTiles(bs: seq<Block>, b: Block, lo: nat, hi: nat)
    requires Tiles(bs, lo, hi) && b in bs
    ensures Tiles(Release(bs, b), lo, hi)
  {
    if bs[0] != b {
      ReleaseTiles(bs[1..], b, End(bs[0]), hi);
      assert Release(bs, b)[1..] == Release(bs[1..], b);
    } else {
      assert Release(bs, b)[1..] == bs[1..];
    }
  }

  lemma {:induction false} ReleaseLive(bs: seq<Block>, b: Block, lo: nat, hi: nat)
    requires Tiles(bs, lo, hi) && b in Live(bs)
    ensures Live(Release(bs, b)) == Live(bs) - {b}
  {
    var rest := bs[1..];
    assert bs == [bs[0]] + rest;
    if bs[0] == b {
      forall x | x in rest ensures x != b {
        var j :| 0 <= j < |rest| && rest[j] == x;
        TilesDisjoint(bs, lo, hi, 0, j + 1);
      }
    } else {
      ReleaseLive(rest, b, End(bs[0]), hi);
      assert Live(bs) == Live(rest) + Live([bs[0]]);
      assert Live(Release(bs, b)) == Live(Release(rest, b)) + Live([bs[0]]);
    }
  }

  lemma {:induction false} CoalesceTiles(bs: seq<Block>, lo: nat, hi: nat)
    requires Tiles(bs, lo, hi)
    ensures Tiles(Coalesce(bs), lo, hi) && Live(Coalesce(bs)) == Live(bs)
    decreases |bs|
  {
    if |bs| >= 2 {
      if bs[0].free && bs[1].free {
        var m := [Merge(bs[0], bs[1])] + bs[2..];
        assert bs[1..][0] == bs[1] && bs[1..][1..] == bs[2..] && m[1..] == bs[2..];
        CoalesceTiles(m, lo, hi);
        assert bs == [bs[0], bs[1]] + bs[2..];
        assert Live(m) == Live(bs);
      } else {
        CoalesceTiles(bs[1..], End(bs[0]), hi);
        assert Coalesce(bs)[1..] == Coalesce(bs[1..]);
        assert bs == [bs[0]] + bs[1..];
        assert Live(bs) == Live([bs[0]]) + Live(bs[1..]);
        assert Live(Coalesce(bs)) == Live([bs[0]]) + Live(Coalesce(bs[1..]));
      }
    }
  }

  /** One sweep is enough: afterwards no two neighbours are free. */
  lemma {:induction false} CoalesceSeparates(bs: seq<Block>)
    ensures Separated(Coalesce(bs))
    ensures bs != [] ==> Coalesce(bs) != [] && Coalesce(bs)[0].free == bs[0].free
    decreases |bs|
  {
    if |bs| >= 2 {
      if bs[0].free && bs[1].free {
        CoalesceSeparates([Merge(bs[0], bs[1])] + bs[2..]);
      } else {
        CoalesceSeparates(bs[1..]);
      }
    }
  }

  lemma FreeWellFormed(bs: seq<Block>, b: Block)
    requires WellFormed(bs) && b in Live(bs)
    ensures WellFormed(Free(bs, b)) && Live(Free(bs, b)) == Live(bs) - {b}
  {
    ReleaseTiles(bs, b, 0, HEAP_WORDS);
    ReleaseLive(bs, b, 0, HEAP_WORDS);
    CoalesceTiles(Release(bs, b), 0, HEAP_WORDS);
    CoalesceSeparates(Release(bs, b));
  }

  // ----- History independence

  /** A tiling without free neighbours is determined by its live blocks. */
  lemma {:induction false} LiveDetermines(a: seq<Block>, b: seq<Block>, lo: nat, hi: nat)
    requires Tiles(a, lo, hi) && Separated(a)
    requires Tiles(b, lo, hi) && Separated(b)
    requires Live(a) == Live(b)
    ensures a == b
  {
    if a == [] || b == [] {
      if a != [] { TilesOrdered(a, lo, hi, 0); }
      if b != [] { TilesOrdered(b, lo, hi, 0); }
    } else {
      SameHead(a, b, lo, hi);
      SameHead(b, a, lo, hi);
      TailLive(a, lo, hi);
      TailLive(b, lo, hi);
      assert Separated(a[1..]) && Separated(b[1..]);
      LiveDetermines(a[1..], b[1..], End(a[0]), hi);
      assert a == [a[0]] + a[1..] && b == [b[0]] + b[1..];
    }
  }

  lemma TailLive(a: seq<Block>, lo: nat, hi: nat)
    requires Tiles(a, lo, hi) && a != []
    ensures Live(a[1..]) == Live(a) - {a[0]}
  {
    forall x | x in a[1..] ensures x != a[0] {
      var j :| 0 <= j < |a[1..]| && a[1..][j] == x;
      TilesDisjoint(a, lo, hi, 0, j + 1);
    }
    assert a == [a[0]] + a[1..];
  }

  lemma SameHead(a: seq<Block>, b: seq<Block>, lo: nat, hi: nat)
    requires Tiles(a, lo, hi) && Separated(a) && a != []
    requires Tiles(b, lo, hi) && Separated(b) && b != []
    requires Live(a) == Live(b)
    ensures !a[0].free ==> a[0] == b[0]
    ensures a[0].free && b[0].free ==> a[0].words >= b[0].words
  {
    if !a[0].free {
      assert a[0] in Live(b);
      var j :| 0 <= j < |b| && b[j] == a[0];
      if j > 0 { TilesDisjoint(b, lo, hi, 0, j); }
    } else if b[0].free && a[0].words < b[0].words {
      TilesOrdered(a, lo, hi, 0);
      TilesOrdered(b, lo, hi, 0);
      assert |a| > 1 && !a[1].free;
      assert a[1] in Live(b);
      var j :| 0 <= j < |b| && b[j] == a[1];
      TilesDisjoint(b, lo, hi, 0, j);
    }
  }

  /** The whole block list is a function of the live set alone. */
  lemma HistoryIndependence(a: seq<Block>, b: seq<Block>)
    requires WellFormed(a) && WellFormed(b) && Live(a) == Live(b)
    ensures a == b
  {
    LiveDetermines(a, b, 0, HEAP_WORDS);
  }

  lemma InitialWellFormed()
    ensures WellFormed(INITIAL) && Live(INITIAL) == {}
  {
    assert INITIAL[1..] == [];
  }

  /** The fresh heap is one free block of 65524 bytes behind a header of 12, together 65536. */
  lemma FreshHeap()
    ensures |INITIAL| == 1 && INITIAL[0].free && INITIAL[0].at == 0
    ensures 4 * INITIAL[0].words == 65524 && 4 * HEADER == 12 && 4 * End(INITIAL[0]) == 65536
  {
  }

  /** Allocating and giving the result back restores the list exactly. */
  lemma AllocFreeRestores(bs: seq<Block>, n: nat)
    requires WellFormed(bs) && Alloc(bs, n).1.Some?
    ensures Free(Alloc(bs, n).0, Alloc(bs, n).1.value) == bs
  {
    var (bs', r) := Alloc(bs, n);
    AllocWellFormed(bs, n);
    AllocLive(bs, n);
    FreeWellFormed(bs', r.value);
    HistoryIndependence(Free(bs', r.value), bs);
  }

  function FreeEach(bs: seq<Block>, order: seq<Block>): seq<Block>
    decreases |order|
  {
    if order == [] then bs else FreeEach(Free(bs, order[0]), order[1..])
  }

  /** Giving back every live block, in any order, ends in the one free block of 65524 bytes. */
  lemma {:induction false} FreeAllAnyOrder(bs: seq<Block>, order: seq<Block>)
    requires WellFormed(bs)
    requires multiset(order) == multiset(Live(bs))
    ensures FreeEach(bs, order) == INITIAL
    decreases |order|
  {
    if order == [] {
      assert |multiset(Live(bs))| == 0;
      InitialWellFormed();
      HistoryIndependence(bs, INITIAL);
    } else {
      var b := order[0];
      assert order == [b] + order[1..];
      assert b in multiset(order);
      FreeWellFormed(bs, b);
      assert multiset(order[1..]) == multiset(order) - multiset{b};
      assert multiset(Live(bs) - {b}) == multiset(Live(bs)) - multiset{b};
      FreeAllAnyOrder(Free(bs, b), order[1..]);
    }
  }

  // ----- Completeness of first fit

  /** The `n` payload words and the header starting at word `a` touch no live block. */
  ghost predicate Vacant(bs: seq<Block>, a: nat, n: nat) {
    && a + HEADER + n <= HEAP_WORDS
    && forall b :: b in Live(bs) ==> a + HEADER + n <= b.at || End(b) <= a
  }

  /** A vacant range lies inside a single free block, because free blocks never touch. */
  lemma {:induction false} VacantInsideOne(bs: seq<Block>, lo: nat, hi: nat, a: nat, n: nat) returns (i: nat)
    requires Tiles(bs, lo, hi) && Separated(bs)
    requires lo <= a && a + HEADER + n <= hi
    requires forall b :: b in Live(bs) ==> a + HEADER + n <= b.at || End(b) <= a
    ensures i < |bs| && bs[i].free && bs[i].at <= a && a + HEADER + n <= End(bs[i])
  {
    assert bs[0] in bs;
    if End(bs[0]) <= a {
      assert forall b :: b in bs[1..] ==> b in bs;
      i := VacantInsideOne(bs[1..], End(bs[0]), hi, a, n);
      i := i + 1;
    } else {
      i := 0;
      TilesOrdered(bs, lo, hi, 0);
      if |bs| > 1 && !bs[1].free {
        assert bs[1] in Live(bs);
      }
    }
  }

  /** NULL is returned exactly when no vacant range can hold the header and the request, and a
    * result is the lowest place where one starts. */
  lemma FirstFitComplete(bs: seq<Block>, n: nat)
    requires WellFormed(bs)
    ensures Alloc(bs, n).1.None? <==> forall a: nat :: !Vacant(bs, a, n)
    ensures Alloc(bs, n).1.Some? ==>
      var at := Alloc(bs, n).1.value.at;
      Vacant(bs, at, n) && forall a: nat :: Vacant(bs, a, n) ==> at <= a
  {
    var i := FirstFit(bs, n);
    if i < |bs| {
      TilesOrdered(bs, 0, HEAP_WORDS, i);
      forall b | b in Live(bs) ensures bs[i].at + HEADER + n <= b.at || End(b) <= bs[i].at {
        var j :| 0 <= j < |bs| && bs[j] == b;
        if j < i { TilesDisjoint(bs, 0, HEAP_WORDS, j, i); }
        if i < j { TilesDisjoint(bs, 0, HEAP_WORDS, i, j); }
      }
      assert Vacant(bs, bs[i].at, n);
    }
    forall a: nat | Vacant(bs, a, n) ensures i < |bs| && bs[i].at <= a {
      var j := VacantInsideOne(bs, 0, HEAP_WORDS, a, n);
      assert i <= j;
      if i < j { TilesDisjoint(bs, 0, HEAP_WORDS, i, j); }
    }
  }

  /** A successful result holds the requested bytes, and at most 16 spare ones, exactly when the
    * rounding did not wrap, which is when the request is at most 2^32 - 4 bytes. */
  lemma ResultHoldsRequest(bs: seq<Block>, size: nat)
    requires WellFormed(bs) && size < TWO_32
    requires Alloc(bs, RoundedWords(size)).1.Some?
    ensures var bytes := 4 * Alloc(bs, RoundedWords(size)).1.value.words;
      size <= bytes <= (size + 3) / 4 * 4 + 16 <==> size <= TWO_32 - 4
  {
    AllocLive(bs, RoundedWords(size));
    if size <= TWO_32 - 4 {
      assert RoundedWords(size) == (size + 3) / 4;
    } else {
      assert RoundedWords(size) == 0;
    }
  }

  /** The spare words at the end of a chosen block are split off exactly if they hold a header and more than
    * one word; the result is then as large as asked for, and otherwise the whole block. */
  lemma SplitExactly(bs: seq<Block>, n: nat)
    requires WellFormed(bs) && Alloc(bs, n).1.Some?
    ensures var (bs', r) := Alloc(bs, n);
      exists i :: 0 <= i < |bs| && bs[i].free && bs[i].at == r.value.at
        && if bs[i].words - n > 4 then r.value.words == n && |bs'| == |bs| + 1
           else r.value.words == bs[i].words && |bs'| == |bs|
  {
    var i := FirstFit(bs, n);
    assert bs[i].free;
  }

  /** A request of 2^32 - 1 bytes succeeds on the fresh heap, with a block of none. */
  lemma HugeRequestGetsNothing()
    ensures Alloc(INITIAL, RoundedWords(TWO_32 - 1)).1 == Some(Block(0, 0, false))
  {
    assert RoundedWords(TWO_32 - 1) == 0;
    assert FirstFit(INITIAL, 0) == 0;
  }

  // ----- Whole runs

  datatype Op = Malloc(size: nat) | Give(b: Block)

  /** Callers ask for 32-bit sizes and give back only what they hold. */
  ghost predicate Allowed(bs: seq<Block>, op: Op) {
    match op
    case Malloc(size) => size < TWO_32
    case Give(b) => b in Live(bs)
  }

  function Perform(bs: seq<Block>, op: Op): seq<Block> {
    match op
    case Malloc(size) => Alloc(bs, RoundedWords(size)).0
    case Give(b) => Free(bs, b)
  }

  /** Every step of the run is one its caller may take. */
  ghost predicate Legal(bs: seq<Block>, ops: seq<Op>)
    decreases |ops|
  {
    ops == [] || (Allowed(bs, ops[0]) && Legal(Perform(bs, ops[0]), ops[1..]))
  }

  function Run(bs: seq<Block>, ops: seq<Op>): seq<Block>
    decreases |ops|
  {
    if ops == [] then bs else Run(Perform(bs, ops[0]), ops[1..])
  }

  lemma {:induction false} RunWellFormed(bs: seq<Block>, ops: seq<Op>)
    requires WellFormed(bs) && Legal(bs, ops)
    ensures WellFormed(Run(bs, ops))
    decreases |ops|
  {
    if ops != [] {
      match ops[0] {
        case Malloc(size) => AllocWellFormed(bs, RoundedWords(size));
        case Give(b) => FreeWellFormed(bs, b);
      }
      RunWellFormed(Perform(bs, ops[0]), ops[1..]);
    }
  }

  /** Two runs from the fresh heap that leave the same blocks live leave the same heap, whatever
    * was allocated and freed on the way. */
  lemma RunsWithSameLiveBlocksAgree(r1: seq<Op>, r2: seq<Op>)
    requires Legal(INITIAL, r1) && Legal(INITIAL, r2)
    requires Live(Run(INITIAL, r1)) == Live(Run(INITIAL, r2))
    ensures Run(INITIAL, r1) == Run(INITIAL, r2)
  {
    InitialWellFormed();
    RunWellFormed(INITIAL, r1);
    RunWellFormed(INITIAL, r2);
    HistoryIndependence(Run(INITIAL, r1), Run(INITIAL, r2));
  }
}
