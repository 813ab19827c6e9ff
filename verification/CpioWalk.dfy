/** Where the archive walk leads on arbitrary memory, and when it comes to an end. */
module CpioWalk {
  import opened Prelude
  import opened CpioSpec
  import opened CpioTheorems

  /** The pointer after `n` rounds of the loop. */
  function Pointer(mem: Memory, p: nat, n: nat): nat
    decreases n
  {
    if n == 0 then p else Pointer(mem, NextHeader(mem, p), n - 1)
  }

  /** The visits are those of the pointers, one after the other, up to one at which the loop ends, or at
    * which it stands for the second time. */
  ghost predicate Follows(mem: Memory, p: nat, end: nat, seen: set<nat>, vs: seq<Visit>, done: bool) {
    && (forall i :: 0 <= i < |vs| ==> Continues(mem, Pointer(mem, p, i), end) && vs[i] == VisitAt(mem, Pointer(mem, p, i)))
    && (done <==> !Continues(mem, Pointer(mem, p, |vs|), end))
    && (!done ==> Pointer(mem, p, |vs|) in seen || exists i :: 0 <= i < |vs| && Pointer(mem, p, i) == Pointer(mem, p, |vs|))
  }

  lemma FollowsStep(mem: Memory, p: nat, end: nat, seen: set<nat>, vs: seq<Visit>, done: bool)
    requires Continues(mem, p, end) && Follows(mem, NextHeader(mem, p), end, seen + {p}, vs, done)
    ensures Follows(mem, p, end, seen, [VisitAt(mem, p)] + vs, done)
  {
    var next, all := NextHeader(mem, p), [VisitAt(mem, p)] + vs;
    forall i | 0 <= i < |all|
      ensures Continues(mem, Pointer(mem, p, i), end) && all[i] == VisitAt(mem, Pointer(mem, p, i))
    {
      if i > 0 {
        assert Pointer(mem, p, i) == Pointer(mem, next, i - 1);
      }
    }
    var q := Pointer(mem, next, |vs|);
    if !done {
      if q == p {
        assert Pointer(mem, p, 0) == q;
      } else if q !in seen {
        var i :| 0 <= i < |vs| && Pointer(mem, next, i) == q;
        assert Pointer(mem, p, i + 1) == q;
      }
    }
  }

  lemma {:induction false} WalkFollows(mem: Memory, p: nat, end: nat, seen: set<nat>)
    ensures var (vs, done) := Walk(mem, p, end, seen); Follows(mem, p, end, seen, vs, done)
    decreases Unseen(end, seen)
  {
    if Continues(mem, p, end) && p !in seen {
      SeenShrinks(end, seen, p);
      var next := NextHeader(mem, p);
      WalkFollows(mem, next, end, seen + {p});
      var (vs, done) := Walk(mem, next, end, seen + {p});
      FollowsStep(mem, p, end, seen, vs, done);
    }
  }

  lemma {:induction false} PointerAdd(mem: Memory, p: nat, i: nat, k: nat)
    ensures Pointer(mem, p, i + k) == Pointer(mem, Pointer(mem, p, i), k)
    decreases i
  {
    if i > 0 {
      PointerAdd(mem, NextHeader(mem, p), i - 1, k);
      PointerNext(mem, p, i + k);
      PointerNext(mem, p, i);
    }
  }

  lemma PointerNext(mem: Memory, p: nat, n: nat)
    requires n > 0
    ensures Pointer(mem, p, n) == Pointer(mem, NextHeader(mem, p), n - 1)
  {
  }

  /** A pointer met twice comes back again and again, so the loop never stands anywhere else. */
  lemma {:induction false} CircleGoesOn(mem: Memory, p: nat, end: nat, i: nat, j: nat, n: nat)
    requires i < j && Pointer(mem, p, i) == Pointer(mem, p, j)
    requires forall k :: 0 <= k < j ==> Continues(mem, Pointer(mem, p, k), end)
    ensures Continues(mem, Pointer(mem, p, n), end)
    decreases n
  {
    if n >= j {
      PointerAdd(mem, p, j, n - j);
      PointerAdd(mem, p, i, n - j);
      CircleGoesOn(mem, p, end, i, j, i + (n - j));
    }
  }

  /** The loop stands at one header twice, having gone on everywhere up to there. */
  ghost predicate MeetsTwice(mem: Memory, p: nat, end: nat) {
    exists i, j :: 0 <= i < j && Pointer(mem, p, i) == Pointer(mem, p, j)
      && forall k :: 0 <= k < j ==> Continues(mem, Pointer(mem, p, k), end)
  }

  lemma EndlessMeetsTwice(mem: Memory, p: nat, end: nat)
    requires !Walk(mem, p, end, {}).1
    ensures MeetsTwice(mem, p, end)
  {
    WalkFollows(mem, p, end, {});
    var n := |Walk(mem, p, end, {}).0|;
    var i :| 0 <= i < n && Pointer(mem, p, i) == Pointer(mem, p, n);
  }

  lemma TwiceGoesOn(mem: Memory, p: nat, end: nat, n: nat)
    requires MeetsTwice(mem, p, end)
    ensures Continues(mem, Pointer(mem, p, n), end)
  {
    var i, j :| 0 <= i < j && Pointer(mem, p, i) == Pointer(mem, p, j)
      && forall k :: 0 <= k < j ==> Continues(mem, Pointer(mem, p, k), end);
    CircleGoesOn(mem, p, end, i, j, n);
  }

  lemma DoneStops(mem: Memory, p: nat, end: nat) returns (n: nat)
    requires Walk(mem, p, end, {}).1
    ensures !Continues(mem, Pointer(mem, p, n), end)
  {
    WalkFollows(mem, p, end, {});
    n := |Walk(mem, p, end, {}).0|;
  }

  /** For every memory: the walk is reported as endless exactly if the loop goes on after any number of
    * rounds, and that is exactly if it stands at some header twice. */
  lemma WalkEndsExactly(mem: Memory, p: nat, end: nat)
    ensures !Walk(mem, p, end, {}).1 <==> MeetsTwice(mem, p, end)
    ensures !Walk(mem, p, end, {}).1 <==> forall n: nat :: Continues(mem, Pointer(mem, p, n), end)
  {
    if Walk(mem, p, end, {}).1 {
      var n := DoneStops(mem, p, end);
      if MeetsTwice(mem, p, end) {
        TwiceGoesOn(mem, p, end, n);
      }
    } else {
      EndlessMeetsTwice(mem, p, end);
      forall n: nat ensures Continues(mem, Pointer(mem, p, n), end) {
        TwiceGoesOn(mem, p, end, n);
      }
    }
  }

  // ----- Sizes that wrap

  /** The memory of a 32-bit machine: every address stands for those 2^32 further on too. */
  ghost predicate Repeats(mem: Memory) {
    forall a: nat :: mem(a + TWO_32) == mem(a)
  }

  /** How far address `a` lies behind `p`, going round at 2^32. */
  function Behind(a: nat, p: nat): (d: nat)
    requires p < TWO_32
    ensures d < TWO_32
  {
    (a + TWO_32 - p) % TWO_32
  }

  function LoneBytes(size: nat): (h: seq<byte>)
    ensures |h| == HEADER
  {
    Header(Zeros(48), size, Zeros(32), 2, Zeros(8), true)
  }

  /** A header for a nameless file at `p`, in memory that is zero everywhere else. */
  function Lone(p: nat, size: nat): Memory
    requires p < TWO_32
  {
    var h := LoneBytes(size);
    (a: nat) => if Behind(a, p) < HEADER then h[Behind(a, p)] else 0
  }

  lemma LoneRepeats(p: nat, size: nat)
    requires p < TWO_32
    ensures Repeats(Lone(p, size))
  {
    forall a: nat ensures Behind(a + TWO_32, p) == Behind(a, p) {
      RoundOnce(a + TWO_32 - p);
    }
  }

  lemma RoundOnce(n: nat)
    ensures (n + TWO_32) % TWO_32 == n % TWO_32
  {
  }

  lemma LoneHolds(p: nat, size: nat)
    requires p < TWO_32
    ensures Holds(Lone(p, size), p, LoneBytes(size)) && Lone(p, size)(p + HEADER) == 0
  {
    var mem, h := Lone(p, size), LoneBytes(size);
    forall k | 0 <= k < HEADER ensures mem(p + k) == h[k] {
      RoundOnce(k);
      assert Behind(p + k, p) == k;
    }
    RoundOnce(HEADER);
    assert Behind(p + HEADER, p) == HEADER;
    assert Bytes(mem, p, HEADER) == h;
  }

  lemma LoneHeader(p: nat, size: nat)
    requires p < TWO_32 && size < TWO_32
    ensures !EndsAt(Lone(p, size), p)
    ensures NextHeader(Lone(p, size), p) == (p + 112 + Round4(size)) % TWO_32
  {
    var mem := Lone(p, size);
    LoneHolds(p, size);
    SizesDecoded(mem, p, Zeros(48), size, Zeros(32), 2, Zeros(8), true);
    Nameless(mem, p);
    NextWhere(mem, p, size);
  }

  lemma Nameless(mem: Memory, p: nat)
    requires Bytes(mem, p, 6) == MAGIC && mem(p + HEADER) == 0
    ensures !EndsAt(mem, p)
  {
    assert Bytes(mem, p + HEADER, 11)[0] == 0;
  }

  lemma NextWhere(mem: Memory, p: nat, size: nat)
    requires NameSize(mem, p) == 2 && FileSize(mem, p) == size
    ensures NextHeader(mem, p) == (p + 112 + Round4(size)) % TWO_32
  {
  }

  lemma BackToItself(mem: Memory, p: nat, end: nat)
    requires p < end && !EndsAt(mem, p) && NextHeader(mem, p) == p
    ensures !Walk(mem, p, end, {}).1 && forall n: nat :: Continues(mem, Pointer(mem, p, n), end)
  {
    assert Pointer(mem, p, 0) == p;
    assert Pointer(mem, p, 1) == Pointer(mem, NextHeader(mem, p), 0);
    assert MeetsTwice(mem, p, end);
    WalkEndsExactly(mem, p, end);
  }

  lemma WrapsTo(p: nat, back: nat, size: nat)
    requires 112 <= back <= p + 112 && p < TWO_32 && size == TWO_32 - back && back % 4 == 0
    ensures !EndsAt(Lone(p, size), p) && NextHeader(Lone(p, size), p) == p + 112 - back
  {
    LoneHeader(p, size);
    WrappedSum(p, back, size);
  }

  lemma WrappedSum(p: nat, back: nat, size: nat)
    requires 112 <= back <= p + 112 && p < TWO_32 && size == TWO_32 - back && back % 4 == 0
    ensures (p + 112 + Round4(size)) % TWO_32 == p + 112 - back
  {
    assert Round4(size) == size;
    assert p + 112 + size == (p + 112 - back) + TWO_32;
  }

  /** A file size of 2^32 - 112 leads back to the header itself: the loop never ends. */
  lemma EndlessWalk(p: nat, end: nat)
    requires p < end < TWO_32
    ensures var mem := Lone(p, TWO_32 - 112);
      Repeats(mem) && NextHeader(mem, p) == p && !Walk(mem, p, end, {}).1 && forall n: nat :: Continues(mem, Pointer(mem, p, n), end)
  {
    LoneRepeats(p, TWO_32 - 112);
    WrapsTo(p, 112, TWO_32 - 112);
    BackToItself(Lone(p, TWO_32 - 112), p, end);
  }

  lemma StopsAfterOne(mem: Memory, p: nat, end: nat)
    requires Continues(mem, p, end) && EndsAt(mem, NextHeader(mem, p))
    ensures Walk(mem, p, end, {}) == ([VisitAt(mem, p)], true)
  {
    assert Walk(mem, NextHeader(mem, p), end, {} + {p}) == ([], true);
    assert [VisitAt(mem, p)] + [] == [VisitAt(mem, p)];
  }

  /** A size that leads backwards to a place without a header ends the loop in the next round. */
  lemma BackwardsWalkEnds(p: nat, end: nat)
    requires 0x1000 <= p < end < TWO_32
    ensures var mem := Lone(p, TWO_32 - 0x800);
      Repeats(mem) && NextHeader(mem, p) == p - 0x790 && Walk(mem, p, end, {}) == ([VisitAt(mem, p)], true)
  {
    LoneRepeats(p, TWO_32 - 0x800);
    WrapsTo(p, 0x800, TWO_32 - 0x800);
    ZerosEnd(p, TWO_32 - 0x800, p - 0x790);
    StopsAfterOne(Lone(p, TWO_32 - 0x800), p, end);
  }

  lemma ZerosEnd(p: nat, size: nat, q: nat)
    requires p < TWO_32 && HEADER <= q < p
    ensures EndsAt(Lone(p, size), q)
  {
    assert Behind(q, p) == q + TWO_32 - p;
    assert Bytes(Lone(p, size), q, 6)[0] == Lone(p, size)(q) == 0;
    assert 0 != MAGIC[0];
  }
}
