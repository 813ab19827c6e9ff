/** The 4096-byte ring shared by pipes and unix socket queues, as a bounded FIFO queue of bytes. */
module RingBuffer {
  import opened Prelude

  /** PIPE_SIZE and UNIX_SOCKET_QUEUE. */
  const RING_SIZE: nat := 4096

  datatype Ring = Ring(data: seq<byte>, readPos: nat, writePos: nat, count: nat)

  ghost predicate RingValid(r: Ring) {
    && |r.data| == RING_SIZE && r.readPos < RING_SIZE && r.count <= RING_SIZE
    && r.writePos == (r.readPos + r.count) % RING_SIZE
  }

  /** Shape alone: enough for the loops to stay inside the buffer. */
  predicate RingSane(r: Ring) {
    |r.data| == RING_SIZE && r.readPos < RING_SIZE && r.writePos < RING_SIZE
  }

  /** Where the k-th pending byte is kept. */
  function Place(r: Ring, k: nat): (p: nat)
    ensures p < RING_SIZE
  {
    (r.readPos + k) % RING_SIZE
  }

  /** The bytes written and not yet read, oldest first. */
  ghost function Pending(r: Ring): (q: seq<byte>)
    requires RingValid(r)
    ensures |q| == r.count
  {
    seq(r.count, k requires 0 <= k < r.count => r.data[Place(r, k)])
  }

  function PutOne(r: Ring, b: byte): (r': Ring)
    requires RingSane(r)
    ensures RingSane(r')
  {
    Ring(r.data[r.writePos := b], r.readPos, (r.writePos + 1) % RING_SIZE, r.count + 1)
  }

  function TakeOne(r: Ring): (r': Ring)
    requires RingSane(r) && r.count > 0
    ensures RingSane(r')
  {
    r.(readPos := (r.readPos + 1) % RING_SIZE, count := r.count - 1)
  }

  /** Write as much of `buf` as there is room for; also returns how much that was. */
  function Put(r: Ring, buf: seq<byte>): (res: (Ring, nat))
    requires RingSane(r)
    ensures RingSane(res.0)
    decreases |buf|
  {
    if buf == [] || r.count >= RING_SIZE then (r, 0)
    else var (r', n) := Put(PutOne(r, buf[0]), buf[1..]); (r', n + 1)
  }

  /** Read up to `n` bytes. */
  function Take(r: Ring, n: nat): (res: (Ring, seq<byte>))
    requires RingSane(r)
    ensures RingSane(res.0)
    decreases n
  {
    if n == 0 || r.count == 0 then (r, [])
    else var (r', s) := Take(TakeOne(r), n - 1); (r', [r.data[r.readPos]] + s)
  }

  lemma PutOnePending(r: Ring, b: byte)
    requires RingValid(r) && r.count < RING_SIZE
    ensures RingValid(PutOne(r, b)) && Pending(PutOne(r, b)) == Pending(r) + [b]
  {
    var r' := PutOne(r, b);
    forall k | 0 <= k < r.count ensures Place(r, k) != r.writePos {}
  }

  lemma TakeOnePending(r: Ring)
    requires RingValid(r) && r.count > 0
    ensures RingValid(TakeOne(r)) && Pending(r) == [r.data[r.readPos]] + Pending(TakeOne(r))
  {
    var r' := TakeOne(r);
    forall k | 0 <= k < r'.count ensures Place(r', k) == Place(r, k + 1) {}
  }

  /** Writing appends to the queue as much as fits, at most 4096 bytes being pending. */
  lemma {:induction false} PutAppends(r: Ring, buf: seq<byte>)
    requires RingValid(r)
    ensures var (r', n) := Put(r, buf);
      && n == Min(|buf|, RING_SIZE - r.count)
      && RingValid(r') && Pending(r') == Pending(r) + buf[..n]
    decreases |buf|
  {
    if buf != [] && r.count < RING_SIZE {
      PutOnePending(r, buf[0]);
      PutAppends(PutOne(r, buf[0]), buf[1..]);
      var n := Put(PutOne(r, buf[0]), buf[1..]).1;
      assert [buf[0]] + buf[1..][..n] == buf[..n + 1];
    }
  }

  /** Reading removes the oldest bytes of the queue. */
  lemma {:induction false} TakeRemoves(r: Ring, n: nat)
    requires RingValid(r)
    ensures var (r', s) := Take(r, n);
      && |s| == Min(n, r.count)
      && RingValid(r') && Pending(r) == s + Pending(r')
    decreases n
  {
    if n > 0 && r.count > 0 {
      TakeOnePending(r);
      TakeRemoves(TakeOne(r), n - 1);
    }
  }

  /** One write of a concatenation is the two writes one after the other, also when the ring fills
    * part-way. */
  lemma {:induction false} PutSplits(r: Ring, a: seq<byte>, b: seq<byte>)
    requires RingSane(r)
    ensures var (r1, m) := Put(r, a); var (r2, n) := Put(r1, b);
      Put(r, a + b) == (r2, m + n)
    decreases |a|
  {
    if a == [] {
      assert a + b == b;
    } else if r.count >= RING_SIZE {
    } else {
      assert (a + b)[1..] == a[1..] + b;
      PutSplits(PutOne(r, a[0]), a[1..], b);
    }
  }
}
