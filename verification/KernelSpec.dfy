/** Who owns which heap block, across the heap, the descriptor table and the task ring. */
module KernelSpec {
  import opened Prelude
  import H = HeapSpec
  import HT = HeapTheorems
  import V = VfsSpec
  import VR = VfsRuns
  import D = DescriptorTheorems
  import T = TaskSpec

  const NODE_SIZE: nat := 52     // sizeof(vfs_node_t)
  const MOUNT_SIZE: nat := 40    // sizeof(mountpoint_t)
  const TASK_SIZE: nat := 24     // sizeof(task_t)
  const STACK_SIZE: nat := 4096

  /** The heap starts at address `base`; `mounts` are the addresses of the mount points. */
  datatype Kernel = Kernel(base: nat, heap: seq<H.Block>, vfs: V.Vfs, mounts: seq<nat>, tasks: T.Tasks)

  // ----- malloc and free

  /** The address malloc returns (0 for NULL), and the heap after it. */
  ghost function Malloc(base: nat, heap: seq<H.Block>, size: nat): (seq<H.Block>, nat) {
    var (heap', r) := H.Alloc(heap, H.RoundedWords(size));
    (heap', match r case None => 0 case Some(b) => H.AddressOf(base, b))
  }

  /** free does nothing for NULL. */
  ghost function Release(base: nat, heap: seq<H.Block>, p: nat): seq<H.Block>
    requires p == 0 || p in H.LiveAddresses(base, heap)
  {
    if p == 0 then heap else H.Free(heap, H.BlockAt(base, heap, p))
  }

  lemma SameAddressSameBlock(base: nat, heap: seq<H.Block>, a: H.Block, b: H.Block)
    requires H.WellFormed(heap) && a in H.Live(heap) && b in H.Live(heap) && H.AddressOf(base, a) == H.AddressOf(base, b)
    ensures a == b
  {
    var i :| 0 <= i < |heap| && heap[i] == a;
    var j :| 0 <= j < |heap| && heap[j] == b;
    if i < j { HT.TilesDisjoint(heap, 0, H.HEAP_WORDS, i, j); }
    if j < i { HT.TilesDisjoint(heap, 0, H.HEAP_WORDS, j, i); }
  }

  lemma MallocLive(base: nat, heap: seq<H.Block>, size: nat)
    requires H.WellFormed(heap) && base > 0
    ensures var (heap', p) := Malloc(base, heap, size);
      && H.WellFormed(heap')
      && (p == 0 ==> heap' == heap)
      && (p != 0 ==> p !in H.LiveAddresses(base, heap) && H.LiveAddresses(base, heap') == H.LiveAddresses(base, heap) + {p})
  {
    var n := H.RoundedWords(size);
    HT.AllocWellFormed(heap, n);
    HT.AllocLive(heap, n);
    var (heap', r) := H.Alloc(heap, n);
    if r.Some? {
      forall b | b in H.Live(heap) ensures H.AddressOf(base, b) != H.AddressOf(base, r.value) {
        if H.AddressOf(base, b) == H.AddressOf(base, r.value) {
          SameAddressSameBlock(base, heap', b, r.value);
        }
      }
    }
  }

  /** Addresses of live blocks are never NULL. */
  lemma LiveNotNull(base: nat, heap: seq<H.Block>)
    ensures 0 !in H.LiveAddresses(base, heap)
  {
  }

  lemma ReleaseLive(base: nat, heap: seq<H.Block>, p: nat)
    requires H.WellFormed(heap) && (p == 0 || p in H.LiveAddresses(base, heap))
    ensures H.WellFormed(Release(base, heap, p))
    ensures H.LiveAddresses(base, Release(base, heap, p)) == H.LiveAddresses(base, heap) - {p}
  {
    if p == 0 {
      LiveNotNull(base, heap);
    } else {
      var b := H.BlockAt(base, heap, p);
      HT.FreeWellFormed(heap, b);
      forall c | c in H.Live(heap) && c != b ensures H.AddressOf(base, c) != p {
        if H.AddressOf(base, c) == p {
          SameAddressSameBlock(base, heap, b, c);
        }
      }
    }
  }

  // ----- Who owns what

  /** The node a descriptor owns, if it is an open file. */
  function NodeOf(d: V.Desc): multiset<nat> {
    if d.kind == V.VfsFile then multiset{d.target} else multiset{}
  }

  function Nodes(fds: seq<V.Desc>): multiset<nat> {
    if fds == [] then multiset{} else NodeOf(fds[0]) + Nodes(fds[1..])
  }

  /** An address, unless it is NULL. */
  function One(a: nat): multiset<nat> {
    if a == 0 then multiset{} else multiset{a}
  }

  /** The blocks a task has: a stack that could not be allocated is NULL. */
  function BlocksOf(p: T.Proc): multiset<nat> {
    One(p.block) + One(p.kernelStack) + One(p.userStack)
  }

  predicate Complete(p: T.Proc) {
    p.block != 0 && p.kernelStack != 0 && p.userStack != 0
  }

  /** How many blocks a task has, and the tasks together. */
  function BlockCount(p: T.Proc): nat {
    (if p.block == 0 then 0 else 1) + (if p.kernelStack == 0 then 0 else 1) + (if p.userStack == 0 then 0 else 1)
  }

  function Allocations(ring: seq<T.Proc>): nat {
    if ring == [] then 0 else BlockCount(ring[0]) + Allocations(ring[1..])
  }

  function TaskBlocks(ring: seq<T.Proc>): multiset<nat> {
    if ring == [] then multiset{} else BlocksOf(ring[0]) + TaskBlocks(ring[1..])
  }

  function OpenFiles(fds: seq<V.Desc>): nat {
    if fds == [] then 0 else (if fds[0].kind == V.VfsFile then 1 else 0) + OpenFiles(fds[1..])
  }

  /** Every address some part of the kernel holds, as often as it is held. */
  function Owned(k: Kernel): multiset<nat> {
    multiset(k.mounts) + Nodes(k.vfs.fds) + TaskBlocks(k.tasks.ring)
  }

  /** Each live heap block is held by exactly one owner, and nothing else is held. */
  ghost predicate Inv(k: Kernel) {
    && k.base > 0 && H.WellFormed(k.heap)
    && D.Inv(k.vfs) && DevicesNull(k.vfs.fds)
    && T.WellFormed(k.tasks)
    && Balanced(k)
  }

  ghost predicate DevicesNull(fds: seq<V.Desc>) {
    forall f :: 0 <= f < |fds| && fds[f].kind == V.Device ==> fds[f].target == 0
  }

  ghost predicate Balanced(k: Kernel) {
    Owned(k) == multiset(H.LiveAddresses(k.base, k.heap))
  }

  // ----- Steps

  /** vfs_mount_core: the new mount point goes in front, unless malloc fails. */
  ghost function MountParts(base: nat, heap: seq<H.Block>, mounts: seq<nat>): (seq<H.Block>, seq<nat>) {
    var (heap', p) := Malloc(base, heap, MOUNT_SIZE);
    if p == 0 then (heap, mounts) else (heap', [p] + mounts)
  }

  ghost function Mount(k: Kernel): Kernel {
    var (heap, mounts) := MountParts(k.base, k.heap, k.mounts);
    k.(heap := heap, mounts := mounts)
  }

  /** vfs_open as a whole: descriptor, node, lookup with the given result, and the node's release on
    * failure. */
  ghost function OpenParts(base: nat, heap: seq<H.Block>, vfs: V.Vfs, result: int): (seq<H.Block>, V.Vfs, int)
    requires V.Sane(vfs) && base > 0 && H.WellFormed(heap)
  {
    if V.FirstEmpty(vfs.fds, 3) == V.MAX_FD then (heap, vfs, -24)
    else
      var (heap1, node) := Malloc(base, heap, NODE_SIZE);
      var (vfs1, fd, failed) := V.Open(vfs, node, result);
      MallocLive(base, heap, NODE_SIZE);
      (if failed then Release(base, heap1, node) else heap1, vfs1, fd)
  }

  ghost function OpenFile(k: Kernel, result: int): (r: (Kernel, int))
    requires V.Sane(k.vfs) && k.base > 0 && H.WellFormed(k.heap)
  {
    var (heap, vfs, fd) := OpenParts(k.base, k.heap, k.vfs, result);
    (k.(heap := heap, vfs := vfs), fd)
  }

  /** Closing frees a node only if the descriptor holds one. */
  ghost predicate CanFree(k: Kernel, fd: int)
    requires V.Sane(k.vfs)
  {
    V.Close(k.vfs, fd).2 != 0 ==> V.Close(k.vfs, fd).2 in H.LiveAddresses(k.base, k.heap)
  }

  ghost function CloseFile(k: Kernel, fd: int): (r: (Kernel, int))
    requires V.Sane(k.vfs) && CanFree(k, fd)
  {
    var (vfs, ret, node) := V.Close(k.vfs, fd);
    (k.(vfs := vfs, heap := if node == 0 then k.heap else Release(k.base, k.heap, node)), ret)
  }

  /** The three allocations of a new task; the later two are not checked for NULL by the code. */
  ghost function ThreeMallocs(base: nat, heap: seq<H.Block>): (seq<H.Block>, nat, nat, nat) {
    var (h1, block) := Malloc(base, heap, TASK_SIZE);
    var (h2, kernelStack) := Malloc(base, h1, STACK_SIZE);
    var (h3, userStack) := Malloc(base, h2, STACK_SIZE);
    (h3, block, kernelStack, userStack)
  }

  /** The task itself can be allocated; task_create writes to it without a check. */
  ghost predicate TaskAllocated(k: Kernel) {
    Malloc(k.base, k.heap, TASK_SIZE).1 != 0
  }

  ghost function NewTask(k: Kernel): Kernel
    requires k.tasks.ring != []
  {
    var (heap, block, kernelStack, userStack) := ThreeMallocs(k.base, k.heap);
    k.(heap := heap, tasks := T.Insert(k.tasks, block, kernelStack, userStack))
  }

  /** task_fork returns -12 when the task itself cannot be allocated; it does not check the stacks. */
  ghost function Fork(k: Kernel): (Kernel, int)
    requires k.tasks.ring != []
  {
    if !TaskAllocated(k) then (k, -12 as int) else (NewTask(k), k.tasks.nextPid)
  }

  /** The blocks of the current task, as far as it has them, are live and distinct. */
  ghost predicate OwnsItsBlocks(k: Kernel)
    requires k.tasks.cur < |k.tasks.ring|
  {
    var p := k.tasks.ring[k.tasks.cur];
    ThreeLive(k.base, k.heap, p.userStack, p.kernelStack, p.block)
  }

  ghost predicate ThreeLive(base: nat, heap: seq<H.Block>, a: nat, b: nat, c: nat) {
    var live := H.LiveAddresses(base, heap);
    && (a == 0 || (a in live && a != b && a != c))
    && (b == 0 || (b in live && b != c))
    && (c == 0 || c in live)
  }

  ghost function ThreeReleases(base: nat, heap: seq<H.Block>, a: nat, b: nat, c: nat): seq<H.Block>
    requires H.WellFormed(heap) && ThreeLive(base, heap, a, b, c)
  {
    ReleaseLive(base, heap, a);
    var h1 := Release(base, heap, a);
    ReleaseLive(base, h1, b);
    var h2 := Release(base, h1, b);
    Release(base, h2, c)
  }

  /** task_destroy: the stacks and the task itself are freed, in this order. */
  ghost function EndTask(k: Kernel): Kernel
    requires k.tasks.cur < |k.tasks.ring| && |k.tasks.ring| > 1 && H.WellFormed(k.heap) && OwnsItsBlocks(k)
  {
    var p := k.tasks.ring[k.tasks.cur];
    k.(heap := ThreeReleases(k.base, k.heap, p.userStack, p.kernelStack, p.block), tasks := T.Destroy(k.tasks))
  }

  // ----- Boot

  /** The allocations at boot: two mount points in vfs_init, then the first task in task_init. */
  ghost function BootHeap(base: nat): (seq<H.Block>, seq<nat>, T.Proc) {
    var (h1, m1) := MountParts(base, H.INITIAL, []);
    var (h2, m2) := MountParts(base, h1, m1);
    var (heap, block, kernelStack, userStack) := ThreeMallocs(base, h2);
    (heap, m2, T.Proc(1, block, kernelStack, userStack))
  }

  ghost function Boot(base: nat): Kernel {
    var (heap, mounts, first) := BootHeap(base);
    Kernel(base, heap, V.Boot(), mounts, T.Init(first))
  }

  /** Where only the last block is free and it is large enough, the request is cut off its front. */
  lemma CutFromLast(base: nat, bs: seq<H.Block>, last: H.Block, size: nat)
    requires (forall i :: 0 <= i < |bs| ==> !bs[i].free) && last.free && size <= 4096
    requires last.words > H.RoundedWords(size) + H.HEADER + 1
    ensures var n := H.RoundedWords(size);
      Malloc(base, bs + [last], size) ==
      (bs + [H.Block(last.at, n, false)] + [H.Block(last.at + H.HEADER + n, last.words - n - H.HEADER, true)],
       H.AddressOf(base, last))
  {
    var all, n := bs + [last], H.RoundedWords(size);
    assert forall k :: 0 <= k < |bs| ==> all[k] == bs[k];
    assert all[|bs|] == last;
    Ends(bs, last);
    var c := H.Carve(last, n);
    assert bs + c + [] == bs + [c[0]] + [c[1]];
  }

  lemma Ends(bs: seq<H.Block>, last: H.Block)
    ensures (bs + [last])[..|bs|] == bs && (bs + [last])[|bs| + 1..] == []
  {
  }

  /** What the heap looks like after the two mount points. */
  lemma BootMounts(base: nat)
    requires base > 0
    ensures var (h1, m1) := MountParts(base, H.INITIAL, []); var (h2, m2) := MountParts(base, h1, m1);
      && h2 == [H.Block(0, 10, false), H.Block(13, 10, false), H.Block(26, 16355, true)]
      && m2 == [H.AddressOf(base, h2[1]), H.AddressOf(base, h2[0])]
  {
    var m: H.Block := H.Block(0, 10, false);
    assert [] + H.INITIAL == H.INITIAL && [] + [m] == [m];
    CutFromLast(base, [], H.INITIAL[0], MOUNT_SIZE);
    CutFromLast(base, [m], H.Block(13, 16368, true), MOUNT_SIZE);
  }

  lemma BootMallocsSucceed(base: nat, mounted: seq<H.Block>)
    requires mounted == [H.Block(0, 10, false), H.Block(13, 10, false)] && base > 0
    ensures var (_, block, kernelStack, userStack) := ThreeMallocs(base, mounted + [H.Block(26, 16355, true)]);
      block != 0 && kernelStack != 0 && userStack != 0
  {
    var t, k := H.Block(26, 6, false), H.Block(35, 1024, false);
    CutFromLast(base, mounted, H.Block(26, 16355, true), TASK_SIZE);
    CutFromLast(base, mounted + [t], H.Block(35, 16346, true), STACK_SIZE);
    CutFromLast(base, mounted + [t] + [k], H.Block(1062, 15319, true), STACK_SIZE);
  }

  lemma {:induction false} NoNodes(fds: seq<V.Desc>)
    requires forall f :: 0 <= f < |fds| ==> fds[f].kind != V.VfsFile
    ensures Nodes(fds) == multiset{}
  {
    if fds != [] {
      NoNodes(fds[1..]);
    }
  }

  lemma MountsLive(base: nat)
    requires base > 0
    ensures var (h1, m1) := MountParts(base, H.INITIAL, []); var (h2, m2) := MountParts(base, h1, m1);
      && H.WellFormed(h2) && multiset(H.LiveAddresses(base, h2)) == multiset(m2)
  {
    HT.InitialWellFormed();
    BootMounts(base);
    assert H.LiveAddresses(base, H.INITIAL) == {};
    MallocLive(base, H.INITIAL, MOUNT_SIZE);
    MallocLive(base, MountParts(base, H.INITIAL, []).0, MOUNT_SIZE);
  }

  lemma BootIs(base: nat, heap: seq<H.Block>, vfs: V.Vfs, mounts: seq<nat>, first: T.Proc)
    requires base > 0 && (heap, mounts, first) == BootHeap(base) && vfs == V.Boot()
    ensures Kernel(base, heap, vfs, mounts, T.Init(first)) == Boot(base) && Inv(Boot(base))
  {
    BootInv(base);
  }

  lemma BootHeapLive(base: nat)
    requires base > 0
    ensures var (heap, mounts, first) := BootHeap(base);
      H.WellFormed(heap) && multiset(H.LiveAddresses(base, heap)) == multiset(mounts) + BlocksOf(first)
  {
    var (h1, m1) := MountParts(base, H.INITIAL, []);
    var (h2, m2) := MountParts(base, h1, m1);
    MountsLive(base);
    ThreeMallocsLive(base, h2, 1);
  }

  /** All five allocations succeed. */
  lemma BootComplete(base: nat)
    requires base > 0
    ensures var (heap, mounts, first) := BootHeap(base); |mounts| == 2 && Complete(first) && first.pid == 1
  {
    var (h1, m1) := MountParts(base, H.INITIAL, []);
    var (h2, m2) := MountParts(base, h1, m1);
    BootMounts(base);
    BootMallocsSucceed(base, h2[..2]);
    assert h2 == h2[..2] + [H.Block(26, 16355, true)];
  }

  lemma NothingOpenAtBoot()
    ensures Nodes(V.Boot().fds) == multiset{} && DevicesNull(V.Boot().fds)
  {
    NoNodes(V.Boot().fds);
  }

  lemma BootBalanced(base: nat)
    requires base > 0
    ensures H.WellFormed(Boot(base).heap) && Balanced(Boot(base))
  {
    BootHeapLive(base);
    NothingOpenAtBoot();
    TaskBlocksOne(BootHeap(base).2);
  }

  lemma BootInv(base: nat)
    requires base > 0
    ensures Inv(Boot(base))
  {
    BootBalanced(base);
    D.BootInv();
    NothingOpenAtBoot();
  }

  datatype Event =
    | MountEvent
    | OpenEvent(result: int)
    | CloseEvent(fd: int)
    | OtherCall(c: VR.Syscall)
    | NewTaskEvent
    | ForkEvent
    | EndTaskEvent
    | TickEvent

  ghost predicate Possible(k: Kernel, e: Event)
    requires Inv(k)
  {
    match e
    case CloseEvent(fd) => true
    case OtherCall(c) => !c.OpenCall? && !c.CloseCall?
    case NewTaskEvent => TaskAllocated(k)
    case EndTaskEvent => |k.tasks.ring| > 1
    case _ => true
  }

  // ----- Bookkeeping

  lemma Shift(a: multiset<nat>, b: multiset<nat>, c: multiset<nat>, x: multiset<nat>)
    ensures (x + a) + b + c == (a + b + c) + x
    ensures a + (b + x) + c == (a + b + c) + x
    ensures a + b + (c + x) == (a + b + c) + x
  {
  }

  lemma Front(h: multiset<nat>, a: multiset<nat>, x: multiset<nat>, b: multiset<nat>, y: multiset<nat>)
    requires a + x == b + y
    ensures (h + a) + x == (h + b) + y
  {
    assert (h + a) + x == h + (a + x);
    assert (h + b) + y == h + (b + y);
  }

  lemma Swap(x: multiset<nat>, r: multiset<nat>, y: multiset<nat>)
    ensures (x + r) + y == (y + r) + x
  {
  }

  lemma Cancel(a: multiset<nat>, b: multiset<nat>, x: multiset<nat>)
    requires a + x == b
    ensures a == b - x && x <= b
  {
    assert (a + x) - x == a;
  }

  lemma SetAdded(s: set<nat>, p: nat)
    requires p !in s
    ensures multiset(s + {p}) == multiset(s) + multiset{p}
  {
  }

  lemma SetRemoved(s: set<nat>, p: nat)
    requires 0 !in s && (p == 0 || p in s)
    ensures multiset(s - {p}) == multiset(s) - One(p)
  {
    if p == 0 {
      assert s - {p} == s;
    }
  }

  lemma {:induction false} NodesSet(fds: seq<V.Desc>, f: nat, d: V.Desc)
    requires f < |fds|
    ensures Nodes(fds[f := d]) + NodeOf(fds[f]) == Nodes(fds) + NodeOf(d)
    decreases f
  {
    if f == 0 {
      assert fds[f := d][1..] == fds[1..];
      Swap(NodeOf(d), Nodes(fds[1..]), NodeOf(fds[0]));
    } else {
      var rest := fds[1..][f - 1 := d];
      assert fds[f := d][1..] == rest && fds[f := d][0] == fds[0];
      NodesSet(fds[1..], f - 1, d);
      assert Nodes(fds[f := d]) == NodeOf(fds[0]) + Nodes(rest);
      Front(NodeOf(fds[0]), Nodes(fds[1..][f - 1 := d]), NodeOf(fds[f]), Nodes(fds[1..]), NodeOf(d));
    }
  }

  predicate SameFile(a: V.Desc, b: V.Desc) {
    (a.kind == V.VfsFile || b.kind == V.VfsFile) ==> a.kind == b.kind && a.target == b.target
  }

  lemma {:induction false} NodesSame(a: seq<V.Desc>, b: seq<V.Desc>)
    requires |a| == |b| && forall f :: 0 <= f < |a| ==> SameFile(a[f], b[f])
    ensures Nodes(a) == Nodes(b)
    decreases |a|
  {
    if a != [] {
      NodesSame(a[1..], b[1..]);
    }
  }

  lemma {:induction false} NodeHeld(fds: seq<V.Desc>, f: nat)
    requires f < |fds| && fds[f].kind == V.VfsFile
    ensures fds[f].target in Nodes(fds)
    decreases f
  {
    if f > 0 {
      NodeHeld(fds[1..], f - 1);
    }
  }

  lemma {:induction false} TaskBlocksSplit(a: seq<T.Proc>, b: seq<T.Proc>)
    ensures TaskBlocks(a + b) == TaskBlocks(a) + TaskBlocks(b)
    decreases |a|
  {
    if a == [] {
      assert a + b == b;
    } else {
      assert (a + b)[1..] == a[1..] + b;
      TaskBlocksSplit(a[1..], b);
    }
  }

  lemma TaskBlocksOne(p: T.Proc)
    ensures TaskBlocks([p]) == BlocksOf(p)
  {
    assert [p][1..] == [];
  }

  lemma {:induction false} NodesCount(fds: seq<V.Desc>)
    ensures |Nodes(fds)| == OpenFiles(fds)
    decreases |fds|
  {
    if fds != [] {
      NodesCount(fds[1..]);
    }
  }

  lemma BlocksCounted(p: T.Proc)
    ensures |BlocksOf(p)| == BlockCount(p)
  {
  }

  lemma {:induction false} TaskBlocksCount(ring: seq<T.Proc>)
    ensures |TaskBlocks(ring)| == Allocations(ring)
    decreases |ring|
  {
    if ring != [] {
      BlocksCounted(ring[0]);
      TaskBlocksCount(ring[1..]);
    }
  }

  /** There are three blocks for each task if and only if no allocation of a stack or task has failed. */
  lemma {:induction false} ThreeEachExactly(ring: seq<T.Proc>)
    ensures Allocations(ring) <= 3 * |ring|
    ensures Allocations(ring) == 3 * |ring| <==> forall i :: 0 <= i < |ring| ==> Complete(ring[i])
    decreases |ring|
  {
    if ring != [] {
      var rest := ring[1..];
      ThreeEachExactly(rest);
      assert BlockCount(ring[0]) <= 3 && (BlockCount(ring[0]) == 3 <==> Complete(ring[0]));
      assert forall i :: 0 <= i < |rest| ==> rest[i] == ring[i + 1];
      assert forall i :: 1 <= i < |ring| ==> ring[i] == rest[i - 1];
    }
  }

  // ----- Every step keeps the books

  lemma MountInv(k: Kernel)
    requires Inv(k)
    ensures Inv(Mount(k))
  {
    MallocLive(k.base, k.heap, MOUNT_SIZE);
    var (heap, p) := Malloc(k.base, k.heap, MOUNT_SIZE);
    if p != 0 {
      assert multiset([p] + k.mounts) == multiset{p} + multiset(k.mounts);
      Shift(multiset(k.mounts), Nodes(k.vfs.fds), TaskBlocks(k.tasks.ring), multiset{p});
      SetAdded(H.LiveAddresses(k.base, k.heap), p);
    }
  }

  /** An empty descriptor takes over a node. */
  lemma NodeTaken(fds: seq<V.Desc>, f: nat, node: nat)
    requires f < |fds| && fds[f].kind == V.Empty
    ensures Nodes(fds[f := V.Desc(V.VfsFile, 0, node)]) == Nodes(fds) + multiset{node}
  {
    NodesSet(fds, f, V.Desc(V.VfsFile, 0, node));
  }

  lemma NodeDropped(fds: seq<V.Desc>, f: nat)
    requires f < |fds|
    ensures Nodes(fds[f := V.Desc(V.Empty, 0, 0)]) + NodeOf(fds[f]) == Nodes(fds)
  {
    NodesSet(fds, f, V.Desc(V.Empty, 0, 0));
    assert NodeOf(V.Desc(V.Empty, 0, 0)) == multiset{};
  }

  lemma OpenFileInv(k: Kernel, result: int)
    requires Inv(k)
    ensures Inv(OpenFile(k, result).0)
  {
    var f := V.FirstEmpty(k.vfs.fds, 3);
    if f < V.MAX_FD {
      var (heap, node) := Malloc(k.base, k.heap, NODE_SIZE);
      MallocLive(k.base, k.heap, NODE_SIZE);
      D.OpenInv(k.vfs, node, result);
      if node != 0 {
        if result != 0 {
          ReleaseLive(k.base, heap, node);
          assert H.LiveAddresses(k.base, heap) - {node} == H.LiveAddresses(k.base, k.heap);
        } else {
          OpenedOwned(k, f, heap, node);
        }
      }
    }
  }

  lemma OpenedOwned(k: Kernel, f: nat, heap: seq<H.Block>, node: nat)
    requires Inv(k) && f < V.MAX_FD && k.vfs.fds[f].kind == V.Empty && node !in H.LiveAddresses(k.base, k.heap)
    requires H.LiveAddresses(k.base, heap) == H.LiveAddresses(k.base, k.heap) + {node}
    ensures var k' := k.(heap := heap, vfs := k.vfs.(fds := k.vfs.fds[f := V.Desc(V.VfsFile, 0, node)]));
      Balanced(k')
  {
    NodeTaken(k.vfs.fds, f, node);
    Shift(multiset(k.mounts), Nodes(k.vfs.fds), TaskBlocks(k.tasks.ring), multiset{node});
    SetAdded(H.LiveAddresses(k.base, k.heap), node);
  }

  /** A held address is live. */
  lemma HeldIsLive(k: Kernel, p: nat)
    requires Balanced(k) && p in Owned(k)
    ensures p in H.LiveAddresses(k.base, k.heap)
  {
  }

  /** What close hands to free is the node of an open file, and live. */
  lemma CloseFreesOwned(k: Kernel, fd: int)
    requires Inv(k)
    ensures CanFree(k, fd)
  {
    CloseReturnsNode(k.vfs, fd);
    if V.InRange(fd) && k.vfs.fds[fd].kind == V.VfsFile {
      NodeHeld(k.vfs.fds, fd);
      HeldIsLive(k, k.vfs.fds[fd].target);
    }
  }

  lemma CloseReturnsNode(s: V.Vfs, fd: int)
    requires V.Sane(s) && DevicesNull(s.fds)
    ensures V.Close(s, fd).2 != 0 ==> V.IsKind(s, fd, V.VfsFile) && V.Close(s, fd).2 == s.fds[fd].target
  {
  }

  lemma ClosedOwned(k: Kernel, fd: nat)
    requires Inv(k) && fd < V.MAX_FD && k.vfs.fds[fd].kind == V.VfsFile
    ensures var node := k.vfs.fds[fd].target;
      && node in H.LiveAddresses(k.base, k.heap) && node != 0
      && var h := Release(k.base, k.heap, node);
      && H.WellFormed(h)
      && Balanced(k.(heap := h, vfs := k.vfs.(fds := k.vfs.fds[fd := V.Desc(V.Empty, 0, 0)])))
  {
    var node := k.vfs.fds[fd].target;
    NodeHeld(k.vfs.fds, fd);
    HeldIsLive(k, node);
    LiveNotNull(k.base, k.heap);
    ReleaseLive(k.base, k.heap, node);
    SetRemoved(H.LiveAddresses(k.base, k.heap), node);
    NodeDropped(k.vfs.fds, fd);
    var fds := k.vfs.fds[fd := V.Desc(V.Empty, 0, 0)];
    Shift(multiset(k.mounts), Nodes(fds), TaskBlocks(k.tasks.ring), multiset{node});
    Cancel(multiset(k.mounts) + Nodes(fds) + TaskBlocks(k.tasks.ring), Owned(k), multiset{node});
  }

  /** A descriptor that holds no node gives nothing back. */
  lemma ClosedOther(k: Kernel, fd: nat)
    requires V.Sane(k.vfs) && DevicesNull(k.vfs.fds) && Balanced(k)
    requires fd < V.MAX_FD && k.vfs.fds[fd].kind != V.VfsFile && k.vfs.fds[fd].kind != V.Empty
    ensures V.Close(k.vfs, fd).2 == 0
    ensures Balanced(k.(vfs := V.Close(k.vfs, fd).0))
  {
    CloseEmptiesOne(k.vfs, fd);
    NodeDropped(k.vfs.fds, fd);
    var fds := k.vfs.fds[fd := V.Desc(V.Empty, 0, 0)];
    assert Nodes(fds) + multiset{} == Nodes(fds);
  }

  lemma CloseEmptiesOne(s: V.Vfs, fd: nat)
    requires V.Sane(s) && DevicesNull(s.fds) && fd < V.MAX_FD && s.fds[fd].kind != V.Empty
    ensures V.Close(s, fd).0.fds == s.fds[fd := V.Desc(V.Empty, 0, 0)]
    ensures s.fds[fd].kind != V.VfsFile ==> V.Close(s, fd).2 == 0
  {
  }

  lemma CloseBalanced(k: Kernel, fd: int)
    requires Inv(k)
    ensures CanFree(k, fd) && Balanced(CloseFile(k, fd).0) && H.WellFormed(CloseFile(k, fd).0.heap)
  {
    CloseFreesOwned(k, fd);
    if V.InRange(fd) && k.vfs.fds[fd].kind != V.Empty {
      if k.vfs.fds[fd].kind == V.VfsFile {
        ClosedOwned(k, fd);
        assert V.Close(k.vfs, fd).0 == k.vfs.(fds := k.vfs.fds[fd := V.Desc(V.Empty, 0, 0)]);
      } else {
        ClosedOther(k, fd);
      }
    }
  }

  lemma CloseDevices(s: V.Vfs, fd: int)
    requires V.Sane(s) && DevicesNull(s.fds)
    ensures DevicesNull(V.Close(s, fd).0.fds)
  {
  }

  lemma CloseFileInv(k: Kernel, fd: int)
    requires Inv(k)
    ensures CanFree(k, fd) && Inv(CloseFile(k, fd).0)
  {
    CloseBalanced(k, fd);
    CloseDevices(k.vfs, fd);
    D.CloseInv(k.vfs, fd);
  }

  ghost predicate FilesKept(s: V.Vfs, s': V.Vfs)
    requires V.Sane(s) && V.Sane(s')
  {
    forall f :: 0 <= f < V.MAX_FD ==>
      SameFile(s.fds[f], s'.fds[f]) && (s'.fds[f].kind == V.Device ==> s.fds[f].kind == V.Device && s'.fds[f].target == s.fds[f].target)
  }

  lemma PipeKeepsFiles(s: V.Vfs)
    requires V.Sane(s)
    ensures FilesKept(s, V.MakePipe(s).0)
  {
  }

  lemma SocketKeepsFiles(s: V.Vfs, domain: int, kind: int, protocol: int)
    requires V.Sane(s)
    ensures FilesKept(s, V.MakeSocket(s, domain, kind, protocol).0)
  {
  }

  lemma AcceptKeepsFiles(s: V.Vfs, fd: int)
    requires V.Sane(s)
    ensures FilesKept(s, V.Accept(s, fd).0)
  {
  }

  lemma OtherCallNodes(s: V.Vfs, c: VR.Syscall)
    requires V.Sane(s) && !c.OpenCall? && !c.CloseCall?
    ensures FilesKept(s, VR.Do(s, c).0)
  {
    match c {
      case PipeCall => PipeKeepsFiles(s);
      case SocketCall(domain, kind, protocol) => SocketKeepsFiles(s, domain, kind, protocol);
      case AcceptCall(fd) => AcceptKeepsFiles(s, fd);
      case _ => D.DataCallShape(s, c);
    }
  }

  lemma OtherCallInv(k: Kernel, c: VR.Syscall)
    requires Inv(k) && !c.OpenCall? && !c.CloseCall?
    ensures Inv(k.(vfs := VR.Do(k.vfs, c).0))
  {
    D.StepInv(k.vfs, c);
    OtherCallNodes(k.vfs, c);
    NodesSame(k.vfs.fds, VR.Do(k.vfs, c).0.fds);
  }

  lemma MallocAdds(base: nat, heap: seq<H.Block>, size: nat)
    requires H.WellFormed(heap) && base > 0
    ensures var (h, p) := Malloc(base, heap, size);
      H.WellFormed(h) && multiset(H.LiveAddresses(base, h)) == multiset(H.LiveAddresses(base, heap)) + One(p)
  {
    MallocLive(base, heap, size);
    var p := Malloc(base, heap, size).1;
    if p != 0 {
      SetAdded(H.LiveAddresses(base, heap), p);
    }
  }

  lemma ThreeMallocsLive(base: nat, heap: seq<H.Block>, pid: nat)
    requires H.WellFormed(heap) && base > 0
    ensures var (h, b, s, u) := ThreeMallocs(base, heap);
      && H.WellFormed(h)
      && multiset(H.LiveAddresses(base, h)) == multiset(H.LiveAddresses(base, heap)) + BlocksOf(T.Proc(pid, b, s, u))
  {
    var (h1, b) := Malloc(base, heap, TASK_SIZE);
    var (h2, s) := Malloc(base, h1, STACK_SIZE);
    MallocAdds(base, heap, TASK_SIZE);
    MallocAdds(base, h1, STACK_SIZE);
    MallocAdds(base, h2, STACK_SIZE);
    var (h, u) := Malloc(base, h2, STACK_SIZE);
    AddThree(multiset(H.LiveAddresses(base, heap)), One(b), One(s), One(u));
  }

  lemma AddThree(l: multiset<nat>, a: multiset<nat>, b: multiset<nat>, c: multiset<nat>)
    ensures l + a + b + c == l + (a + b + c)
  {
  }

  lemma BehindHead(head: T.Proc, p: T.Proc, rest: seq<T.Proc>)
    ensures TaskBlocks([head, p] + rest) == TaskBlocks([head] + rest) + BlocksOf(p)
  {
    TaskBlocksMiddle([head], p, rest);
    assert [head] + [p] == [head, p];
  }

  lemma BooksExtended(m: multiset<nat>, n: multiset<nat>, t: multiset<nat>, x: multiset<nat>, t': multiset<nat>,
                      live: multiset<nat>, live': multiset<nat>)
    requires m + n + t == live && t' == t + x && live' == live + x
    ensures m + n + t' == live'
  {
    Shift(m, n, t, x);
  }

  lemma TaskAdded(ring: seq<T.Proc>, p: T.Proc)
    requires ring != []
    ensures TaskBlocks([ring[0], p] + ring[1..]) == TaskBlocks(ring) + BlocksOf(p)
  {
    BehindHead(ring[0], p, ring[1..]);
    assert ring == [ring[0]] + ring[1..];
  }

  lemma NewTaskBalanced(k: Kernel)
    requires Balanced(k) && H.WellFormed(k.heap) && k.base > 0 && k.tasks.ring != []
    ensures Balanced(NewTask(k)) && H.WellFormed(NewTask(k).heap)
  {
    var (heap, b, s, u) := ThreeMallocs(k.base, k.heap);
    var p, ring := T.Proc(k.tasks.nextPid, b, s, u), k.tasks.ring;
    ThreeMallocsLive(k.base, k.heap, k.tasks.nextPid);
    TaskAdded(ring, p);
    BooksExtended(multiset(k.mounts), Nodes(k.vfs.fds), TaskBlocks(ring), BlocksOf(p), TaskBlocks([ring[0], p] + ring[1..]),
                  multiset(H.LiveAddresses(k.base, k.heap)), multiset(H.LiveAddresses(k.base, heap)));
  }

  /** A new task takes over the blocks that could be allocated, which nobody else holds. */
  lemma NewTaskInv(k: Kernel)
    requires Inv(k)
    ensures Inv(NewTask(k))
  {
    var (_, b, s, u) := ThreeMallocs(k.base, k.heap);
    NewTaskBalanced(k);
    T.StepWellFormed(k.tasks, T.Create(b, s, u));
  }

  /** A fork takes over blocks nobody else holds, or fails and changes nothing. */
  lemma ForkInv(k: Kernel)
    requires Inv(k)
    ensures Inv(Fork(k).0) && (Fork(k).1 < 0 <==> !TaskAllocated(k))
    ensures Fork(k).1 < 0 ==> Fork(k).0 == k && Fork(k).1 == -12
    ensures Fork(k).1 >= 0 ==> |Fork(k).0.tasks.ring| == |k.tasks.ring| + 1 && Fork(k).1 == Fork(k).0.tasks.ring[1].pid
  {
    if TaskAllocated(k) {
      NewTaskInv(k);
    }
  }

  lemma TaskBlocksMiddle(a: seq<T.Proc>, p: T.Proc, b: seq<T.Proc>)
    ensures TaskBlocks(a + [p] + b) == TaskBlocks(a + b) + BlocksOf(p)
  {
    TaskBlocksSplit(a + [p], b);
    TaskBlocksSplit(a, [p]);
    TaskBlocksSplit(a, b);
    TaskBlocksOne(p);
    Shift(TaskBlocks(a), multiset{}, TaskBlocks(b), BlocksOf(p));
  }

  lemma TaskBlocksAt(ring: seq<T.Proc>, i: nat)
    requires i < |ring|
    ensures TaskBlocks(ring) == TaskBlocks(ring[..i] + ring[i + 1..]) + BlocksOf(ring[i])
  {
    var a, p, b := ring[..i], ring[i], ring[i + 1..];
    RingAt(ring, i);
    TaskBlocksMiddle(a, p, b);
  }

  lemma RingAt(ring: seq<T.Proc>, i: nat)
    requires i < |ring|
    ensures ring == ring[..i] + [ring[i]] + ring[i + 1..]
  {
  }

  lemma BooksReduced(m: multiset<nat>, n: multiset<nat>, t: multiset<nat>, x: multiset<nat>, t': multiset<nat>)
    requires t == t' + x
    ensures x <= m + n + t && m + n + t' == (m + n + t) - x
  {
    Shift(m, n, t', x);
    Cancel(m + n + t', m + n + t, x);
  }

  lemma BooksWithout(m: multiset<nat>, n: multiset<nat>, ring: seq<T.Proc>, i: nat)
    requires i < |ring|
    ensures BlocksOf(ring[i]) <= m + n + TaskBlocks(ring)
    ensures m + n + TaskBlocks(ring[..i] + ring[i + 1..]) == (m + n + TaskBlocks(ring)) - BlocksOf(ring[i])
  {
    TaskBlocksAt(ring, i);
    BooksReduced(m, n, TaskBlocks(ring), BlocksOf(ring[i]), TaskBlocks(ring[..i] + ring[i + 1..]));
  }

  /** What is left when the current task lets go of its blocks. */
  lemma OwnedWithoutCurrent(k: Kernel)
    requires k.tasks.cur < |k.tasks.ring|
    ensures var p, ring := k.tasks.ring[k.tasks.cur], k.tasks.ring[..k.tasks.cur] + k.tasks.ring[k.tasks.cur + 1..];
      && BlocksOf(p) <= Owned(k)
      && multiset(k.mounts) + Nodes(k.vfs.fds) + TaskBlocks(ring) == Owned(k) - BlocksOf(p)
  {
    BooksWithout(multiset(k.mounts), Nodes(k.vfs.fds), k.tasks.ring, k.tasks.cur);
  }

  /** Numbers other than 0 that a set holds as a multiset are distinct members of it. */
  lemma ThreeOfSet(s: set<nat>, a: nat, b: nat, c: nat)
    requires 0 !in s && One(a) + One(b) + One(c) <= multiset(s)
    ensures (a == 0 || (a in s && a != b && a != c)) && (b == 0 || (b in s && b != c)) && (c == 0 || c in s)
    ensures multiset(s - {c} - {b} - {a}) == multiset(s) - (One(a) + One(b) + One(c))
  {
    var m: multiset<nat> := One(a) + One(b) + One(c);
    assert m[a] <= multiset(s)[a] <= 1 && m[b] <= multiset(s)[b] <= 1 && m[c] <= multiset(s)[c] <= 1;
    SetRemoved(s, c);
    SetRemoved(s - {c}, b);
    SetRemoved(s - {c} - {b}, a);
    var all: multiset<nat> := multiset(s);
    assert all - One(c) - One(b) - One(a) == all - m;
  }

  lemma TwoReleasesLive(base: nat, heap: seq<H.Block>, b: nat, c: nat)
    requires H.WellFormed(heap)
    requires var live := H.LiveAddresses(base, heap); (b == 0 || (b in live && b != c)) && (c == 0 || c in live)
    ensures var h := Release(base, heap, b);
      && (c == 0 || c in H.LiveAddresses(base, h))
      && H.WellFormed(Release(base, h, c))
      && H.LiveAddresses(base, Release(base, h, c)) == H.LiveAddresses(base, heap) - {b} - {c}
  {
    ReleaseLive(base, heap, b);
    ReleaseLive(base, Release(base, heap, b), c);
  }

  lemma ThreeReleasesLive(base: nat, heap: seq<H.Block>, a: nat, b: nat, c: nat)
    requires H.WellFormed(heap) && ThreeLive(base, heap, a, b, c)
    ensures var h := ThreeReleases(base, heap, a, b, c);
      H.WellFormed(h) && H.LiveAddresses(base, h) == H.LiveAddresses(base, heap) - {a} - {b} - {c}
  {
    LiveNotNull(base, heap);
    ReleaseLive(base, heap, a);
    TwoReleasesLive(base, Release(base, heap, a), b, c);
  }

  /** What the current task frees is its own: live, and no block twice. */
  lemma FreesItsOwn(k: Kernel)
    requires k.tasks.cur < |k.tasks.ring| && Balanced(k)
    ensures OwnsItsBlocks(k)
    ensures var p, live := k.tasks.ring[k.tasks.cur], H.LiveAddresses(k.base, k.heap);
      multiset(live - {p.userStack} - {p.kernelStack} - {p.block}) == multiset(live) - BlocksOf(p)
  {
    var p := k.tasks.ring[k.tasks.cur];
    OwnedWithoutCurrent(k);
    LiveNotNull(k.base, k.heap);
    ThreeOfSet(H.LiveAddresses(k.base, k.heap), p.block, p.kernelStack, p.userStack);
  }

  lemma EndTaskBalanced(k: Kernel)
    requires k.tasks.cur < |k.tasks.ring| && |k.tasks.ring| > 1 && H.WellFormed(k.heap) && Balanced(k)
    ensures OwnsItsBlocks(k) && Balanced(EndTask(k)) && H.WellFormed(EndTask(k).heap)
  {
    var p := k.tasks.ring[k.tasks.cur];
    FreesItsOwn(k);
    OwnedAfterEnd(k);
    ThreeReleasesLive(k.base, k.heap, p.userStack, p.kernelStack, p.block);
  }

  lemma OwnedAfterEnd(k: Kernel)
    requires k.tasks.cur < |k.tasks.ring| && |k.tasks.ring| > 1 && H.WellFormed(k.heap) && OwnsItsBlocks(k)
    ensures Owned(EndTask(k)) == Owned(k) - BlocksOf(k.tasks.ring[k.tasks.cur])
  {
    OwnedWithoutCurrent(k);
  }

  lemma EndTaskInv(k: Kernel)
    requires Inv(k) && |k.tasks.ring| > 1
    ensures OwnsItsBlocks(k) && Inv(EndTask(k))
  {
    EndTaskBalanced(k);
    T.StepWellFormed(k.tasks, T.Exit);
  }

  ghost function Step(k: Kernel, e: Event): (k': Kernel)
    requires Inv(k) && Possible(k, e)
    ensures Inv(k')
  {
    match e
    case MountEvent => MountInv(k); Mount(k)
    case OpenEvent(result) => OpenFileInv(k, result); OpenFile(k, result).0
    case CloseEvent(fd) => CloseFileInv(k, fd); CloseFile(k, fd).0
    case OtherCall(c) => OtherCallInv(k, c); k.(vfs := VR.Do(k.vfs, c).0)
    case NewTaskEvent => NewTaskInv(k); NewTask(k)
    case ForkEvent => ForkInv(k); Fork(k).0
    case EndTaskEvent => EndTaskInv(k); EndTask(k)
    case TickEvent => T.StepWellFormed(k.tasks, T.Tick); k.(tasks := T.Schedule(k.tasks))
  }

  ghost predicate Legal(k: Kernel, es: seq<Event>)
    requires Inv(k)
    decreases |es|
  {
    es == [] || (Possible(k, es[0]) && Legal(Step(k, es[0]), es[1..]))
  }

  ghost function Run(k: Kernel, es: seq<Event>): (k': Kernel)
    requires Inv(k) && Legal(k, es)
    ensures Inv(k')
    decreases |es|
  {
    if es == [] then k else Run(Step(k, es[0]), es[1..])
  }

  /** In every state a run can reach, the heap blocks in use are one for each mount point, one for each
    * open file and those of the tasks, each held once: none is leaked and none held twice. They are three
    * for each task if and only if every allocation for the tasks in the ring has succeeded. */
  lemma HeapAccounting(k: Kernel, es: seq<Event>)
    requires Inv(k) && Legal(k, es)
    ensures var t := Run(k, es);
      && |H.Live(t.heap)| == |t.mounts| + OpenFiles(t.vfs.fds) + Allocations(t.tasks.ring)
      && (|H.Live(t.heap)| == |t.mounts| + OpenFiles(t.vfs.fds) + 3 * |t.tasks.ring| <==>
            forall i :: 0 <= i < |t.tasks.ring| ==> Complete(t.tasks.ring[i]))
      && Owned(t) == multiset(H.LiveAddresses(t.base, t.heap))
  {
    var t := Run(k, es);
    NodesCount(t.vfs.fds);
    TaskBlocksCount(t.tasks.ring);
    ThreeEachExactly(t.tasks.ring);
    assert |Owned(t)| == |multiset(t.mounts)| + |Nodes(t.vfs.fds)| + |TaskBlocks(t.tasks.ring)|;
    LiveCount(t.base, t.heap, H.Live(t.heap));
    assert H.LiveAddresses(t.base, t.heap) == set b | b in H.Live(t.heap) :: H.AddressOf(t.base, b);
  }

  /** Different live blocks have different addresses, so there are as many addresses as blocks. */
  lemma {:induction false} LiveCount(base: nat, heap: seq<H.Block>, some: set<H.Block>)
    requires H.WellFormed(heap) && some <= H.Live(heap)
    ensures |set b | b in some :: H.AddressOf(base, b)| == |some|
    decreases |some|
  {
    if some != {} {
      var c :| c in some;
      LiveCount(base, heap, some - {c});
      var rest := set b | b in some - {c} :: H.AddressOf(base, b);
      forall b | b in some - {c} ensures H.AddressOf(base, b) != H.AddressOf(base, c) {
        if H.AddressOf(base, b) == H.AddressOf(base, c) {
          SameAddressSameBlock(base, heap, b, c);
        }
      }
      assert (set b | b in some :: H.AddressOf(base, b)) == rest + {H.AddressOf(base, c)};
    }
  }

  // ----- What the blocks are large enough for

  /** The address is that of a live block of `bytes` bytes or more. */
  ghost predicate Fits(base: nat, heap: seq<H.Block>, p: nat, bytes: nat) {
    p in H.LiveAddresses(base, heap) && 4 * H.BlockAt(base, heap, p).words >= bytes
  }

  lemma MallocFits(base: nat, heap: seq<H.Block>, size: nat)
    requires H.WellFormed(heap) && base > 0 && size <= 0xFFFF_FFFC
    ensures var (heap', p) := Malloc(base, heap, size); p != 0 ==> Fits(base, heap', p, size)
  {
    var n := H.RoundedWords(size);
    HT.AllocLive(heap, n);
    HT.AllocWellFormed(heap, n);
    var (heap', r) := H.Alloc(heap, n);
    if r.Some? {
      var p := H.AddressOf(base, r.value);
      assert p in H.LiveAddresses(base, heap');
      SameAddressSameBlock(base, heap', r.value, H.BlockAt(base, heap', p));
    }
  }

  lemma StillFits(base: nat, heap: seq<H.Block>, size: nat, p: nat, bytes: nat)
    requires H.WellFormed(heap) && base > 0 && Fits(base, heap, p, bytes)
    ensures Fits(base, Malloc(base, heap, size).0, p, bytes)
  {
    HT.AllocLive(heap, H.RoundedWords(size));
    HT.AllocWellFormed(heap, H.RoundedWords(size));
    var heap', b := Malloc(base, heap, size).0, H.BlockAt(base, heap, p);
    assert b in H.Live(heap') && H.AddressOf(base, b) == p;
    SameAddressSameBlock(base, heap', b, H.BlockAt(base, heap', p));
  }

  /** Opening fails for want of a descriptor, of memory, or of the file, in this order, and then no block
    * more is in use. Otherwise the descriptor has a block of its own, large enough for a node of 52 bytes. */
  lemma OpenFileExactly(k: Kernel, result: int)
    requires Inv(k)
    ensures var (k', r) := OpenFile(k, result);
      if forall f :: 3 <= f < V.MAX_FD ==> k.vfs.fds[f].kind != V.Empty then r == -24 && k' == k
      else if Malloc(k.base, k.heap, 52).1 == 0 then r == -12 && k' == k
      else if result != 0 then
        r == result && k'.vfs == k.vfs && H.LiveAddresses(k.base, k'.heap) == H.LiveAddresses(k.base, k.heap)
      else
        && 3 <= r < V.MAX_FD && k.vfs.fds[r].kind == V.Empty && k'.vfs.fds[r].kind == V.VfsFile
        && k'.vfs.fds[r].target !in H.LiveAddresses(k.base, k.heap) && Fits(k.base, k'.heap, k'.vfs.fds[r].target, 52)
  {
    var f := V.FirstEmpty(k.vfs.fds, 3);
    if f < V.MAX_FD {
      assert k.vfs.fds[f].kind == V.Empty;
      MallocLive(k.base, k.heap, NODE_SIZE);
      MallocFits(k.base, k.heap, NODE_SIZE);
      var (heap, node) := Malloc(k.base, k.heap, NODE_SIZE);
      if node != 0 && result != 0 {
        ReleaseLive(k.base, heap, node);
      }
    }
  }

  /** Closing fails exactly for a descriptor that is not open. Otherwise it is free again, and if it was that
    * of a file, exactly its node is no longer in use. */
  lemma CloseFileExactly(k: Kernel, fd: int)
    requires Inv(k)
    ensures CanFree(k, fd)
    ensures var (k', r) := CloseFile(k, fd);
      if !V.InRange(fd) || k.vfs.fds[fd].kind == V.Empty then r == -9 && k' == k
      else
        && r == 0 && k'.vfs.fds[fd].kind == V.Empty && k'.tasks == k.tasks && k'.mounts == k.mounts
        && if k.vfs.fds[fd].kind == V.VfsFile then
             H.LiveAddresses(k.base, k'.heap) == H.LiveAddresses(k.base, k.heap) - {k.vfs.fds[fd].target}
           else k'.heap == k.heap
  {
    CloseFreesOwned(k, fd);
    if V.InRange(fd) && k.vfs.fds[fd].kind != V.Empty {
      CloseEmptiesOne(k.vfs, fd);
      if k.vfs.fds[fd].kind == V.VfsFile {
        ClosedOwned(k, fd);
        ReleaseLive(k.base, k.heap, k.vfs.fds[fd].target);
      }
    }
  }

  /** A new task has 24 bytes for itself and 4096 for each stack, as far as they could be allocated. */
  lemma NewTaskFits(k: Kernel)
    requires Inv(k)
    ensures var p := NewTask(k).tasks.ring[1];
      && (p.block != 0 ==> Fits(k.base, NewTask(k).heap, p.block, 24))
      && (p.kernelStack != 0 ==> Fits(k.base, NewTask(k).heap, p.kernelStack, 4096))
      && (p.userStack != 0 ==> Fits(k.base, NewTask(k).heap, p.userStack, 4096))
  {
    var (h1, b) := Malloc(k.base, k.heap, TASK_SIZE);
    var (h2, s) := Malloc(k.base, h1, STACK_SIZE);
    MallocAdds(k.base, k.heap, TASK_SIZE);
    MallocAdds(k.base, h1, STACK_SIZE);
    MallocFits(k.base, k.heap, TASK_SIZE);
    MallocFits(k.base, h1, STACK_SIZE);
    MallocFits(k.base, h2, STACK_SIZE);
    if b != 0 {
      StillFits(k.base, h1, STACK_SIZE, b, 24);
      StillFits(k.base, h2, STACK_SIZE, b, 24);
    }
    if s != 0 {
      StillFits(k.base, h2, STACK_SIZE, s, 4096);
    }
  }

  /** A mount point has 40 bytes, and comes before those mounted earlier. */
  lemma MountFits(k: Kernel)
    requires Inv(k)
    ensures var k' := Mount(k);
      if Malloc(k.base, k.heap, 40).1 == 0 then k' == k
      else |k'.mounts| == |k.mounts| + 1 && k'.mounts[1..] == k.mounts && Fits(k.base, k'.heap, k'.mounts[0], 40)
  {
    MallocLive(k.base, k.heap, MOUNT_SIZE);
    MallocFits(k.base, k.heap, MOUNT_SIZE);
  }
}
