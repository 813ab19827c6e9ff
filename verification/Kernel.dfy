/** The calls that cross module boundaries: opening and closing files, starting and ending tasks, each
  * with its allocations. */
module KernelImpl {
  import opened Prelude
  import HA = HeapAllocator
  import H = HeapSpec
  import V = VfsSpec
  import VI = VfsImpl
  import TI = TaskImpl
  import T = TaskSpec
  import K = KernelSpec

  /** malloc of api.c. */
  method Malloc(heap: HA.Heap, size: nat) returns (p: nat)
    requires heap.Valid() && size < TWO_32
    modifies heap`initialized, heap`blocks, heap.mem
    ensures heap.Valid()
    ensures (heap.blocks, p) == K.Malloc(heap.base, old(heap.blocks), size)
  {
    p := heap.Allocate(size);
  }

  /** free of api.c, for NULL or an address that is live. */
  method Release(heap: HA.Heap, p: nat)
    requires heap.Valid() && (p == 0 || p in H.LiveAddresses(heap.base, heap.blocks))
    modifies heap`blocks, heap.mem
    ensures heap.Valid()
    ensures heap.blocks == K.Release(heap.base, old(heap.blocks), p)
  {
    heap.Deallocate(p);
  }

  /** The allocations of a new task. */
  method ThreeMallocs(heap: HA.Heap) returns (block: nat, kernelStack: nat, userStack: nat)
    requires heap.Valid()
    modifies heap`initialized, heap`blocks, heap.mem
    ensures heap.Valid()
    ensures (heap.blocks, block, kernelStack, userStack) == K.ThreeMallocs(heap.base, old(heap.blocks))
  {
    block := Malloc(heap, K.TASK_SIZE);
    kernelStack := Malloc(heap, K.STACK_SIZE);
    userStack := Malloc(heap, K.STACK_SIZE);
  }

  /** vfs_mount_core; the mount points are linked newest first. */
  method MountOn(heap: HA.Heap, mounts: seq<nat>) returns (mounts': seq<nat>)
    requires heap.Valid()
    modifies heap`initialized, heap`blocks, heap.mem
    ensures heap.Valid()
    ensures (heap.blocks, mounts') == K.MountParts(heap.base, old(heap.blocks), mounts)
  {
    K.MallocLive(heap.base, heap.blocks, K.MOUNT_SIZE);
    var p := Malloc(heap, K.MOUNT_SIZE);
    mounts' := if p == 0 then mounts else [p] + mounts;
  }

  /** The heap after vfs_init and task_init. */
  method BootHeap(base: nat) returns (heap: HA.Heap, mounts: seq<nat>, block: nat, kernelStack: nat, userStack: nat)
    requires base % 4 == 0 && 0 < base && base + 4 * H.HEAP_WORDS <= TWO_32
    ensures heap.Valid() && fresh(heap) && fresh(heap.mem) && heap.base == base
    ensures (heap.blocks, mounts, T.Proc(1, block, kernelStack, userStack)) == K.BootHeap(base)
  {
    heap := new HA.Heap(base);
    mounts := MountOn(heap, []);
    mounts := MountOn(heap, mounts);
    block, kernelStack, userStack := ThreeMallocs(heap);
  }

  method BootParts(base: nat) returns (heap: HA.Heap, mounts: seq<nat>, vfs: VI.VfsTables, tasks: TI.Scheduler)
    requires base % 4 == 0 && 0 < base && base + 4 * H.HEAP_WORDS <= TWO_32
    ensures heap.Valid() && vfs.Valid() && tasks.Valid()
    ensures heap.base == base && K.Kernel(base, heap.blocks, vfs.State(), mounts, tasks.View()) == K.Boot(base)
    ensures fresh(heap) && fresh(heap.mem) && fresh(vfs) && fresh(tasks)
    ensures fresh(vfs.fds) && fresh(vfs.pipes) && fresh(vfs.unix) && fresh(vfs.inet) && fresh(tasks.ring)
  {
    var block, kernelStack, userStack;
    heap, mounts, block, kernelStack, userStack := BootHeap(base);
    vfs := new VI.VfsTables();
    ghost var tables := vfs.State();
    tasks := new TI.Scheduler(block, kernelStack, userStack);
    assert vfs.State() == tables;
    K.BootIs(base, heap.blocks, tables, mounts, T.Proc(1, block, kernelStack, userStack));
  }

  /** The two stacks of a new task, and its place in the ring. */
  method AddChild(heap: HA.Heap, tasks: TI.Scheduler, block: nat) returns (pid: nat)
    requires heap.Valid() && tasks.Valid()
    modifies heap`initialized, heap`blocks, heap.mem, tasks, tasks.head
    ensures heap.Valid() && tasks.Valid() && pid == old(tasks.nextPid)
    ensures var (h1, kernelStack) := K.Malloc(heap.base, old(heap.blocks), K.STACK_SIZE);
      var (h2, userStack) := K.Malloc(heap.base, h1, K.STACK_SIZE);
      heap.blocks == h2 && tasks.View() == T.Insert(old(tasks.View()), block, kernelStack, userStack)
  {
    var kernelStack := Malloc(heap, K.STACK_SIZE);
    var userStack := Malloc(heap, K.STACK_SIZE);
    pid := tasks.Insert(block, kernelStack, userStack);
  }

  /** The releases of a dead task. */
  method ThreeReleases(heap: HA.Heap, a: nat, b: nat, c: nat)
    requires heap.Valid() && K.ThreeLive(heap.base, heap.blocks, a, b, c)
    modifies heap`blocks, heap.mem
    ensures heap.Valid()
    ensures heap.blocks == K.ThreeReleases(heap.base, old(heap.blocks), a, b, c)
  {
    K.ReleaseLive(heap.base, heap.blocks, a);
    Release(heap, a);
    K.ReleaseLive(heap.base, heap.blocks, b);
    Release(heap, b);
    Release(heap, c);
  }

  /** The end of the current task, unless it is the last. */
  method EndOn(heap: HA.Heap, tasks: TI.Scheduler) returns (halted: bool)
    requires heap.Valid() && tasks.Valid()
    requires |tasks.ring| > 1 ==>
      var p := tasks.View().ring[tasks.cur]; K.ThreeLive(heap.base, heap.blocks, p.userStack, p.kernelStack, p.block)
    modifies heap`blocks, heap.mem, tasks, tasks.ring
    ensures heap.Valid() && tasks.Valid()
    ensures halted == (|old(tasks.ring)| == 1)
    ensures halted ==> heap.blocks == old(heap.blocks) && tasks.View() == old(tasks.View())
    ensures !halted ==> var p := old(tasks.View()).ring[old(tasks.cur)];
      && heap.blocks == K.ThreeReleases(heap.base, old(heap.blocks), p.userStack, p.kernelStack, p.block)
      && tasks.View() == T.Destroy(old(tasks.View()))
  {
    var freed;
    halted, freed := tasks.Destroy();
    if !halted {
      ThreeReleases(heap, freed[0], freed[1], freed[2]);
    }
  }

  /** The part of vfs_open that involves the heap. */
  method OpenOn(heap: HA.Heap, vfs: VI.VfsTables, result: int) returns (fd: int)
    requires heap.Valid() && vfs.Valid()
    modifies heap`initialized, heap`blocks, heap.mem, vfs.fds
    ensures heap.Valid() && vfs.Valid()
    ensures (heap.blocks, vfs.State(), fd) == K.OpenParts(heap.base, old(heap.blocks), old(vfs.State()), result)
  {
    var f := vfs.FindEmptyFd();
    if f == V.MAX_FD {
      return -24;
    }
    K.MallocLive(heap.base, heap.blocks, K.NODE_SIZE);
    var node := Malloc(heap, K.NODE_SIZE);
    var failed;
    fd, failed := vfs.Open(node, result);
    if failed {
      Release(heap, node);
    }
  }

  class Machine {
    const heap: HA.Heap
    const vfs: VI.VfsTables
    const tasks: TI.Scheduler
    var mounts: seq<nat>

    /** The parts are in order. That their books match, `K.Inv(View())`, is kept by every step: see
      * KernelSpec.Step. */
    ghost predicate Valid()
      reads this, heap, heap.mem, vfs, vfs.fds, vfs.pipes, vfs.unix, vfs.inet, tasks, tasks.ring
    {
      heap.Valid() && vfs.Valid() && tasks.Valid()
    }

    ghost function View(): K.Kernel
      reads this, heap, vfs, vfs.fds, vfs.pipes, vfs.unix, vfs.inet, tasks, tasks.ring
    {
      K.Kernel(heap.base, heap.blocks, vfs.State(), mounts, tasks.View())
    }

    constructor (heap: HA.Heap, vfs: VI.VfsTables, tasks: TI.Scheduler, mounts: seq<nat>)
      requires heap.Valid() && vfs.Valid() && tasks.Valid()
      ensures this.heap == heap && this.vfs == vfs && this.tasks == tasks && this.mounts == mounts
      ensures Valid() && View() == old(K.Kernel(heap.base, heap.blocks, vfs.State(), mounts, tasks.View()))
    {
      this.heap, this.vfs, this.tasks, this.mounts := heap, vfs, tasks, mounts;
    }

    /** vfs_mount_core. */
    method Mount()
      requires Valid()
      modifies this, heap`initialized, heap`blocks, heap.mem
      ensures Valid() && View() == K.Mount(old(View()))
    {
      ghost var k := View();
      mounts := MountOn(heap, mounts);
      assert View() == K.Mount(k);
    }

    /** vfs_open. `result` is what the driver or the ram file system made of the path. */
    method OpenFile(result: int) returns (fd: int)
      requires Valid()
      modifies heap`initialized, heap`blocks, heap.mem, vfs.fds
      ensures Valid() && (View(), fd) == K.OpenFile(old(View()), result)
    {
      fd := OpenOn(heap, vfs, result);
    }

    /** vfs_close. */
    method CloseFile(fd: int) returns (r: int)
      requires Valid() && K.CanFree(View(), fd)
      modifies heap`blocks, heap.mem, vfs.fds, vfs.pipes, vfs.unix, vfs.inet
      ensures Valid() && (View(), r) == K.CloseFile(old(View()), fd)
    {
      ghost var k := View();
      var node;
      r, node := vfs.Close(fd);
      if node != 0 {
        Release(heap, node);
      }
      assert (View(), r) == K.CloseFile(k, fd);
    }

    /** task_create. The task itself has to be allocated: the code writes to it without a check. */
    method NewTask() returns (pid: nat)
      requires Valid() && K.TaskAllocated(View())
      modifies heap`initialized, heap`blocks, heap.mem, tasks, tasks.head
      ensures Valid() && View() == K.NewTask(old(View())) && pid == old(tasks.nextPid)
    {
      ghost var k := View();
      K.MallocLive(heap.base, heap.blocks, K.TASK_SIZE);
      var block := Malloc(heap, K.TASK_SIZE);
      pid := AddChild(heap, tasks, block);
      assert vfs.State() == k.vfs;
      assert View() == K.NewTask(k);
    }

    /** task_fork, without the copying of stacks. A failing allocation of the task is reported. */
    method Fork() returns (r: int)
      requires Valid()
      modifies heap`initialized, heap`blocks, heap.mem, tasks, tasks.head
      ensures Valid() && (View(), r) == K.Fork(old(View()))
    {
      ghost var k := View();
      K.MallocLive(heap.base, heap.blocks, K.TASK_SIZE);
      var block := Malloc(heap, K.TASK_SIZE);
      if block == 0 {
        assert View() == k;
        return -12;
      }
      r := AddChild(heap, tasks, block);
      assert vfs.State() == k.vfs;
      assert View() == K.NewTask(k);
    }

    /** task_destroy up to the context switch. The last task halts the machine instead. */
    method EndTask() returns (halted: bool)
      requires Valid() && (|tasks.ring| > 1 ==> K.OwnsItsBlocks(View()))
      modifies heap`blocks, heap.mem, tasks, tasks.ring
      ensures Valid()
      ensures halted == (|old(tasks.ring)| == 1)
      ensures if halted then View() == old(View()) else View() == K.EndTask(old(View()))
    {
      ghost var k := View();
      halted := EndOn(heap, tasks);
      assert vfs.State() == k.vfs;
      assert View() == if halted then k else K.EndTask(k);
    }
  }

  /** The part of kernel_main that fills these structures: vfs_init, then task_init. */
  method BootMachine(base: nat) returns (machine: Machine)
    requires base % 4 == 0 && 0 < base && base + 4 * H.HEAP_WORDS <= TWO_32
    ensures machine.Valid() && machine.View() == K.Boot(base)
    ensures var h, v, t := machine.heap, machine.vfs, machine.tasks;
      && fresh(machine) && fresh(h) && fresh(h.mem) && fresh(v) && fresh(t)
      && fresh(v.fds) && fresh(v.pipes) && fresh(v.unix) && fresh(v.inet) && fresh(t.ring)
  {
    var heap, mounts, vfs, tasks := BootParts(base);
    machine := new Machine(heap, vfs, tasks, mounts);
  }
}
