/** The linked ring of tasks itself. */
module TaskImpl {
  import opened TaskSpec

  class Task {
    var pid: nat
    var block: nat
    var kernelStack: nat
    var userStack: nat
    var next: Task

    constructor (pid: nat, block: nat, kernelStack: nat, userStack: nat)
      ensures this.pid == pid && this.block == block && this.kernelStack == kernelStack && this.userStack == userStack
    {
      this.pid, this.block, this.kernelStack, this.userStack := pid, block, kernelStack, userStack;
      next := this;
    }

    function AsProc(): Proc
      reads this
    {
      Proc(pid, block, kernelStack, userStack)
    }
  }

  function NextIndex(i: nat, n: nat): nat {
    if i + 1 == n then 0 else i + 1
  }

  function Before(i: nat, n: nat): (k: nat)
    requires i < n
    ensures k < n && NextIndex(k, n) == i
  {
    if i == 0 then n - 1 else i - 1
  }

  class Scheduler {
    var head: Task
    var current: Task
    var nextPid: nat
    ghost var ring: seq<Task>
    ghost var cur: nat

    ghost predicate Valid()
      reads this, ring
    {
      && cur < |ring| && head == ring[0] && current == ring[cur]
      && Distinct(ring) && Linked(ring)
    }

    ghost function View(): (ts: Tasks)
      reads this, ring
      ensures |ts.ring| == |ring|
    {
      Tasks(Procs(ring), cur, nextPid)
    }

    /** task_init; the three addresses are what malloc returned. */
    constructor (block: nat, kernelStack: nat, userStack: nat)
      ensures Valid() && View() == Init(Proc(1, block, kernelStack, userStack)) && fresh(ring)
    {
      var first := new Task(1, block, kernelStack, userStack);
      head, current, nextPid := first, first, 2;
      ring, cur := [first], 0;
      new;
      first.next := first;
    }

    method Schedule()
      requires Valid()
      modifies this
      ensures Valid() && ring == old(ring) && View() == TaskSpec.Schedule(old(View()))
    {
      current := current.next;
      cur := NextIndex(cur, |ring|);
    }

    /** The linking part of task_create and task_fork; the return value is the new pid. */
    method Insert(block: nat, kernelStack: nat, userStack: nat) returns (pid: nat)
      requires Valid()
      modifies this, head
      ensures Valid() && View() == TaskSpec.Insert(old(View()), block, kernelStack, userStack)
      ensures pid == old(nextPid) && fresh(set t | t in ring && t !in old(ring))
    {
      ghost var was, tasks := View(), ring;
      pid := nextPid;
      var task := new Task(pid, block, kernelStack, userStack);
      nextPid := nextPid + 1;
      task.next := head.next;
      head.next := task;
      ring := [head, task] + ring[1..];
      cur := if cur == 0 then 0 else cur + 1;
      assert Procs(tasks) == was.ring;
      Grown(was, tasks, task);
    }

    /** The search of task_destroy, from the head to the task before the current one. */
    method FindPrevious() returns (prev: Task)
      requires Valid()
      ensures prev == ring[Before(cur, |ring|)]
    {
      ghost var last, k := Before(cur, |ring|), 0;
      assert ring[last].next == current;
      prev := head;
      while prev.next != current
        invariant 0 <= k <= last && prev == ring[k]
        decreases last - k
      {
        prev := prev.next;
        k := k + 1;
      }
    }

    /** task_destroy up to the context switch; `freed` lists the addresses given to free, in order.
      * The last task does not come back from it. */
    method Destroy() returns (halted: bool, freed: seq<nat>)
      requires Valid()
      modifies this, ring
      ensures Valid()
      ensures halted == (|old(ring)| == 1)
      ensures halted ==> View() == old(View()) && freed == []
      ensures !halted ==> View() == TaskSpec.Destroy(old(View()))
      ensures !halted ==> var p := old(View()).ring[old(cur)]; freed == [p.userStack, p.kernelStack, p.block]
    {
      if current.next == current {
        return true, [];
      }
      var dead := current;
      var prev := FindPrevious();
      Unlink(dead, prev, Before(cur, |ring|));
      return false, [dead.userStack, dead.kernelStack, dead.block];
    }

    method Unlink(dead: Task, prev: Task, ghost k: nat)
      requires Valid() && |ring| > 1 && dead == current
      requires k < |ring| && prev == ring[k] && NextIndex(k, |ring|) == cur
      modifies this, prev`next
      ensures Valid() && View() == TaskSpec.Destroy(old(View()))
    {
      ghost var was, tasks, c := View(), ring, cur;
      SkipDead(dead, prev, k);
      MoveOn(dead);
      ProcsAre(tasks, was.ring);
      Shrunk(was, tasks, k, c);
    }

    /** The head and the current task step past the dead one. */
    method MoveOn(dead: Task)
      requires cur < |ring| && |ring| > 1 && Distinct(ring) && dead == current == ring[cur] && head == ring[0]
      requires dead.next == ring[NextIndex(cur, |ring|)]
      modifies this
      ensures nextPid == old(nextPid) && ring == Without(old(ring), old(cur))
      ensures cur == if old(cur) + 1 == |old(ring)| then 0 else old(cur)
      ensures head == old(ring)[if old(cur) == 0 then 1 else 0] && current == old(ring)[NextIndex(old(cur), |old(ring)|)]
    {
      if head == dead {
        head := dead.next;
      }
      current := dead.next;
      ring, cur := Without(ring, cur), if cur + 1 == |ring| then 0 else cur;
    }

    method SkipDead(dead: Task, prev: Task, ghost k: nat)
      requires Valid() && dead == current
      requires k < |ring| && prev == ring[k] && NextIndex(k, |ring|) == cur
      modifies prev`next
      ensures dead.next == ring[NextIndex(cur, |ring|)]
      ensures Skips(ring, k, cur)
    {
      prev.next := dead.next;
    }

    /** The pointers and the list agree again after task_destroy. */
    lemma Shrunk(was: Tasks, tasks: seq<Task>, k: nat, c: nat)
      requires Distinct(tasks) && c < |tasks| && k < |tasks| && |tasks| > 1 && NextIndex(k, |tasks|) == c
      requires Skips(tasks, k, c) && was == Tasks(Procs(tasks), c, nextPid)
      requires ring == Without(tasks, c) && cur == (if c + 1 == |tasks| then 0 else c)
      requires head == tasks[if c == 0 then 1 else 0] && current == tasks[NextIndex(c, |tasks|)]
      ensures Valid() && View() == TaskSpec.Destroy(was)
    {
      RingWithout(tasks, k, c);
      WithoutIsCut(was.ring, c);
    }

    /** The pointers and the list agree again after a task was linked in behind the head. */
    lemma Grown(was: Tasks, tasks: seq<Task>, task: Task)
      requires Distinct(tasks) && task !in tasks && was.cur < |tasks|
      requires task.next == (if |tasks| == 1 then tasks[0] else tasks[1]) && tasks[0].next == task
      requires forall i :: 1 <= i < |tasks| ==> tasks[i].next == tasks[NextIndex(i, |tasks|)]
      requires was.ring == Procs(tasks) && task.pid == was.nextPid && nextPid == was.nextPid + 1
      requires ring == [tasks[0], task] + tasks[1..] && cur == (if was.cur == 0 then 0 else was.cur + 1)
      requires head == tasks[0] && current == tasks[was.cur]
      ensures Valid() && View() == TaskSpec.Insert(was, task.block, task.kernelStack, task.userStack)
    {
      assert Procs(ring) == [was.ring[0], task.AsProc()] + was.ring[1..];
    }
  }

  /** Every task is followed by the next one of the list, the last by the first. */
  ghost predicate Linked(ring: seq<Task>)
    reads ring
  {
    forall i :: 0 <= i < |ring| ==> ring[i].next == ring[NextIndex(i, |ring|)]
  }

  ghost function Procs(ring: seq<Task>): (ps: seq<Proc>)
    reads ring
    ensures |ps| == |ring| && forall i :: 0 <= i < |ps| ==> ps[i] == ring[i].AsProc()
  {
    seq(|ring|, i requires 0 <= i < |ring| reads ring => ring[i].AsProc())
  }

  lemma ProcsAre(ring: seq<Task>, ps: seq<Proc>)
    requires |ps| == |ring| && forall i :: 0 <= i < |ring| ==> ps[i] == ring[i].AsProc()
    ensures Procs(ring) == ps
  {
  }

  /** The successor of position `i` once `k` has been made to skip position `c`. */
  function Follower<T>(s: seq<T>, k: nat, c: nat, i: nat): T
    requires i < |s| && c < |s|
  {
    s[NextIndex(if i == k then c else i, |s|)]
  }

  ghost predicate Skips(ring: seq<Task>, k: nat, c: nat)
    requires c < |ring|
    reads ring
  {
    forall i :: 0 <= i < |ring| ==> ring[i].next == Follower(ring, k, c, i)
  }

  predicate Distinct<T(==)>(s: seq<T>) {
    forall i, j :: 0 <= i < |s| && 0 <= j < |s| && s[i] == s[j] ==> i == j
  }

  function Without<T>(s: seq<T>, c: nat): (r: seq<T>)
    requires c < |s|
  {
    seq(|s| - 1, i requires 0 <= i < |s| - 1 => s[Kept(c, i)])
  }

  lemma WithoutIsCut<T>(s: seq<T>, c: nat)
    requires c < |s|
    ensures Without(s, c) == s[..c] + s[c + 1..]
  {
  }

  /** Where position `i` was before position `cur` was taken out. */
  function Kept(cur: nat, i: nat): nat {
    if i < cur then i else i + 1
  }

  lemma NextOfKept(n: nat, cur: nat, k: nat, i: nat)
    requires cur < n && k < n && NextIndex(k, n) == cur && i < n - 1 && n > 1
    ensures Kept(cur, i) < n && Kept(cur, NextIndex(i, n - 1)) < n
    ensures Kept(cur, NextIndex(i, n - 1)) == if Kept(cur, i) == k then NextIndex(cur, n) else NextIndex(Kept(cur, i), n)
  {
  }

  /** Once the predecessor of position `c` skips it, the tasks that stay form a ring. */
  lemma RingWithout(ring: seq<Task>, k: nat, c: nat)
    requires Distinct(ring) && c < |ring| && k < |ring| && |ring| > 1 && NextIndex(k, |ring|) == c
    requires Skips(ring, k, c)
    ensures Distinct(Without(ring, c)) && Linked(Without(ring, c))
    ensures Procs(Without(ring, c)) == Without(Procs(ring), c)
  {
    var r := Without(ring, c);
    forall i | 0 <= i < |r| ensures r[i].next == r[NextIndex(i, |r|)] {
      NextOfKept(|ring|, c, k, i);
    }
  }
}
