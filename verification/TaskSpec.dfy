/** The task ring of sys/kernel/task.c: round-robin scheduling with insertion after the head. */
module TaskSpec {
  /** A task: its number and the three heap blocks it owns. */
  datatype Proc = Proc(pid: nat, block: nat, kernelStack: nat, userStack: nat)

  /** The tasks in the order of the ring, the list head first; `cur` is the position of the current one. */
  datatype Tasks = Tasks(ring: seq<Proc>, cur: nat, nextPid: nat)

  ghost predicate DistinctPids(ring: seq<Proc>) {
    forall i, j :: 0 <= i < |ring| && 0 <= j < |ring| && ring[i].pid == ring[j].pid ==> i == j
  }

  /** One ring with a current task, and no two tasks with the same number. */
  ghost predicate WellFormed(ts: Tasks) {
    && ts.cur < |ts.ring| && DistinctPids(ts.ring)
    && forall i :: 0 <= i < |ts.ring| ==> ts.ring[i].pid < ts.nextPid
  }

  function Init(p: Proc): Tasks {
    Tasks([p], 0, p.pid + 1)
  }

  /** task_create and task_fork: the new task goes in right behind the head. */
  function Insert(ts: Tasks, block: nat, kernelStack: nat, userStack: nat): Tasks
    requires ts.ring != []
  {
    var p := Proc(ts.nextPid, block, kernelStack, userStack);
    Tasks([ts.ring[0], p] + ts.ring[1..], if ts.cur == 0 then 0 else ts.cur + 1, ts.nextPid + 1)
  }

  function Schedule(ts: Tasks): Tasks
    requires ts.cur < |ts.ring|
  {
    ts.(cur := if ts.cur + 1 == |ts.ring| then 0 else ts.cur + 1)
  }

  /** task_destroy: the current task leaves, and its successor runs. */
  function Destroy(ts: Tasks): Tasks
    requires ts.cur < |ts.ring| && |ts.ring| > 1
  {
    Tasks(ts.ring[..ts.cur] + ts.ring[ts.cur + 1..], if ts.cur + 1 == |ts.ring| then 0 else ts.cur, ts.nextPid)
  }

  function Current(ts: Tasks): nat
    requires ts.cur < |ts.ring|
  {
    ts.ring[ts.cur].pid
  }

  // ----- Runs

  datatype Event = Tick | Create(block: nat, kernelStack: nat, userStack: nat) | Exit

  /** The last task never exits: the machine halts instead. */
  predicate Possible(ts: Tasks, e: Event) {
    ts.cur < |ts.ring| && (e.Exit? ==> |ts.ring| > 1)
  }

  function Step(ts: Tasks, e: Event): Tasks
    requires Possible(ts, e)
  {
    match e
    case Tick => Schedule(ts)
    case Create(b, k, u) => Insert(ts, b, k, u)
    case Exit => Destroy(ts)
  }

  lemma StepWellFormed(ts: Tasks, e: Event)
    requires WellFormed(ts) && Possible(ts, e)
    ensures WellFormed(Step(ts, e))
  {
  }

  /** A new task goes right behind the head, with a number no task had before; the others keep their order,
    * and the same task runs. */
  lemma NewcomerBehindHead(ts: Tasks, b: nat, k: nat, u: nat)
    requires WellFormed(ts)
    ensures var ts' := Step(ts, Create(b, k, u));
      && ts'.ring[1] == Proc(ts.nextPid, b, k, u) && (forall i :: 0 <= i < |ts.ring| ==> ts.ring[i].pid != ts'.ring[1].pid)
      && [ts'.ring[0]] + ts'.ring[2..] == ts.ring
      && Current(ts') == Current(ts) && ts'.nextPid == ts.nextPid + 1
  {
  }

  /** The first task runs alone; numbers are given out one after the other from there. */
  lemma FirstTask(p: Proc, b: nat, k: nat, u: nat)
    ensures WellFormed(Init(p)) && Init(p).ring == [p] && Current(Init(p)) == p.pid
    ensures Step(Init(p), Create(b, k, u)).ring[1].pid == p.pid + 1
  {
  }

  /** The task behind the current one. */
  function Behind(ts: Tasks): nat
    requires ts.cur < |ts.ring|
  {
    if ts.cur + 1 < |ts.ring| then ts.ring[ts.cur + 1].pid else ts.ring[0].pid
  }

  /** A tick hands over to the next task of the ring; nothing else changes. */
  lemma TickRunsNext(ts: Tasks)
    requires WellFormed(ts)
    ensures var ts' := Step(ts, Tick); ts'.ring == ts.ring && ts'.nextPid == ts.nextPid && Current(ts') == Behind(ts)
  {
  }

  /** When the current task exits, exactly it leaves the ring, the others keep their order, and the one
    * behind it runs. */
  lemma ExitRunsNext(ts: Tasks)
    requires WellFormed(ts) && |ts.ring| > 1
    ensures var ts' := Step(ts, Exit);
      && ts'.ring == ts.ring[..ts.cur] + ts.ring[ts.cur + 1..] && ts'.nextPid == ts.nextPid
      && Current(ts') == Behind(ts)
  {
  }

  lemma ExitedIsGone(ts: Tasks)
    requires WellFormed(ts) && |ts.ring| > 1
    ensures forall q :: q in Step(ts, Exit).ring <==> q in ts.ring && q.pid != Current(ts)
  {
    var ring, c := ts.ring, ts.cur;
    assert ring == ring[..c] + [ring[c]] + ring[c + 1..];
  }

  /** A run in which task `t` does not exit. */
  ghost predicate RunOf(ts: Tasks, es: seq<Event>, t: nat)
    decreases |es|
  {
    es == [] ||
    (Possible(ts, es[0]) && !(es[0].Exit? && Current(ts) == t) && RunOf(Step(ts, es[0]), es[1..], t))
  }

  function Ticks(es: seq<Event>): nat {
    if es == [] then 0 else (if es[0].Tick? then 1 else 0) + Ticks(es[1..])
  }

  function Creates(es: seq<Event>): nat {
    if es == [] then 0 else (if es[0].Create? then 1 else 0) + Creates(es[1..])
  }

  /** The state after the first `n` events. */
  ghost function After(ts: Tasks, es: seq<Event>, n: nat, t: nat): (r: Tasks)
    requires WellFormed(ts) && RunOf(ts, es, t) && n <= |es|
    ensures WellFormed(r)
    decreases n
  {
    if n == 0 then ts
    else
      StepWellFormed(ts, es[0]);
      After(Step(ts, es[0]), es[1..], n - 1, t)
  }

  // ----- Bounded waiting

  /** How many tasks are ahead of position `i`, counting from the current one. */
  function Distance(ts: Tasks, i: nat): nat
    requires ts.cur < |ts.ring| && i < |ts.ring|
  {
    if i >= ts.cur then i - ts.cur else i + |ts.ring| - ts.cur
  }

  /** Where the task at position `i` is after the event. */
  function Moved(ts: Tasks, e: Event, i: nat): nat
    requires Possible(ts, e)
  {
    match e
    case Tick => i
    case Create(_, _, _) => if i == 0 then 0 else i + 1
    case Exit => if i > ts.cur then i - 1 else i
  }

  /** A tick or the exit of another task brings a waiting task one place nearer; an insertion sets it
    * back by one place at most. */
  lemma DistanceStep(ts: Tasks, e: Event, i: nat)
    requires WellFormed(ts) && Possible(ts, e) && i < |ts.ring|
    requires e.Exit? ==> i != ts.cur
    ensures var j, ts' := Moved(ts, e, i), Step(ts, e);
      && j < |ts'.ring| && ts'.ring[j] == ts.ring[i]
      && (Distance(ts, i) == 0 && e.Create? ==> Distance(ts', j) == 0)
      && (Distance(ts, i) == 0 && e.Tick? ==> Distance(ts', j) == |ts.ring| - 1)
      && (Distance(ts, i) > 0 && !e.Create? ==> Distance(ts', j) == Distance(ts, i) - 1)
      && (Distance(ts, i) > 0 && e.Create? ==> Distance(ts', j) <= Distance(ts, i) + 1)
  {
  }

  lemma AfterStep(ts: Tasks, es: seq<Event>, n: nat, t: nat)
    requires WellFormed(ts) && RunOf(ts, es, t) && n < |es|
    ensures WellFormed(Step(ts, es[0])) && RunOf(Step(ts, es[0]), es[1..], t)
    ensures After(ts, es, n + 1, t) == After(Step(ts, es[0]), es[1..], n, t)
  {
    StepWellFormed(ts, es[0]);
  }

  lemma CountStep(es: seq<Event>)
    requires es != []
    ensures Ticks(es) == (if es[0].Tick? then 1 else 0) + Ticks(es[1..])
    ensures Creates(es) == (if es[0].Create? then 1 else 0) + Creates(es[1..])
  {
  }

  /** A waiting task is reached once there have been as many ticks as tasks ahead of it and insertions. */
  lemma {:induction false} Reached(ts: Tasks, es: seq<Event>, i: nat) returns (n: nat)
    requires WellFormed(ts) && i < |ts.ring| && Distance(ts, i) > 0
    requires RunOf(ts, es, ts.ring[i].pid) && Ticks(es) >= Distance(ts, i) + Creates(es)
    ensures 0 < n <= |es| && Current(After(ts, es, n, ts.ring[i].pid)) == ts.ring[i].pid
    decreases |es|
  {
    var t, e := ts.ring[i].pid, es[0];
    NotYet(ts, e, i);
    DistanceStep(ts, e, i);
    CountStep(es);
    var ts', j := Step(ts, e), Moved(ts, e, i);
    AfterStep(ts, es, 0, t);
    if Distance(ts', j) == 0 {
      n := 1;
    } else {
      n := Reached(ts', es[1..], j);
      AfterStep(ts, es, n, t);
      n := n + 1;
    }
  }

  lemma NotYet(ts: Tasks, e: Event, i: nat)
    requires WellFormed(ts) && i < |ts.ring| && Distance(ts, i) > 0
    ensures i != ts.cur && ts.ring[i].pid != Current(ts)
  {
  }

  /** A task that is current and does not exit is current again, after at least one tick, by the time
    * there have been as many ticks as tasks in the ring and insertions since. */
  lemma {:induction false} BoundedWaiting(ts: Tasks, es: seq<Event>) returns (n: nat)
    requires WellFormed(ts) && RunOf(ts, es, Current(ts))
    requires Ticks(es) >= |ts.ring| + Creates(es)
    ensures 0 < n <= |es| && Ticks(es[..n]) > 0 && Current(After(ts, es, n, Current(ts))) == Current(ts)
    decreases |es|
  {
    var t, e := Current(ts), es[0];
    StepWellFormed(ts, e);
    DistanceStep(ts, e, ts.cur);
    var ts', j := Step(ts, e), Moved(ts, e, ts.cur);
    if e.Tick? {
      if Distance(ts', j) == 0 {
        n := 1;
        assert After(ts', es[1..], 0, t) == ts';
      } else {
        n := Reached(ts', es[1..], j);
        n := n + 1;
      }
      assert es[..n][0] == e;
    } else {
      n := BoundedWaiting(ts', es[1..]);
      assert es[..n + 1][1..] == es[1..][..n];
      n := n + 1;
    }
  }
}
