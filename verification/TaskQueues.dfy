/** The linked structures of the kernel: the three intrusive queues, each threaded through its own
    link field of the task, and the circular list of all tasks.  Each refines a sequence. */
module TaskQueues {
  import opened Scheduling

  /** task_t, without the register image.  `resume` and `irq` stand for the saved program
      counter and flags. */
  class Task {
    var state: TaskState
    var base: nat               // frame number of the guard page; the stack is the next frame
    var next: Task?
    var prev: Task?
    var readyNext: Task?
    var waitNext: Task?
    var deadNext: Task?
    ghost var resume: Resume
    ghost var irq: bool

    constructor (base: nat, state: TaskState, ghost resume: Resume)
      ensures this.base == base && this.state == state && this.resume == resume && irq
    {
      this.base, this.state, this.resume, irq := base, state, resume, true;
      next, prev, readyNext, waitNext, deadNext := null, null, null, null, null;
    }
  }

  /** rd_q */
  class ReadyQueue {
    var head: Task?
    var tail: Task?
    ghost var items: seq<Task>

    /** Head, tail and links spell out exactly `items`, and the last link is null. */
    ghost predicate Valid()
      reads this, items`readyNext
    {
      && (forall i, j :: 0 <= i < j < |items| ==> items[i] != items[j])
      && (if items == [] then head == null && tail == null
          else head == items[0] && tail == items[|items| - 1] && items[|items| - 1].readyNext == null)
      && (forall i {:trigger items[i].readyNext} :: 0 <= i < |items| - 1 ==> items[i].readyNext == items[i + 1])
    }

    constructor ()
      ensures Valid() && items == []
    {
      head, tail, items := null, null, [];
    }

    predicate IsEmpty()
      reads this
    {
      head == null
    }

    /** add_task_to_ready_queue */
    method Add(task: Task)
      requires Valid() && task !in items
      modifies this, items`readyNext, task`readyNext
      ensures Valid() && items == old(items) + [task]
    {
      task.readyNext := null;
      if !IsEmpty() {
        tail.readyNext := task;
        tail := task;
      } else {
        head := task;
        tail := task;
      }
      items := items + [task];
    }

    /** remove_task_from_ready_queue */
    method Remove() returns (task: Task?)
      requires Valid()
      modifies this, items`readyNext
      ensures Valid()
      ensures old(items) == [] ==> task == null && items == []
      ensures old(items) != [] ==> task == old(items)[0] && items == old(items)[1..] && task.readyNext == null
    {
      if IsEmpty() {
        return null;
      }
      task := head;
      if task.readyNext == null {
        head := null;
        tail := null;
      } else {
        head := task.readyNext;
      }
      task.readyNext := null;
      items := items[1..];
    }
  }

  /** The wait queue inside mutex_t */
  class WaitQueue {
    var head: Task?
    var tail: Task?
    ghost var items: seq<Task>

    /** Head, tail and links spell out exactly `items`, and the last link is null. */
    ghost predicate Valid()
      reads this, items`waitNext
    {
      && (forall i, j :: 0 <= i < j < |items| ==> items[i] != items[j])
      && (if items == [] then head == null && tail == null
          else head == items[0] && tail == items[|items| - 1] && items[|items| - 1].waitNext == null)
      && (forall i {:trigger items[i].waitNext} :: 0 <= i < |items| - 1 ==> items[i].waitNext == items[i + 1])
    }

    constructor ()
      ensures Valid() && items == []
    {
      head, tail, items := null, null, [];
    }

    predicate IsEmpty()
      reads this
    {
      head == null
    }

    /** add_task_to_mutex_queue */
    method Add(task: Task)
      requires Valid() && task !in items
      modifies this, items`waitNext, task`waitNext
      ensures Valid() && items == old(items) + [task]
    {
      task.waitNext := null;
      if !IsEmpty() {
        tail.waitNext := task;
        tail := task;
      } else {
        head := task;
        tail := task;
      }
      items := items + [task];
    }

    /** remove_task_from_mutex_queue */
    method Remove() returns (task: Task?)
      requires Valid()
      modifies this, items`waitNext
      ensures Valid()
      ensures old(items) == [] ==> task == null && items == []
      ensures old(items) != [] ==> task == old(items)[0] && items == old(items)[1..] && task.waitNext == null
    {
      if IsEmpty() {
        return null;
      }
      task := head;
      if task.waitNext == null {
        head := null;
        tail := null;
      } else {
        head := task.waitNext;
      }
      task.waitNext := null;
      items := items[1..];
    }
  }

  /** dd_q */
  class DeadQueue {
    var head: Task?
    var tail: Task?
    ghost var items: seq<Task>

    /** Head, tail and links spell out exactly `items`, and the last link is null. */
    ghost predicate Valid()
      reads this, items`deadNext
    {
      && (forall i, j :: 0 <= i < j < |items| ==> items[i] != items[j])
      && (if items == [] then head == null && tail == null
          else head == items[0] && tail == items[|items| - 1] && items[|items| - 1].deadNext == null)
      && (forall i {:trigger items[i].deadNext} :: 0 <= i < |items| - 1 ==> items[i].deadNext == items[i + 1])
    }

    constructor ()
      ensures Valid() && items == []
    {
      head, tail, items := null, null, [];
    }

    predicate IsEmpty()
      reads this
    {
      head == null
    }

    /** add_task_to_dead_queue */
    method Add(task: Task)
      requires Valid() && task !in items
      modifies this, items`deadNext, task`deadNext
      ensures Valid() && items == old(items) + [task]
    {
      task.deadNext := null;
      if !IsEmpty() {
        tail.deadNext := task;
        tail := task;
      } else {
        head := task;
        tail := task;
      }
      items := items + [task];
    }

    /** remove_task_from_dead_queue */
    method Remove() returns (task: Task?)
      requires Valid()
      modifies this, items`deadNext
      ensures Valid()
      ensures old(items) == [] ==> task == null && items == []
      ensures old(items) != [] ==> task == old(items)[0] && items == old(items)[1..] && task.deadNext == null
    {
      if IsEmpty() {
        return null;
      }
      task := head;
      if task.deadNext == null {
        head := null;
        tail := null;
      } else {
        head := task.deadNext;
      }
      task.deadNext := null;
      items := items[1..];
    }
  }

  // ----- the circular list -----

  /** A sequence of tasks without repetition, linked both ways into one cycle. */
  ghost predicate Cycle(items: seq<Task>)
    reads items`next, items`prev
  {
    && (forall i, j :: 0 <= i < j < |items| ==> items[i] != items[j])
    && (forall i {:trigger items[i].next} :: 0 <= i < |items| - 1 ==> items[i].next == items[i + 1])
    && (forall i {:trigger items[i].prev} :: 0 < i < |items| ==> items[i].prev == items[i - 1])
    && (items != [] ==> items[|items| - 1].next == items[0] && items[0].prev == items[|items| - 1])
  }

  /** A cycle may be read from any of its tasks. */
  lemma CycleRotates(items: seq<Task>)
    requires Cycle(items) && items != []
    ensures Cycle(items[1..] + [items[0]])
  {
    var r := items[1..] + [items[0]];
    forall i {:trigger r[i].next} | 0 <= i < |r| - 1 ensures r[i].next == r[i + 1] {
      assert r[i] == items[i + 1];
    }
    forall i {:trigger r[i].prev} | 0 < i < |r| ensures r[i].prev == r[i - 1] {
      if i < |r| - 1 { assert r[i] == items[i + 1]; }
    }
  }

  lemma CycleAt(items: seq<Task>, k: nat)
    requires Cycle(items) && k < |items|
    ensures items[k].next == items[k] <==> |items| == 1
    ensures k == |items| - 1 ==> items[k].next == items[0]
    ensures forall i :: 0 <= i < |items| && i != k ==> items[i] != items[k]
  {
    if k < |items| - 1 { assert items[k].next == items[k + 1]; }
  }

  lemma EmptyCycle()
    ensures Cycle([])
  {
  }

  /** What is left without the `k`th task; when that is the last one, read from one place further on. */
  ghost function Left(items: seq<Task>, k: nat): seq<Task>
    requires k < |items|
  {
    if k == |items| - 1 && k > 0 then items[1..k] + [items[0]] else items[..k] + items[k + 1..]
  }

  lemma LeftFacts(items: seq<Task>, k: nat)
    requires k < |items| && forall i :: 0 <= i < |items| && i != k ==> items[i] != items[k]
    ensures var left := Left(items, k);
            && items[k] !in left && |left| == |items| - 1
            && (k == |items| - 1 && k > 0 ==> left[|left| - 1] == items[0])
            && (k < |items| - 1 ==> left[|left| - 1] == items[|items| - 1])
  {
  }

  lemma LeftCycle(items: seq<Task>, k: nat)
    requires k < |items| && Cycle(items[..k] + items[k + 1..])
    ensures Cycle(Left(items, k))
  {
    if k == |items| - 1 && k > 0 {
      var rest := items[..k];
      assert items[..k] + items[k + 1..] == rest;
      CycleRotates(rest);
      assert rest[1..] + [rest[0]] == items[1..k] + [items[0]];
    }
  }

  /** A task outside a cycle loses its links. */
  method Unlink(task: Task, ghost items: seq<Task>)
    requires Cycle(items) && task !in items
    modifies task`next, task`prev
    ensures Cycle(items) && task.next == null && task.prev == null
  {
    task.next := null;
    task.prev := null;
  }

  /** Linking the two neighbours of a task past it. */
  method Bypass(task: Task, ghost items: seq<Task>, ghost k: nat)
    requires Cycle(items) && 1 < |items| && k < |items| && items[k] == task
    modifies items`next, items`prev
    ensures Cycle(items[..k] + items[k + 1..])
    ensures task.next == old(task.next) && task.prev == old(task.prev)
  {
    ghost var rest := items[..k] + items[k + 1..];
    task.prev.next := task.next;
    task.next.prev := task.prev;
    assert forall i :: 0 <= i < k ==> rest[i] == items[i];
    assert forall i :: k <= i < |rest| ==> rest[i] == items[i + 1];
  }

  class TaskRing {
    var lastInserted: Task?
    ghost var items: seq<Task>   // from the oldest task to the last inserted one

    ghost predicate Valid()
      reads this, items`next, items`prev
    {
      && Cycle(items)
      && (if items == [] then lastInserted == null else lastInserted == items[|items| - 1])
    }

    constructor ()
      ensures Valid() && items == []
    {
      lastInserted, items := null, [];
    }

    /** insert_task */
    method Insert(task: Task)
      requires Valid() && task !in items
      modifies this, items`next, items`prev, task`next, task`prev
      ensures Valid() && items == old(items) + [task]
    {
      if lastInserted != null {
        var last := lastInserted;
        assert last.next == items[0];
        task.next := last.next;
        task.prev := last;
        last.next.prev := task;
        last.next := task;
      } else {
        task.next := task;
        task.prev := task;
      }
      lastInserted := task;
      items := items + [task];
    }

    /** remove_task_from_circular_list.  When the last inserted task goes, its successor takes
        over that role, so the sequence is read from one place further on. */
    method Remove(task: Task, ghost k: nat)
      requires Valid() && k < |items| && items[k] == task
      modifies this, items`next, items`prev
      ensures Valid() && task.next == null && task.prev == null
      ensures items == Left(old(items), k)
    {
      ghost var left := Left(items, k);
      CycleAt(items, k);
      LeftFacts(items, k);
      hide Cycle, Left;
      if task.next == task {
        EmptyCycle();
        lastInserted := null;
        items := left;
      } else {
        CloseOver(task, k);
      }
      Unlink(task, items);
    }

    /** The neighbours of a task that is not alone are linked past it, and if it was the last inserted
        one, its successor takes over that role. */
    method CloseOver(task: Task, ghost k: nat)
      requires Valid() && k < |items| && items[k] == task && |items| > 1
      modifies this, items`next, items`prev
      ensures Valid() && items == Left(old(items), k) && task.next == old(task.next)
    {
      CycleAt(items, k);
      LeftFacts(items, k);
      hide Cycle, Left;
      Bypass(task, items, k);
      LeftCycle(items, k);
      if lastInserted == task { lastInserted := task.next; }
      items := Left(items, k);
    }

    /** The do-while loop of scheduler_list_tasks: starting from any member it visits every task
        of the list exactly once, in cyclic order, and stops. */
    method ListFrom(start: Task, ghost k: nat) returns (visited: seq<Task>)
      requires Valid() && k < |items| && items[k] == start
      ensures visited == items[k..] + items[..k]
    {
      ghost var n := |items|;
      var at := start;
      visited := [];
      while true
        invariant |visited| < n
        invariant visited == (items[k..] + items[..k])[..|visited|]
        invariant at == items[if k + |visited| < n then k + |visited| else k + |visited| - n]
        decreases n - |visited|
      {
        ghost var i := if k + |visited| < n then k + |visited| else k + |visited| - n;
        assert (items[k..] + items[..k])[|visited|] == items[i];
        assert at.next == if i + 1 < n then items[i + 1] else items[0];
        visited := visited + [at];
        at := at.next;
        if at == start {
          assert |visited| == n;
          return;
        }
      }
    }
  }
}
