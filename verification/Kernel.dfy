/** scheduler.c and mutex_lock.c as they run: linked queues, state fields and the current task
    updated in place.  Each operation is proved to take exactly its step of the `Scheduling`
    system, and every insertion into a queue is shown to concern a task linked in none. */
module Kernel {
  import opened Wrappers
  import opened Scheduling
  import opened TaskQueues

  // ----- the steps, as the changes a heap operation has to make -----

  lemma DispatchFacts<T>(s: Sys<T>)
    requires Inv(s) && s.current.None?
    ensures s.ready != [] ==>
      var t := s.ready[0];
      && Enabled(s, Dispatch) && Inv(Do(s, Dispatch)) && t in s.tasks
      && Do(s, Dispatch) == s.(tasks := s.tasks[t := s.tasks[t].(state := Running)],
                               ready := s.ready[1..], current := Some(t))
  {
    if s.ready != [] { StepInv(s, Dispatch); }
  }

  /** What `schedule` does after the switch; and the task it queues is linked in no queue. */
  lemma SwitchFacts<T>(s: Sys<T>)
    requires Inv(s) && s.current.Some?
    ensures var t, r := s.current.value, SwitchOut(s);
            && Inv(r) && t in s.tasks && s.reaper in s.tasks
            && t !in s.ready && t !in s.dead && (forall m :: 0 <= m < |s.locks| ==> t !in s.locks[m].wait)
            && (s.tasks[t].state.Running? ==>
                  r == s.(tasks := s.tasks[t := s.tasks[t].(state := Ready)], ready := s.ready + [t], current := None))
            && (s.tasks[t].state.Dead? && !s.tasks[s.reaper].state.Blocked? ==>
                  r == s.(dead := s.dead + [t], current := None))
            && (s.tasks[t].state.Dead? && s.tasks[s.reaper].state.Blocked? ==>
                  && t != s.reaper && s.reaper !in s.ready && s.reaper !in s.dead
                  && r == s.(tasks := s.tasks[s.reaper := s.tasks[s.reaper].(state := Ready)],
                             dead := s.dead + [t], ready := s.ready + [s.reaper], current := None))
            && (!s.tasks[t].state.Running? && !s.tasks[t].state.Dead? ==> r == s.(current := None))
  {
    assert Placed(s, s.current.value) && Placed(s, s.reaper) && Resumes(s, s.current.value);
    SwitchOutInv(s);
  }

  lemma ExitFacts<T>(s: Sys<T>)
    requires Inv(s) && Enabled(s, Exit)
    ensures var t := s.current.value;
            && t in s.tasks && Inv(Do(s, Exit))
            && Do(s, Exit) == s.(tasks := s.tasks[t := s.tasks[t].(state := Dead)])
  {
    StepInv(s, Exit);
  }

  lemma AcquireFacts<T>(s: Sys<T>, m: nat)
    requires Inv(s) && Enabled(s, Acquire(m))
    ensures m < |s.locks| && s.current.Some?
    ensures var t, l, r := s.current.value, s.locks[m], Do(s, Acquire(m));
            && t in s.tasks && Inv(r) && s.tasks[t].state.Running?
            && (l.locked ==>
                  && t !in l.wait && t !in s.ready && t !in s.dead
                  && r == s.(tasks := s.tasks[t := s.tasks[t].(state := Blocked, resume := Retry(m), irq := false)],
                             locks := s.locks[m := l.(wait := l.wait + [t])], current := None))
            && (!l.locked ==>
                  r == s.(tasks := s.tasks[t := s.tasks[t].(resume := Thread, irq := true)],
                          locks := s.locks[m := l.(locked := true, holder := Some(t), inside := l.inside + {t})]))
  {
    hide NoLostWakeup, FramesOk, ReaperAwake, NoRepeat, Resumes;
    assert Placed(s, s.current.value);
    StepInv(s, Acquire(m));
    hide Inv, Placed;
  }

  lemma ResumeCommutes<T>(s: Sys<T>)
    requires s.current.Some? && s.current.value in s.tasks && s.reaper in s.tasks
    ensures var t, out := s.current.value, SwitchOut(s);
            && t in out.tasks
            && SwitchOut(SetResume(s, t, ReaperTop, s.tasks[t].irq)) ==
               out.(tasks := out.tasks[t := out.tasks[t].(resume := ReaperTop, irq := out.tasks[t].irq)])
  {
    var t, out := s.current.value, SwitchOut(s);
    var other := SwitchOut(SetResume(s, t, ReaperTop, s.tasks[t].irq));
    assert other.tasks == out.tasks[t := out.tasks[t].(resume := ReaperTop, irq := out.tasks[t].irq)];
  }

  /** What a yield does, with the reaper's resume point moved after the switch. */
  lemma YieldFacts<T>(s: Sys<T>)
    requires Inv(s) && Enabled(s, Yield)
    ensures Inv(Do(s, Yield)) && s.current.Some? && s.current.value in s.tasks && s.reaper in s.tasks
    ensures var t, out := s.current.value, SwitchOut(s);
            && t in out.tasks
            && Do(s, Yield) ==
               if s.tasks[t].resume.ReaperYield?
               then out.(tasks := out.tasks[t := out.tasks[t].(resume := ReaperTop, irq := out.tasks[t].irq)])
               else out
  {
    StepInv(s, Yield);
    SwitchFacts(s);
    hide Inv;
    if s.tasks[s.current.value].resume.ReaperYield? { ResumeCommutes(s); }
  }

  lemma ReleaseFacts<T>(s: Sys<T>, m: nat)
    requires Inv(s) && Enabled(s, Release(m))
    ensures m < |s.locks| && s.current.Some?
    ensures var t, l, r := s.current.value, s.locks[m], Do(s, Release(m));
            var open := l.(locked := false, holder := None, inside := l.inside - {t});
            && t in s.tasks && Inv(r)
            && (l.wait == [] ==> r == s.(locks := s.locks[m := open]))
            && (l.wait != [] ==>
                  var w := l.wait[0];
                  && w in s.tasks && w !in s.ready && w !in s.dead
                  && r == s.(tasks := s.tasks[w := s.tasks[w].(state := Ready)],
                             locks := s.locks[m := open.(wait := l.wait[1..])], ready := s.ready + [w]))
  {
    if s.locks[m].wait != [] { assert Placed(s, s.locks[m].wait[0]); }
    StepInv(s, Release(m));
  }

  lemma CreateFacts<T>(s: Sys<T>, t: T, base: nat)
    requires Inv(s) && t !in s.born && {base, base + 1} <= s.free
    requires s.current.None? || (Runs(s) && s.tasks[s.current.value].resume.Thread?)
    ensures Enabled(s, Create(t, base)) && t !in s.tasks && t !in s.ready && t !in s.dead
    ensures Inv(Do(s, Create(t, base)))
    ensures Do(s, Create(t, base)) ==
            s.(tasks := s.tasks[t := Info(Ready, Thread, true, base)], ready := s.ready + [t],
               free := s.free - {base, base + 1}, born := s.born + {t})
  {
    StepInv(s, Create(t, base));
  }

  lemma ReapFacts<T>(s: Sys<T>)
    requires Inv(s) && Runs(s) && s.current == Some(s.reaper) && s.tasks[s.reaper].resume.ReaperTop?
    ensures s.reaper in s.tasks
    ensures s.dead == [] ==>
      && Enabled(s, ReapIdle) && Inv(Do(s, ReapIdle))
      && Do(s, ReapIdle)
         == s.(tasks := s.tasks[s.reaper := s.tasks[s.reaper].(state := Blocked, resume := ReaperYield)])
    ensures s.dead != [] ==>
      var c := s.dead[0];
      && c in s.tasks && c != s.reaper && Enabled(s, Reap) && Inv(Do(s, Reap))
      && Do(s, Reap) == s.(tasks := s.tasks[s.reaper := s.tasks[s.reaper].(resume := ReaperTop, irq := false)] - {c},
                           dead := s.dead[1..], free := s.free + {s.tasks[c].base, s.tasks[c].base + 1})
  {
    if s.dead == [] {
      StepInv(s, ReapIdle);
    } else {
      assert Placed(s, s.dead[0]) && Resumes(s, s.dead[0]);
      StepInv(s, Reap);
    }
  }

  /** The members left after the ring has dropped its `k`th. */
  lemma MembersAfter(items: seq<Task>, rest: seq<Task>, k: nat)
    requires k < |items| && forall i :: 0 <= i < |items| && i != k ==> items[i] != items[k]
    requires rest == Left(items, k)
    ensures forall t :: t in rest ==> t in items && t != items[k]
    ensures forall t :: t in items && t != items[k] ==> t in rest
  {
    forall t | t in items && t != items[k] ensures t in rest {
      var i :| 0 <= i < |items| && items[i] == t;
      if k == |items| - 1 && k > 0 {
        assert if i == 0 then rest[k - 1] == t else rest[i - 1] == t;
      } else {
        assert if i < k then rest[i] == t else rest[i - 1] == t;
      }
    }
  }

  /** One mutex, and the reaper asleep on the frames it was given. */
  ghost function BootState<T>(reaper: T, frame: nat, free: set<nat>, born: set<T>): Sys<T> {
    Sys(map[reaper := Info(Blocked, ReaperTop, true, frame)], [], [], [Lock(false, None, [], {})],
        None, reaper, free, born)
  }

  lemma BootStateInit<T>(reaper: T, frame: nat, free: set<nat>)
    requires {frame, frame + 1} !! free
    ensures Init(BootState(reaper, frame, free, {reaper}))
  {
  }

  function Opt(t: Task?): Option<Task> {
    if t == null then None else var u: Task := t; Some(u)
  }

  class Mutex {
    var locked: bool
    var holder: Task?
    const queue: WaitQueue
    ghost var inside: set<Task>

    /** mutex_init */
    constructor ()
      ensures Abs() == Lock(false, None, [], {}) && queue.Valid() && fresh(queue)
    {
      locked, holder, inside := false, null, {};
      queue := new WaitQueue();
    }

    method Take(me: Task)
      modifies this
      ensures Abs() == old(Abs()).(locked := true, holder := Some(me), inside := old(inside) + {me})
    {
      locked := true;
      holder := me;
      inside := inside + {me};
    }

    /** The mutex is open again, and its first waiter leaves the queue. */
    method Open(ghost me: Task) returns (first: Task?)
      requires queue.Valid()
      modifies this, queue, queue.items`waitNext
      ensures queue.Valid()
      ensures Opt(first) == if old(queue.items) == [] then None else Some(old(queue.items)[0])
      ensures Abs() == Lock(false, None, if old(queue.items) == [] then [] else old(queue.items)[1..],
                            old(inside) - {me})
    {
      locked := false;
      holder := null;
      inside := inside - {me};
      first := queue.Remove();
    }

    ghost function Abs(): Lock<Task>
      reads this, queue`items
    {
      Lock(locked, Opt(holder), queue.items, inside)
    }
  }

  class System {
    const queue: ReadyQueue
    const deadQ: DeadQueue
    const ring: TaskRing
    const lock: Mutex
    const reaper: Task
    var current: Task?            // null while the scheduler itself runs
    ghost var free: set<nat>
    ghost var born: set<Task>

    /** The system kmain has built once spawn_reaper has run: the given frames went to the reaper,
        which is blocked and in no queue. */
    constructor (mutex: Mutex, frame: nat, ghost frames: set<nat>)
      requires {frame, frame + 1} <= frames
      requires mutex.queue.Valid() && mutex.Abs() == Lock(false, None, [], {})
      ensures var s := Booted(frame); Init(s) && Valid(s)
    {
      var r := new Task(frame, Blocked, ReaperTop);
      var c := new TaskRing();
      c.Insert(r);
      reaper, ring, lock := r, c, mutex;
      queue := new ReadyQueue();
      deadQ := new DeadQueue();
      current, free, born := null, frames - {frame, frame + 1}, {r};
      new;
      hide ReadyQueue.Valid, WaitQueue.Valid, DeadQueue.Valid, TaskRing.Valid, Inv;
      BootStateInit(r, frame, free);
      InitInv(Booted(frame));
      hide Init;
    }

    ghost function Booted(frame: nat): Sys<Task>
      reads this
    {
      BootState(reaper, frame, free, born)
    }

    /** Every linked structure is well formed. */
    ghost predicate Wired()
      reads *
    {
      queue.Valid() && deadQ.Valid() && ring.Valid() && lock.queue.Valid()
    }

    /** The tasks of the circular list carry exactly these fields. */
    ghost predicate TasksShow(m: map<Task, Info>)
      reads ring, ring.items`state, ring.items`resume, ring.items`irq, ring.items`base
    {
      && (forall t :: t in m ==> t in ring.items)
      && (forall t :: t in ring.items ==> t in m && m[t] == Info(t.state, t.resume, t.irq, t.base))
    }

    /** The heap shows the abstract state `s`. */
    ghost predicate Shows(s: Sys<Task>)
      reads *
    {
      && TasksShow(s.tasks)
      && s.ready == queue.items && s.dead == deadQ.items
      && s.locks == [lock.Abs()]
      && s.current == Opt(current) && s.reaper == reaper && s.free == free && s.born == born
    }

    method SetState(t: Task, st: TaskState, ghost m: map<Task, Info>)
      requires TasksShow(m) && t in m
      modifies t`state
      ensures t.state == st && TasksShow(m[t := m[t].(state := st)])
    {
      t.state := st;
    }

    /** READY, and at the end of the ready queue; the task must not be linked there yet. */
    method MakeReady(t: Task, ghost m: map<Task, Info>)
      requires TasksShow(m) && t in m && queue.Valid() && t !in queue.items
      modifies t`state, t`readyNext, queue, queue.items`readyNext
      ensures queue.Valid() && queue.items == old(queue.items) + [t]
      ensures TasksShow(m[t := m[t].(state := Ready)])
    {
      hide ReadyQueue.Valid;
      t.state := Ready;
      queue.Add(t);
    }

    /** The task blocks itself, to go on at `r`. */
    method Park(t: Task, ghost r: Resume, ghost irq: bool, ghost m: map<Task, Info>)
      requires TasksShow(m) && t in m
      modifies t`state, t`resume, t`irq
      ensures TasksShow(m[t := m[t].(state := Blocked, resume := r, irq := irq)])
    {
      t.state := Blocked;
      t.resume, t.irq := r, irq;
    }

    /** The saved program counter and flags of a task change. */
    ghost method SetResume(t: Task, r: Resume, irq: bool, m: map<Task, Info>)
      requires TasksShow(m) && t in m
      modifies t`resume, t`irq
      ensures TasksShow(m[t := m[t].(resume := r, irq := irq)])
    {
      t.resume, t.irq := r, irq;
    }

    lemma ShownState(m: map<Task, Info>, t: Task)
      requires TasksShow(m) && t in m
      ensures t in ring.items && m[t].state == t.state && m[t].base == t.base
    {
    }

    /** A well-formed heap in a reachable-looking state. */
    ghost predicate Valid(s: Sys<Task>)
      reads *
    {
      Wired() && Shows(s) && Inv(s)
    }

    /** One pass of the loop in `schedule`, up to the switch to the chosen task. */
    method DispatchNext(ghost s: Sys<Task>) returns (found: bool, ghost r: Sys<Task>)
      requires Valid(s) && current == null
      modifies this`current, queue, queue.items`readyNext, queue.items`state
      ensures found == (s.ready != []) && (found ==> Enabled(s, Dispatch))
      ensures r == (if found then Do(s, Dispatch) else s) && Valid(r)
    {
      hide ReadyQueue.Valid, WaitQueue.Valid, DeadQueue.Valid, TaskRing.Valid, TasksShow, Inv, Enabled, Do, SwitchOut;
      DispatchFacts(s);
      r := if s.ready == [] then s else Do(s, Dispatch);
      var next := queue.Remove();
      if next == null {
        found := false;
        return;
      }
      SetState(next, Running, s.tasks);
      current := next;
      found := true;
    }

    /** The rest of the pass, once the task has switched back. */
    method SwitchBack(ghost s: Sys<Task>) returns (ghost r: Sys<Task>)
      requires Valid(s) && current != null
      modifies this`current, current`state, reaper`state, queue, deadQ
      modifies current`readyNext, reaper`readyNext, queue.items`readyNext, current`deadNext, deadQ.items`deadNext
      ensures r == SwitchOut(s) && Valid(r)
    {
      hide ReadyQueue.Valid, WaitQueue.Valid, DeadQueue.Valid, TaskRing.Valid, TasksShow, Inv, Enabled, Do, SwitchOut;
      SwitchFacts(s);
      r := SwitchOut(s);
      var task := current;
      ShownState(s.tasks, task);
      ShownState(s.tasks, reaper);
      current := null;
      if task.state == Running {
        MakeReady(task, s.tasks);
      } else if task.state == Dead {
        deadQ.Add(task);
        if reaper.state == Blocked {
          MakeReady(reaper, s.tasks);
        }
      }
    }

    /** yield */
    method YieldNow(ghost s: Sys<Task>) returns (ghost r: Sys<Task>)
      requires Valid(s) && current != null && Enabled(s, Yield)
      modifies this`current, current`state, reaper`state, queue, deadQ, current`resume, current`irq
      modifies current`readyNext, reaper`readyNext, queue.items`readyNext, current`deadNext, deadQ.items`deadNext
      ensures r == Do(s, Yield) && Valid(r)
    {
      hide ReadyQueue.Valid, WaitQueue.Valid, DeadQueue.Valid, TaskRing.Valid, TasksShow, Inv, Enabled, Do, SwitchOut;
      YieldFacts(s);
      ghost var t := current;
      var out := SwitchBack(s);
      if s.tasks[t].resume.ReaperYield? {
        SetResume(t, ReaperTop, out.tasks[t].irq, out.tasks);
      }
      r := Do(s, Yield);
    }

    /** thread_exit, up to its yield */
    method ExitThread(ghost s: Sys<Task>) returns (ghost r: Sys<Task>)
      requires Valid(s) && current != null && Enabled(s, Exit)
      modifies current`state
      ensures r == Do(s, Exit) && Valid(r)
    {
      hide ReadyQueue.Valid, WaitQueue.Valid, DeadQueue.Valid, TaskRing.Valid, TasksShow, Inv, Enabled, Do, SwitchOut;
      ExitFacts(s);
      r := Do(s, Exit);
      SetState(current, Dead, s.tasks);
    }

    /** One pass of the loop in mutex_lock: either the caller is queued and switched away from, to
        come back to this test, or it takes the mutex. */
    method LockPass(ghost s: Sys<Task>) returns (acquired: bool, ghost r: Sys<Task>)
      requires Valid(s) && current != null && Enabled(s, Acquire(0))
      modifies this`current, current`state, current`resume, current`irq, lock, lock.queue
      modifies current`waitNext, lock.queue.items`waitNext
      ensures acquired == !s.locks[0].locked
      ensures r == Do(s, Acquire(0)) && Valid(r)
    {
      hide ReadyQueue.Valid, WaitQueue.Valid, DeadQueue.Valid, TaskRing.Valid, TasksShow, Inv, Enabled, Do, SwitchOut;
      AcquireFacts(s, 0);
      r := Do(s, Acquire(0));
      var me := current;
      acquired := !lock.locked;
      if lock.locked {
        Park(me, Retry(0), false, s.tasks);
        lock.queue.Add(me);
        current := null;
      } else {
        lock.Take(me);
        SetResume(me, Thread, true, s.tasks);
      }
    }

    /** mutex_unlock */
    method Unlock(ghost s: Sys<Task>) returns (ghost r: Sys<Task>)
      requires Valid(s) && current != null && Enabled(s, Release(0))
      modifies lock, lock.queue, lock.queue.items`waitNext, lock.queue.items`state
      modifies queue, queue.items`readyNext, lock.queue.items`readyNext
      ensures r == Do(s, Release(0)) && Valid(r)
    {
      hide ReadyQueue.Valid, WaitQueue.Valid, DeadQueue.Valid, TaskRing.Valid, TasksShow, Inv, Enabled, Do, SwitchOut;
      ReleaseFacts(s, 0);
      r := Do(s, Release(0));
      var task := lock.Open(current);
      if task != null {
        MakeReady(task, s.tasks);
      }
    }

    /** create_task for an ordinary thread, on the two frames from `base` */
    method CreateTask(ghost s: Sys<Task>, base: nat) returns (task: Task, ghost r: Sys<Task>)
      requires Valid(s) && {base, base + 1} <= s.free
      requires current != null ==> Runs(s) && s.tasks[current].resume.Thread?
      modifies this`free, this`born, queue, queue.items`readyNext, ring, ring.items`next, ring.items`prev
      ensures fresh(task) && Enabled(s, Create(task, base)) && r == Do(s, Create(task, base)) && Valid(r)
    {
      hide ReadyQueue.Valid, WaitQueue.Valid, DeadQueue.Valid, TaskRing.Valid, TasksShow, Inv, Enabled, Do, SwitchOut;
      task := new Task(base, Ready, Thread);
      CreateFacts(s, task, base);
      r := Do(s, Create(task, base));
      hide Runs, Init;
      Enlist(task, s.tasks);
    }

    /** A new thread goes to the end of the ready queue and of the circular list. */
    method Enlist(task: Task, ghost m: map<Task, Info>)
      requires ring.Valid() && TasksShow(m) && task !in m && queue.Valid() && task !in queue.items
      modifies ring, ring.items`next, ring.items`prev, task`next, task`prev
      modifies queue, queue.items`readyNext, task`readyNext
      modifies this`free, this`born
      ensures free == old(free) - {task.base, task.base + 1} && born == old(born) + {task}
      ensures ring.Valid() && TasksShow(m[task := Info(task.state, task.resume, task.irq, task.base)])
      ensures queue.Valid() && queue.items == old(queue.items) + [task]
    {
      hide TaskRing.Valid, ReadyQueue.Valid;
      queue.Add(task);
      ring.Insert(task);
      free, born := free - {task.base, task.base + 1}, born + {task};
    }

    method Delist(task: Task, ghost m: map<Task, Info>)
      requires ring.Valid() && TasksShow(m) && task in m
      modifies ring, ring.items`next, ring.items`prev
      ensures ring.Valid() && TasksShow(m - {task})
    {
      hide TaskRing.Valid;
      ghost var before := ring.items;
      ghost var k :| 0 <= k < |before| && before[k] == task;
      RingDistinct(k);
      ring.Remove(task, k);
      MembersAfter(before, ring.items, k);
    }

    lemma RingDistinct(k: nat)
      requires ring.Valid() && k < |ring.items|
      ensures forall i :: 0 <= i < |ring.items| && i != k ==> ring.items[i] != ring.items[k]
    {
    }

    /** The body is unlinked and its frames are given back; from here on the reaper runs with interrupts off. */
    method Bury(corpse: Task, ghost m: map<Task, Info>)
      requires ring.Valid() && TasksShow(m) && corpse in m && reaper in m
      modifies ring, ring.items`next, ring.items`prev, reaper`resume, reaper`irq, this`free
      ensures ring.Valid() && TasksShow(m[reaper := m[reaper].(resume := ReaperTop, irq := false)] - {corpse})
      ensures free == old(free) + {m[corpse].base, m[corpse].base + 1}
    {
      hide TaskRing.Valid, TasksShow;
      ShownState(m, corpse);
      free := free + {corpse.base, corpse.base + 1};
      SetResume(reaper, ReaperTop, false, m);
      Delist(corpse, m[reaper := m[reaper].(resume := ReaperTop, irq := false)]);
    }

    /** The first body is taken and buried, or the reaper blocks itself. */
    method Collect(ghost m: map<Task, Info>)
      requires Wired() && TasksShow(m) && reaper in m && (deadQ.items != [] ==> deadQ.items[0] in m)
      modifies this`free, deadQ, deadQ.items`deadNext, ring, ring.items`next, ring.items`prev
      modifies reaper`state, reaper`resume, reaper`irq
      ensures Wired()
      ensures old(deadQ.items) == [] ==>
        && deadQ.items == [] && free == old(free)
        && TasksShow(m[reaper := m[reaper].(state := Blocked, resume := ReaperYield)])
      ensures old(deadQ.items) != [] ==>
        var c := old(deadQ.items)[0];
        && deadQ.items == old(deadQ.items)[1..] && free == old(free) + {m[c].base, m[c].base + 1}
        && TasksShow(m[reaper := m[reaper].(resume := ReaperTop, irq := false)] - {c})
    {
      hide ReadyQueue.Valid, WaitQueue.Valid, DeadQueue.Valid, TaskRing.Valid, TasksShow;
      var corpse := deadQ.Remove();
      if corpse == null {
        Park(reaper, ReaperYield, m[reaper].irq, m);
      } else {
        Bury(corpse, m);
      }
    }

    /** One pass of the reaper's loop: a body is unlinked and its frames given back, or the reaper
        marks itself blocked. */
    method ReaperPass(ghost s: Sys<Task>) returns (ghost r: Sys<Task>)
      requires Valid(s) && current == reaper && Runs(s) && s.tasks[reaper].resume.ReaperTop?
      modifies this`free, deadQ, deadQ.items`deadNext, ring, ring.items`next, ring.items`prev
      modifies reaper`state, reaper`resume, reaper`irq
      ensures if s.dead != [] then Enabled(s, Reap) && r == Do(s, Reap)
              else Enabled(s, ReapIdle) && r == Do(s, ReapIdle)
      ensures Valid(r)
    {
      hide ReadyQueue.Valid, WaitQueue.Valid, DeadQueue.Valid, TaskRing.Valid, TasksShow, Inv, Enabled, Do, SwitchOut;
      hide Runs;
      ReapFacts(s);
      r := if s.dead != [] then Do(s, Reap) else Do(s, ReapIdle);
      Collect(s.tasks);
    }
  }
}
