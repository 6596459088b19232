/** The scheduler, the mutexes and the reaper of pelikanOS as one system of atomic steps.  The
    kernel runs them with interrupts off up to the next switch, so each is one step here: a
    dispatch, a timer tick, a voluntary yield, the two halves of thread_exit and of the reaper's
    idle path, taking and releasing a mutex, creating a task and reaping one.  Tasks are named by
    any type `T`; an exited and reaped task's name is never given out again. */
module Scheduling {
  import opened Wrappers

  datatype TaskState = Blocked | Ready | Running | Dead

  /** Where a task goes on when it is next switched to: in its own code, at the re-test of a
      mutex it waits for, at the top of the reaper's loop, or right before the reaper's yield. */
  datatype Resume = Thread | Retry(lock: nat) | ReaperTop | ReaperYield

  /** `irq` says whether the task runs with interrupts enabled; `base` is the guard frame, and
      `base + 1` the stack frame, that create_task took for it. */
  datatype Info = Info(state: TaskState, resume: Resume, irq: bool, base: nat)

  /** `inside` records who is between a lock and its unlock; no step depends on it. */
  datatype Lock<T> = Lock(locked: bool, holder: Option<T>, wait: seq<T>, inside: set<T>)

  datatype Sys<T> = Sys(
    tasks: map<T, Info>, ready: seq<T>, dead: seq<T>, locks: seq<Lock<T>>,
    current: Option<T>, reaper: T, free: set<nat>, born: set<T>)

  datatype Event<T> =
    | Dispatch
    | Tick
    | Yield
    | Exit
    | Acquire(lock: nat)
    | Release(lock: nat)
    | Create(task: T, base: nat)
    | Reap
    | ReapIdle

  function SetState<T>(s: Sys<T>, t: T, st: TaskState): Sys<T>
    requires t in s.tasks
  {
    s.(tasks := s.tasks[t := s.tasks[t].(state := st)])
  }

  function SetResume<T>(s: Sys<T>, t: T, r: Resume, irq: bool): Sys<T>
    requires t in s.tasks
  {
    s.(tasks := s.tasks[t := s.tasks[t].(resume := r, irq := irq)])
  }

  /** The code of `schedule` behind its swtch: what becomes of the task that gave up the CPU. */
  function SwitchOut<T>(s: Sys<T>): Sys<T>
    requires s.current.Some? && s.current.value in s.tasks && s.reaper in s.tasks
  {
    var t := s.current.value;
    var s1 := s.(current := None);
    match s.tasks[t].state
    case Running => SetState(s1, t, Ready).(ready := s.ready + [t])
    case Dead =>
      var s2 := s1.(dead := s.dead + [t]);
      if s.tasks[s.reaper].state.Blocked?
      then SetState(s2, s.reaper, Ready).(ready := s.ready + [s.reaper])
      else s2
    case _ => s1
  }

  /** The running task, in its own code or the kernel calls it makes. */
  predicate Runs<T(==)>(s: Sys<T>) {
    s.current.Some? && s.current.value in s.tasks && s.tasks[s.current.value].state.Running?
  }

  predicate Enabled<T(==)>(s: Sys<T>, e: Event<T>) {
    && s.reaper in s.tasks
    && match e
       case Dispatch => s.current.None? && s.ready != [] && s.ready[0] in s.tasks
       case Tick => s.current.Some? && s.current.value in s.tasks && s.tasks[s.current.value].irq
       case Yield =>
         s.current.Some? && s.current.value in s.tasks &&
         (s.tasks[s.current.value].resume.Thread? || s.tasks[s.current.value].resume.ReaperYield?)
       case Exit => Runs(s) && s.tasks[s.current.value].resume.Thread?
       case Acquire(m) =>
         Runs(s) && m < |s.locks| &&
         (s.tasks[s.current.value].resume.Thread? || s.tasks[s.current.value].resume == Retry(m))
       case Release(m) =>
         Runs(s) && m < |s.locks| && s.tasks[s.current.value].resume.Thread? &&
         (s.locks[m].wait != [] ==> s.locks[m].wait[0] in s.tasks)
       case Create(t, base) =>
         t !in s.born && {base, base + 1} <= s.free &&
         (s.current.None? || (Runs(s) && s.tasks[s.current.value].resume.Thread?))
       case Reap =>
         Runs(s) && s.tasks[s.current.value].resume.ReaperTop? && s.dead != [] && s.dead[0] in s.tasks
       case ReapIdle => Runs(s) && s.tasks[s.current.value].resume.ReaperTop? && s.dead == []
  }

  function Frames(i: Info): set<nat> { {i.base, i.base + 1} }

  function Do<T>(s: Sys<T>, e: Event<T>): Sys<T>
    requires Enabled(s, e)
  {
    match e
    case Dispatch =>
      SetState(s, s.ready[0], Running).(ready := s.ready[1..], current := Some(s.ready[0]))
    case Tick => SwitchOut(s)
    case Yield =>
      var t := s.current.value;
      SwitchOut(if s.tasks[t].resume.ReaperYield? then SetResume(s, t, ReaperTop, s.tasks[t].irq) else s)
    case Exit => SetState(s, s.current.value, Dead)
    case Acquire(m) =>
      var t, l := s.current.value, s.locks[m];
      if l.locked then
        SwitchOut(SetResume(SetState(s, t, Blocked), t, Retry(m), false)
                  .(locks := s.locks[m := l.(wait := l.wait + [t])]))
      else
        SetResume(s, t, Thread, true)
        .(locks := s.locks[m := l.(locked := true, holder := Some(t), inside := l.inside + {t})])
    case Release(m) =>
      var t, l := s.current.value, s.locks[m];
      var open := l.(locked := false, holder := None, inside := l.inside - {t});
      if l.wait == [] then s.(locks := s.locks[m := open])
      else
        SetState(s, l.wait[0], Ready)
        .(locks := s.locks[m := open.(wait := l.wait[1..])], ready := s.ready + [l.wait[0]])
    case Create(t, base) =>
      s.(tasks := s.tasks[t := Info(Ready, Thread, true, base)], ready := s.ready + [t],
         free := s.free - {base, base + 1}, born := s.born + {t})
    case Reap =>
      var corpse, masked := s.dead[0], SetResume(s, s.current.value, ReaperTop, false);
      masked.(tasks := masked.tasks - {corpse}, dead := s.dead[1..], free := s.free + Frames(s.tasks[corpse]))
    case ReapIdle =>
      SetState(SetResume(s, s.current.value, ReaperYield, s.tasks[s.current.value].irq), s.current.value, Blocked)
  }

  // ----- the invariant -----

  ghost predicate NoRepeat<T>(q: seq<T>) {
    forall i, j :: 0 <= i < j < |q| ==> q[i] != q[j]
  }

  /** The state field of every task agrees with where the task is. */
  ghost predicate Placed<T>(s: Sys<T>, t: T)
    requires t in s.tasks
  {
    var i := s.tasks[t];
    && (i.state.Ready? <==> t in s.ready)
    && (i.state.Running? ==> s.current == Some(t))
    && (i.state.Dead? <==> t in s.dead || (s.current == Some(t) && i.state.Dead?))
    && (s.current == Some(t) ==> t !in s.dead)
    && (s.current == Some(t) ==>
          i.state.Running? || i.state.Dead? || (t == s.reaper && i.state.Blocked? && i.resume.ReaperYield?))
    && (forall m :: 0 <= m < |s.locks| ==> (t in s.locks[m].wait <==> i.state.Blocked? && i.resume == Retry(m)))
    && (i.state.Blocked? && t != s.reaper ==> i.resume.Retry?)
  }

  /** ... and where it goes on fits what it is. */
  ghost predicate Resumes<T>(s: Sys<T>, t: T)
    requires t in s.tasks
  {
    var i := s.tasks[t];
    && (t == s.reaper <==> i.resume.ReaperTop? || i.resume.ReaperYield?)
    && (i.resume.Retry? ==> i.resume.lock < |s.locks| && !i.irq && !i.state.Dead?)
    && (i.resume.Thread? ==> i.irq)
    && (t == s.reaper ==> !i.state.Dead?)
  }

  ghost predicate QueuesOk<T>(s: Sys<T>) {
    && s.reaper in s.tasks && s.tasks.Keys <= s.born
    && NoRepeat(s.ready) && NoRepeat(s.dead)
    && (forall t :: t in s.ready ==> t in s.tasks)
    && (forall t :: t in s.dead ==> t in s.tasks)
    && (s.current.Some? ==> s.current.value in s.tasks)
    && (forall m :: 0 <= m < |s.locks| ==> NoRepeat(s.locks[m].wait))
    && (forall m, t :: 0 <= m < |s.locks| && t in s.locks[m].wait ==> t in s.tasks)
  }

  /** Bodies to collect never wait for a sleeping reaper. */
  ghost predicate ReaperAwake<T>(s: Sys<T>)
    requires s.reaper in s.tasks
  {
    s.dead != [] ==> !s.tasks[s.reaper].state.Blocked?
  }

  /** A woken waiter of mutex `m` that has yet to re-test it. */
  ghost predicate Woken<T>(s: Sys<T>, m: nat, t: T) {
    t in s.tasks && s.tasks[t].resume == Retry(m) && (s.tasks[t].state.Ready? || s.tasks[t].state.Running?)
  }

  ghost predicate NoLostWakeup<T>(s: Sys<T>) {
    forall m :: 0 <= m < |s.locks| && s.locks[m].wait != [] ==>
      s.locks[m].locked || exists t :: t in s.tasks && Woken(s, m, t)
  }

  ghost predicate FramesOk<T>(s: Sys<T>) {
    && (forall t :: t in s.tasks ==> Frames(s.tasks[t]) !! s.free)
    && (forall t, u :: t in s.tasks && u in s.tasks && t != u ==> Frames(s.tasks[t]) !! Frames(s.tasks[u]))
  }

  ghost predicate Inv<T>(s: Sys<T>) {
    && QueuesOk(s)
    && (forall t :: t in s.tasks ==> Placed(s, t) && Resumes(s, t))
    && ReaperAwake(s)
    && NoLostWakeup(s)
    && FramesOk(s)
  }

  /** The state kmain has set up after spawn_reaper. */
  ghost predicate Init<T>(s: Sys<T>) {
    && s.tasks.Keys == {s.reaper} && s.born == {s.reaper}
    && s.tasks[s.reaper].state.Blocked? && s.tasks[s.reaper].resume.ReaperTop? && s.tasks[s.reaper].irq
    && Frames(s.tasks[s.reaper]) !! s.free
    && s.ready == [] && s.dead == [] && s.current.None?
    && (forall m :: 0 <= m < |s.locks| ==> s.locks[m] == Lock(false, None, [], {}))
  }

  lemma InitInv<T>(s: Sys<T>)
    requires Init(s)
    ensures Inv(s)
  {
  }

  // ----- what a step leaves alone -----

  lemma FramesKept<T>(s: Sys<T>, r: Sys<T>)
    requires FramesOk(s) && r.free <= s.free && r.tasks.Keys <= s.tasks.Keys
    requires forall t :: t in r.tasks ==> r.tasks[t].base == s.tasks[t].base
    ensures FramesOk(r)
  {
  }

  lemma WakeupKept<T>(s: Sys<T>, r: Sys<T>)
    requires NoLostWakeup(s) && r.locks == s.locks
    requires forall m, t :: t in s.tasks && Woken(s, m, t) ==> Woken(r, m, t)
    ensures NoLostWakeup(r)
  {
    forall m | 0 <= m < |r.locks| && r.locks[m].wait != [] && !r.locks[m].locked
      ensures exists t :: t in r.tasks && Woken(r, m, t)
    {
      var t :| t in s.tasks && Woken(s, m, t);
      assert t in r.tasks && Woken(r, m, t);
    }
  }

  /** The same tasks with the same frames, and the same free frames. */
  ghost predicate SameFrames<T>(s: Sys<T>, r: Sys<T>) {
    && r.tasks.Keys == s.tasks.Keys && r.free == s.free && r.born == s.born
    && (forall t :: t in s.tasks ==> r.tasks[t].base == s.tasks[t].base)
  }

  lemma SwitchOutFrames<T>(s: Sys<T>)
    requires s.current.Some? && s.current.value in s.tasks && s.reaper in s.tasks
    ensures SameFrames(s, SwitchOut(s))
  {
  }

  /** Only creation and reaping change which tasks and which frames there are. */
  lemma OtherFrames<T>(s: Sys<T>, e: Event<T>)
    requires Enabled(s, e) && !e.Create? && !e.Reap?
    ensures SameFrames(s, Do(s, e))
  {
    match e
    case Tick => SwitchOutFrames(s);
    case Yield =>
      var t := s.current.value;
      var s1 := if s.tasks[t].resume.ReaperYield? then SetResume(s, t, ReaperTop, s.tasks[t].irq) else s;
      assert SameFrames(s, s1);
      SwitchOutFrames(s1);
    case _ =>
  }

  lemma CreateFrames<T>(s: Sys<T>, t: T, base: nat)
    requires QueuesOk(s) && FramesOk(s) && Enabled(s, Create(t, base))
    ensures FramesOk(Do(s, Create(t, base)))
  {
    var r := Do(s, Create(t, base));
    hide QueuesOk, NoRepeat;
    forall u, v | u in r.tasks && v in r.tasks && u != v ensures Frames(r.tasks[u]) !! Frames(r.tasks[v]) {
      if u != t { assert Frames(s.tasks[u]) !! s.free; }
      if v != t { assert Frames(s.tasks[v]) !! s.free; }
    }
  }

  lemma ReapFrames<T>(s: Sys<T>)
    requires FramesOk(s) && Enabled(s, Reap)
    ensures FramesOk(Do(s, Reap))
  {
    var r := Do(s, Reap);
    forall u | u in r.tasks ensures Frames(r.tasks[u]) !! r.free {
      assert Frames(s.tasks[u]) !! s.free && Frames(s.tasks[u]) !! Frames(s.tasks[s.dead[0]]);
    }
    forall u, v | u in r.tasks && v in r.tasks && u != v ensures Frames(r.tasks[u]) !! Frames(r.tasks[v]) {
      assert Frames(s.tasks[u]) !! Frames(s.tasks[v]);
    }
  }

  lemma StepFrames<T>(s: Sys<T>, e: Event<T>)
    requires Inv(s) && Enabled(s, e)
    ensures FramesOk(Do(s, e))
  {
    match e
    case Create(t, base) => CreateFrames(s, t, base);
    case Reap => ReapFrames(s);
    case _ =>
      OtherFrames(s, e);
      hide Do, Enabled, QueuesOk, NoLostWakeup, ReaperAwake, Placed, Resumes, FramesOk;
      FramesKept(s, Do(s, e));
  }

  // ----- no step loses a wakeup -----

  /** Enough about a lock change: the mutexes other than `m` keep their waiters and their woken
      tasks, and `m` itself is taken care of. */
  lemma WakeupExcept<T>(s: Sys<T>, r: Sys<T>, m: nat)
    requires NoLostWakeup(s) && m < |s.locks| && |r.locks| == |s.locks|
    requires forall k :: 0 <= k < |s.locks| && k != m ==> r.locks[k] == s.locks[k]
    requires forall k, t :: k != m && t in s.tasks && Woken(s, k, t) ==> Woken(r, k, t)
    requires r.locks[m].wait != [] ==> r.locks[m].locked || exists t :: t in r.tasks && Woken(r, m, t)
    ensures NoLostWakeup(r)
  {
    forall k | 0 <= k < |r.locks| && r.locks[k].wait != [] && !r.locks[k].locked
      ensures exists t :: t in r.tasks && Woken(r, k, t)
    {
      if k != m {
        var t :| t in s.tasks && Woken(s, k, t);
        assert t in r.tasks && Woken(r, k, t);
      }
    }
  }

  lemma OtherWakeup<T>(s: Sys<T>, e: Event<T>)
    requires Inv(s) && Enabled(s, e) && (e.Dispatch? || e.Exit? || e.Create? || e.Reap? || e.ReapIdle?)
    ensures NoLostWakeup(Do(s, e))
  {
    hide FramesOk, NoRepeat, NoLostWakeup, ReaperAwake;
    if s.current.Some? { assert Placed(s, s.current.value) && Resumes(s, s.current.value); }
    if e.Dispatch? { assert Placed(s, s.ready[0]); }
    if e.Reap? { assert Placed(s, s.dead[0]); }
    hide Placed, Resumes;
    WakeupKept(s, Do(s, e));
  }

  lemma SwitchOutWakeup<T>(s: Sys<T>)
    requires Inv(s) && s.current.Some?
    ensures NoLostWakeup(SwitchOut(s))
    ensures Enabled(s, Yield) ==> NoLostWakeup(Do(s, Yield))
  {
    hide FramesOk, NoRepeat, NoLostWakeup, ReaperAwake;
    assert Placed(s, s.current.value) && Resumes(s, s.current.value);
    assert Placed(s, s.reaper) && Resumes(s, s.reaper);
    hide Placed, Resumes;
    WakeupKept(s, SwitchOut(s));
    if Enabled(s, Yield) { WakeupKept(s, Do(s, Yield)); }
  }

  lemma AcquireWakeup<T>(s: Sys<T>, m: nat)
    requires Inv(s) && Enabled(s, Acquire(m))
    ensures NoLostWakeup(Do(s, Acquire(m)))
  {
    hide FramesOk, NoRepeat, NoLostWakeup, ReaperAwake;
    assert Placed(s, s.current.value) && Resumes(s, s.current.value);
    hide Placed, Resumes;
    WakeupExcept(s, Do(s, Acquire(m)), m);
  }

  lemma ReleaseWakeup<T>(s: Sys<T>, m: nat)
    requires Inv(s) && Enabled(s, Release(m))
    ensures NoLostWakeup(Do(s, Release(m)))
  {
    hide FramesOk, NoRepeat, NoLostWakeup;
    var r, q := Do(s, Release(m)), s.locks[m].wait;
    if q != [] {
      assert Placed(s, q[0]);
      assert q[0] in r.tasks && Woken(r, m, q[0]);
    }
    WakeupExcept(s, r, m);
  }

  lemma StepWakeup<T>(s: Sys<T>, e: Event<T>)
    requires Inv(s) && Enabled(s, e)
    ensures NoLostWakeup(Do(s, e))
  {
    match e
    case Acquire(m) => AcquireWakeup(s, m);
    case Release(m) => ReleaseWakeup(s, m);
    case Tick => SwitchOutWakeup(s);
    case Yield => SwitchOutWakeup(s);
    case _ => OtherWakeup(s, e);
  }

  // ----- every step leaves each task in one place, and its state field says which -----

  lemma DispatchPlaced<T>(s: Sys<T>, t: T)
    requires Inv(s) && Enabled(s, Dispatch) && t in s.tasks
    ensures Placed(Do(s, Dispatch), t) && Resumes(Do(s, Dispatch), t)
  {
    hide NoLostWakeup, FramesOk, ReaperAwake;
    assert Placed(s, t) && Resumes(s, t) && Placed(s, s.ready[0]);
    assert t in s.ready <==> t == s.ready[0] || t in s.ready[1..];
  }

  lemma SwitchOutPlaced<T>(s: Sys<T>, t: T)
    requires Inv(s) && s.current.Some? && t in s.tasks
    ensures Placed(SwitchOut(s), t) && Resumes(SwitchOut(s), t)
  {
    hide NoLostWakeup, FramesOk, ReaperAwake;
    var c := s.current.value;
    assert Placed(s, t) && Resumes(s, t) && Placed(s, c) && Resumes(s, c) && Placed(s, s.reaper);
  }

  lemma YieldPlaced<T>(s: Sys<T>, t: T)
    requires Inv(s) && Enabled(s, Yield) && t in s.tasks
    ensures Placed(Do(s, Yield), t) && Resumes(Do(s, Yield), t)
  {
    hide NoLostWakeup, FramesOk, ReaperAwake;
    var c := s.current.value;
    SwitchOutPlaced(s, t);
    assert Placed(s, t) && Resumes(s, t) && Placed(s, c) && Resumes(s, c);
  }

  lemma ExitPlaced<T>(s: Sys<T>, t: T)
    requires Inv(s) && Enabled(s, Exit) && t in s.tasks
    ensures Placed(Do(s, Exit), t) && Resumes(Do(s, Exit), t)
  {
    hide NoLostWakeup, FramesOk, ReaperAwake;
    var c := s.current.value;
    assert Placed(s, t) && Resumes(s, t) && Placed(s, c) && Resumes(s, c);
  }

  lemma BlockPlaced<T>(s: Sys<T>, m: nat, t: T)
    requires Inv(s) && Enabled(s, Acquire(m)) && s.locks[m].locked && t in s.tasks
    ensures Placed(Do(s, Acquire(m)), t) && Resumes(Do(s, Acquire(m)), t)
  {
    hide NoLostWakeup, FramesOk, ReaperAwake, NoRepeat;
    var c := s.current.value;
    assert Placed(s, t) && Resumes(s, t) && Placed(s, c) && Resumes(s, c);
  }

  lemma TakePlaced<T>(s: Sys<T>, m: nat, t: T)
    requires Inv(s) && Enabled(s, Acquire(m)) && !s.locks[m].locked && t in s.tasks
    ensures Placed(Do(s, Acquire(m)), t) && Resumes(Do(s, Acquire(m)), t)
  {
    hide NoLostWakeup, FramesOk, ReaperAwake, NoRepeat;
    var c := s.current.value;
    assert Placed(s, t) && Resumes(s, t) && Placed(s, c) && Resumes(s, c);
  }

  lemma ReleasePlaced<T>(s: Sys<T>, m: nat, t: T)
    requires Inv(s) && Enabled(s, Release(m)) && t in s.tasks
    ensures Placed(Do(s, Release(m)), t) && Resumes(Do(s, Release(m)), t)
  {
    hide NoLostWakeup, FramesOk, ReaperAwake;
    assert Placed(s, t) && Resumes(s, t);
    var q := s.locks[m].wait;
    if q != [] {
      assert Placed(s, q[0]) && Resumes(s, q[0]);
      assert t in q <==> t == q[0] || t in q[1..];
    }
  }

  lemma CreatePlaced<T>(s: Sys<T>, u: T, base: nat, t: T)
    requires Inv(s) && Enabled(s, Create(u, base)) && t in Do(s, Create(u, base)).tasks
    ensures Placed(Do(s, Create(u, base)), t) && Resumes(Do(s, Create(u, base)), t)
  {
    hide NoLostWakeup, FramesOk, ReaperAwake;
    assert u !in s.tasks;
    if t != u { assert Placed(s, t) && Resumes(s, t); }
  }

  lemma ReapPlaced<T>(s: Sys<T>, t: T)
    requires Inv(s) && Enabled(s, Reap) && t in s.tasks && t != s.dead[0]
    ensures Placed(Do(s, Reap), t) && Resumes(Do(s, Reap), t)
  {
    hide NoLostWakeup, FramesOk, ReaperAwake;
    assert Placed(s, t) && Resumes(s, t) && Resumes(s, s.current.value);
    assert t in s.dead <==> t in s.dead[1..];
  }

  lemma ReapIdlePlaced<T>(s: Sys<T>, t: T)
    requires Inv(s) && Enabled(s, ReapIdle) && t in s.tasks
    ensures Placed(Do(s, ReapIdle), t) && Resumes(Do(s, ReapIdle), t)
  {
    hide NoLostWakeup, FramesOk, ReaperAwake;
    var c := s.current.value;
    assert Placed(s, t) && Resumes(s, t) && Placed(s, c) && Resumes(s, c);
  }

  lemma StepPlaced<T>(s: Sys<T>, e: Event<T>, t: T)
    requires Inv(s) && Enabled(s, e) && t in Do(s, e).tasks
    ensures Placed(Do(s, e), t) && Resumes(Do(s, e), t)
  {
    match e
    case Dispatch => DispatchPlaced(s, t);
    case Tick => SwitchOutPlaced(s, t);
    case Yield => YieldPlaced(s, t);
    case Exit => ExitPlaced(s, t);
    case Acquire(m) => if s.locks[m].locked { BlockPlaced(s, m, t); } else { TakePlaced(s, m, t); }
    case Release(m) => ReleasePlaced(s, m, t);
    case Create(u, base) => CreatePlaced(s, u, base, t);
    case Reap => ReapPlaced(s, t);
    case ReapIdle => ReapIdlePlaced(s, t);
  }

  // ----- the queues stay free of repetitions, and the reaper is awake when needed -----

  lemma SwitchOutQueues<T>(s: Sys<T>)
    requires Inv(s) && s.current.Some?
    ensures QueuesOk(SwitchOut(s)) && ReaperAwake(SwitchOut(s))
    ensures Enabled(s, Yield) ==> QueuesOk(Do(s, Yield)) && ReaperAwake(Do(s, Yield))
  {
    hide NoLostWakeup, FramesOk;
    assert Placed(s, s.current.value) && Resumes(s, s.current.value) && Placed(s, s.reaper);
  }

  lemma AcquireQueues<T>(s: Sys<T>, m: nat)
    requires Inv(s) && Enabled(s, Acquire(m))
    ensures QueuesOk(Do(s, Acquire(m))) && ReaperAwake(Do(s, Acquire(m)))
  {
    hide NoLostWakeup, FramesOk;
    assert Placed(s, s.current.value) && Resumes(s, s.current.value);
    hide Placed, Resumes;
    assert NoRepeat(Do(s, Acquire(m)).locks[m].wait);
  }

  lemma ReleaseQueues<T>(s: Sys<T>, m: nat)
    requires Inv(s) && Enabled(s, Release(m))
    ensures QueuesOk(Do(s, Release(m))) && ReaperAwake(Do(s, Release(m)))
  {
    hide NoLostWakeup, FramesOk;
    var q, r := s.locks[m].wait, Do(s, Release(m));
    if q != [] { assert Placed(s, q[0]) && Resumes(s, q[0]); }
    hide Placed, Resumes;
    assert NoRepeat(r.ready);
    assert NoRepeat(r.locks[m].wait);
  }

  lemma OtherQueues<T>(s: Sys<T>, e: Event<T>)
    requires Inv(s) && Enabled(s, e) && (e.Dispatch? || e.Exit? || e.Create? || e.ReapIdle?)
    ensures QueuesOk(Do(s, e)) && ReaperAwake(Do(s, e))
  {
    hide NoLostWakeup, FramesOk;
    if s.current.Some? { assert Placed(s, s.current.value) && Resumes(s, s.current.value); }
    if e.Dispatch? { assert Placed(s, s.ready[0]); }
    hide Placed, Resumes;
  }

  lemma ReapQueues<T>(s: Sys<T>)
    requires Inv(s) && Enabled(s, Reap)
    ensures QueuesOk(Do(s, Reap)) && ReaperAwake(Do(s, Reap))
  {
    hide NoLostWakeup, FramesOk;
    var r, corpse := Do(s, Reap), s.dead[0];
    assert Placed(s, corpse) && Resumes(s, corpse) && Resumes(s, s.current.value);
    forall t | t in r.ready ensures t in r.tasks { assert Placed(s, t); }
    assert forall m :: 0 <= m < |s.locks| ==> corpse !in s.locks[m].wait;
  }

  lemma StepQueues<T>(s: Sys<T>, e: Event<T>)
    requires Inv(s) && Enabled(s, e)
    ensures QueuesOk(Do(s, e)) && ReaperAwake(Do(s, e))
  {
    match e
    case Tick => SwitchOutQueues(s);
    case Yield => SwitchOutQueues(s);
    case Acquire(m) => AcquireQueues(s, m);
    case Release(m) => ReleaseQueues(s, m);
    case Reap => ReapQueues(s);
    case _ => OtherQueues(s, e);
  }

  /** Every step keeps the invariant. */
  lemma StepInv<T>(s: Sys<T>, e: Event<T>)
    requires Inv(s) && Enabled(s, e)
    ensures Inv(Do(s, e))
  {
    var r := Do(s, e);
    StepQueues(s, e);
    StepFrames(s, e);
    StepWakeup(s, e);
    forall t | t in r.tasks ensures Placed(r, t) && Resumes(r, t) { StepPlaced(s, e, t); }
  }

  /** The switch itself keeps the invariant, whoever asked for it. */
  lemma SwitchOutInv<T>(s: Sys<T>)
    requires Inv(s) && s.current.Some?
    ensures Inv(SwitchOut(s))
  {
    var r := SwitchOut(s);
    assert Placed(s, s.current.value) && Placed(s, s.reaper);
    SwitchOutQueues(s);
    forall t | t in r.tasks ensures Placed(r, t) && Resumes(r, t) { SwitchOutPlaced(s, t); }
    hide Placed, Resumes, NoRepeat;
    WakeupKept(s, r);
    FramesKept(s, r);
  }
}
