/** What holds over whole runs of the scheduler: places, mutual exclusion, the life of a task and
    of its frames, and the order of dispatches. */
module SchedulingRuns {
  import opened Wrappers
  import opened Scheduling

  predicate Legal<T(==)>(s: Sys<T>, es: seq<Event<T>>)
    decreases |es|
  {
    es == [] || (Enabled(s, es[0]) && Legal(Do(s, es[0]), es[1..]))
  }

  function After<T(==)>(s: Sys<T>, es: seq<Event<T>>): Sys<T>
    requires Legal(s, es)
    decreases |es|
  {
    if es == [] then s else After(Do(s, es[0]), es[1..])
  }

  /** Every state of every run satisfies the invariant. */
  lemma {:induction false} RunInv<T>(s: Sys<T>, es: seq<Event<T>>)
    requires Inv(s) && Legal(s, es)
    ensures Inv(After(s, es))
    decreases |es|
  {
    if es != [] {
      StepInv(s, es[0]);
      RunInv(Do(s, es[0]), es[1..]);
    }
  }

  lemma {:induction false} RunAppend<T>(s: Sys<T>, a: seq<Event<T>>, b: seq<Event<T>>)
    requires Legal(s, a) && Legal(After(s, a), b)
    ensures Legal(s, a + b) && After(s, a + b) == After(After(s, a), b)
    decreases |a|
  {
    if a == [] {
      assert a + b == b;
    } else {
      assert (a + b)[0] == a[0] && (a + b)[1..] == a[1..] + b;
      RunAppend(Do(s, a[0]), a[1..], b);
    }
  }

  lemma OneStep<T>(s: Sys<T>, e: Event<T>)
    requires Enabled(s, e)
    ensures Legal(s, [e]) && After(s, [e]) == Do(s, e)
  {
    hide Enabled, Do;
    assert [e][1..] == [];
  }

  /** A run goes on by one step. */
  lemma RunSnoc<T>(s: Sys<T>, es: seq<Event<T>>, e: Event<T>)
    requires Legal(s, es) && Enabled(After(s, es), e)
    ensures Legal(s, es + [e]) && After(s, es + [e]) == Do(After(s, es), e)
  {
    hide Enabled, Do;
    OneStep(After(s, es), e);
    hide Legal, After;
    RunAppend(s, es, [e]);
  }

  // ----- one place at a time -----

  datatype Place = InReady | InDead | OnCpu | WaitingFor(lock: nat)

  ghost predicate At<T>(s: Sys<T>, t: T, p: Place) {
    match p
    case InReady => t in s.ready
    case InDead => t in s.dead
    case OnCpu => s.current == Some(t)
    case WaitingFor(m) => m < |s.locks| && t in s.locks[m].wait
  }

  /** The state field a task shows in a place.  On the CPU it is RUNNING, except right before
      the switch of an exiting task and of the idle reaper. */
  ghost predicate Shows<T>(s: Sys<T>, t: T, p: Place)
    requires t in s.tasks
  {
    match p
    case InReady => s.tasks[t].state.Ready?
    case InDead => s.tasks[t].state.Dead?
    case OnCpu => s.tasks[t].state.Running? || s.tasks[t].state.Dead? || (s.tasks[t].state.Blocked? && t == s.reaper)
    case WaitingFor(_) => s.tasks[t].state.Blocked?
  }

  /** From boot on, in every reachable state: a task is in at most one place, only live tasks are
      in any, the state field agrees, a queue never holds a task twice, and only the sleeping
      reaper is nowhere. */
  lemma OnePlace<T>(s: Sys<T>, es: seq<Event<T>>, t: T)
    requires Init(s) && Legal(s, es)
    ensures var r := After(s, es);
            && (forall p, q :: At(r, t, p) && At(r, t, q) ==> p == q)
            && (forall p :: At(r, t, p) ==> t in r.tasks && Shows(r, t, p))
            && NoRepeat(r.ready) && NoRepeat(r.dead) && (forall m :: 0 <= m < |r.locks| ==> NoRepeat(r.locks[m].wait))
            && (t in r.tasks && (forall p :: !At(r, t, p)) ==> t == r.reaper && r.tasks[t].state.Blocked?)
  {
    InitInv(s);
    RunInv(s, es);
    var r := After(s, es);
    if t in r.tasks {
      assert Placed(r, t) && Resumes(r, t);
      var i := r.tasks[t];
      assert i.state.Ready? ==> At(r, t, InReady);
      assert i.state.Running? ==> At(r, t, OnCpu);
      assert i.state.Dead? ==> At(r, t, InDead) || At(r, t, OnCpu);
      assert i.state.Blocked? && i.resume.Retry? ==> At(r, t, WaitingFor(i.resume.lock));
    }
  }

  // ----- mutual exclusion -----

  /** Who is inside a critical section is exactly who the mutex says holds it. */
  ghost predicate Exclusive<T>(s: Sys<T>) {
    forall m :: 0 <= m < |s.locks| ==>
      var l := s.locks[m];
      && (l.locked <==> l.holder.Some?)
      && l.inside == if l.holder.Some? then {l.holder.value} else {}
  }

  /** Releasing is harmless exactly when the caller holds the mutex or nobody does. */
  predicate Entitled<T(==)>(s: Sys<T>, e: Event<T>) {
    e.Release? && e.lock < |s.locks| && s.locks[e.lock].locked ==> s.locks[e.lock].holder == s.current
  }

  lemma ExclusiveStep<T>(s: Sys<T>, e: Event<T>)
    requires Exclusive(s) && Enabled(s, e)
    ensures Exclusive(Do(s, e)) <==> Entitled(s, e)
  {
    var r := Do(s, e);
    if e.Release? {
      assert r.locks[e.lock].inside == s.locks[e.lock].inside - {s.current.value};
      if s.locks[e.lock].locked && s.locks[e.lock].holder != s.current {
        assert s.locks[e.lock].holder.value in r.locks[e.lock].inside;
      }
    }
  }

  predicate OnlyHoldersRelease<T(==)>(s: Sys<T>, es: seq<Event<T>>)
    requires Legal(s, es)
    decreases |es|
  {
    es == [] || (Entitled(s, es[0]) && OnlyHoldersRelease(Do(s, es[0]), es[1..]))
  }

  lemma {:induction false} RunExclusive<T>(s: Sys<T>, es: seq<Event<T>>)
    requires Exclusive(s) && Legal(s, es) && OnlyHoldersRelease(s, es)
    ensures Exclusive(After(s, es))
    decreases |es|
  {
    if es != [] {
      ExclusiveStep(s, es[0]);
      RunExclusive(Do(s, es[0]), es[1..]);
    }
  }

  /** If only holders unlock, at most one task is ever between lock and unlock of a mutex, and
      waiters are never forgotten: the mutex is held, or one of them is on its way to re-test it. */
  lemma MutexSafety<T>(s: Sys<T>, es: seq<Event<T>>, m: nat)
    requires Init(s) && Legal(s, es) && OnlyHoldersRelease(s, es) && m < |After(s, es).locks|
    ensures var r := After(s, es);
            && (forall t, u :: t in r.locks[m].inside && u in r.locks[m].inside ==> t == u)
            && (r.locks[m].wait != [] ==>
                  r.locks[m].inside != {} || exists t :: t in r.tasks && Woken(r, m, t))
  {
    InitInv(s);
    RunInv(s, es);
    RunExclusive(s, es);
  }

  /** Thread `a` holds the first mutex and waits behind `b` to run on. */
  ghost predicate HeldBy<T>(s: Sys<T>, a: T, b: T) {
    && a != b && s.reaper in s.tasks && a in s.tasks && b in s.tasks && s.current.None? && s.ready == [b, a]
    && s.tasks[b].resume.Thread? && s.tasks[b].state.Ready?
    && s.tasks[a].resume.Thread? && s.tasks[a].state.Ready? && a in s.born
    && |s.locks| > 0 && s.locks[0] == Lock(true, Some(a), [], {a})
  }

  lemma TwoSteps<T>(s: Sys<T>, e: Event<T>, f: Event<T>)
    requires Enabled(s, e) && Enabled(Do(s, e), f)
    ensures Legal(s, [e, f]) && After(s, [e, f]) == Do(Do(s, e), f)
  {
    hide Do, Enabled;
    OneStep(s, e);
    hide Legal, After;
    RunSnoc(s, [e], f);
    assert [e] + [f] == [e, f];
  }

  lemma ThreeSteps<T>(s: Sys<T>, e: Event<T>, f: Event<T>, g: Event<T>)
    requires Enabled(s, e) && Enabled(Do(s, e), f) && Enabled(Do(Do(s, e), f), g)
    ensures Legal(s, [e, f, g]) && After(s, [e, f, g]) == Do(Do(Do(s, e), f), g)
  {
    hide Do, Enabled, Legal, After;
    TwoSteps(s, e, f);
    RunSnoc(s, [e, f], g);
    assert [e, f] + [g] == [e, f, g];
  }

  lemma HolderSwitched<T>(s: Sys<T>, a: T, b: T) returns (r: Sys<T>)
    requires a != b && s.reaper in s.tasks && a in s.tasks && b in s.tasks && s.current.None? && s.ready == [a, b]
    requires s.tasks[a].resume.Thread? && s.tasks[b].resume.Thread? && s.tasks[b].state.Ready? && a in s.born
    requires |s.locks| > 0 && s.locks[0] == Lock(false, None, [], {})
    ensures Legal(s, [Dispatch, Acquire(0), Tick]) && After(s, [Dispatch, Acquire(0), Tick]) == r && HeldBy(r, a, b)
  {
    var s1 := Do(s, Dispatch);
    assert s1.ready == [b] && s1.current == Some(a);
    var s2 := Do(s1, Acquire(0));
    assert s2.locks[0] == Lock(true, Some(a), [], {a}) && s2.tasks[a].state.Running? && s2.tasks[a].irq;
    r := Do(s2, Tick);
    hide Do, Enabled, Legal, After;
    ThreeSteps(s, Dispatch, Acquire(0), Tick);
  }

  lemma HolderPreempted<T>(s: Sys<T>, a: T, b: T, f: nat, g: nat) returns (r: Sys<T>)
    requires Init(s) && |s.locks| > 0 && a != b && a !in s.born && b !in s.born
    requires {f, f + 1, g, g + 1} <= s.free && {f, f + 1} !! {g, g + 1}
    ensures var es := [Create(a, f), Create(b, g), Dispatch, Acquire(0), Tick]; Legal(s, es) && After(s, es) == r
    ensures HeldBy(r, a, b)
  {
    var s1 := Do(s, Create(a, f));
    var s2 := Do(s1, Create(b, g));
    assert s2.ready == [a, b];
    assert s2.tasks[a] == Info(Ready, Thread, true, f) && s2.tasks[b] == Info(Ready, Thread, true, g);
    assert s2.locks == s.locks && s2.reaper == s.reaper && s2.current.None? && s2.reaper in s2.tasks;
    hide Do, Enabled, Legal, After;
    OneStep(s, Create(a, f));
    RunSnoc(s, [Create(a, f)], Create(b, g));
    assert [Create(a, f)] + [Create(b, g)] == [Create(a, f), Create(b, g)];
    r := HolderSwitched(s2, a, b);
    RunAppend(s, [Create(a, f), Create(b, g)], [Dispatch, Acquire(0), Tick]);
    assert [Create(a, f), Create(b, g)] + [Dispatch, Acquire(0), Tick]
           == [Create(a, f), Create(b, g), Dispatch, Acquire(0), Tick];
  }

  lemma IntruderJoins<T>(s: Sys<T>, a: T, b: T)
    requires HeldBy(s, a, b)
    ensures var es: seq<Event<T>> := [Dispatch, Release(0), Acquire(0)];
            Legal(s, es) && |After(s, es).locks| > 0 && After(s, es).locks[0].inside == {a, b}
  {
    var s1 := Do(s, Dispatch);
    assert s1.current == Some(b) && s1.tasks[b].state.Running?;
    var s2 := Do(s1, Release(0));
    assert s2.locks[0] == Lock(false, None, [], {a});
    var s3 := Do(s2, Acquire(0));
    assert s3.locks[0].inside == {a} + {b} == {a, b};
    hide Do, Enabled, Legal, After;
    ThreeSteps(s, Dispatch, Release(0), Acquire(0));
  }

  /** Without that proviso it fails: a thread that unlocks what another holds, and then locks it,
      joins that other one inside. */
  lemma ForeignUnlockLetsTwoIn<T>(s: Sys<T>, a: T, b: T, f: nat, g: nat)
    requires Init(s) && |s.locks| > 0 && a != b && a !in s.born && b !in s.born
    requires {f, f + 1, g, g + 1} <= s.free && {f, f + 1} !! {g, g + 1}
    ensures var es := [Create(a, f), Create(b, g), Dispatch, Acquire(0), Tick, Dispatch, Release(0), Acquire(0)];
            Legal(s, es) && |After(s, es).locks| > 0 && After(s, es).locks[0].inside == {a, b}
  {
    var s4 := HolderPreempted(s, a, b, f, g);
    IntruderJoins(s4, a, b);
    hide Do, Enabled, Legal, After;
    var es := [Create(a, f), Create(b, g), Dispatch, Acquire(0), Tick];
    var fs: seq<Event<T>> := [Dispatch, Release(0), Acquire(0)];
    RunAppend(s, es, fs);
    assert es + fs == [Create(a, f), Create(b, g), Dispatch, Acquire(0), Tick, Dispatch, Release(0), Acquire(0)];
  }

  /** A woken waiter that runs is at the re-test and cannot be preempted before it. */
  lemma WokenRetests<T>(s: Sys<T>, m: nat, t: T)
    requires Inv(s) && Woken(s, m, t) && s.current == Some(t)
    ensures Enabled(s, Acquire(m)) && !Enabled(s, Tick) && !Enabled(s, Yield) && !Enabled(s, Exit)
    ensures var r := Do(s, Acquire(m));
            if s.locks[m].locked then r.locks[m].wait == s.locks[m].wait + [t]
            else r.locks[m].holder == Some(t)
  {
    assert Placed(s, t) && Resumes(s, t);
  }

  // ----- the life of a task -----

  /** The task has exited; it may or may not have been reaped. */
  ghost predicate Gone<T>(s: Sys<T>, t: T) {
    t in s.born && (t in s.tasks ==> s.tasks[t].state.Dead?)
  }

  lemma SwitchOutDead<T>(s: Sys<T>)
    requires s.current.Some? && s.current.value in s.tasks && s.reaper in s.tasks
    ensures SwitchOut(s).tasks.Keys == s.tasks.Keys && SwitchOut(s).born == s.born
    ensures forall t :: t in s.tasks ==> (SwitchOut(s).tasks[t].state.Dead? <==> s.tasks[t].state.Dead?)
  {
  }

  lemma YieldDead<T>(s: Sys<T>)
    requires Enabled(s, Yield)
    ensures Do(s, Yield).tasks.Keys == s.tasks.Keys && Do(s, Yield).born == s.born
    ensures forall t :: t in s.tasks ==> (Do(s, Yield).tasks[t].state.Dead? <==> s.tasks[t].state.Dead?)
  {
    var t := s.current.value;
    var s1 := if s.tasks[t].resume.ReaperYield? then SetResume(s, t, ReaperTop, s.tasks[t].irq) else s;
    assert s1.tasks.Keys == s.tasks.Keys && forall u :: u in s.tasks ==> s1.tasks[u].state == s.tasks[u].state;
    SwitchOutDead(s1);
    hide SwitchOut;
  }

  lemma AcquireDead<T>(s: Sys<T>, m: nat)
    requires Enabled(s, Acquire(m))
    ensures Do(s, Acquire(m)).tasks.Keys == s.tasks.Keys && Do(s, Acquire(m)).born == s.born
    ensures forall t :: t in s.tasks ==> (Do(s, Acquire(m)).tasks[t].state.Dead? <==> s.tasks[t].state.Dead?)
  {
  }

  /** Switching, yielding and taking a mutex kill nobody and revive nobody. */
  lemma DeadSame<T>(s: Sys<T>, e: Event<T>)
    requires Enabled(s, e) && (e.Tick? || e.Yield? || e.Acquire?)
    ensures Do(s, e).tasks.Keys == s.tasks.Keys && Do(s, e).born == s.born
    ensures forall t :: t in s.tasks ==> (Do(s, e).tasks[t].state.Dead? <==> s.tasks[t].state.Dead?)
  {
    match e
    case Tick => SwitchOutDead(s);
    case Yield => YieldDead(s);
    case Acquire(m) => AcquireDead(s, m);
  }

  lemma GoneStep<T>(s: Sys<T>, e: Event<T>, t: T)
    requires Inv(s) && Enabled(s, e) && Gone(s, t)
    ensures Gone(Do(s, e), t)
    ensures t !in s.tasks ==> t !in Do(s, e).tasks
    ensures e.Dispatch? ==> Do(s, e).current != Some(t)
  {
    hide NoLostWakeup, FramesOk, NoRepeat, ReaperAwake;
    if t in s.tasks { assert Placed(s, t); }
    if e.Tick? || e.Yield? || e.Acquire? {
      DeadSame(s, e);
      hide Do, Inv, Placed;
    } else {
      if s.current.Some? { assert Placed(s, s.current.value); }
      if e.Dispatch? { assert Placed(s, s.ready[0]); }
      if e.Release? && s.locks[e.lock].wait != [] { assert Placed(s, s.locks[e.lock].wait[0]); }
      hide Placed, Resumes, SwitchOut;
    }
  }

  /** An exited task is never dispatched again, and once unlinked by the reaper never comes back,
      so it is unlinked at most once. */
  lemma {:induction false} ExitIsFinal<T>(s: Sys<T>, es: seq<Event<T>>, t: T)
    requires Inv(s) && Legal(s, es) && Gone(s, t)
    ensures var r := After(s, es);
            && Gone(r, t)
            && (t !in s.tasks ==> t !in r.tasks)
            && (Enabled(r, Dispatch) ==> r.ready[0] != t)
            && (t !in s.tasks && Enabled(r, Reap) ==> r.dead[0] != t)
    decreases |es|
  {
    if es == [] {
      if t in s.tasks { assert Placed(s, t); }
    } else {
      GoneStep(s, es[0], t);
      StepInv(s, es[0]);
      ExitIsFinal(Do(s, es[0]), es[1..], t);
    }
  }

  // ----- threads that exit inside a critical section -----

  /** Mutex `m` is held by a thread that has exited. */
  ghost predicate Abandoned<T>(s: Sys<T>, m: nat) {
    m < |s.locks| && s.locks[m].locked && s.locks[m].holder.Some? && Gone(s, s.locks[m].holder.value)
  }

  lemma ReleaserLives<T>(s: Sys<T>, m: nat)
    requires Enabled(s, Release(m))
    ensures s.current.Some? && !Gone(s, s.current.value)
  {
  }

  lemma OthersKeepLock<T>(s: Sys<T>, e: Event<T>, m: nat)
    requires Enabled(s, e) && e != Release(m) && m < |s.locks| && s.locks[m].locked
    ensures m < |Do(s, e).locks| && Do(s, e).locks[m].locked && Do(s, e).locks[m].holder == s.locks[m].holder
    ensures s.locks[m].wait <= Do(s, e).locks[m].wait
  {
  }

  lemma AbandonedStep<T>(s: Sys<T>, e: Event<T>, m: nat)
    requires Inv(s) && Enabled(s, e) && Entitled(s, e) && Abandoned(s, m)
    ensures Abandoned(Do(s, e), m) && s.locks[m].wait <= Do(s, e).locks[m].wait
  {
    GoneStep(s, e, s.locks[m].holder.value);
    if e == Release(m) { ReleaserLives(s, m); }
    hide Inv, Gone;
    OthersKeepLock(s, e, m);
    hide Do, Enabled;
  }

  lemma WaiterIdle<T>(s: Sys<T>, m: nat, t: T)
    requires Inv(s) && m < |s.locks| && t in s.locks[m].wait
    ensures s.current != Some(t) && t !in s.ready
  {
    assert Placed(s, t) && Resumes(s, t);
  }

  /** Whoever waits for a mutex whose holder has exited waits for ever: as long as only holders
      unlock, it never becomes ready and never runs. */
  lemma {:induction false} AbandonedWaitersStay<T>(s: Sys<T>, es: seq<Event<T>>, m: nat, t: T)
    requires Inv(s) && Legal(s, es) && OnlyHoldersRelease(s, es) && Abandoned(s, m) && t in s.locks[m].wait
    ensures var r := After(s, es);
            Abandoned(r, m) && t in r.locks[m].wait && r.current != Some(t) && t !in r.ready
    decreases |es|
  {
    if es == [] {
      WaiterIdle(s, m, t);
    } else {
      AbandonedStep(s, es[0], m);
      StepInv(s, es[0]);
      hide Inv, Do, Enabled, Entitled, Gone;
      AbandonedWaitersStay(Do(s, es[0]), es[1..], m, t);
    }
  }

  /** Every thread between a lock and its unlock is live. */
  ghost predicate InsideLive<T>(s: Sys<T>) {
    forall m, t :: 0 <= m < |s.locks| && t in s.locks[m].inside ==> t in s.tasks && !s.tasks[t].state.Dead?
  }

  /** The step is no exit of a thread inside a critical section. */
  ghost predicate ExitsOutside<T>(s: Sys<T>, e: Event<T>) {
    e.Exit? && s.current.Some? ==> forall m :: 0 <= m < |s.locks| ==> s.current.value !in s.locks[m].inside
  }

  /** A live thread stays live, except the one that exits. */
  lemma LiveStep<T>(s: Sys<T>, e: Event<T>, t: T)
    requires Inv(s) && Enabled(s, e) && t in s.tasks && !s.tasks[t].state.Dead?
    ensures t in Do(s, e).tasks && (Do(s, e).tasks[t].state.Dead? <==> e.Exit? && s.current == Some(t))
  {
    hide NoLostWakeup, FramesOk, NoRepeat, ReaperAwake;
    assert Placed(s, t);
    if e.Tick? || e.Yield? || e.Acquire? {
      DeadSame(s, e);
      hide Do, Inv, Placed;
    } else {
      if s.current.Some? { assert Placed(s, s.current.value); }
      hide Placed, Resumes, SwitchOut;
    }
  }

  lemma InsideStep<T>(s: Sys<T>, e: Event<T>)
    requires Enabled(s, e)
    ensures |Do(s, e).locks| == |s.locks|
    ensures forall m :: 0 <= m < |s.locks| ==>
              Do(s, e).locks[m].inside ==
              if e == Release(m) then s.locks[m].inside - {s.current.value}
              else if e == Acquire(m) && !s.locks[m].locked then s.locks[m].inside + {s.current.value}
              else s.locks[m].inside
  {
  }

  lemma TakerLives<T>(s: Sys<T>, m: nat)
    requires Inv(s) && Enabled(s, Acquire(m))
    ensures var t := s.current.value;
            t in Do(s, Acquire(m)).tasks && !Do(s, Acquire(m)).tasks[t].state.Dead?
  {
    LiveStep(s, Acquire(m), s.current.value);
    hide Do;
  }

  lemma NewcomerLives<T>(s: Sys<T>, e: Event<T>, m: nat, t: T)
    requires Inv(s) && Enabled(s, e) && InsideLive(s) && ExitsOutside(s, e)
    requires m < |Do(s, e).locks| && t in Do(s, e).locks[m].inside
    ensures t in Do(s, e).tasks && !Do(s, e).tasks[t].state.Dead?
  {
    InsideStep(s, e);
    if t in s.locks[m].inside {
      LiveStep(s, e, t);
    } else {
      assert e == Acquire(m) && s.current == Some(t);
      TakerLives(s, m);
    }
    hide Do, Enabled, Inv;
  }

  /** A step keeps the threads inside alive exactly when it is no exit of one of them. */
  lemma InsideLiveExact<T>(s: Sys<T>, e: Event<T>)
    requires Inv(s) && Enabled(s, e) && InsideLive(s)
    ensures InsideLive(Do(s, e)) <==> ExitsOutside(s, e)
  {
    var r := Do(s, e);
    InsideStep(s, e);
    if ExitsOutside(s, e) {
      forall m, t | 0 <= m < |r.locks| && t in r.locks[m].inside ensures t in r.tasks && !r.tasks[t].state.Dead? {
        NewcomerLives(s, e, m, t);
      }
    } else {
      var m :| 0 <= m < |s.locks| && s.current.value in s.locks[m].inside;
      LiveStep(s, e, s.current.value);
      hide Do, Enabled, Inv;
      assert s.current.value in r.locks[m].inside;
    }
  }

  ghost predicate OnlyOutsidersExit<T>(s: Sys<T>, es: seq<Event<T>>)
    requires Legal(s, es)
    decreases |es|
  {
    es == [] || (ExitsOutside(s, es[0]) && OnlyOutsidersExit(Do(s, es[0]), es[1..]))
  }

  lemma {:induction false} RunInsideLive<T>(s: Sys<T>, es: seq<Event<T>>)
    requires Inv(s) && InsideLive(s) && Legal(s, es) && OnlyOutsidersExit(s, es)
    ensures InsideLive(After(s, es))
    decreases |es|
  {
    if es != [] {
      InsideLiveExact(s, es[0]);
      StepInv(s, es[0]);
      hide Inv, Do, Enabled, InsideLive, ExitsOutside;
      RunInsideLive(Do(s, es[0]), es[1..]);
    }
  }

  /** If only holders unlock and no thread exits inside a critical section, a mutex somebody waits
      for is held by a live thread, or a woken waiter has yet to re-test it. */
  lemma WaitersHaveLiveHolder<T>(s: Sys<T>, es: seq<Event<T>>, m: nat)
    requires Init(s) && Legal(s, es) && OnlyHoldersRelease(s, es) && OnlyOutsidersExit(s, es)
    requires m < |After(s, es).locks| && After(s, es).locks[m].wait != []
    ensures var r := After(s, es);
            (exists t :: t in r.tasks && t in r.locks[m].inside && !r.tasks[t].state.Dead?) ||
            (exists t :: t in r.tasks && Woken(r, m, t))
  {
    InitInv(s);
    RunInsideLive(s, es);
    MutexSafety(s, es, m);
    var r := After(s, es);
    hide Init, Inv, Legal, After, Do, Enabled, OnlyHoldersRelease, OnlyOutsidersExit;
    if r.locks[m].inside != {} {
      var t :| t in r.locks[m].inside;
      assert t in r.tasks && !r.tasks[t].state.Dead?;
    }
  }

  lemma HolderExits<T>(s: Sys<T>, a: T, b: T)
    requires HeldBy(s, a, b)
    ensures var es: seq<Event<T>> := [Dispatch, Acquire(0)] + [Dispatch, Exit];
            Legal(s, es) && Abandoned(After(s, es), 0) && After(s, es).locks[0].wait == [b]
  {
    var s1 := Do(s, Dispatch);
    assert s1.current == Some(b) && s1.tasks[b].state.Running? && s1.ready == [a];
    var s2 := Do(s1, Acquire(0));
    assert s2.locks[0] == Lock(true, Some(a), [b], {a}) && s2.ready == [a] && s2.current.None?;
    var s3 := Do(s2, Dispatch);
    assert s3.current == Some(a) && s3.tasks[a].state.Running?;
    var s4 := Do(s3, Exit);
    assert Abandoned(s4, 0) && s4.locks[0].wait == [b];
    hide Do, Enabled, Legal, After;
    TwoSteps(s, Dispatch, Acquire(0));
    TwoSteps(s2, Dispatch, Exit);
    RunAppend(s, [Dispatch, Acquire(0)], [Dispatch, Exit]);
  }

  lemma {:induction false} NoReleases<T>(s: Sys<T>, es: seq<Event<T>>)
    requires Legal(s, es) && forall e :: e in es ==> !e.Release?
    ensures OnlyHoldersRelease(s, es)
    decreases |es|
  {
    hide Do, Enabled;
    if es != [] { NoReleases(Do(s, es[0]), es[1..]); }
  }

  /** It does happen: the holder of a mutex exits while another thread waits for it. */
  lemma AbandonedMutexHappens<T>(s: Sys<T>, a: T, b: T, f: nat, g: nat)
    requires Init(s) && |s.locks| > 0 && a != b && a !in s.born && b !in s.born
    requires {f, f + 1, g, g + 1} <= s.free && {f, f + 1} !! {g, g + 1}
    ensures var es := [Create(a, f), Create(b, g), Dispatch, Acquire(0), Tick]
                      + ([Dispatch, Acquire(0)] + [Dispatch, Exit]);
            && Legal(s, es) && Abandoned(After(s, es), 0) && After(s, es).locks[0].wait == [b]
            && OnlyHoldersRelease(s, es)
  {
    var r := HolderPreempted(s, a, b, f, g);
    HolderExits(r, a, b);
    var es := [Create(a, f), Create(b, g), Dispatch, Acquire(0), Tick];
    var fs: seq<Event<T>> := [Dispatch, Acquire(0)] + [Dispatch, Exit];
    assert forall e :: e in es + fs ==> !e.Release?;
    hide Do, Enabled, Legal, After, Abandoned;
    RunAppend(s, es, fs);
    NoReleases(s, es + fs);
  }

  lemma BaseStep<T>(s: Sys<T>, e: Event<T>, t: T)
    requires Inv(s) && Enabled(s, e) && t in s.born && t in Do(s, e).tasks
    ensures t in s.tasks && Do(s, e).tasks[t].base == s.tasks[t].base && t in Do(s, e).born
  {
    hide Inv;
    if !e.Create? && !e.Reap? { OtherFrames(s, e); }
  }

  lemma BornStep<T>(s: Sys<T>, e: Event<T>)
    requires Enabled(s, e)
    ensures s.born <= Do(s, e).born
  {
    if !e.Create? && !e.Reap? { OtherFrames(s, e); }
  }

  /** The frames of a live task are the ones it was created with. */
  lemma {:induction false} FramesStay<T>(s: Sys<T>, es: seq<Event<T>>, t: T)
    requires Inv(s) && Legal(s, es) && t in s.born && t in After(s, es).tasks
    ensures t in s.tasks && After(s, es).tasks[t].base == s.tasks[t].base
    decreases |es|
  {
    if es != [] {
      StepInv(s, es[0]);
      hide Inv, Do, Enabled;
      BornStep(s, es[0]);
      FramesStay(Do(s, es[0]), es[1..], t);
      BaseStep(s, es[0], t);
    }
  }

  lemma CreateFacts<T>(s: Sys<T>, t: T, base: nat)
    requires Enabled(s, Create(t, base))
    ensures var r := Do(s, Create(t, base)); t in r.born && t in r.tasks && r.tasks[t].base == base
  {
  }

  lemma ReapFrees<T>(s: Sys<T>)
    requires Inv(s) && Enabled(s, Reap)
    ensures var f := Frames(s.tasks[s.dead[0]]); s.dead[0] in s.tasks && f !! s.free && Do(s, Reap).free == s.free + f
    ensures Do(s, Reap).tasks.Keys == s.tasks.Keys - {s.dead[0]}
    ensures forall t :: t in s.tasks && t != s.dead[0] ==> Do(s, Reap).tasks[t].base == s.tasks[t].base
  {
    hide NoLostWakeup, NoRepeat, Placed, Resumes;
  }

  /** When a task is reaped, exactly the two frames create_task took for it become free. */
  lemma ReapReturnsFrames<T>(s: Sys<T>, t: T, base: nat, es: seq<Event<T>>, r: Sys<T>)
    requires Inv(s) && Enabled(s, Create(t, base)) && Legal(Do(s, Create(t, base)), es)
    requires r == After(Do(s, Create(t, base)), es) && Enabled(r, Reap) && r.dead[0] == t
    ensures && {base, base + 1} !! r.free && Do(r, Reap).free == r.free + {base, base + 1}
            && t !in Do(r, Reap).tasks
  {
    hide Inv, Enabled, Do, Legal, After;
    var s1 := Do(s, Create(t, base));
    StepInv(s, Create(t, base));
    CreateFacts(s, t, base);
    RunInv(s1, es);
    ReapFrees(r);
    FramesStay(s1, es, t);
  }

  /** All the frames the tasks and the allocator have between them. */
  ghost function Pool<T>(s: Sys<T>): set<nat> {
    s.free + (set t, f | t in s.tasks && f in Frames(s.tasks[t]) :: f)
  }

  lemma PoolSame<T>(s: Sys<T>, r: Sys<T>)
    requires SameFrames(s, r)
    ensures Pool(r) == Pool(s)
  {
    forall f ensures f in Pool(r) <==> f in Pool(s) {
      if f in Pool(s) && f !in s.free {
        var t :| t in s.tasks && f in Frames(s.tasks[t]);
        assert t in r.tasks && f in Frames(r.tasks[t]);
      }
      if f in Pool(r) && f !in r.free {
        var t :| t in r.tasks && f in Frames(r.tasks[t]);
        assert t in s.tasks && f in Frames(s.tasks[t]);
      }
    }
  }

  lemma PoolCreate<T>(s: Sys<T>, t: T, base: nat)
    requires QueuesOk(s) && Enabled(s, Create(t, base))
    ensures Pool(Do(s, Create(t, base))) == Pool(s)
  {
    hide NoRepeat;
    var r := Do(s, Create(t, base));
    assert t !in s.tasks && r.tasks[t].base == base;
    forall f ensures f in Pool(r) <==> f in Pool(s) {
      if f in {base, base + 1} {
        assert f in s.free && t in r.tasks && f in Frames(r.tasks[t]);
      } else if f !in s.free {
        if u :| u in s.tasks && f in Frames(s.tasks[u]) { assert u in r.tasks && f in Frames(r.tasks[u]); }
        if u :| u in r.tasks && f in Frames(r.tasks[u]) { assert u in s.tasks && f in Frames(s.tasks[u]); }
      }
    }
  }

  lemma PoolReap<T>(s: Sys<T>, r: Sys<T>, corpse: T)
    requires corpse in s.tasks && r.tasks.Keys == s.tasks.Keys - {corpse} && r.free == s.free + Frames(s.tasks[corpse])
    requires forall t :: t in s.tasks && t != corpse ==> r.tasks[t].base == s.tasks[t].base
    ensures Pool(r) == Pool(s)
  {
    forall f ensures f in Pool(r) <==> f in Pool(s) {
      if f in Frames(s.tasks[corpse]) {
      } else if f !in s.free {
        if u :| u in s.tasks && f in Frames(s.tasks[u]) { assert u in r.tasks && f in Frames(r.tasks[u]); }
        if u :| u in r.tasks && f in Frames(r.tasks[u]) { assert u in s.tasks && f in Frames(s.tasks[u]); }
      }
    }
  }

  lemma PoolStep<T>(s: Sys<T>, e: Event<T>)
    requires Inv(s) && Enabled(s, e)
    ensures Pool(Do(s, e)) == Pool(s)
  {
    match e
    case Create(t, base) => PoolCreate(s, t, base);
    case Reap => ReapFrees(s); PoolReap(s, Do(s, Reap), s.dead[0]);
    case _ => OtherFrames(s, e); PoolSame(s, Do(s, e));
  }

  /** No frame is ever lost or invented. */
  lemma {:induction false} FramesConserved<T>(s: Sys<T>, es: seq<Event<T>>)
    requires Inv(s) && Legal(s, es)
    ensures Pool(After(s, es)) == Pool(s) && FramesOk(After(s, es))
    decreases |es|
  {
    if es != [] {
      PoolStep(s, es[0]);
      StepInv(s, es[0]);
      FramesConserved(Do(s, es[0]), es[1..]);
    }
  }

  /** The reaper is never asleep while bodies wait, whatever the run. */
  lemma ReaperServes<T>(s: Sys<T>, es: seq<Event<T>>)
    requires Init(s) && Legal(s, es)
    ensures var r := After(s, es);
            r.reaper in r.tasks && (r.dead != [] ==> At(r, r.reaper, InReady) || At(r, r.reaper, OnCpu))
  {
    InitInv(s);
    RunInv(s, es);
    var r := After(s, es);
    assert Placed(r, r.reaper) && Resumes(r, r.reaper);
  }

  // ----- the reaper's interrupt flag -----

  lemma SwitchOutFlags<T>(s: Sys<T>)
    requires s.current.Some? && s.current.value in s.tasks && s.reaper in s.tasks
    ensures SwitchOut(s).reaper == s.reaper && SwitchOut(s).tasks.Keys == s.tasks.Keys
    ensures forall t :: t in s.tasks ==> SwitchOut(s).tasks[t].irq == s.tasks[t].irq
  {
  }

  lemma YieldFlags<T>(s: Sys<T>)
    requires Enabled(s, Yield)
    ensures Do(s, Yield).reaper == s.reaper && Do(s, Yield).tasks.Keys == s.tasks.Keys
    ensures forall t :: t in s.tasks ==> Do(s, Yield).tasks[t].irq == s.tasks[t].irq
  {
    var t := s.current.value;
    var s1 := if s.tasks[t].resume.ReaperYield? then SetResume(s, t, ReaperTop, s.tasks[t].irq) else s;
    assert s1.tasks.Keys == s.tasks.Keys && forall u :: u in s.tasks ==> s1.tasks[u].irq == s.tasks[u].irq;
    SwitchOutFlags(s1);
    hide SwitchOut;
  }

  lemma AcquireFlags<T>(s: Sys<T>, m: nat)
    requires Enabled(s, Acquire(m))
    ensures Do(s, Acquire(m)).reaper == s.reaper && Do(s, Acquire(m)).tasks.Keys == s.tasks.Keys
    ensures forall t :: t in s.tasks && s.current != Some(t) ==> Do(s, Acquire(m)).tasks[t].irq == s.tasks[t].irq
  {
  }

  lemma ReaperFlagStep<T>(s: Sys<T>, e: Event<T>)
    requires Inv(s) && Enabled(s, e)
    ensures var r := Do(s, e);
            && r.reaper == s.reaper && s.reaper in s.tasks && s.reaper in r.tasks
            && (r.tasks[s.reaper].irq <==> s.tasks[s.reaper].irq && !e.Reap?)
  {
    hide NoLostWakeup, FramesOk, NoRepeat, ReaperAwake;
    assert Resumes(s, s.reaper);
    if s.current.Some? { assert Resumes(s, s.current.value); }
    match e
    case Tick => SwitchOutFlags(s);
    case Yield => YieldFlags(s);
    case Acquire(m) => AcquireFlags(s, m);
    case Reap => assert Placed(s, s.dead[0]) && Resumes(s, s.dead[0]);
    case _ =>
  }

  lemma InHeadOrTail<E>(x: E, q: seq<E>)
    requires q != []
    ensures x in q <==> x == q[0] || x in q[1..]
  {
  }

  /** The reaper's interrupts are on until it has unlinked its first body, and off ever after. */
  lemma {:induction false} ReaperFlag<T>(s: Sys<T>, es: seq<Event<T>>)
    requires Inv(s) && Legal(s, es)
    ensures var r := After(s, es);
            && r.reaper == s.reaper && s.reaper in s.tasks && s.reaper in r.tasks
            && (r.tasks[s.reaper].irq <==> s.tasks[s.reaper].irq && Reap !in es)
    decreases |es|
  {
    if es != [] {
      hide Inv, Do, Enabled;
      ReaperFlagStep(s, es[0]);
      StepInv(s, es[0]);
      ReaperFlag(Do(s, es[0]), es[1..]);
      InHeadOrTail(Reap, es);
    }
  }

  /** So the timer can preempt the running reaper exactly when it has reaped nothing yet. */
  lemma ReaperPreemptible<T>(s: Sys<T>, es: seq<Event<T>>)
    requires Init(s) && Legal(s, es) && After(s, es).current == Some(s.reaper)
    ensures Enabled(After(s, es), Tick) <==> Reap !in es
  {
    InitInv(s);
    ReaperFlag(s, es);
  }

  /** The only thread exits while the reaper sleeps. */
  lemma LastExit<T>(s: Sys<T>, t: T) returns (r: Sys<T>)
    requires t != s.reaper && t in s.tasks && s.reaper in s.tasks && s.current.None? && s.ready == [t] && s.dead == []
    requires s.tasks[t].resume.Thread? && s.tasks[s.reaper].state.Blocked? && s.tasks[s.reaper].resume.ReaperTop?
    ensures var es: seq<Event<T>> := [Dispatch, Exit, Yield];
            Legal(s, es) && Enabled(After(s, es), Dispatch) && Do(After(s, es), Dispatch) == r
    ensures r.current == Some(s.reaper) && Enabled(r, Reap) && Do(r, Reap).current == r.current
  {
    var s1 := Do(s, Dispatch);
    var s2 := Do(s1, Exit);
    assert s2.current == Some(t) && s2.tasks[t].state.Dead? && s2.ready == [];
    var s3 := Do(s2, Yield);
    assert s3.dead == [t] && s3.ready == [s.reaper] && s3.current.None?;
    r := Do(s3, Dispatch);
    hide Do, Enabled, Legal, After;
    ThreeSteps(s, Dispatch, Exit, Yield);
  }

  lemma ReaperDispatched<T>(s: Sys<T>, t: T, base: nat) returns (r: Sys<T>)
    requires Init(s) && t !in s.born && {base, base + 1} <= s.free
    ensures var es := [Create(t, base), Dispatch, Exit, Yield, Dispatch]; Legal(s, es) && After(s, es) == r
    ensures r.current == Some(s.reaper) && Enabled(r, Reap) && Do(r, Reap).current == r.current
  {
    var s1 := Do(s, Create(t, base));
    assert s1.ready == [t] && s1.tasks[t] == Info(Ready, Thread, true, base);
    r := LastExit(s1, t);
    hide Do, Enabled, Legal, After;
    OneStep(s, Create(t, base));
    RunAppend(s, [Create(t, base)], [Dispatch, Exit, Yield]);
    RunSnoc(s, [Create(t, base)] + [Dispatch, Exit, Yield], Dispatch);
    assert [Create(t, base)] + [Dispatch, Exit, Yield] + [Dispatch]
           == [Create(t, base), Dispatch, Exit, Yield, Dispatch];
  }

  /** The first exited thread already turns them off. */
  lemma ReaperLosesInterrupts<T>(s: Sys<T>, t: T, base: nat)
    requires Init(s) && t !in s.born && {base, base + 1} <= s.free
    ensures var es := [Create(t, base), Dispatch, Exit, Yield, Dispatch];
            && Legal(s, es) && After(s, es).current == Some(s.reaper) && Enabled(After(s, es), Tick)
            && Legal(s, es + [Reap]) && After(s, es + [Reap]).current == Some(s.reaper)
            && !Enabled(After(s, es + [Reap]), Tick)
  {
    var es := [Create(t, base), Dispatch, Exit, Yield, Dispatch];
    var r := ReaperDispatched(s, t, base);
    RunSnoc(s, es, Reap);
    ReaperPreemptible(s, es);
    ReaperPreemptible(s, es + [Reap]);
  }

  // ----- the reaper's turns -----

  function Reaps<T>(es: seq<Event<T>>): nat {
    if es == [] then 0 else (if es[0].Reap? then 1 else 0) + Reaps(es[1..])
  }

  /** A step takes the head of the dead queue away for good, or only adds behind its end. */
  lemma DeadStep<T>(s: Sys<T>, e: Event<T>)
    requires Enabled(s, e)
    ensures if e.Reap?
            then s.dead != [] && Do(s, e).dead == s.dead[1..] && Do(s, e).tasks.Keys == s.tasks.Keys - {s.dead[0]}
            else s.dead <= Do(s, e).dead
  {
  }

  /** Bodies are buried in the order they came: the one `k` places from the head goes with the reap
      that follows exactly `k` others. */
  lemma {:induction false} BuriedInTurn<T>(s: Sys<T>, es: seq<Event<T>>, k: nat)
    requires Legal(s, es) && k < |s.dead| && Reaps(es) <= k
    ensures var r, d := After(s, es), Reaps(es);
            && k - d < |r.dead| && r.dead[k - d] == s.dead[k]
            && (d == k && Enabled(r, Reap) ==> s.dead[k] in r.tasks && s.dead[k] !in Do(r, Reap).tasks)
    decreases |es|
  {
    if es == [] {
      if Enabled(s, Reap) { DeadStep(s, Reap); }
    } else {
      DeadStep(s, es[0]);
      hide Enabled, Do;
      BuriedInTurn(Do(s, es[0]), es[1..], if es[0].Reap? then k - 1 else k);
    }
  }

  /** The reaper sleeps, and there is nothing it should be woken for. */
  ghost predicate Asleep<T>(s: Sys<T>) {
    && s.reaper in s.tasks && s.tasks[s.reaper].state.Blocked? && s.current != Some(s.reaper)
    && forall t :: t in s.tasks ==> !s.tasks[t].state.Dead?
  }

  /** With no body left to bury the reaper's next yield puts it to sleep. */
  lemma FallsAsleep<T>(s: Sys<T>)
    requires Inv(s) && Enabled(s, ReapIdle)
    ensures var r := Do(s, ReapIdle); Enabled(r, Yield) && Asleep(Do(r, Yield))
  {
    hide NoLostWakeup, FramesOk, NoRepeat, ReaperAwake;
    var c := s.current.value;
    assert Placed(s, c) && Resumes(s, c);
    forall t | t in s.tasks ensures !s.tasks[t].state.Dead? { assert Placed(s, t); }
    hide Inv, Placed, Resumes;
  }

  lemma SleepStep<T>(s: Sys<T>, e: Event<T>)
    requires Inv(s) && Enabled(s, e) && Asleep(s) && !e.Exit?
    ensures Asleep(Do(s, e)) && Do(s, e).reaper == s.reaper
    ensures s.ready != [] ==> s.ready[0] != s.reaper
  {
    hide NoLostWakeup, FramesOk, NoRepeat, ReaperAwake;
    assert Placed(s, s.reaper) && Resumes(s, s.reaper);
    if s.current.Some? { assert Placed(s, s.current.value); }
    if e.Dispatch? { assert Placed(s, s.ready[0]); }
    if e.Release? && s.locks[e.lock].wait != [] { assert Placed(s, s.locks[e.lock].wait[0]); }
    hide Inv, Placed, Resumes;
  }

  /** A sleeping reaper is not woken, and does not run, until a thread exits. */
  lemma {:induction false} SleepsUntilExit<T>(s: Sys<T>, es: seq<Event<T>>)
    requires Inv(s) && Legal(s, es) && Asleep(s) && Exit !in es
    ensures Asleep(After(s, es)) && After(s, es).reaper == s.reaper
    ensures Enabled(After(s, es), Dispatch) ==> After(s, es).ready[0] != s.reaper
    decreases |es|
  {
    if es == [] {
      if Enabled(s, Dispatch) { SleepStep(s, Dispatch); }
    } else {
      InHeadOrTail(Exit, es);
      hide Do, Enabled, Inv, Asleep;
      StepInv(s, es[0]);
      SleepStep(s, es[0]);
      SleepsUntilExit(Do(s, es[0]), es[1..]);
    }
  }

  // ----- the order of dispatches -----

  function Dispatches<T>(es: seq<Event<T>>): nat {
    if es == [] then 0 else (if es[0].Dispatch? then 1 else 0) + Dispatches(es[1..])
  }

  /** A step takes the head of the ready queue, or only adds behind its end. */
  lemma ReadyStep<T>(s: Sys<T>, e: Event<T>)
    requires Enabled(s, e)
    ensures if e.Dispatch? then Do(s, e).ready == s.ready[1..] && Do(s, e).current == Some(s.ready[0])
            else s.ready <= Do(s, e).ready
  {
  }

  /** A task `k` places from the head moves up by one per dispatch, whatever else happens. */
  lemma {:induction false} MovesUp<T>(s: Sys<T>, es: seq<Event<T>>, k: nat)
    requires Legal(s, es) && k < |s.ready| && Dispatches(es) <= k
    ensures var d := Dispatches(es); k - d < |After(s, es).ready| && After(s, es).ready[k - d] == s.ready[k]
    decreases |es|
  {
    if es != [] {
      ReadyStep(s, es[0]);
      var s1 := Do(s, es[0]);
      if es[0].Dispatch? {
        MovesUp(s1, es[1..], k - 1);
      } else {
        MovesUp(s1, es[1..], k);
      }
    }
  }

  /** Bounded waiting: it is dispatched by the dispatch that follows exactly `k` others, and by
      none before. */
  lemma BoundedWaiting<T>(s: Sys<T>, es: seq<Event<T>>, k: nat)
    requires Inv(s) && Legal(s, es) && k < |s.ready| && Dispatches(es) <= k
    requires Enabled(After(s, es), Dispatch)
    ensures Do(After(s, es), Dispatch).current == Some(s.ready[k]) <==> Dispatches(es) == k
  {
    MovesUp(s, es, k);
    RunInv(s, es);
    var r := After(s, es);
    assert NoRepeat(r.ready);
    ReadyStep(r, Dispatch);
    hide Inv, Enabled, Do, Legal, After;
    assert r.ready[0] == s.ready[k] <==> k - Dispatches(es) == 0;
  }

  function Releases<T>(es: seq<Event<T>>, m: nat): nat {
    if es == [] then 0 else (if es[0] == Release(m) then 1 else 0) + Releases(es[1..], m)
  }

  /** A step takes the head of a wait queue and makes it ready, or only adds behind its end. */
  lemma WaitStep<T>(s: Sys<T>, e: Event<T>, m: nat)
    requires Enabled(s, e) && m < |s.locks| && s.locks[m].wait != []
    ensures |Do(s, e).locks| == |s.locks|
    ensures if e == Release(m)
            then Do(s, e).locks[m].wait == s.locks[m].wait[1..] && Do(s, e).ready == s.ready + [s.locks[m].wait[0]]
            else s.locks[m].wait <= Do(s, e).locks[m].wait
  {
  }

  /** Waiters are woken in the order they came: the task `k` places from the head of a mutex's
      queue is made ready by the unlock that follows exactly `k` others. */
  lemma {:induction false} WokenInTurn<T>(s: Sys<T>, es: seq<Event<T>>, m: nat, k: nat)
    requires Legal(s, es) && m < |s.locks| && k < |s.locks[m].wait| && Releases(es, m) <= k
    ensures var r, d := After(s, es), Releases(es, m);
            && m < |r.locks| && k - d < |r.locks[m].wait| && r.locks[m].wait[k - d] == s.locks[m].wait[k]
            && (d == k && Enabled(r, Release(m)) ==> Do(r, Release(m)).ready == r.ready + [s.locks[m].wait[k]])
    decreases |es|
  {
    if es == [] {
      if k == 0 && Enabled(s, Release(m)) { WaitStep(s, Release(m), m); }
    } else {
      WaitStep(s, es[0], m);
      hide Enabled, Do;
      WokenInTurn(Do(s, es[0]), es[1..], m, if es[0] == Release(m) then k - 1 else k);
    }
  }

  /** One turn: dispatch, then preempted (`true`) or yielding (`false`). */
  function Turn<T>(tick: bool): seq<Event<T>> { [Dispatch, if tick then Tick else Yield] }

  function Turns<T>(choices: seq<bool>): seq<Event<T>> {
    if choices == [] then [] else Turn(choices[0]) + Turns(choices[1..])
  }

  function Rotate<T>(q: seq<T>, j: nat): seq<T>
    requires q != []
  {
    q[j % |q|..] + q[..j % |q|]
  }

  ghost predicate AllRunnable<T>(s: Sys<T>) {
    s.current.None? && s.ready != [] && forall t :: t in s.ready ==> t in s.tasks && s.tasks[t].resume.Thread?
  }

  lemma DispatchTurn<T>(s: Sys<T>)
    requires Inv(s) && AllRunnable(s)
    ensures Enabled(s, Dispatch) && Inv(Do(s, Dispatch))
    ensures var t, r := s.ready[0], Do(s, Dispatch);
            && r.current == Some(t) && r.ready == s.ready[1..] && t !in r.ready && t in r.tasks
            && r.reaper in r.tasks && r.tasks[t].state.Running? && r.tasks[t].irq && r.tasks[t].resume.Thread?
            && Enabled(r, Tick) && Enabled(r, Yield)
            && (forall u :: u in r.ready ==> u in r.tasks && r.tasks[u].resume.Thread?)
  {
    assert Placed(s, s.ready[0]) && Resumes(s, s.ready[0]);
    StepInv(s, Dispatch);
    hide NoLostWakeup, FramesOk, ReaperAwake, Placed, Resumes;
  }

  lemma GiveUpTurn<T>(s: Sys<T>, t: T, tick: bool)
    requires Inv(s) && s.current == Some(t) && t in s.tasks && t !in s.ready && s.reaper in s.tasks
    requires s.tasks[t].state.Running? && s.tasks[t].irq && s.tasks[t].resume.Thread?
    requires forall u :: u in s.ready ==> u in s.tasks && s.tasks[u].resume.Thread?
    ensures var e: Event<T> := if tick then Tick else Yield;
            && Enabled(s, e) && Inv(Do(s, e)) && Do(s, e).ready == s.ready + [t] && AllRunnable(Do(s, e))
  {
    StepInv(s, if tick then Tick else Yield);
    hide Inv;
  }

  lemma TurnRotates<T>(s: Sys<T>, tick: bool)
    requires Inv(s) && AllRunnable(s)
    ensures var es: seq<Event<T>> := Turn(tick);
            && Legal(s, es) && AllRunnable(After(s, es)) && Inv(After(s, es))
            && After(s, es).ready == s.ready[1..] + [s.ready[0]]
  {
    var t := s.ready[0];
    hide Inv, Enabled, Do, AllRunnable, Legal, After;
    DispatchTurn(s);
    var e: Event<T> := if tick then Tick else Yield;
    GiveUpTurn(Do(s, Dispatch), t, tick);
    OneStep(s, Dispatch);
    RunSnoc(s, [Dispatch], e);
    assert [Dispatch] + [e] == [Dispatch, e];
  }

  lemma MulBounds(a: int, n: int)
    requires n > 0
    ensures a >= 1 ==> a * n >= n
    ensures a <= -1 ==> a * n <= -n
  {
  }

  lemma ModUnique(x: int, n: int, d: int, k: int)
    requires n > 0 && x == d * n + k && 0 <= k < n
    ensures x % n == k
  {
    var e := x / n;
    assert x == e * n + x % n;
    assert (d - e) * n == x % n - k;
    MulBounds(d - e, n);
  }

  lemma RotateStep<T>(q: seq<T>, j: nat)
    requires q != []
    ensures Rotate(q[1..] + [q[0]], j) == Rotate(q, j + 1)
  {
    var n, r := |q|, q[1..] + [q[0]];
    var k := j % n;
    assert (j + 1) % n == if k + 1 == n then 0 else k + 1 by {
      var d := j / n;
      assert j == d * n + k;
      if k + 1 == n { assert j + 1 == (d + 1) * n; } else { assert j + 1 == d * n + (k + 1); }
      ModUnique(j + 1, n, if k + 1 == n then d + 1 else d, if k + 1 == n then 0 else k + 1);
    }
    if k + 1 == n {
      assert r[k..] + r[..k] == q;
    } else {
      assert r[k..] == q[k + 1..] + [q[0]];
      assert r[..k] == q[1..k + 1];
      assert r[k..] + r[..k] == q[k + 1..] + q[..k + 1];
    }
  }

  lemma OneTurnMore<T>(s: Sys<T>, tick: bool, rest: seq<Event<T>>, j: nat)
    requires Legal(s, Turn(tick)) && Legal(After(s, Turn(tick)), rest) && s.ready != []
    requires After(s, Turn(tick)).ready == s.ready[1..] + [s.ready[0]]
    requires After(After(s, Turn(tick)), rest).ready == Rotate(s.ready[1..] + [s.ready[0]], j)
    ensures Legal(s, Turn(tick) + rest) && After(s, Turn(tick) + rest) == After(After(s, Turn(tick)), rest)
    ensures After(s, Turn(tick) + rest).ready == Rotate(s.ready, j + 1)
  {
    hide *;
    RunAppend(s, Turn(tick), rest);
    RotateStep(s.ready, j);
  }

  lemma RotateNone<T>(q: seq<T>)
    requires q != []
    ensures Rotate(q, 0) == q
  {
  }

  lemma {:induction false} QueueRotates<T>(s: Sys<T>, choices: seq<bool>)
    requires Inv(s) && AllRunnable(s)
    ensures var es := Turns(choices);
            && Legal(s, es) && AllRunnable(After(s, es)) && Inv(After(s, es))
            && s.ready != [] && After(s, es).ready == Rotate(s.ready, |choices|)
    decreases |choices|
  {
    if choices == [] {
      RotateNone(s.ready);
    } else {
      TurnRotates(s, choices[0]);
      QueueRotates(After(s, Turn(choices[0])), choices[1..]);
      OneTurnMore(s, choices[0], Turns(choices[1..]), |choices| - 1);
      assert Turns<T>(choices) == Turn(choices[0]) + Turns(choices[1..]);
      hide *;
    }
  }

  /** With `n` always-runnable tasks the dispatch order repeats with period `n`: after `j` turns
      the queue is rotated by `j`, so the next dispatch takes the task that was at `j mod n`. */
  lemma RoundRobin<T>(s: Sys<T>, choices: seq<bool>)
    requires Inv(s) && AllRunnable(s)
    ensures var es := Turns(choices);
            && Legal(s, es) && AllRunnable(After(s, es)) && Inv(After(s, es))
            && After(s, es).ready == Rotate(s.ready, |choices|)
            && Do(After(s, es), Dispatch).current == Some(s.ready[|choices| % |s.ready|])
  {
    QueueRotates(s, choices);
    DispatchTurn(After(s, Turns(choices)));
    hide Inv, Do, Enabled, Legal, After;
  }
}
