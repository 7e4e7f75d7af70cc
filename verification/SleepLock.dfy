/**
 Sleep locks (kernel/sleeplock.c) over sleep and wakeup (kernel/proc.c), as a state machine over
 the points where a spinlock is taken or dropped.  Threads belong to processes; `sleep` marks a
 thread asleep under its process's lock, and `wakeup` visits the processes one by one, each
 under that process's lock.  Other code may take and drop process locks at any time.
*/
module SleepLock {

  datatype Pc =
    | Outside
    | Acquire          // acquiresleep: about to acquire(&lk->lk); also after being woken
    | Test             // holds lk->lk, about to test lk->locked
    | SleepEnter       // in sleep(): holds lk->lk, about to acquire(&p->lock)
    | SleepBoth        // holds lk->lk and p->lock, about to release(lk)
    | SleepDrop        // holds p->lock only, about to become T_SLEEPING and call sched()
    | Asleep           // T_SLEEPING on lk, p->lock dropped by the scheduler
    | Woken            // T_RUNNABLE, not yet run
    | AcquireDone      // has set lk->locked, about to release(&lk->lk)
    | Holding          // the caller has the sleep lock
    | Release          // releasesleep: about to acquire(&lk->lk)
    | Clear            // holds lk->lk, about to clear lk->locked
    | Wakeup(j: nat)   // holds lk->lk; wakeup(lk) has visited processes below j

  /** The owner of a process lock. */
  datatype Owner = Free | Thread(t: nat) | Other

  datatype State = State(
    spin: bool,            // lk->lk is held
    locked: bool,
    pid: int,              // 0 when not locked
    plock: seq<Owner>,     // one per process
    proc: seq<nat>,        // process of each thread; its pid is proc + 1
    pc: seq<Pc>)

  datatype Choice = Move(t: nat) | OtherTakes(p: nat) | OtherDrops(p: nat)

  ghost predicate Shape(s: State) {
    && |s.proc| == |s.pc|
    && forall t :: 0 <= t < |s.proc| ==> s.proc[t] < |s.plock|
  }

  predicate Enabled(s: State, c: Choice) {
    match c
    case OtherTakes(p) => p < |s.plock| && s.plock[p].Free?
    case OtherDrops(p) => p < |s.plock| && s.plock[p].Other?
    case Move(t) =>
      && t < |s.pc| && t < |s.proc| && s.proc[t] < |s.plock|
      && match s.pc[t]
         case Acquire => !s.spin
         case Release => !s.spin
         case SleepEnter => s.plock[s.proc[t]].Free?
         case Asleep => false
         case Woken => s.plock[s.proc[t]].Free?
         case Wakeup(j) => j < |s.plock| ==> s.plock[j].Free?
         case _ => true
  }

  /** wakeup's inner loop over the threads of process j. */
  function WakeProc(pc: seq<Pc>, proc: seq<nat>, j: nat): (r: seq<Pc>)
    requires |proc| == |pc|
    ensures |r| == |pc|
    ensures forall t :: 0 <= t < |pc| ==> r[t] == if pc[t].Asleep? && proc[t] == j then Woken else pc[t]
  {
    seq(|pc|, t requires 0 <= t < |pc| => if pc[t].Asleep? && proc[t] == j then Woken else pc[t])
  }

  function Step(s: State, c: Choice): State
    requires Enabled(s, c) && |s.proc| == |s.pc|
  {
    match c
    case OtherTakes(p) => s.(plock := s.plock[p := Other])
    case OtherDrops(p) => s.(plock := s.plock[p := Free])
    case Move(t) =>
      match s.pc[t]
      case Outside => s.(pc := s.pc[t := Acquire])
      case Acquire => s.(spin := true, pc := s.pc[t := Test])
      case Test =>
        if s.locked then s.(pc := s.pc[t := SleepEnter])
        else s.(locked := true, pid := s.proc[t] + 1, pc := s.pc[t := AcquireDone])
      case SleepEnter => s.(plock := s.plock[s.proc[t] := Thread(t)], pc := s.pc[t := SleepBoth])
      case SleepBoth => s.(spin := false, pc := s.pc[t := SleepDrop])
      case SleepDrop => s.(plock := s.plock[s.proc[t] := Free], pc := s.pc[t := Asleep])
      case Woken => s.(pc := s.pc[t := Acquire])
      case AcquireDone => s.(spin := false, pc := s.pc[t := Holding])
      case Holding => s.(pc := s.pc[t := Release])
      case Release => s.(spin := true, pc := s.pc[t := Clear])
      case Clear => s.(locked := false, pid := 0, pc := s.pc[t := Wakeup(0)])
      case Wakeup(j) =>
        if j < |s.plock|
        then s.(pc := WakeProc(s.pc, s.proc, j)[t := Wakeup(j + 1)])
        else s.(spin := false, pc := s.pc[t := Outside])
  }

  /** initsleeplock, with every thread outside. */
  ghost predicate Init(s: State) {
    && Shape(s) && !s.spin && !s.locked && s.pid == 0
    && (forall p :: 0 <= p < |s.plock| ==> s.plock[p].Free?)
    && (forall t :: 0 <= t < |s.pc| ==> s.pc[t].Outside?)
  }

  // ---------------------------------------------------------------- invariant

  predicate InSpin(p: Pc) {
    p.Test? || p.SleepEnter? || p.SleepBoth? || p.AcquireDone? || p.Clear? || p.Wakeup?
  }

  predicate Holds(p: Pc) { p.AcquireDone? || p.Holding? || p.Release? || p.Clear? }

  /** Asleep, or past the point where it could still see the lock become free. */
  predicate Sleeping(p: Pc) { p.SleepDrop? || p.Asleep? }

  /** Thread h is inside lk->lk and thread o has the sleep lock (-1: nobody). */
  ghost predicate Holders(s: State, h: int, o: int)
    requires Shape(s)
  {
    && -1 <= h < |s.pc| && -1 <= o < |s.pc|
    && (forall t :: 0 <= t < |s.pc| ==> (InSpin(s.pc[t]) <==> t == h))
    && (forall t :: 0 <= t < |s.pc| ==> (Holds(s.pc[t]) <==> t == o))
    && (s.spin <==> h != -1)
    && (s.locked <==> o != -1)
    && (if o != -1 then s.pid == s.proc[o] + 1 else s.pid == 0)
  }

  ghost predicate ProcLocks(s: State) {
    && Shape(s)
    && (forall t :: 0 <= t < |s.pc| && (s.pc[t].SleepBoth? || s.pc[t].SleepDrop?)
          ==> s.plock[s.proc[t]] == Thread(t))
    && (forall t :: 0 <= t < |s.pc| && (s.pc[t].SleepEnter? || s.pc[t].SleepBoth?) ==> s.locked)
  }

  /** A sleeper is owed a wakeup: the lock is held, or wakeup has not reached its process yet. */
  ghost predicate Owed(s: State, h: int)
    requires Shape(s)
  {
    s.locked || forall t :: 0 <= t < |s.pc| && Sleeping(s.pc[t]) ==>
      0 <= h < |s.pc| && s.pc[h].Wakeup? && s.pc[h].j <= s.proc[t] < |s.plock|
  }

  ghost predicate InvWith(s: State, h: int, o: int) {
    ProcLocks(s) && Holders(s, h, o) && Owed(s, h)
  }

  ghost predicate Inv(s: State) { exists h, o :: InvWith(s, h, o) }

  lemma OtherKeeps(s: State, c: Choice, h: int, o: int)
    requires InvWith(s, h, o) && Enabled(s, c) && !c.Move?
    ensures InvWith(Step(s, c), h, o)
  {}

  lemma SleepKeeps(s: State, t: nat, h: int, o: int)
    requires InvWith(s, h, o) && Enabled(s, Move(t))
    requires s.pc[t].SleepEnter? || s.pc[t].SleepBoth? || s.pc[t].SleepDrop?
    ensures InvWith(Step(s, Move(t)), if s.pc[t].SleepBoth? then -1 else h, o)
  {}

  lemma AcquireKeeps(s: State, t: nat, h: int, o: int)
    requires InvWith(s, h, o) && Enabled(s, Move(t))
    requires s.pc[t].Outside? || s.pc[t].Acquire? || s.pc[t].Test? || s.pc[t].Woken? || s.pc[t].AcquireDone?
    ensures Inv(Step(s, Move(t)))
  {
    var h' := if s.pc[t].Acquire? then t else if s.pc[t].AcquireDone? then -1 else h;
    var o' := if s.pc[t].Test? && !s.locked then t else o;
    assert InvWith(Step(s, Move(t)), h', o');
  }

  lemma ReleaseKeeps(s: State, t: nat, h: int, o: int)
    requires InvWith(s, h, o) && Enabled(s, Move(t))
    requires s.pc[t].Holding? || s.pc[t].Release? || s.pc[t].Clear?
    ensures Inv(Step(s, Move(t)))
  {
    var h' := if s.pc[t].Release? then t else h;
    var o' := if s.pc[t].Clear? then -1 else o;
    assert InvWith(Step(s, Move(t)), h', o');
  }

  /** wakeup visits its next process. */
  lemma WakesNext(s: State, t: nat, o: int)
    requires InvWith(s, t, o) && Enabled(s, Move(t)) && s.pc[t].Wakeup? && s.pc[t].j < |s.plock|
    ensures InvWith(Step(s, Move(t)), t, o)
  {
    var s' := Step(s, Move(t));
    forall i | 0 <= i < |s.pc| && Sleeping(s'.pc[i]) && !s'.locked ensures s.pc[t].j + 1 <= s.proc[i] {
      assert Sleeping(s.pc[i]);
    }
  }

  /** wakeup has visited them all: nobody is left asleep, unless the lock has been taken again. */
  lemma WakesNobody(s: State, t: nat, o: int)
    requires InvWith(s, t, o) && Enabled(s, Move(t)) && s.pc[t].Wakeup? && s.pc[t].j >= |s.plock|
    ensures InvWith(Step(s, Move(t)), -1, o)
  {}

  lemma WakeupKeeps(s: State, t: nat, h: int, o: int)
    requires InvWith(s, h, o) && Enabled(s, Move(t)) && s.pc[t].Wakeup?
    ensures Inv(Step(s, Move(t)))
  {
    assert h == t;
    if s.pc[t].j < |s.plock| {
      WakesNext(s, t, o);
    } else {
      WakesNobody(s, t, o);
    }
  }

  lemma StepKeeps(s: State, c: Choice)
    requires Inv(s) && Enabled(s, c)
    ensures |s.proc| == |s.pc| && Inv(Step(s, c))
  {
    var h, o :| InvWith(s, h, o);
    if !c.Move? {
      OtherKeeps(s, c, h, o);
    } else {
      match s.pc[c.t] {
        case SleepEnter => SleepKeeps(s, c.t, h, o);
        case SleepBoth => SleepKeeps(s, c.t, h, o);
        case SleepDrop => SleepKeeps(s, c.t, h, o);
        case Holding => ReleaseKeeps(s, c.t, h, o);
        case Release => ReleaseKeeps(s, c.t, h, o);
        case Clear => ReleaseKeeps(s, c.t, h, o);
        case Wakeup(_) => WakeupKeeps(s, c.t, h, o);
        case Asleep =>
        case _ => AcquireKeeps(s, c.t, h, o);
      }
    }
  }

  // ---------------------------------------------------------------- whole runs

  ghost predicate Runs(s: State, cs: seq<Choice>, s': State)
    decreases |cs|
  {
    if cs == [] then s == s'
    else |s.proc| == |s.pc| && Enabled(s, cs[0]) && Runs(Step(s, cs[0]), cs[1..], s')
  }

  lemma {:induction false} RunInv(s: State, cs: seq<Choice>, s': State)
    requires Inv(s) && Runs(s, cs, s')
    ensures Inv(s')
    decreases |cs|
  {
    if cs != [] {
      StepKeeps(s, cs[0]);
      RunInv(Step(s, cs[0]), cs[1..], s');
    }
  }

  lemma ReachableInv(s: State, cs: seq<Choice>, s': State)
    requires Init(s) && Runs(s, cs, s')
    ensures Inv(s')
  {
    assert InvWith(s, -1, -1);
    RunInv(s, cs, s');
  }

  /** Mutual exclusion, for any number of threads and processes and any interleaving. */
  lemma AtMostOneHolder(s: State, cs: seq<Choice>, s': State)
    requires Init(s) && Runs(s, cs, s')
    ensures forall i, j :: 0 <= i < j < |s'.pc| ==> !(Holds(s'.pc[i]) && Holds(s'.pc[j]))
    ensures s'.locked <==> exists i :: 0 <= i < |s'.pc| && Holds(s'.pc[i])
  {
    ReachableInv(s, cs, s');
    var h, o :| InvWith(s', h, o);
    assert s'.locked ==> Holds(s'.pc[o]);
  }

  /**
   No lost wakeup: whenever the inner spinlock is free and the lock is not held, no thread is
   asleep on the lock, and none is on its way to sleep either.
  */
  lemma NoLostWakeup(s: State, cs: seq<Choice>, s': State)
    requires Init(s) && Runs(s, cs, s')
    requires !s'.spin && !s'.locked
    ensures forall t :: 0 <= t < |s'.pc| ==>
      !s'.pc[t].Asleep? && !s'.pc[t].SleepDrop? && !s'.pc[t].SleepBoth? && !s'.pc[t].SleepEnter?
  {
    ReachableInv(s, cs, s');
    var h, o :| InvWith(s', h, o);
    assert forall t :: 0 <= t < |s'.pc| ==> !Sleeping(s'.pc[t]) && !InSpin(s'.pc[t]);
  }

  /** holdingsleep. */
  predicate HoldingSleep(s: State, t: nat)
    requires t < |s.proc|
  {
    s.locked && s.pid == s.proc[t] + 1
  }

  /**
   holdingsleep compares process ids, so it answers for the process and not for the thread: it
   is true exactly when some thread of the caller's process has the lock.
  */
  lemma HoldingSleepIsPerProcess(s: State, cs: seq<Choice>, s': State, t: nat)
    requires Init(s) && Runs(s, cs, s') && t < |s'.pc|
    ensures t < |s'.proc| == |s'.pc|
    ensures HoldingSleep(s', t)
        <==> exists i :: 0 <= i < |s'.pc| && Holds(s'.pc[i]) && s'.proc[i] == s'.proc[t]
  {
    ReachableInv(s, cs, s');
    var h, o :| InvWith(s', h, o);
    if s'.locked {
      assert Holds(s'.pc[o]);
    }
  }

  /** A thread that never touched the lock passes the holdingsleep check of bwrite and brelse. */
  lemma SiblingPassesHoldingSleep() returns (s: State, cs: seq<Choice>, s': State)
    ensures Init(s) && Runs(s, cs, s')
    ensures |s'.pc| == |s'.proc| == 2 && s'.pc[0].Holding? && s'.pc[1].Outside? && HoldingSleep(s', 1)
  {
    s := State(false, false, 0, [Free], [0, 0], [Outside, Outside]);
    var c := Move(0);
    var s1 := Step(s, c);
    var s2 := Step(s1, c);
    var s3 := Step(s2, c);
    s' := Step(s3, c);
    cs := [c];
    assert Runs(s3, cs, s');
    cs := [c] + cs;
    assert cs[1..] == [c] && Runs(s2, cs, s');
    cs := [c] + cs;
    assert Runs(s1, cs, s');
    cs := [c] + cs;
  }
}
