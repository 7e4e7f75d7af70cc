/**
 The counting semaphore of user/Csemaphore.c over the hand-off binary semaphores of
 kernel/proc.c.  Each bsem_down and bsem_up is one step (its body runs under sem->lock) and so
 is each access to sem->value; any number of threads interleave these steps.
*/
module Csemaphore {

  // ---------------------------------------------------------------- binary semaphores

  /** struct Bsemaphore: `waiting[i]` says that slot i of the thread array is filled. */
  datatype Bsem = Bsem(free: bool, waiting: seq<bool>)

  /** The slot that bsem_up serves: the lowest waiting one, or the length if none waits. */
  function FirstWaiting(waiting: seq<bool>): (k: nat)
    ensures k <= |waiting|
    ensures k < |waiting| ==> waiting[k]
    ensures forall j :: 0 <= j < k ==> !waiting[j]
  {
    if waiting == [] then 0 else if waiting[0] then 0 else 1 + FirstWaiting(waiting[1..])
  }

  function DownSem(b: Bsem, t: nat): Bsem
    requires t < |b.waiting|
  {
    if b.free then b.(free := false) else b.(waiting := b.waiting[t := true])
  }

  /** A waiter is served and the semaphore stays taken: the waiter now has it. */
  function UpSem(b: Bsem): Bsem {
    var k := FirstWaiting(b.waiting);
    if k < |b.waiting| then b.(waiting := b.waiting[k := false]) else b.(free := true)
  }

  /** bsem_down and bsem_up as code. */
  class Bsemaphore {
    var free: bool
    const slots: array<bool>

    ghost function Value(): Bsem
      reads this, slots
    {
      Bsem(free, slots[..])
    }

    /** bsem_alloc's initialisation: unlocked, no waiters. */
    constructor (nthreads: nat)
      ensures Value() == Bsem(true, seq(nthreads, i => false)) && fresh(slots)
    {
      free := true;
      slots := new bool[nthreads](i => false);
      new;
      assert slots[..] == seq(nthreads, i => false);
    }

    method Down(t: nat) returns (blocked: bool)
      requires t < slots.Length
      modifies this, slots
      ensures Value() == DownSem(old(Value()), t)
      ensures blocked <==> !old(free)
    {
      if !free {
        slots[t] := true;
        return true;
      }
      free := false;
      return false;
    }

    method Up() returns (woken: int)
      modifies this, slots
      ensures Value() == UpSem(old(Value()))
      ensures woken == if FirstWaiting(old(slots[..])) < slots.Length
                       then FirstWaiting(old(slots[..])) else -1
    {
      ghost var was := slots[..];
      var j := 0;
      while j < slots.Length
        invariant 0 <= j <= slots.Length && slots[..] == was && free == old(free)
        invariant forall i :: 0 <= i < j ==> !was[i]
      {
        if slots[j] {
          slots[j] := false;
          assert FirstWaiting(was) == j;
          return j;
        }
        j := j + 1;
      }
      free := true;
      return -1;
    }
  }

  // ---------------------------------------------------------------- the protocol

  datatype Pc =
    | Idle
    | DownS2      // csem_down: about to bsem_down(S2)
    | BlockedS2
    | DownS1      // has S2, about to bsem_down(S1)
    | DownBlockedS1
    | Decrement   // holds S1, about to run sem->value--
    | DownTest    // about to test value > 0 and perhaps bsem_up(S2)
    | DownLeave   // about to bsem_up(S1)
    | UpS1        // csem_up: about to bsem_down(S1)
    | UpBlockedS1
    | Increment
    | UpTest      // about to test value == 1 and perhaps bsem_up(S2)
    | UpLeave

  datatype State = State(value: int, s1: Bsem, s2: Bsem, pc: seq<Pc>)

  /** csem_alloc: S2 is taken only when the initial value is exactly 0. */
  function Alloc(initial: int, nthreads: nat): State {
    State(initial,
          Bsem(true, seq(nthreads, i => false)),
          Bsem(initial != 0, seq(nthreads, i => false)),
          seq(nthreads, i => Idle))
  }

  ghost predicate Shape(s: State) {
    |s.s1.waiting| == |s.pc| && |s.s2.waiting| == |s.pc|
  }

  /** Where a thread goes on once it has the semaphore it was waiting for. */
  function Resumed(p: Pc): Pc {
    match p
    case BlockedS2 => DownS1
    case DownBlockedS1 => Decrement
    case UpBlockedS1 => Increment
    case _ => p
  }

  function Wake(pc: seq<Pc>, waiting: seq<bool>): seq<Pc> {
    var k := FirstWaiting(waiting);
    if k < |waiting| && k < |pc| then pc[k := Resumed(pc[k])] else pc
  }

  /** bsem_down(S1) by thread t. */
  function TakeS1(s: State, t: nat, got: Pc, blocked: Pc): State
    requires Shape(s) && t < |s.pc|
  {
    s.(s1 := DownSem(s.s1, t), pc := s.pc[t := if s.s1.free then got else blocked])
  }

  /** bsem_up(S1) by thread t, which then goes to `next`. */
  function GiveS1(s: State, t: nat, next: Pc): State
    requires t < |s.pc|
  {
    s.(s1 := UpSem(s.s1), pc := Wake(s.pc[t := next], s.s1.waiting))
  }

  function GiveS2(s: State, t: nat, next: Pc): State
    requires t < |s.pc|
  {
    s.(s2 := UpSem(s.s2), pc := Wake(s.pc[t := next], s.s2.waiting))
  }

  predicate Blocked(p: Pc) { p.BlockedS2? || p.DownBlockedS1? || p.UpBlockedS1? }

  /** The one step that thread t can take; a caller that is Idle chooses an operation. */
  function StepOf(s: State, t: nat, callDown: bool): State
    requires Shape(s) && t < |s.pc| && !Blocked(s.pc[t])
  {
    match s.pc[t]
    case Idle => s.(pc := s.pc[t := if callDown then DownS2 else UpS1])
    case DownS2 => s.(s2 := DownSem(s.s2, t), pc := s.pc[t := if s.s2.free then DownS1 else BlockedS2])
    case DownS1 => TakeS1(s, t, Decrement, DownBlockedS1)
    case Decrement => s.(value := s.value - 1, pc := s.pc[t := DownTest])
    case DownTest =>
      if s.value > 0 then GiveS2(s, t, DownLeave) else s.(pc := s.pc[t := DownLeave])
    case DownLeave => GiveS1(s, t, Idle)
    case UpS1 => TakeS1(s, t, Increment, UpBlockedS1)
    case Increment => s.(value := s.value + 1, pc := s.pc[t := UpTest])
    case UpTest =>
      if s.value == 1 then GiveS2(s, t, UpLeave) else s.(pc := s.pc[t := UpLeave])
    case UpLeave => GiveS1(s, t, Idle)
  }

  // ---------------------------------------------------------------- invariant

  predicate InS1(p: Pc) {
    p.Decrement? || p.DownTest? || p.DownLeave? || p.Increment? || p.UpTest? || p.UpLeave?
  }

  /** The thread has S2 and will either consume the count or pass S2 on. */
  predicate HasS2(p: Pc, value: int) {
    || p.DownS1? || p.DownBlockedS1? || p.Decrement?
    || (p.DownTest? && value > 0) || (p.UpTest? && value == 1)
  }

  ghost predicate WaitersRight(s: State) {
    && Shape(s)
    && (forall i :: 0 <= i < |s.pc| ==>
         (s.s1.waiting[i] <==> s.pc[i].DownBlockedS1? || s.pc[i].UpBlockedS1?))
    && (forall i :: 0 <= i < |s.pc| ==> (s.s2.waiting[i] <==> s.pc[i].BlockedS2?))
    && (s.s1.free ==> forall i :: 0 <= i < |s.pc| ==> !s.s1.waiting[i])
    && (s.s2.free ==> forall i :: 0 <= i < |s.pc| ==> !s.s2.waiting[i])
  }

  /** Thread h1 is the one inside S1 (-1: none), thread h2 the one that has S2. */
  ghost predicate Holders(s: State, h1: int, h2: int) {
    && -1 <= h1 < |s.pc| && -1 <= h2 < |s.pc|
    && (forall i :: 0 <= i < |s.pc| ==> (InS1(s.pc[i]) <==> i == h1))
    && (forall i :: 0 <= i < |s.pc| ==> (HasS2(s.pc[i], s.value) <==> i == h2))
    && (s.s1.free <==> h1 == -1)
    && (s.s2.free ==> h2 == -1)
    && (s.value > 0 <==> s.s2.free || h2 != -1)
  }

  /** S1 is a mutex; there is one S2 token when the count is positive and none otherwise. */
  ghost predicate Inv(s: State) {
    WaitersRight(s) && s.value >= 0 && exists h1, h2 :: Holders(s, h1, h2)
  }

  /** The invariant holds after csem_alloc exactly when the initial value is not negative. */
  lemma AllocInv(initial: int, nthreads: nat)
    ensures Inv(Alloc(initial, nthreads)) <==> initial >= 0
  {
    if initial >= 0 {
      assert Holders(Alloc(initial, nthreads), -1, -1);
    }
  }

  lemma TakeS1Keeps(s: State, t: nat, got: Pc, blocked: Pc)
    requires Inv(s) && t < |s.pc|
    requires (s.pc[t].DownS1? && got.Decrement? && blocked.DownBlockedS1?)
          || (s.pc[t].UpS1? && got.Increment? && blocked.UpBlockedS1?)
    ensures Inv(TakeS1(s, t, got, blocked))
  {
    var h1, h2 :| Holders(s, h1, h2);
    assert Holders(TakeS1(s, t, got, blocked), if s.s1.free then t else h1, h2);
  }

  lemma GiveS1Waiters(s: State, t: nat)
    requires WaitersRight(s) && t < |s.pc| && (s.pc[t].DownLeave? || s.pc[t].UpLeave?) && !s.s1.free
    ensures WaitersRight(GiveS1(s, t, Idle))
  {}

  /** The thread that S1 is handed to is the one inside it. */
  lemma GiveS1Inside(s: State, t: nat, h1: int, h2: int, i: nat)
    requires WaitersRight(s) && Holders(s, h1, h2)
    requires t < |s.pc| && (s.pc[t].DownLeave? || s.pc[t].UpLeave?) && i < |s.pc|
    ensures InS1(GiveS1(s, t, Idle).pc[i]) <==> i == FirstWaiting(s.s1.waiting)
    ensures HasS2(GiveS1(s, t, Idle).pc[i], s.value) <==> i == h2
  {}

  lemma GiveS1Holders(s: State, t: nat, h1: int, h2: int)
    requires WaitersRight(s) && Holders(s, h1, h2)
    requires t < |s.pc| && (s.pc[t].DownLeave? || s.pc[t].UpLeave?)
    ensures var k := FirstWaiting(s.s1.waiting); Holders(GiveS1(s, t, Idle), if k < |s.pc| then k else -1, h2)
  {
    forall i | 0 <= i < |s.pc|
      ensures InS1(GiveS1(s, t, Idle).pc[i]) <==> i == FirstWaiting(s.s1.waiting)
      ensures HasS2(GiveS1(s, t, Idle).pc[i], s.value) <==> i == h2
    {
      GiveS1Inside(s, t, h1, h2, i);
    }
  }

  lemma GiveS1Keeps(s: State, t: nat)
    requires Inv(s) && t < |s.pc| && (s.pc[t].DownLeave? || s.pc[t].UpLeave?)
    ensures Inv(GiveS1(s, t, Idle))
  {
    var h1, h2 :| Holders(s, h1, h2);
    assert h1 == t;
    GiveS1Waiters(s, t);
    GiveS1Holders(s, t, h1, h2);
  }

  /** bsem_up(S2) is only ever called on a taken S2. */
  lemma GiveS2Keeps(s: State, t: nat, next: Pc)
    requires Inv(s) && t < |s.pc| && HasS2(s.pc[t], s.value) && InS1(s.pc[t])
    requires next.DownLeave? || next.UpLeave?
    ensures !s.s2.free && Inv(GiveS2(s, t, next))
  {
    var h1, h2 :| Holders(s, h1, h2);
    var k := FirstWaiting(s.s2.waiting);
    assert Holders(GiveS2(s, t, next), h1, if k < |s.pc| then k else -1);
  }

  /** The count is positive whenever a thread is about to decrement it. */
  lemma ValueStepKeeps(s: State, t: nat, d: bool)
    requires Inv(s) && t < |s.pc| && (s.pc[t].Decrement? || s.pc[t].Increment?)
    ensures Inv(StepOf(s, t, d))
    ensures s.pc[t].Decrement? ==> s.value > 0
  {
    var h1, h2 :| Holders(s, h1, h2);
    assert h1 == t;
    if s.pc[t].Decrement? {
      assert HasS2(s.pc[t], s.value);
      assert Holders(StepOf(s, t, d), h1, if s.value > 1 then t else -1);
    } else {
      assert Holders(StepOf(s, t, d), h1, if s.value == 0 then t else h2);
    }
  }

  lemma OtherStepKeeps(s: State, t: nat, d: bool)
    requires Inv(s) && t < |s.pc|
    requires s.pc[t].Idle? || s.pc[t].DownS2?
          || (s.pc[t].DownTest? && s.value <= 0) || (s.pc[t].UpTest? && s.value != 1)
    ensures Inv(StepOf(s, t, d))
  {
    var h1, h2 :| Holders(s, h1, h2);
    assert Holders(StepOf(s, t, d), h1, if s.pc[t].DownS2? && s.s2.free then t else h2);
  }

  lemma StepKeeps(s: State, t: nat, d: bool)
    requires Inv(s) && t < |s.pc| && !Blocked(s.pc[t])
    ensures Inv(StepOf(s, t, d))
  {
    match s.pc[t] {
      case DownS1 => TakeS1Keeps(s, t, Decrement, DownBlockedS1);
      case UpS1 => TakeS1Keeps(s, t, Increment, UpBlockedS1);
      case DownLeave => GiveS1Keeps(s, t);
      case UpLeave => GiveS1Keeps(s, t);
      case Decrement => ValueStepKeeps(s, t, d);
      case Increment => ValueStepKeeps(s, t, d);
      case DownTest =>
        if s.value > 0 {
          GiveS2Keeps(s, t, DownLeave);
        } else {
          OtherStepKeeps(s, t, d);
        }
      case UpTest =>
        if s.value == 1 {
          GiveS2Keeps(s, t, UpLeave);
        } else {
          OtherStepKeeps(s, t, d);
        }
      case Idle => OtherStepKeeps(s, t, d);
      case DownS2 => OtherStepKeeps(s, t, d);
      case _ =>
    }
  }

  // ---------------------------------------------------------------- refinement

  /** What a caller can tell: whether it has called, taken effect, or returned. */
  datatype Status = Out | WantsDown | DidDown | WantsUp | DidUp

  datatype Counter = Counter(count: int, st: seq<Status>)

  function StatusOf(p: Pc): Status {
    match p
    case Idle => Out
    case DownTest => DidDown
    case DownLeave => DidDown
    case UpS1 => WantsUp
    case UpBlockedS1 => WantsUp
    case Increment => WantsUp
    case UpTest => DidUp
    case UpLeave => DidUp
    case _ => WantsDown
  }

  function Abs(s: State): (c: Counter)
    ensures |c.st| == |s.pc|
    ensures forall i :: 0 <= i < |s.pc| ==> c.st[i] == StatusOf(s.pc[i])
  {
    Counter(s.value, seq(|s.pc|, i requires 0 <= i < |s.pc| => StatusOf(s.pc[i])))
  }

  /** An atomic counting semaphore: down waits for a positive count. */
  ghost predicate CounterStep(c: Counter, c': Counter, t: nat)
    requires t < |c.st|
  {
    || c' == c
    || (c.st[t].Out? && (c' == c.(st := c.st[t := WantsDown]) || c' == c.(st := c.st[t := WantsUp])))
    || (c.st[t].WantsDown? && c.count > 0 && c' == Counter(c.count - 1, c.st[t := DidDown]))
    || (c.st[t].WantsUp? && c' == Counter(c.count + 1, c.st[t := DidUp]))
    || ((c.st[t].DidDown? || c.st[t].DidUp?) && c' == c.(st := c.st[t := Out]))
  }

  /** Being handed a semaphore is invisible to callers. */
  lemma WakeInvisible(pc: seq<Pc>, waiting: seq<bool>, i: nat)
    requires i < |pc|
    ensures |Wake(pc, waiting)| == |pc| && StatusOf(Wake(pc, waiting)[i]) == StatusOf(pc[i])
  {}

  /** The program point that thread t moves to. */
  function NextPc(s: State, t: nat, d: bool): Pc
    requires Shape(s) && t < |s.pc|
  {
    match s.pc[t]
    case Idle => if d then DownS2 else UpS1
    case DownS2 => if s.s2.free then DownS1 else BlockedS2
    case DownS1 => if s.s1.free then Decrement else DownBlockedS1
    case Decrement => DownTest
    case DownTest => DownLeave
    case UpS1 => if s.s1.free then Increment else UpBlockedS1
    case Increment => UpTest
    case UpTest => UpLeave
    case _ => Idle
  }

  lemma StatusAfter(s: State, t: nat, d: bool)
    requires Shape(s) && t < |s.pc| && !Blocked(s.pc[t])
    ensures Abs(StepOf(s, t, d)).st == Abs(s).st[t := StatusOf(NextPc(s, t, d))]
  {
    var s' := StepOf(s, t, d);
    var moved := s.pc[t := NextPc(s, t, d)];
    assert s'.pc == moved || s'.pc == Wake(moved, s.s1.waiting) || s'.pc == Wake(moved, s.s2.waiting);
    forall i | 0 <= i < |s.pc| ensures StatusOf(s'.pc[i]) == StatusOf(moved[i]) {
      WakeInvisible(moved, s.s1.waiting, i);
      WakeInvisible(moved, s.s2.waiting, i);
    }
  }

  /** Every step of the implementation is a step of the atomic semaphore, or invisible. */
  lemma StepRefines(s: State, t: nat, d: bool)
    requires Inv(s) && t < |s.pc| && !Blocked(s.pc[t])
    ensures CounterStep(Abs(s), Abs(StepOf(s, t, d)), t)
  {
    StatusAfter(s, t, d);
    var st := Abs(s).st;
    assert st[t := st[t]] == st;
    if s.pc[t].Decrement? {
      ValueStepKeeps(s, t, d);
    }
  }

  // ---------------------------------------------------------------- whole runs

  /** One scheduling choice: which thread moves, and what it calls if it is idle. */
  datatype Choice = Choice(t: nat, callDown: bool)

  ghost predicate Runs(s: State, cs: seq<Choice>, s': State)
    decreases |cs|
  {
    if cs == [] then s == s'
    else
      && Shape(s) && cs[0].t < |s.pc| && !Blocked(s.pc[cs[0].t])
      && Runs(StepOf(s, cs[0].t, cs[0].callDown), cs[1..], s')
  }

  /** How many times the run executes `value++` minus `value--`. */
  ghost function Net(s: State, cs: seq<Choice>, s': State): int
    requires Runs(s, cs, s')
    decreases |cs|
  {
    if cs == [] then 0
    else
      var p := s.pc[cs[0].t];
      (if p.Increment? then 1 else if p.Decrement? then -1 else 0)
      + Net(StepOf(s, cs[0].t, cs[0].callDown), cs[1..], s')
  }

  lemma {:induction false} RunInv(s: State, cs: seq<Choice>, s': State)
    requires Inv(s) && Runs(s, cs, s')
    ensures Inv(s') && |s'.pc| == |s.pc|
    ensures s'.value == s.value + Net(s, cs, s')
    decreases |cs|
  {
    if cs != [] {
      StepKeeps(s, cs[0].t, cs[0].callDown);
      RunInv(StepOf(s, cs[0].t, cs[0].callDown), cs[1..], s');
    }
  }

  /**
   For every number of threads, every initial value that is not negative and every interleaving:
   the value counts ups and downs and never goes below zero, at most one thread has S2 and then
   S2 is not free, at most one is inside S1, and whoever is about to bsem_up(S2) finds it taken.
  */
  lemma CountingSemaphore(initial: int, nthreads: nat, cs: seq<Choice>, s: State)
    requires initial >= 0 && Runs(Alloc(initial, nthreads), cs, s)
    ensures s.value == initial + Net(Alloc(initial, nthreads), cs, s) && s.value >= 0
    ensures forall i, j :: 0 <= i < j < |s.pc| ==> !(HasS2(s.pc[i], s.value) && HasS2(s.pc[j], s.value))
    ensures forall i, j :: 0 <= i < j < |s.pc| ==> !(InS1(s.pc[i]) && InS1(s.pc[j]))
    ensures forall i :: 0 <= i < |s.pc| && HasS2(s.pc[i], s.value) ==> !s.s2.free
  {
    AllocInv(initial, nthreads);
    RunInv(Alloc(initial, nthreads), cs, s);
  }

  /** In every interleaving the next step is one of the atomic semaphore's, or invisible. */
  lemma RefinesAtomicCounter(initial: int, nthreads: nat, cs: seq<Choice>, s: State, t: nat, d: bool)
    requires initial >= 0 && Runs(Alloc(initial, nthreads), cs, s)
    requires t < |s.pc| && !Blocked(s.pc[t])
    ensures Shape(s) && CounterStep(Abs(s), Abs(StepOf(s, t, d)), t)
  {
    AllocInv(initial, nthreads);
    RunInv(Alloc(initial, nthreads), cs, s);
    StepRefines(s, t, d);
  }

  /**
   No lost wakeup and no deadlock: when no thread can move, nobody waits for S1, and somebody
   waits for S2 only if the count is zero.
  */
  lemma StuckMeansZero(initial: int, nthreads: nat, cs: seq<Choice>, s: State)
    requires initial >= 0 && Runs(Alloc(initial, nthreads), cs, s)
    requires forall i :: 0 <= i < |s.pc| ==> s.pc[i].Idle? || Blocked(s.pc[i])
    ensures forall i :: 0 <= i < |s.pc| ==> s.pc[i].Idle? || s.pc[i].BlockedS2?
    ensures s.value > 0 ==> forall i :: 0 <= i < |s.pc| ==> s.pc[i].Idle?
  {
    AllocInv(initial, nthreads);
    RunInv(Alloc(initial, nthreads), cs, s);
    var h1, h2 :| Holders(s, h1, h2);
    assert h1 != -1 ==> InS1(s.pc[h1]);
    assert h2 != -1 ==> HasS2(s.pc[h2], s.value);
  }

  /** With a negative initial value csem_down does not wait: one thread goes straight through. */
  lemma NegativeInitialDoesNotBlock(initial: int) returns (cs: seq<Choice>, s: State)
    requires initial < 0
    ensures Runs(Alloc(initial, 1), cs, s)
    ensures |s.pc| == 1 && s.pc[0].Idle? && s.value == initial - 1
    ensures |cs| == 6 && cs[0].callDown
  {
    var c := Choice(0, true);
    var s0 := Alloc(initial, 1);
    var s1 := StepOf(s0, 0, true);
    var s2 := StepOf(s1, 0, true);
    var s3 := StepOf(s2, 0, true);
    var s4 := StepOf(s3, 0, true);
    var s5 := StepOf(s4, 0, true);
    s := StepOf(s5, 0, true);
    assert s.pc[0].Idle?;
    cs := [c];
    assert Runs(s5, cs, s);
    cs := [c] + cs;
    assert cs[1..] == [c] && Runs(s4, cs, s);
    cs := [c] + cs;
    assert Runs(s3, cs, s);
    cs := [c] + cs;
    assert Runs(s2, cs, s);
    cs := [c] + cs;
    assert Runs(s1, cs, s);
    cs := [c] + cs;
  }
}
