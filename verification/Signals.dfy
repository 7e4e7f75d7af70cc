/**
 The signal fields of a process (kernel/proc.c, kernel/exec.c, kernel/trap.c) and every operation
 that changes them, each one critical section under p->lock.  A 32-bit mask is the set of the
 signals whose bits are on.
*/
module Signals {

  const SIG_DFL: nat := 0
  const SIG_IGN: nat := 1
  const SIGKILL: nat := 9
  const SIGSTOP: nat := 17
  const SIGCONT: nat := 19
  const NSIG: nat := 32

  type Mask = set<nat>

  /** All 32 bits, -1 in the source. */
  function AllSignals(): Mask { set i: nat | i < NSIG && IsSignal(i) }

  predicate IsSignal(signum: int) { 0 <= signum < NSIG }

  /** Neither SIGKILL nor SIGSTOP is blocked. */
  predicate MaskOk(mask: Mask) { SIGKILL !in mask && SIGSTOP !in mask }

  datatype State = Unused | InUse

  /** struct sigaction, or no such struct. */
  datatype Action = NoAction | Action(handler: nat, mask: Mask)

  predicate MayCatch(signum: int) { IsSignal(signum) && signum != SIGKILL && signum != SIGSTOP }

  /** The fields that handling a signal reads and writes. */
  datatype Fields = Fields(pending: Mask, mask: Mask, backup: Mask, handlers: seq<nat>, masks: seq<Mask>, counter: int)

  class Proc {
    var pid: nat
    var state: State
    var pending: Mask
    var mask: Mask
    var backup: Mask
    var handlers: seq<nat>
    var masks: seq<Mask>
    var counter: int          // handling_signal_counter
    var handling: bool
    var stopped: bool
    var killed: bool

    /** What every operation keeps. */
    ghost predicate Valid()
      reads this
    {
      && |handlers| == |masks| == NSIG
      && MaskOk(mask) && MaskOk(backup)
      && (forall i :: 0 <= i < NSIG && handlers[i] != SIG_DFL ==> MaskOk(masks[i]))
      && handlers[SIGKILL] == SIG_DFL && handlers[SIGSTOP] == SIG_DFL
    }

    /** An entry of the process table, all zero. */
    constructor ()
      ensures Valid() && state == Unused && pid == 0 && backup == {}
    {
      pid, state, counter := 0, Unused, 0;
      pending, mask, backup := {}, {}, {};
      handling, stopped, killed := false, false, false;
      handlers := seq(NSIG, _ => SIG_DFL);
      masks := seq(NSIG, _ => {});
    }

    /** allocproc(); signal_mask_backup keeps its value. */
    method Alloc(newPid: nat)
      requires Valid()
      modifies this
      ensures Valid() && pid == newPid && state == InUse && mask == {} && pending == {} && backup == old(backup)
      ensures !stopped && killed == old(killed)
      ensures counter == 0 && forall i :: 0 <= i < NSIG ==> handlers[i] == SIG_DFL
    {
      pid, state := newPid, InUse;
      pending, mask, stopped, handling, counter := {}, {}, false, false, 0;
      ResetHandlers(false, AllSignals());
    }

    /** The loops that reset handlers: all of them, or all that are not ignored. */
    method ResetHandlers(keepIgnored: bool, m: Mask)
      requires |handlers| == |masks| == NSIG
      modifies `handlers, `masks
      ensures |handlers| == |masks| == NSIG
      ensures forall i :: 0 <= i < NSIG ==>
                if keepIgnored && old(handlers)[i] == SIG_IGN
                then handlers[i] == old(handlers)[i] && masks[i] == old(masks)[i]
                else handlers[i] == SIG_DFL && masks[i] == m
    {
      var i := 0;
      while i < NSIG
        invariant 0 <= i <= NSIG && |handlers| == |masks| == NSIG
        invariant forall j :: i <= j < NSIG ==> handlers[j] == old(handlers)[j] && masks[j] == old(masks)[j]
        invariant forall j :: 0 <= j < i ==>
                    if keepIgnored && old(handlers)[j] == SIG_IGN
                    then handlers[j] == old(handlers)[j] && masks[j] == old(masks)[j]
                    else handlers[j] == SIG_DFL && masks[j] == m
      {
        if !(keepIgnored && handlers[i] == SIG_IGN) {
          handlers := handlers[i := SIG_DFL];
          masks := masks[i := m];
        }
        i := i + 1;
      }
    }

    /** freeproc() */
    method Free()
      requires Valid()
      modifies this
      ensures Valid() && state == Unused && pid == 0 && !killed && !stopped && mask == {} && backup == {}
    {
      pid, state, killed := 0, Unused, false;
      pending, mask, backup, counter, handling, stopped := {}, {}, {}, 0, false, false;
      ResetHandlers(false, {});
    }

    /** What fork() copies into the child it has just allocated. */
    method InheritFrom(parent: Proc)
      requires Valid() && parent.Valid()
      modifies this
      ensures Valid() && mask == parent.mask && handlers == parent.handlers && masks == parent.masks
      ensures pid == old(pid) && killed == old(killed) && stopped == old(stopped)
    {
      mask := parent.mask;
      handlers := parent.handlers;
      masks := parent.masks;
    }

    /** exec() drops user handlers and keeps ignored signals ignored. */
    method Exec()
      requires Valid()
      modifies this
      ensures Valid() && mask == old(mask)
      ensures forall i :: 0 <= i < NSIG ==> handlers[i] == if old(handlers)[i] == SIG_IGN then SIG_IGN else SIG_DFL
    {
      ResetHandlers(true, AllSignals());
    }

    /** sigprocmask() */
    method Sigprocmask(m: Mask) returns (r: Mask)
      requires Valid()
      modifies `mask
      ensures Valid() && r == old(mask) && mask == if MaskOk(m) then m else old(mask)
    {
      r := mask;
      if SIGKILL !in m && SIGSTOP !in m {
        mask := m;
      }
    }

    /**
     sigaction(), with NoAction for a null pointer.  `held` is p->lock on return: the check of the
     new mask comes after the lock is taken and the old action reported, and does not release it.
    */
    method Sigaction(signum: int, act: Action) returns (ok: bool, oldact: Action, held: bool)
      requires Valid()
      modifies `handlers, `masks
      ensures Valid()
      ensures ok <==> MayCatch(signum) && (act.Action? ==> MaskOk(act.mask))
      ensures oldact == if MayCatch(signum) then Action(old(handlers)[signum], old(masks)[signum]) else NoAction
      ensures held <==> MayCatch(signum) && !ok
      ensures ok && act.Action? ==> handlers == old(handlers)[signum := act.handler]
      ensures ok && act.Action? ==> masks == old(masks)[signum := act.mask]
      ensures !ok || act.NoAction? ==> handlers == old(handlers) && masks == old(masks)
    {
      if signum < 0 || signum > 31 || signum == SIGKILL || signum == SIGSTOP {
        return false, NoAction, false;
      }
      oldact := Action(handlers[signum], masks[signum]);
      if act.Action? {
        if SIGKILL in act.mask || SIGSTOP in act.mask {
          return false, oldact, true;
        }
        handlers := handlers[signum := act.handler];
        masks := masks[signum := act.mask];
      }
      return true, oldact, false;
    }

    /** The fields that a blocked or fatal signal leaves alone. */
    ghost function Settings(): (Mask, Mask, bool)
      reads this
    {
      (mask, backup, stopped)
    }

    /** What a signal does when it is not blocked, by its number and its handler. */
    predicate Kills(signum: nat)
      requires |handlers| == NSIG && signum < NSIG
      reads this
    {
      || signum == SIGKILL || handlers[signum] == SIGKILL
      || (handlers[signum] == SIG_DFL && signum != SIGSTOP && signum != SIGCONT)
    }

    predicate Stops(signum: nat)
      requires |handlers| == NSIG && signum < NSIG
      reads this
    {
      !Kills(signum) && (signum == SIGSTOP || handlers[signum] == SIGSTOP)
    }

    predicate Continues(signum: nat)
      requires |handlers| == NSIG && signum < NSIG
      reads this
    {
      && !Kills(signum) && !Stops(signum)
      && (handlers[signum] == SIGCONT || (signum == SIGCONT && handlers[signum] == SIG_DFL))
    }

    /** A user handler: the signal waits, blocked or not, for the return to user space. */
    predicate IsCaught(signum: nat)
      requires |handlers| == NSIG && signum < NSIG
      reads this
    {
      !Kills(signum) && !Stops(signum) && !Continues(signum)
    }

    /** handle_SIGKILL(), without its threads. */
    method HandleKill(signum: nat)
      requires signum < NSIG
      modifies `pending, `killed
      ensures killed && pending == old(pending) + {signum}
    {
      pending := pending + {signum};
      killed := true;
    }

    /** The part of kill() for this process, whose handler for signum is not SIG_IGN. */
    method Deliver(signum: nat)
      requires Valid() && signum < NSIG && handlers[signum] != SIG_IGN
      modifies this
      ensures Valid() && pid == old(pid) && state == old(state) && handlers == old(handlers) && masks == old(masks)
      ensures signum == SIGKILL ==> killed && Settings() == old(Settings())
      ensures signum == SIGSTOP ==> stopped && killed == old(killed) && mask == old(mask) && backup == old(backup)
      ensures signum in old(mask) && signum != SIGSTOP && !IsCaught(signum) ==> Settings() == old(Settings())
      ensures signum in old(mask) && signum != SIGSTOP && !IsCaught(signum) ==> killed == old(killed)
      ensures signum !in old(mask) && Kills(signum) ==> killed && Settings() == old(Settings())
      ensures signum != SIGSTOP && signum !in old(mask) && Stops(signum) ==>
                stopped && mask == masks[signum] && backup == (if old(counter) == 0 then old(mask) else old(backup))
      ensures signum !in old(mask) && Continues(signum) ==>
        && !stopped && mask == (if old(stopped) then old(backup) else old(mask))
        && backup == old(backup) && killed == old(killed)
      ensures counter == old(counter)
                       + (if signum == SIGSTOP || (signum !in old(mask) && Stops(signum)) then 1
                          else if signum !in old(mask) && Continues(signum) && old(stopped) then -1 else 0)
      ensures IsCaught(signum) || (signum !in old(mask) && Kills(signum)) ==> pending == old(pending) + {signum}
      ensures !(IsCaught(signum) || (signum !in old(mask) && Kills(signum))) ==> pending == old(pending)
      ensures IsCaught(signum) ==> mask == old(mask) && backup == old(backup)
                                   && killed == old(killed) && stopped == old(stopped)
    {
      var h := handlers[signum];
      if signum == SIGKILL || h == SIGKILL {
        if signum !in mask {
          HandleKill(signum);
        }
      } else if signum != SIGSTOP && signum != SIGCONT && h == SIG_DFL {
        if signum !in mask {
          HandleKill(signum);
        }
      } else if signum == SIGSTOP {
        counter := counter + 1;
        stopped := true;
      } else if h == SIGSTOP {
        if signum !in mask {
          counter := counter + 1;
          stopped := true;
          if counter == 1 {
            backup := mask;
          }
          mask := masks[signum];
        }
      } else if (signum == SIGCONT && h == SIG_DFL) || h == SIGCONT {
        if signum !in mask {
          if stopped {
            counter := counter - 1;
            mask := backup;
          }
          stopped := false;
        }
      } else {
        pending := pending + {signum};
      }
    }

    ghost function Now(): Fields
      reads this
    {
      Fields(pending, mask, backup, handlers, masks, counter)
    }

    /** One look of handling_stop_cont() at a stopped process: it waits on, unless it has been killed. */
    method StopCheck() returns (waits: bool)
      requires Valid()
      modifies `stopped
      ensures Valid() && stopped == waits
      ensures waits <==> old(stopped) && !killed
    {
      if stopped && killed {
        stopped := false;
      }
      waits := stopped;
    }

    /** One round of the loop of signals_handling(). */
    method HandleOne(signum: nat, ghost u: Fields) returns (exits: bool)
      requires Valid() && signum < NSIG && |u.handlers| == NSIG && Handled(u, Now(), signum)
      modifies `pending, `mask, `backup, `counter, `handling
      ensures Valid() && counter == old(counter) && pending <= old(pending)
      ensures !exits ==> Handled(u, Now(), signum + 1)
      ensures exits ==> Handled(u, Now(), signum) && Delivers(u, signum) && handlers[signum] == SIG_DFL
    {
      HandledNext(u, Now(), signum);
      exits := false;
      if signum in pending && signum !in mask {
        if handlers[signum] == SIG_DFL {
          handling := true;
          return true;
        }
        counter := counter + 1;
        if counter == 1 {
          backup := mask;
        }
        mask := masks[signum];
        counter := counter - 1;
        mask := backup;
        pending := pending - {signum};
      }
    }

    /**
     The loop of signals_handling(); true means a default action ends the process or the thread.
     After the first user handler the mask is the backup, which is the mask only if no handler or
     stop was in progress; so a counter that is off zero brings a stale mask back.
    */
    method HandleSignals() returns (exits: bool)
      requires Valid()
      modifies this
      ensures Valid() && pid == old(pid) && state == old(state) && killed == old(killed) && stopped == old(stopped)
      ensures handlers == old(handlers) && masks == old(masks) && counter == old(counter) && pending <= old(pending)
      ensures mask == if Runs(old(Now())) then Rest(old(Now())) else old(mask)
      ensures mask == old(mask) <==> old(counter) == 0 || old(backup) == old(mask) || !Runs(old(Now()))
      ensures exits <==> exists i :: 0 <= i < NSIG && Delivers(old(Now()), i) && handlers[i] == SIG_DFL
      ensures !exits ==> forall i :: 0 <= i < NSIG ==>
        (i in pending <==> i in old(pending) && !Delivers(old(Now()), i))
      ensures old(counter) == 0 && !exits ==> forall i :: 0 <= i < NSIG ==>
        (i in pending <==> i in old(pending) && i in old(mask))
    {
      exits := false;
      ghost var u := Now();
      NothingHandled(u);
      var signum := 0;
      while signum < NSIG
        invariant 0 <= signum <= NSIG && Valid() && Handled(u, Now(), signum)
        invariant pid == old(pid) && state == old(state) && killed == old(killed) && stopped == old(stopped)
      {
        exits := HandleOne(signum, u);
        if exits {
          ExitsAt(u, Now(), signum);
          return;
        }
        signum := signum + 1;
      }
      AllHandled(u, Now());
    }
  }

  /** A signal below n is pending and not blocked. */
  ghost predicate Opened(u: Fields, n: int) { exists j :: 0 <= j < n && j in u.pending && j !in u.mask }

  /** The mask that the first user handler leaves. */
  function Rest(u: Fields): Mask { if u.counter == 0 then u.mask else u.backup }

  /** Signal i is taken: it is not blocked by the mask in force when the loop reaches it. */
  ghost predicate Delivers(u: Fields, i: nat) {
    i in u.pending && i !in if Opened(u, i) then Rest(u) else u.mask
  }

  /** The first signal that is taken has a user handler. */
  ghost predicate Runs(u: Fields) {
    exists i :: 0 <= i < |u.handlers| && i in u.pending && i !in u.mask && u.handlers[i] != SIG_DFL && !Opened(u, i)
  }

  /** From u to v the loop has handled the signals below n. */
  ghost predicate Handled(u: Fields, v: Fields, n: nat)
    requires |u.handlers| == NSIG
  {
    && v == u.(pending := v.pending, mask := v.mask, backup := v.backup) && v.pending <= u.pending
    && (Opened(u, n) ==> Runs(u))
    && v.mask == (if Opened(u, n) then Rest(u) else u.mask)
    && v.backup == (if Opened(u, n) && u.counter == 0 then u.mask else u.backup)
    && forall i: nat {:trigger HandledAt(u, v, n, i)} :: i < NSIG ==> HandledAt(u, v, n, i)
  }

  ghost predicate HandledAt(u: Fields, v: Fields, n: nat, i: nat)
    requires |u.handlers| == NSIG && i < NSIG
  {
    if i >= n then i in v.pending <==> i in u.pending
    else (i in v.pending <==> i in u.pending && !Delivers(u, i)) && (Delivers(u, i) ==> u.handlers[i] != SIG_DFL)
  }

  lemma NothingHandled(u: Fields)
    requires |u.handlers| == NSIG
    ensures Handled(u, u, 0)
  {}

  /** Signal n is skipped, or taken and its handler run. */
  lemma HandledNext(u: Fields, v: Fields, n: nat)
    requires |u.handlers| == NSIG && Handled(u, v, n) && n < NSIG
    ensures Delivers(u, n) <==> n in v.pending && n !in v.mask
    ensures !Delivers(u, n) ==> Handled(u, v, n + 1)
    ensures Delivers(u, n) && u.handlers[n] != SIG_DFL ==>
      var backup := if v.counter == 0 then v.mask else v.backup;
      Handled(u, v.(pending := v.pending - {n}, mask := backup, backup := backup), n + 1)
  {
    assert HandledAt(u, v, n, n);
    assert Opened(u, n + 1) <==> Opened(u, n) || (n in u.pending && n !in u.mask);
    var backup := if v.counter == 0 then v.mask else v.backup;
    var w := if Delivers(u, n) then v.(pending := v.pending - {n}, mask := backup, backup := backup) else v;
    if Delivers(u, n) ==> u.handlers[n] != SIG_DFL {
      var n' := n + 1;
      forall i: nat | i < NSIG ensures HandledAt(u, w, n', i) {
        assert HandledAt(u, v, n, i);
      }
    }
  }

  /** A default action at n: every signal before it was handled, so the mask is what it would be at the end. */
  lemma ExitsAt(u: Fields, v: Fields, n: nat)
    requires |u.handlers| == NSIG && n < NSIG && Handled(u, v, n) && Delivers(u, n) && u.handlers[n] == SIG_DFL
    ensures v.mask == if Runs(u) then Rest(u) else u.mask
  {
    if Runs(u) {
      var i :| 0 <= i < NSIG && i in u.pending && i !in u.mask && u.handlers[i] != SIG_DFL && !Opened(u, i);
      assert Opened(u, n) || i >= n;
    }
  }

  lemma AllHandled(u: Fields, v: Fields)
    requires |u.handlers| == NSIG && Handled(u, v, NSIG)
    ensures v.mask == if Runs(u) then Rest(u) else u.mask
    ensures forall i: nat :: i < NSIG ==> (i in v.pending <==> i in u.pending && !Delivers(u, i))
    ensures forall i: nat :: i < NSIG && Delivers(u, i) ==> u.handlers[i] != SIG_DFL
  {
    forall i: nat | i < NSIG
      ensures i in v.pending <==> i in u.pending && !Delivers(u, i)
      ensures Delivers(u, i) ==> u.handlers[i] != SIG_DFL
    {
      assert HandledAt(u, v, NSIG, i);
    }
  }

  ghost predicate TableOk(table: seq<Proc>)
    reads table
  {
    && (forall i :: 0 <= i < |table| ==> table[i].Valid())
    && (forall i, j :: 0 <= i < j < |table| ==> table[i] != table[j])
    && (forall i, j :: 0 <= i < j < |table| && table[i].pid == table[j].pid ==> table[i].pid == 0)
  }

  /** kill(): SIGKILL and SIGSTOP always take effect on a process in use; an ignored signal reports failure. */
  method Kill(table: seq<Proc>, pid: int, signum: int) returns (ok: bool)
    requires TableOk(table)
    modifies table
    ensures TableOk(table)
    ensures ok <==>
      && IsSignal(signum) && pid != 0
      && exists i ::
           && 0 <= i < |table| && old(table[i].pid) == pid && old(table[i].state) == InUse
           && old(table[i].handlers)[signum] != SIG_IGN
    ensures forall i :: 0 <= i < |table| && old(table[i].pid) == pid != 0 && old(table[i].state) == InUse ==>
              (signum == SIGKILL ==> ok && table[i].killed) && (signum == SIGSTOP ==> ok && table[i].stopped)
    ensures forall i :: 0 <= i < |table| && old(table[i].pid) != pid ==> unchanged(table[i])
  {
    if signum < 0 || signum > 31 || pid == 0 {
      return false;
    }
    var i := 0;
    while i < |table|
      invariant 0 <= i <= |table| && TableOk(table)
      invariant forall j :: 0 <= j < |table| ==> unchanged(table[j])
      invariant forall j :: 0 <= j < i ==>
        table[j].pid != pid || (table[j].state == InUse && table[j].handlers[signum] == SIG_IGN)
    {
      if table[i].pid == pid {
        if table[i].state == Unused {
          return false;
        }
        if table[i].handlers[signum] != SIG_IGN {
          table[i].Deliver(signum);
          return true;
        }
      }
      i := i + 1;
    }
    ok := false;
  }

  /**
   SIGSTOP and then SIGCONT to a process that is not stopped: its mask comes back exactly if it
   equals the backup or blocks SIGCONT.
  */
  method StopThenContinue(p: Proc)
    requires p.Valid() && p.handlers[SIGCONT] == SIG_DFL && !p.stopped
    modifies p
    ensures p.Valid() && p.stopped == (SIGCONT in old(p.mask))
    ensures p.mask == old(p.mask) <==> SIGCONT in old(p.mask) || old(p.mask) == old(p.backup)
  {
    p.Deliver(SIGSTOP);
    p.Deliver(SIGCONT);
  }

  /** ... which fails for a new process that has blocked one signal and handled none. */
  method MaskLostByStopThenContinue() returns (before: Mask, after: Mask)
    ensures before == {2} && after == {}
  {
    var p := new Proc();
    p.Alloc(1);
    before := {2};
    var r := p.Sigprocmask(before);
    p.Deliver(SIGSTOP);
    p.Deliver(SIGCONT);
    after := p.mask;
  }

  /** Two SIGSTOPs and one SIGCONT leave the counter at one. */
  method CounterOffByOne() returns (p: Proc)
    ensures fresh(p) && p.Valid() && p.counter == 1 && p.mask == p.backup == p.pending == {} && p.handlers[5] == 4096
  {
    p := new Proc();
    p.Alloc(1);
    var ok, oldact, held := p.Sigaction(5, Action(4096, {}));
    p.Deliver(SIGSTOP);
    p.Deliver(SIGSTOP);
    p.Deliver(SIGCONT);
  }

  /** A handled signal then unblocks what was blocked since. */
  method MaskLostByHandler() returns (before: Mask, after: Mask)
    ensures before == {2} && after == {}
  {
    var p := CounterOffByOne();
    before := {2};
    var r := p.Sigprocmask(before);
    p.Deliver(5);
    assert p.handlers[5] == 4096 && Runs(p.Now());
    var exits := p.HandleSignals();
    after := p.mask;
  }
}
