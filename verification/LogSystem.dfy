/**
 The whole logging protocol of kernel/log.c as a state machine: unboundedly many file-system
 operations interleave begin_op, log_write and end_op; the last end_op commits, one block write
 at a time; the machine may crash between any two steps, also while it is recovering.

 `hist` and `stable` are history: the log_writes that took effect, in order, and how many of
 them a crash can no longer undo.
*/
module LogSystem {
  import opened RedoLog
  import opened LogCode

  /** An operation between begin_op and end_op, with its unspent share of MAXOPBLOCKS. */
  datatype Op = Op(id: nat, unspent: nat)

  datatype Event = Event(op: nat, b: nat, data: Block)

  datatype Phase =
    | Running
    | Committing(from: Disk, k: nat)
    | Down
    | Recovering(from: Disk, k: nat)

  datatype State = State(
    disk: Disk,
    cur: Disk,          // what bread returns
    lh: seq<int>,       // log.lh in memory
    ops: seq<Op>,       // outstanding operations
    phase: Phase,
    nextId: nat,
    hist: seq<Event>,
    stable: nat)

  // ---------------------------------------------------------------- steps

  ghost function CommitPlan(g: Geometry, s: State): seq<Write> {
    if s.phase.Committing? && Clean(g, s.phase.from) && Loggable(g, |s.phase.from|, s.lh)
       && |s.cur| == |s.phase.from|
    then CommitWrites(g, s.phase.from, s.lh, s.cur) else []
  }

  ghost function RecoverPlan(g: Geometry, s: State): seq<Write> {
    if s.phase.Recovering? && LogOk(g, s.phase.from) then RecoverWrites(g, s.phase.from) else []
  }

  /** Power comes on with some disk, perhaps one left behind by a crash. */
  ghost predicate Init(g: Geometry, base: Disk, s: State) {
    && LogOk(g, s.disk) && View(g, s.disk) == base && |s.cur| == |s.disk|
    && s.lh == [] && s.ops == [] && s.phase == Down && s.hist == [] && s.stable == 0
  }

  ghost predicate Up(s: State) { s.phase.Running? || s.phase.Committing? }

  ghost predicate BeginOp(g: Geometry, s: State, s': State) {
    && Up(s) && MayBegin(|s.lh|, |s.ops|, s.phase.Committing?)
    && s' == s.(ops := s.ops + [Op(s.nextId, MAXOPBLOCKS)], nextId := s.nextId + 1)
  }

  /** Only a block that is not in the log yet is charged to the operation. */
  function Charge(lh: seq<int>, b: int): nat { if b in lh then 0 else 1 }

  ghost predicate LogWrite(g: Geometry, s: State, s': State, i: nat, b: nat, data: Block) {
    && Up(s) && i < |s.ops| && b < |s.disk| && b < |s.cur| && Home(g, b)
    && LogWriteOutcome(g.size, |s.lh|, |s.ops|) == Accepted
    && s.ops[i].unspent >= Charge(s.lh, b)
    && s' == s.(lh := AddBlock(s.lh, b),
                cur := s.cur[b := data],
                ops := s.ops[i := s.ops[i].(unspent := s.ops[i].unspent - Charge(s.lh, b))],
                hist := s.hist + [Event(s.ops[i].id, b, data)])
  }

  ghost predicate EndOp(g: Geometry, s: State, s': State, i: nat) {
    && Up(s) && i < |s.ops| && !s.phase.Committing?
    && var rest := s.ops[..i] + s.ops[i + 1..];
       s' == s.(ops := rest, phase := if rest == [] then Committing(s.disk, 0) else s.phase)
  }

  ghost predicate CommitWrite(g: Geometry, s: State, s': State) {
    && s.phase.Committing?
    && var ws := CommitPlan(g, s);
       && s.phase.k < |ws|
       && s' == s.(disk := Apply(s.disk, [ws[s.phase.k]]),
                   phase := Committing(s.phase.from, s.phase.k + 1),
                   stable := if s.phase.k == |s.lh| then |s.hist| else s.stable)
  }

  ghost predicate CommitDone(g: Geometry, s: State, s': State) {
    && s.phase.Committing? && s.phase.k == |CommitPlan(g, s)|
    && s' == s.(lh := [], phase := Running)
  }

  /** Memory is lost, and with it every write that was not yet stable. */
  ghost predicate Crash(g: Geometry, s: State, s': State) {
    && !s.phase.Down? && s.stable <= |s.hist| && |s'.cur| == |s.disk|
    && s' == s.(cur := s'.cur, lh := [], ops := [], phase := Down, hist := s.hist[..s.stable])
  }

  ghost predicate Boot(g: Geometry, s: State, s': State) {
    s.phase.Down? && s' == s.(phase := Recovering(s.disk, 0))
  }

  ghost predicate RecoverWrite(g: Geometry, s: State, s': State) {
    && s.phase.Recovering?
    && var ws := RecoverPlan(g, s);
       && s.phase.k < |ws|
       && s' == s.(disk := Apply(s.disk, [ws[s.phase.k]]), phase := Recovering(s.phase.from, s.phase.k + 1))
  }

  ghost predicate RecoverDone(g: Geometry, s: State, s': State) {
    && s.phase.Recovering? && s.phase.k == |RecoverPlan(g, s)|
    && s' == s.(cur := s.disk, phase := Running)
  }

  ghost predicate Next(g: Geometry, s: State, s': State) {
    || BeginOp(g, s, s')
    || (exists i, b, data :: LogWrite(g, s, s', i, b, data))
    || (exists i :: EndOp(g, s, s', i))
    || CommitWrite(g, s, s')
    || CommitDone(g, s, s')
    || Crash(g, s, s')
    || Boot(g, s, s')
    || RecoverWrite(g, s, s')
    || RecoverDone(g, s, s')
  }

  ghost predicate StepAt(g: Geometry, run: seq<State>, i: nat)
    requires i + 1 < |run|
  {
    Next(g, run[i], run[i + 1])
  }

  /** Any number of steps, interleaved in any way. */
  ghost predicate Run(g: Geometry, base: Disk, run: seq<State>) {
    && run != [] && Init(g, base, run[0])
    && forall i :: 0 <= i && i + 1 < |run| ==> StepAt(g, run, i)
  }

  function Last(run: seq<State>): State
    requires run != []
  {
    run[|run| - 1]
  }

  // ---------------------------------------------------------------- invariant

  function Sum(ops: seq<Op>): nat {
    if ops == [] then 0 else ops[0].unspent + Sum(ops[1..])
  }

  /** The home blocks after a list of log_writes. */
  ghost function Replay(base: Disk, es: seq<Event>): (r: Disk)
    ensures |r| == |base|
  {
    if es == [] then base
    else
      var e := es[|es| - 1];
      var p := Replay(base, es[..|es| - 1]);
      if e.b < |p| then p[e.b := e.data] else p
  }

  ghost predicate SameHome(g: Geometry, a: Disk, b: Disk) {
    |a| == |b| && forall i :: 0 <= i < |a| && Home(g, i) ==> a[i] == b[i]
  }

  /** No operation is split by the stable prefix of the history. */
  ghost predicate Whole(s: State) {
    && s.stable <= |s.hist|
    && (forall i, j :: 0 <= i < s.stable <= j < |s.hist| ==> s.hist[i].op != s.hist[j].op)
    && (forall i, j :: 0 <= i < s.stable && 0 <= j < |s.ops| ==> s.hist[i].op != s.ops[j].id)
  }

  ghost predicate Ids(s: State) {
    && (forall i :: 0 <= i < |s.hist| ==> s.hist[i].op < s.nextId)
    && (forall j :: 0 <= j < |s.ops| ==> s.ops[j].id < s.nextId)
  }

  ghost predicate Reserved(s: State) {
    && |s.lh| + Sum(s.ops) <= LOGSIZE
    && forall i :: 0 <= i < |s.ops| ==> s.ops[i].unspent <= MAXOPBLOCKS
  }

  /** Unlogged home blocks of `from` are as they are in the cache. */
  ghost predicate Unlogged(g: Geometry, from: Disk, lh: seq<int>, cur: Disk) {
    |from| == |cur| && forall b :: 0 <= b < |cur| && Home(g, b) && b !in lh ==> cur[b] == from[b]
  }

  ghost predicate RunningInv(g: Geometry, base: Disk, s: State) {
    && Clean(g, s.disk) && Loggable(g, |s.disk|, s.lh)
    && SameHome(g, s.cur, Replay(base, s.hist))
    && Unlogged(g, s.disk, s.lh, s.cur)
    && (s.lh == [] ==> s.stable == |s.hist|)
    && (s.ops == [] ==> s.lh == [])
  }

  ghost predicate CommittingInv(g: Geometry, base: Disk, s: State) {
    && s.phase.Committing?
    && s.ops == [] && Clean(g, s.phase.from) && Loggable(g, |s.phase.from|, s.lh)
    && SameHome(g, s.cur, Replay(base, s.hist))
    && Unlogged(g, s.phase.from, s.lh, s.cur)
    && s.phase.k <= |CommitPlan(g, s)|
    && s.disk == Apply(s.phase.from, CommitPlan(g, s)[..s.phase.k])
    && (s.lh == [] || s.phase.k > |s.lh| ==> s.stable == |s.hist|)
  }

  ghost predicate RecoveringInv(g: Geometry, s: State) {
    && s.phase.Recovering?
    && LogOk(g, s.phase.from)
    && s.phase.k <= |RecoverPlan(g, s)|
    && s.disk == Apply(s.phase.from, RecoverPlan(g, s)[..s.phase.k])
    && s.stable == |s.hist|
    && s.ops == [] && s.lh == []
  }

  ghost predicate Inv(g: Geometry, base: Disk, s: State) {
    && LogOk(g, s.disk) && |s.cur| == |s.disk|
    && Whole(s) && Ids(s) && Reserved(s)
    && SameHome(g, View(g, s.disk), Replay(base, s.hist[..s.stable]))
    && match s.phase
       case Running => RunningInv(g, base, s)
       case Committing(_, _) => CommittingInv(g, base, s)
       case Down => s.ops == [] && s.lh == [] && s.stable == |s.hist|
       case Recovering(_, _) => RecoveringInv(g, s)
  }

  // ---------------------------------------------------------------- preservation

  lemma {:induction false} SumConcat(a: seq<Op>, b: seq<Op>)
    ensures Sum(a + b) == Sum(a) + Sum(b)
  {
    if a == [] {
      assert a + b == b;
    } else {
      SumConcat(a[1..], b);
      assert (a + b)[1..] == a[1..] + b;
    }
  }

  lemma SumSplit(ops: seq<Op>, i: nat)
    requires i < |ops|
    ensures Sum(ops) == Sum(ops[..i]) + ops[i].unspent + Sum(ops[i + 1..])
  {
    assert ops == ops[..i] + ops[i..];
    SumConcat(ops[..i], ops[i..]);
    assert ops[i..][1..] == ops[i + 1..];
  }

  lemma SumUpdate(ops: seq<Op>, i: nat, op: Op)
    requires i < |ops|
    ensures Sum(ops[i := op]) == Sum(ops) - ops[i].unspent + op.unspent
  {
    SumSplit(ops, i);
    SumSplit(ops[i := op], i);
    assert ops[i := op][..i] == ops[..i] && ops[i := op][i + 1..] == ops[i + 1..];
  }

  lemma {:induction false} SumBound(ops: seq<Op>)
    requires forall i :: 0 <= i < |ops| ==> ops[i].unspent <= MAXOPBLOCKS
    ensures Sum(ops) <= |ops| * MAXOPBLOCKS
  {
    if ops != [] {
      SumBound(ops[1..]);
    }
  }

  lemma BeginKeeps(g: Geometry, base: Disk, s: State, s': State)
    requires Inv(g, base, s) && BeginOp(g, s, s')
    ensures Inv(g, base, s')
  {
    SumConcat(s.ops, [Op(s.nextId, MAXOPBLOCKS)]);
    SumBound(s.ops);
    assert s.phase.Running?;
  }

  lemma ReplayNext(base: Disk, es: seq<Event>, e: Event)
    requires e.b < |base|
    ensures Replay(base, es + [e]) == Replay(base, es)[e.b := e.data]
  {}

  /** The history grows by an event of an outstanding operation. */
  lemma LogWriteWhole(g: Geometry, s: State, s': State, i: nat, b: nat, data: Block)
    requires Whole(s) && Ids(s) && LogWrite(g, s, s', i, b, data)
    ensures Whole(s') && Ids(s') && s'.hist[..s.stable] == s.hist[..s.stable]
  {}

  lemma LogWriteReserved(g: Geometry, s: State, s': State, i: nat, b: nat, data: Block)
    requires Reserved(s) && LogWrite(g, s, s', i, b, data)
    ensures Reserved(s')
  {
    SumUpdate(s.ops, i, s'.ops[i]);
  }

  lemma LogWriteRunning(g: Geometry, base: Disk, s: State, s': State, i: nat, b: nat, data: Block)
    requires RunningInv(g, base, s) && LogWrite(g, s, s', i, b, data)
    ensures RunningInv(g, base, s')
  {
    ReplayNext(base, s.hist, Event(s.ops[i].id, b, data));
    assert s'.lh != [];
  }

  lemma LogWriteKeeps(g: Geometry, base: Disk, s: State, s': State, i: nat, b: nat, data: Block)
    requires Inv(g, base, s) && LogWrite(g, s, s', i, b, data)
    ensures Inv(g, base, s')
  {
    LogWriteWhole(g, s, s', i, b, data);
    LogWriteReserved(g, s, s', i, b, data);
    LogWriteRunning(g, base, s, s', i, b, data);
  }

  lemma EndReserved(g: Geometry, s: State, s': State, i: nat)
    requires Reserved(s) && EndOp(g, s, s', i)
    ensures Reserved(s')
  {
    SumSplit(s.ops, i);
    SumConcat(s.ops[..i], s.ops[i + 1..]);
  }

  lemma EndWhole(g: Geometry, s: State, s': State, i: nat)
    requires Whole(s) && Ids(s) && EndOp(g, s, s', i)
    ensures Whole(s') && Ids(s')
  {}

  lemma EndKeeps(g: Geometry, base: Disk, s: State, s': State, i: nat)
    requires Inv(g, base, s) && EndOp(g, s, s', i)
    ensures Inv(g, base, s')
  {
    EndReserved(g, s, s', i);
    EndWhole(g, s, s', i);
    if s'.ops == [] {
      ApplyAll(s.disk, CommitPlan(g, s'));
    }
  }

  /** What the disk of a committing state shows. */
  lemma CommittingView(g: Geometry, base: Disk, s: State)
    requires CommittingInv(g, base, s)
    ensures LogOk(g, s.disk)
    ensures s.phase.k <= |s.lh| ==> View(g, s.disk) == View(g, s.phase.from)
    ensures s.phase.k > |s.lh| ==> SameHome(g, View(g, s.disk), Replay(base, s.hist))
    ensures s.phase.k == |CommitPlan(g, s)| ==> Clean(g, s.disk)
  {
    InterruptedCommit(g, s.phase.from, s.lh, s.cur, s.phase.k);
    CleanViewIsDisk(g, s.phase.from);
  }

  lemma CommitWriteKeeps(g: Geometry, base: Disk, s: State, s': State)
    requires Inv(g, base, s) && CommitWrite(g, s, s')
    ensures Inv(g, base, s')
  {
    CommitWriteInv(g, base, s, s');
    CommittingView(g, base, s);
    CommittingView(g, base, s');
    assert s.hist[..|s.hist|] == s.hist;
  }

  lemma CommitWriteInv(g: Geometry, base: Disk, s: State, s': State)
    requires CommittingInv(g, base, s) && CommitWrite(g, s, s')
    ensures CommittingInv(g, base, s')
  {
    var ws := CommitPlan(g, s);
    assert CommitPlan(g, s') == ws;
    NextOfPrefix(ws, s.phase.k);
    ApplyConcat(s.phase.from, ws[..s.phase.k], [ws[s.phase.k]]);
  }

  lemma CommitDoneKeeps(g: Geometry, base: Disk, s: State, s': State)
    requires Inv(g, base, s) && CommitDone(g, s, s')
    ensures Inv(g, base, s')
  {
    CommittingView(g, base, s);
    CleanViewIsDisk(g, s.disk);
    assert s.hist[..|s.hist|] == s.hist;
  }

  lemma CrashKeeps(g: Geometry, base: Disk, s: State, s': State)
    requires Inv(g, base, s) && Crash(g, s, s')
    ensures Inv(g, base, s')
  {
    assert s'.hist[..s'.stable] == s.hist[..s.stable];
  }

  lemma BootKeeps(g: Geometry, base: Disk, s: State, s': State)
    requires Inv(g, base, s) && Boot(g, s, s')
    ensures Inv(g, base, s')
  {}

  lemma RecoverWriteKeeps(g: Geometry, base: Disk, s: State, s': State)
    requires Inv(g, base, s) && RecoverWrite(g, s, s')
    ensures Inv(g, base, s')
  {
    RecoverWriteInv(g, s, s');
    InterruptedRecovery(g, s.phase.from, s.phase.k);
    InterruptedRecovery(g, s.phase.from, s.phase.k + 1);
  }

  lemma RecoverWriteInv(g: Geometry, s: State, s': State)
    requires RecoveringInv(g, s) && RecoverWrite(g, s, s')
    ensures RecoveringInv(g, s')
  {
    var ws := RecoverPlan(g, s);
    NextOfPrefix(ws, s.phase.k);
    ApplyConcat(s.phase.from, ws[..s.phase.k], [ws[s.phase.k]]);
  }

  lemma NextOfPrefix(ws: seq<Write>, k: nat)
    requires k < |ws|
    ensures ws[..k + 1] == ws[..k] + [ws[k]]
  {}

  lemma RecoverDoneKeeps(g: Geometry, base: Disk, s: State, s': State)
    requires Inv(g, base, s) && RecoverDone(g, s, s')
    ensures Inv(g, base, s')
  {
    InterruptedRecovery(g, s.phase.from, s.phase.k);
    CleanViewIsDisk(g, s.disk);
    assert s.hist[..|s.hist|] == s.hist;
  }

  lemma NextKeeps(g: Geometry, base: Disk, s: State, s': State)
    requires Inv(g, base, s) && Next(g, s, s')
    ensures Inv(g, base, s')
  {
    if BeginOp(g, s, s') {
      BeginKeeps(g, base, s, s');
    } else if i, b, data :| LogWrite(g, s, s', i, b, data) {
      LogWriteKeeps(g, base, s, s', i, b, data);
    } else if i :| EndOp(g, s, s', i) {
      EndKeeps(g, base, s, s', i);
    } else if CommitWrite(g, s, s') {
      CommitWriteKeeps(g, base, s, s');
    } else if CommitDone(g, s, s') {
      CommitDoneKeeps(g, base, s, s');
    } else if Crash(g, s, s') {
      CrashKeeps(g, base, s, s');
    } else if Boot(g, s, s') {
      BootKeeps(g, base, s, s');
    } else if RecoverWrite(g, s, s') {
      RecoverWriteKeeps(g, base, s, s');
    } else {
      RecoverDoneKeeps(g, base, s, s');
    }
  }

  lemma {:induction false} ReachableInv(g: Geometry, base: Disk, run: seq<State>)
    requires Run(g, base, run)
    ensures Inv(g, base, Last(run))
    decreases |run|
  {
    if |run| > 1 {
      var p := run[..|run| - 1];
      forall i | 0 <= i && i + 1 < |p| ensures StepAt(g, p, i) {
        assert StepAt(g, run, i);
      }
      ReachableInv(g, base, p);
      assert StepAt(g, run, |run| - 2);
      NextKeeps(g, base, Last(p), Last(run));
    } else {
      InitInv(g, base, run[0]);
    }
  }

  lemma InitInv(g: Geometry, base: Disk, s: State)
    requires Init(g, base, s)
    ensures Inv(g, base, s)
  {
    assert s.hist[..0] == [];
  }

  // ---------------------------------------------------------------- main results

  /**
   Crash the machine in any reachable state and let any number of recoveries be cut short; the
   one that completes leaves exactly the effect of the stable log_writes, and these are whole
   operations: none of them also has a log_write that was lost.
  */
  lemma CrashesKeepWholeOperations(g: Geometry, base: Disk, run: seq<State>, s: State, cuts: seq<nat>)
    requires Run(g, base, run) && s == Last(run)
    ensures LogOk(g, s.disk) && s.stable <= |s.hist|
    ensures var r := CrashAndRecover(g, s.disk, cuts);
            Clean(g, r) && SameHome(g, r, Replay(base, s.hist[..s.stable]))
    ensures forall i, j :: 0 <= i < s.stable <= j < |s.hist| ==> s.hist[i].op != s.hist[j].op
    ensures forall i, j :: 0 <= i < s.stable && 0 <= j < |s.ops| ==> s.hist[i].op != s.ops[j].id
  {
    ReachableInv(g, base, run);
    CrashAndRecoverKeepsView(g, s.disk, cuts);
    CleanViewIsDisk(g, CrashAndRecover(g, s.disk, cuts));
  }

  /** Once the last end_op has returned, everything logged so far survives every crash. */
  lemma QuiescentMeansDurable(g: Geometry, base: Disk, run: seq<State>, s: State)
    requires Run(g, base, run) && s == Last(run) && s.phase.Running?
    ensures SameHome(g, s.cur, Replay(base, s.hist))
    ensures s.ops == [] ==> s.stable == |s.hist|
  {
    ReachableInv(g, base, run);
  }

  /** The group-commit discipline, in every interleaving. */
  lemma GroupCommit(g: Geometry, base: Disk, run: seq<State>, s: State)
    requires Run(g, base, run) && s == Last(run)
    ensures s.phase.Committing? ==> s.ops == []
    ensures Distinct(s.lh) && |s.lh| <= g.size - 1
    ensures |s.lh| + Sum(s.ops) <= LOGSIZE
    ensures s.ops != [] ==> s.phase.Running?   // end_op cannot find log.committing set
  {
    ReachableInv(g, base, run);
  }

  /**
   With a log bigger than LOGSIZE, an outstanding operation's log_write panics exactly when the
   log is full, and then no outstanding operation has anything left of its share: a block that
   is new to the log, and any call made within a per-call budget, is always accepted.
  */
  lemma PanicsExactlyWhenFull(g: Geometry, base: Disk, run: seq<State>, s: State, i: nat)
    requires g.size > LOGSIZE && Run(g, base, run) && s == Last(run) && i < |s.ops|
    ensures LogWriteOutcome(g.size, |s.lh|, |s.ops|) == Accepted
         || LogWriteOutcome(g.size, |s.lh|, |s.ops|) == TooBigATransaction
    ensures LogWriteOutcome(g.size, |s.lh|, |s.ops|) == TooBigATransaction <==> |s.lh| == LOGSIZE
    ensures s.ops[i].unspent >= 1 ==> LogWriteOutcome(g.size, |s.lh|, |s.ops|) == Accepted
  {
    ReachableInv(g, base, run);
    SumSplit(s.ops, i);
  }

  // ---------------------------------------------------------------- the panic is reachable

  function FilledShare(i: int, m: nat): int {
    if m <= i * 10 then 10 else if m >= i * 10 + 10 then 0 else i * 10 + 10 - m
  }

  /** Three operations have begun; m distinct blocks after the log have been logged. */
  ghost predicate Filled(g: Geometry, s: State, m: nat) {
    && s.phase.Running? && m <= LOGSIZE && |s.ops| == 3
    && |s.cur| == |s.disk| && g.start + g.size + LOGSIZE <= |s.disk|
    && (forall i :: 0 <= i < 3 ==> s.ops[i].unspent == FilledShare(i, m))
    && |s.lh| == m && forall j :: 0 <= j < m ==> s.lh[j] == g.start + g.size + j
  }

  lemma Extend(g: Geometry, base: Disk, run: seq<State>, s: State)
    requires Run(g, base, run) && Next(g, Last(run), s)
    ensures Run(g, base, run + [s])
  {
    forall i | 0 <= i && i + 1 < |run + [s]| ensures StepAt(g, run + [s], i) {
      if i + 1 < |run| {
        assert StepAt(g, run, i);
      }
    }
  }

  lemma Boots(g: Geometry, d: Disk) returns (run: seq<State>)
    requires Clean(g, d)
    ensures Run(g, View(g, d), run)
    ensures var s := Last(run);
            s.phase == Running && s.ops == [] && s.lh == [] && |s.cur| == |s.disk| == |d|
  {
    var s0 := State(d, d, [], [], Down, 0, [], 0);
    var s1 := s0.(phase := Recovering(d, 0));
    assert Logged(g, d) == [];
    var w := HeadWrite(g, d, []);
    assert RecoverPlan(g, s1) == [w];
    var s2 := s1.(disk := Apply(d, [w]), phase := Recovering(d, 1));
    run := [s0];
    assert Boot(g, s0, s1);
    Extend(g, View(g, d), run, s1);
    run := run + [s1];
    assert RecoverWrite(g, s1, s2);
    Extend(g, View(g, d), run, s2);
    run := run + [s2];
    var s3 := s2.(cur := s2.disk, phase := Running);
    assert RecoverDone(g, s2, s3);
    Extend(g, View(g, d), run, s3);
    run := run + [s3];
  }

  lemma BeginsOne(g: Geometry, base: Disk, run: seq<State>) returns (r: seq<State>)
    requires Run(g, base, run)
    requires var s := Last(run); s.phase == Running && s.lh == [] && |s.ops| < 3
    ensures Run(g, base, r)
    ensures var s := Last(run);
            Last(r) == s.(ops := s.ops + [Op(s.nextId, MAXOPBLOCKS)], nextId := s.nextId + 1)
  {
    var s := Last(run);
    var t := s.(ops := s.ops + [Op(s.nextId, MAXOPBLOCKS)], nextId := s.nextId + 1);
    assert BeginOp(g, s, t);
    Extend(g, base, run, t);
    r := run + [t];
  }

  lemma FillsOne(g: Geometry, base: Disk, run: seq<State>, m: nat) returns (r: seq<State>)
    requires Run(g, base, run) && Filled(g, Last(run), m)
    requires m < LOGSIZE && m < g.size - 1
    ensures Run(g, base, r) && Filled(g, Last(r), m + 1)
  {
    var p := Last(run);
    var i, b := m / 10, g.start + g.size + m;
    var data := p.cur[b];
    assert b !in p.lh;
    var t := p.(lh := AddBlock(p.lh, b),
                cur := p.cur[b := data],
                ops := p.ops[i := p.ops[i].(unspent := p.ops[i].unspent - Charge(p.lh, b))],
                hist := p.hist + [Event(p.ops[i].id, b, data)]);
    assert LogWrite(g, p, t, i, b, data);
    Extend(g, base, run, t);
    r := run + [t];
  }

  /** Boot, begin three operations and log m blocks. */
  lemma {:induction false} Fills(g: Geometry, d: Disk, m: nat) returns (run: seq<State>)
    requires Clean(g, d) && g.start + g.size + LOGSIZE <= |d|
    requires m <= LOGSIZE && m <= g.size - 1
    ensures Run(g, View(g, d), run) && Filled(g, Last(run), m)
    decreases m
  {
    if m == 0 {
      run := Boots(g, d);
      run := BeginsOne(g, View(g, d), run);
      run := BeginsOne(g, View(g, d), run);
      run := BeginsOne(g, View(g, d), run);
    } else {
      run := Fills(g, d, m - 1);
      run := FillsOne(g, View(g, d), run, m - 1);
    }
  }

  /**
   With log.size <= LOGSIZE -- mkfs makes it LOGSIZE -- the reservation is not enough: some run
   leads an operation that is within its share to a panic on a block that is new to the log.
  */
  lemma SmallLogPanics(g: Geometry, d: Disk) returns (run: seq<State>)
    requires Clean(g, d) && g.size <= LOGSIZE && g.start + g.size + LOGSIZE <= |d|
    ensures Run(g, View(g, d), run)
    ensures var s := Last(run);
            && |s.ops| == 3 && s.ops[2].unspent >= 1
            && (g.start + g.size + g.size - 1) !in s.lh
            && LogWriteOutcome(g.size, |s.lh|, |s.ops|) == TooBigATransaction
  {
    run := Fills(g, d, g.size - 1);
  }

  /**
   The guard runs before the absorption loop: however large the log, a run can fill it, and then
   an operation that rewrites a block it has already logged panics.
  */
  lemma FullLogRejectsAbsorption(g: Geometry, d: Disk) returns (run: seq<State>)
    requires Clean(g, d) && g.size > LOGSIZE && g.start + g.size + LOGSIZE <= |d|
    ensures Run(g, View(g, d), run)
    ensures var s := Last(run);
            && |s.ops| == 3 && (g.start + g.size) in s.lh
            && LogWriteOutcome(g.size, |s.lh|, |s.ops|) == TooBigATransaction
  {
    run := Fills(g, d, LOGSIZE);
    assert Last(run).lh[0] == g.start + g.size;
  }
}
