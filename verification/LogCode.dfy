/**
 kernel/log.c as code: `struct log` and the loops that move blocks between the cache, the
 log slots and the home blocks.  `trace` records every bwrite, so that each operation is tied
 to the write sequence whose prefixes RedoLog reasons about.
*/
module LogCode {
  import opened RedoLog

  datatype LogWriteResult = Accepted | TooBigATransaction | OutsideOfTransaction

  /** log_write's absorption: a block is listed once. */
  function AddBlock(lh: seq<int>, b: int): seq<int> {
    if b in lh then lh else lh + [b]
  }

  function LogWriteOutcome(size: nat, n: int, outstanding: int): LogWriteResult {
    if n >= LOGSIZE || n >= size - 1 then TooBigATransaction
    else if outstanding < 1 then OutsideOfTransaction
    else Accepted
  }

  /** The test begin_op loops on. */
  predicate MayBegin(n: int, outstanding: int, committing: bool) {
    !committing && n + (outstanding + 1) * MAXOPBLOCKS <= LOGSIZE
  }

  ghost function BufferView(disk: Disk, cache: map<nat, Block>): (c: Disk)
    ensures |c| == |disk|
    ensures forall b :: 0 <= b < |c| ==> c[b] == if b in cache then cache[b] else disk[b]
  {
    seq(|disk|, b requires 0 <= b < |disk| => if b in cache then cache[b] else disk[b])
  }

  /** bunpin for each logged block. */
  ghost function Unpinned(cache: map<nat, Block>, lh: seq<int>): map<nat, Block> {
    map b | b in cache && b !in lh :: cache[b]
  }

  lemma UnpinNext(cache: map<nat, Block>, lh: seq<int>, k: nat)
    requires k < |lh| && 0 <= lh[k]
    ensures Unpinned(cache, lh[..k]) - {lh[k]} == Unpinned(cache, lh[..k + 1])
  {}

  lemma ConcatAssoc(a: seq<Write>, b: seq<Write>, c: seq<Write>)
    ensures a + b + c == a + (b + c)
  {}

  /** The first k writes of ws have been made. */
  ghost predicate Wrote(d: Disk, t: seq<Write>, ws: seq<Write>, k: nat, d': Disk, t': seq<Write>)
    requires k <= |ws|
  {
    d' == Apply(d, ws[..k]) && t' == t + ws[..k]
  }

  lemma WroteNone(d: Disk, t: seq<Write>, ws: seq<Write>)
    ensures Wrote(d, t, ws, 0, d, t)
  {}

  lemma WroteNext(d: Disk, t: seq<Write>, ws: seq<Write>, k: nat, d': Disk, t': seq<Write>)
    requires k < |ws| && ws[k].blockno < |d| && Wrote(d, t, ws, k, d', t')
    ensures Wrote(d, t, ws, k + 1, d'[ws[k].blockno := ws[k].data], t' + [ws[k]])
  {
    ApplyNext(d, ws, k);
  }

  lemma WroteAll(d: Disk, t: seq<Write>, ws: seq<Write>, d': Disk, t': seq<Write>)
    requires Wrote(d, t, ws, |ws|, d', t')
    ensures d' == Apply(d, ws) && t' == t + ws
  {
    ApplyAll(d, ws);
  }

  /** write_log and write_head together. */
  lemma HalfDone(g: Geometry, d: Disk, lh: seq<int>, cur: Disk, t: seq<Write>, t': seq<Write>)
    requires Clean(g, d) && Loggable(g, |d|, lh) && |cur| == |d|
    requires t' == t + LogWrites(g, lh, cur) + [HeadWrite(g, Apply(d, LogWrites(g, lh, cur)), lh)]
    ensures t' == t + CommitHalf(g, d, lh, cur)
  {
    CommitHalfShape(g, d, lh, cur);
    ConcatAssoc(t, LogWrites(g, lh, cur), [HeadWrite(g, Apply(d, LogWrites(g, lh, cur)), lh)]);
  }

  /** The two halves of a commit together. */
  lemma CommitDone(g: Geometry, d: Disk, lh: seq<int>, cur: Disk, t: seq<Write>, mid: Disk, d': Disk, t': seq<Write>)
    requires Clean(g, d) && Loggable(g, |d|, lh) && |cur| == |d| && lh != []
    requires mid == Apply(d, CommitHalf(g, d, lh, cur)) && LogOk(g, mid) && d' == Recover(g, mid)
    requires t' == t + CommitHalf(g, d, lh, cur) + RecoverWrites(g, mid)
    ensures t' == t + CommitWrites(g, d, lh, cur) && d' == Apply(d, CommitWrites(g, d, lh, cur))
  {
    CommitShape(g, d, lh, cur);
    ConcatAssoc(t, CommitHalf(g, d, lh, cur), RecoverWrites(g, mid));
  }

  /** install_trans finds in its next slot what the log held there at the start. */
  lemma InstallReads(g: Geometry, lh: seq<int>, d: Disk, t: seq<Write>, k: nat, d': Disk, t': seq<Write>)
    requires InDisk(g, d) && Loggable(g, |d|, lh) && k < |lh| && Wrote(d, t, InstallWrites(g, lh, d), k, d', t')
    ensures |d'| == |d| && d'[g.start + k + 1] == InstallWrites(g, lh, d)[k].data
  {
    InstallKeepsSlots(g, lh, d, k, k);
  }

  lemma NothingInstalled(g: Geometry, lh: seq<int>, d: Disk, t: seq<Write>, c: map<nat, Block>)
    requires InDisk(g, d) && Loggable(g, |d|, lh)
    ensures Wrote(d, t, InstallWrites(g, lh, d), 0, d, t) && c == Unpinned(c, lh[..0])
  {
    WroteNone(d, t, InstallWrites(g, lh, d));
  }

  lemma AllInstalled(g: Geometry, lh: seq<int>, d: Disk, t: seq<Write>, d': Disk, t': seq<Write>)
    requires InDisk(g, d) && Loggable(g, |d|, lh) && Wrote(d, t, InstallWrites(g, lh, d), |lh|, d', t')
    ensures d' == Apply(d, InstallWrites(g, lh, d)) && t' == t + InstallWrites(g, lh, d) && lh[..|lh|] == lh
  {
    WroteAll(d, t, InstallWrites(g, lh, d), d', t');
  }

  /** write_head has stored the first i block numbers. */
  ghost predicate Heading(hb: Block, was: Block, lh: seq<int>, i: nat) {
    && i <= |lh| <= LOGSIZE && hb[0] == |lh|
    && forall j :: 1 <= j < WORDS ==> hb[j] == if j <= i then lh[j - 1] else was[j]
  }

  lemma HeadNext(hb: Block, was: Block, lh: seq<int>, i: nat)
    requires Heading(hb, was, lh, i) && i < |lh|
    ensures Heading(hb[1 + i := lh[i]], was, lh, i + 1)
  {}

  lemma HeadDone(hb: Block, was: Block, lh: seq<int>)
    requires Heading(hb, was, lh, |lh|)
    ensures hb == HeadBlock(was, lh)
  {}

  class Log {
    const g: Geometry
    var disk: Disk
    /** Buffers that log_write pinned, with their modified contents. */
    var cache: map<nat, Block>
    var n: int
    const block: array<int>
    var outstanding: int
    var committing: bool
    ghost var trace: seq<Write>

    ghost predicate Valid()
      reads this, block
    {
      && block.Length == LOGSIZE && 0 <= n <= LOGSIZE
      && InDisk(g, disk)
      && (forall b :: b in cache ==> b < |disk| && Home(g, b))
    }

    ghost function Lh(): (s: seq<int>)
      requires Valid()
      reads this, block
      ensures |s| == n
    {
      block[..n]
    }

    /** What bread returns for each block. */
    ghost function Contents(): (c: Disk)
      reads this
      ensures |c| == |disk|
    {
      BufferView(disk, cache)
    }

    constructor (g: Geometry, disk: Disk)
      requires LogOk(g, disk)
      ensures Valid() && this.g == g && fresh(block)
      ensures this.disk == disk && cache == map[] && n == 0 && trace == []
      ensures outstanding == 0 && !committing
    {
      this.g, this.disk, cache, n, trace := g, disk, map[], 0, [];
      outstanding, committing := 0, false;
      block := new int[LOGSIZE];
    }

    method Bread(b: nat) returns (data: Block)
      requires b < |disk|
      ensures data == Contents()[b]
    {
      data := if b in cache then cache[b] else disk[b];
    }

    method Bwrite(b: nat, data: Block)
      requires b < |disk|
      modifies `disk, `trace
      ensures disk == old(disk)[b := data]
      ensures trace == old(trace) + [Write(b, data)]
    {
      disk := disk[b := data];
      trace := trace + [Write(b, data)];
    }

    method WriteHead()
      requires Valid()
      modifies `disk, `trace
      ensures Valid()
      ensures disk == old(disk)[g.start := HeadBlock(old(disk)[g.start], Lh())]
      ensures trace == old(trace) + [HeadWrite(g, old(disk), Lh())]
    {
      ghost var lh := Lh();
      var was := Bread(g.start);
      var hb: Block := was[0 := n];
      var i := 0;
      while i < n
        invariant 0 <= i <= n && Heading(hb, was, lh, i) && disk == old(disk) && trace == old(trace)
      {
        HeadNext(hb, was, lh, i);
        hb := hb[1 + i := block[i]];
        i := i + 1;
      }
      HeadDone(hb, was, lh);
      Bwrite(g.start, hb);
    }

    method ReadHead()
      requires Valid() && LogOk(g, disk)
      modifies `n, block
      ensures Valid() && Lh() == Logged(g, disk)
    {
      var hb := Bread(g.start);
      n := hb[0];
      var i := 0;
      while i < n
        invariant 0 <= i <= n && n == hb[0] && block.Length == LOGSIZE
        invariant forall j :: 0 <= j < i ==> block[j] == hb[1 + j]
      {
        block[i] := hb[1 + i];
        i := i + 1;
      }
    }

    /** One round of write_log. */
    method WriteOne(tail: nat, ghost lh: seq<int>, ghost cur: Disk, ghost d: Disk, ghost t: seq<Write>)
      requires Valid() && tail < n && lh == Lh() && |disk| == |d| == |cur| && Loggable(g, |d|, lh)
      requires block[tail] in cache && cur == BufferView(d, cache)
      requires Wrote(d, t, LogWrites(g, lh, cur), tail, disk, trace)
      modifies `disk, `trace
      ensures Valid() && |disk| == |d| && Wrote(d, t, LogWrites(g, lh, cur), tail + 1, disk, trace)
    {
      WroteNext(d, t, LogWrites(g, lh, cur), tail, disk, trace);
      var from := Bread(block[tail]);
      Bwrite(g.start + tail + 1, from);
    }

    method WriteLog()
      requires Valid() && Loggable(g, |disk|, Lh())
      requires forall i :: 0 <= i < n ==> block[i] in cache
      modifies `disk, `trace
      ensures Valid()
      ensures disk == Apply(old(disk), LogWrites(g, Lh(), old(Contents())))
      ensures trace == old(trace) + LogWrites(g, Lh(), old(Contents()))
    {
      ghost var lh, cur, d, t := Lh(), Contents(), disk, trace;
      WroteNone(d, t, LogWrites(g, lh, cur));
      var tail := 0;
      while tail < n
        invariant 0 <= tail <= n && Valid() && Lh() == lh && |disk| == |d|
        invariant Wrote(d, t, LogWrites(g, lh, cur), tail, disk, trace)
      {
        WriteOne(tail, lh, cur, d, t);
        tail := tail + 1;
      }
      WroteAll(d, t, LogWrites(g, lh, cur), disk, trace);
    }

    /** One round of install_trans. */
    method InstallOne(tail: nat, recovering: bool, ghost lh: seq<int>, ghost d: Disk, ghost t: seq<Write>,
                      ghost c: map<nat, Block>)
      requires Valid() && tail < n && lh == Lh() && |d| == |disk| && Loggable(g, |d|, lh)
      requires Wrote(d, t, InstallWrites(g, lh, d), tail, disk, trace)
      requires cache == if recovering then c else Unpinned(c, lh[..tail])
      modifies `disk, `trace, `cache
      ensures Valid() && |disk| == |d| && Wrote(d, t, InstallWrites(g, lh, d), tail + 1, disk, trace)
      ensures cache == if recovering then c else Unpinned(c, lh[..tail + 1])
    {
      UnpinNext(c, lh, tail);
      InstallReads(g, lh, d, t, tail, disk, trace);
      WroteNext(d, t, InstallWrites(g, lh, d), tail, disk, trace);
      var lbuf := Bread(g.start + tail + 1);
      Bwrite(block[tail], lbuf);
      if !recovering {
        cache := cache - {block[tail]};
      }
    }

    method InstallTrans(recovering: bool)
      requires Valid() && Loggable(g, |disk|, Lh())
      modifies `disk, `trace, `cache
      ensures Valid()
      ensures disk == Apply(old(disk), InstallWrites(g, Lh(), old(disk)))
      ensures trace == old(trace) + InstallWrites(g, Lh(), old(disk))
      ensures cache == if recovering then old(cache) else Unpinned(old(cache), Lh())
    {
      ghost var lh, d, t, c := Lh(), disk, trace, cache;
      NothingInstalled(g, lh, d, t, c);
      var tail := 0;
      while tail < n
        invariant 0 <= tail <= n && Valid() && Lh() == lh && |disk| == |d|
        invariant Wrote(d, t, InstallWrites(g, lh, d), tail, disk, trace)
        invariant cache == if recovering then c else Unpinned(c, lh[..tail])
      {
        InstallOne(tail, recovering, lh, d, t, c);
        tail := tail + 1;
      }
      AllInstalled(g, lh, d, t, disk, trace);
    }

    /** install_trans; log.lh.n = 0; write_head: the end of recovery and of commit. */
    method InstallAndClear(recovering: bool)
      requires Valid() && LogOk(g, disk) && Lh() == Logged(g, disk)
      modifies `disk, `trace, `cache, `n
      ensures Valid() && Lh() == []
      ensures disk == Recover(g, old(disk)) && Clean(g, disk)
      ensures trace == old(trace) + RecoverWrites(g, old(disk))
      ensures cache == if recovering then old(cache) else Unpinned(old(cache), old(Lh()))
    {
      RecoverShape(g, disk);
      InstallTrans(recovering);
      n := 0;
      WriteHead();
    }

    method RecoverFromLog()
      requires Valid() && LogOk(g, disk) && cache == map[]
      modifies this, block
      ensures Valid() && Lh() == [] && cache == map[]
      ensures disk == Recover(g, old(disk)) && Clean(g, disk)
      ensures trace == old(trace) + RecoverWrites(g, old(disk))
      ensures outstanding == old(outstanding) && committing == old(committing)
    {
      ReadHead();
      InstallAndClear(true);
    }

    /** write_log; write_head: everything up to and including the commit point. */
    method WriteLogAndHead()
      requires Valid() && Clean(g, disk) && Loggable(g, |disk|, Lh())
      requires forall i :: 0 <= i < n ==> block[i] in cache
      modifies `disk, `trace
      ensures Valid()
      ensures disk == Apply(old(disk), CommitHalf(g, old(disk), Lh(), old(Contents())))
      ensures trace == old(trace) + CommitHalf(g, old(disk), Lh(), old(Contents()))
      ensures LogOk(g, disk) && Logged(g, disk) == Lh()
    {
      CommitHalfShape(g, disk, Lh(), Contents());
      WriteLog();
      WriteHead();
      HalfDone(g, old(disk), Lh(), old(Contents()), old(trace), trace);
    }

    method Commit()
      requires Valid() && Clean(g, disk) && Loggable(g, |disk|, Lh())
      requires forall i :: 0 <= i < n ==> block[i] in cache
      modifies `disk, `trace, `cache, `n
      ensures Valid() && Lh() == [] && Clean(g, disk)
      ensures trace == old(trace) + CommitWrites(g, old(disk), old(Lh()), old(Contents()))
      ensures disk == Apply(old(disk), CommitWrites(g, old(disk), old(Lh()), old(Contents())))
      ensures cache == Unpinned(old(cache), old(Lh()))
    {
      ghost var d, lh, cur := disk, Lh(), Contents();
      if n == 0 {
        assert cache == Unpinned(cache, []);
        return;
      }
      WriteLogAndHead();
      ghost var mid := disk;
      InstallAndClear(false);
      CommitDone(g, d, lh, cur, old(trace), mid, disk, trace);
    }

    /** One pass of begin_op's loop: either the operation is admitted or it must sleep. */
    method BeginOp() returns (admitted: bool)
      requires Valid()
      modifies `outstanding
      ensures Valid()
      ensures admitted <==> MayBegin(n, old(outstanding), committing)
      ensures outstanding == old(outstanding) + (if admitted then 1 else 0)
    {
      if committing {
        return false;
      } else if n + (outstanding + 1) * MAXOPBLOCKS > LOGSIZE {
        return false;
      }
      outstanding := outstanding + 1;
      return true;
    }

    method LogWrite(b: nat, data: Block) returns (r: LogWriteResult)
      requires Valid() && b < |disk| && Home(g, b)
      modifies `n, `cache, block
      ensures Valid()
      ensures r == LogWriteOutcome(g.size, old(n), outstanding)
      ensures r != Accepted ==> Lh() == old(Lh()) && cache == old(cache)
      ensures r == Accepted ==> Lh() == AddBlock(old(Lh()), b) && cache == old(cache)[b := data]
    {
      if n >= LOGSIZE || n >= g.size - 1 {
        return TooBigATransaction;
      }
      if outstanding < 1 {
        return OutsideOfTransaction;
      }
      var i := 0;
      while i < n
        invariant 0 <= i <= n
        invariant forall j :: 0 <= j < i ==> block[j] != b
      {
        if block[i] == b {
          break;
        }
        i := i + 1;
      }
      ghost var was := Lh();
      assert i < n ==> was[i] == b;
      block[i] := b;
      cache := cache[b := data];
      if i == n {
        n := n + 1;
      }
      assert Lh() == AddBlock(was, b);
      return Accepted;
    }

    /** The first critical section of end_op; `panicked` is the log.committing check. */
    method LeaveOp() returns (doCommit: bool, panicked: bool)
      requires Valid()
      modifies `outstanding, `committing
      ensures Valid()
      ensures outstanding == old(outstanding) - 1
      ensures panicked <==> old(committing)
      ensures doCommit <==> !panicked && outstanding == 0
      ensures committing <==> old(committing) || doCommit
    {
      outstanding := outstanding - 1;
      if committing {
        return false, true;
      }
      doCommit := outstanding == 0;
      if doCommit {
        committing := true;
      }
      return doCommit, false;
    }

    /** end_op: the last operation to leave commits, and lets the next ones in again. */
    method EndOp() returns (committed: bool, panicked: bool)
      requires Valid()
      requires !committing ==> Clean(g, disk) && Loggable(g, |disk|, Lh())
      requires !committing ==> forall i :: 0 <= i < n ==> block[i] in cache
      modifies `outstanding, `committing, `disk, `trace, `cache, `n
      ensures Valid() && outstanding == old(outstanding) - 1 && committing == old(committing)
      ensures panicked <==> old(committing)
      ensures committed <==> !panicked && outstanding == 0
      ensures committed ==> Lh() == [] && Clean(g, disk) && cache == Unpinned(old(cache), old(Lh()))
      ensures committed ==> disk == Apply(old(disk), CommitWrites(g, old(disk), old(Lh()), old(Contents())))
      ensures committed ==> trace == old(trace) + CommitWrites(g, old(disk), old(Lh()), old(Contents()))
      ensures !committed ==> disk == old(disk) && trace == old(trace) && cache == old(cache) && n == old(n)
    {
      committed, panicked := LeaveOp();
      if committed {
        Commit();
        committing := false;
      }
    }
  }
}
