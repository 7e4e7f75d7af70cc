/**
 The physical redo log of kernel/log.c.

 A disk is a sequence of blocks and one `bwrite` is one atomic step, so a crash keeps exactly
 a prefix of the block writes that were issued.  `View` is what a completed recovery would
 leave in the home blocks; the proofs say what each single block write does to it.
*/
module RedoLog {

  const MAXOPBLOCKS: nat := 10
  const LOGSIZE: nat := 30
  /** Words in a block: BSIZE / sizeof(uint). */
  const WORDS: nat := 256

  type Block = b: seq<int> | |b| == WORDS witness seq(WORDS, _ => 0)
  type Disk = seq<Block>

  /** log.start and log.size; the header is block `start`, slot i is block `start + 1 + i`. */
  datatype Geometry = Geometry(start: nat, size: nat)

  datatype Write = Write(blockno: nat, data: Block)

  function ZeroBlock(): Block { seq(WORDS, i => 0) }

  // ---------------------------------------------------------------- on-disk format

  ghost predicate Home(g: Geometry, b: int) {
    b < g.start || g.start + g.size <= b
  }

  function HeadN(blk: Block): int { blk[0] }

  /** The header block that write_head stores: n and n block numbers, stale words kept. */
  function HeadBlock(prior: Block, lh: seq<int>): (r: Block)
    requires |lh| <= LOGSIZE
  {
    [|lh|] + lh + prior[1 + |lh|..]
  }

  ghost predicate Distinct(s: seq<int>) {
    forall i, j :: 0 <= i < j < |s| ==> s[i] != s[j]
  }

  /** A list of block numbers that may be logged on this disk. */
  ghost predicate Loggable(g: Geometry, size: nat, lh: seq<int>) {
    && |lh| <= LOGSIZE && |lh| <= g.size - 1
    && Distinct(lh)
    && forall i :: 0 <= i < |lh| ==> 0 <= lh[i] < size && Home(g, lh[i])
  }

  ghost predicate InDisk(g: Geometry, d: Disk) {
    1 <= g.size && g.start + g.size <= |d|
  }

  function Logged(g: Geometry, d: Disk): seq<int>
    requires g.start < |d|
    requires 0 <= HeadN(d[g.start]) <= LOGSIZE
  {
    d[g.start][1..1 + HeadN(d[g.start])]
  }

  ghost predicate LogOk(g: Geometry, d: Disk) {
    && InDisk(g, d)
    && 0 <= HeadN(d[g.start]) <= LOGSIZE
    && Loggable(g, |d|, Logged(g, d))
  }

  ghost predicate Clean(g: Geometry, d: Disk) {
    LogOk(g, d) && HeadN(d[g.start]) == 0
  }

  /** Contents of log slot i. */
  function Slot(g: Geometry, d: Disk, i: nat): Block
    requires g.start + 1 + i < |d|
  {
    d[g.start + 1 + i]
  }

  // ---------------------------------------------------------------- logical contents

  function IndexOf(s: seq<int>, b: int): (i: nat)
    ensures i <= |s|
    ensures i < |s| ==> s[i] == b
    ensures i == |s| <==> b !in s
  {
    if s == [] then 0 else if s[0] == b then 0 else 1 + IndexOf(s[1..], b)
  }

  ghost function ViewAt(g: Geometry, d: Disk, b: nat): Block
    requires LogOk(g, d) && b < |d|
  {
    if !Home(g, b) then ZeroBlock()
    else if b in Logged(g, d) then Slot(g, d, IndexOf(Logged(g, d), b))
    else d[b]
  }

  /** The home blocks as recovery would leave them; log blocks read as zero. */
  ghost function View(g: Geometry, d: Disk): (v: Disk)
    requires LogOk(g, d)
    ensures |v| == |d|
    ensures forall b :: 0 <= b < |d| ==> v[b] == ViewAt(g, d, b)
  {
    seq(|d|, b requires 0 <= b < |d| => ViewAt(g, d, b))
  }

  /** `base` with every block of `lh` replaced by its contents in `cur`. */
  ghost predicate Overlaid(g: Geometry, base: Disk, lh: seq<int>, cur: Disk, r: Disk) {
    && |r| == |base| == |cur|
    && forall b :: 0 <= b < |r| && Home(g, b) ==> r[b] == if b in lh then cur[b] else base[b]
  }

  // ---------------------------------------------------------------- block writes

  function Apply(d: Disk, ws: seq<Write>): (r: Disk)
    ensures |r| == |d|
  {
    if ws == [] then d
    else
      var w := ws[|ws| - 1];
      var p := Apply(d, ws[..|ws| - 1]);
      if w.blockno < |p| then p[w.blockno := w.data] else p
  }

  lemma {:induction false} ApplyConcat(d: Disk, a: seq<Write>, b: seq<Write>)
    ensures Apply(d, a + b) == Apply(Apply(d, a), b)
  {
    if b == [] {
      assert a + b == a;
    } else {
      ApplyConcat(d, a, b[..|b| - 1]);
      assert (a + b)[..|a + b| - 1] == a + b[..|b| - 1];
    }
  }

  lemma ApplyOne(d: Disk, w: Write)
    requires w.blockno < |d|
    ensures Apply(d, [w]) == d[w.blockno := w.data]
  {}

  lemma ApplyNext(d: Disk, ws: seq<Write>, k: nat)
    requires k < |ws| && ws[k].blockno < |d|
    ensures Apply(d, ws[..k + 1]) == Apply(d, ws[..k])[ws[k].blockno := ws[k].data]
    ensures ws[..k + 1] == ws[..k] + [ws[k]]
  {
    assert ws[..k + 1][..k] == ws[..k];
  }

  lemma ApplyAll(d: Disk, ws: seq<Write>)
    ensures Apply(d, ws[..0]) == d && ws[..|ws|] == ws && ws[..0] == []
  {}

  /** write_log: the modified blocks, copied into the log slots in order. */
  function LogWrites(g: Geometry, lh: seq<int>, cur: Disk): (ws: seq<Write>)
    requires forall i :: 0 <= i < |lh| ==> 0 <= lh[i] < |cur|
    ensures |ws| == |lh|
    ensures forall i :: 0 <= i < |lh| ==> ws[i] == Write(g.start + 1 + i, cur[lh[i]])
  {
    seq(|lh|, i requires 0 <= i < |lh| => Write(g.start + 1 + i, cur[lh[i]]))
  }

  /** install_trans: each log slot copied to its home block. */
  function InstallWrites(g: Geometry, lh: seq<int>, d: Disk): (ws: seq<Write>)
    requires g.start + |lh| < |d|
    requires forall i :: 0 <= i < |lh| ==> 0 <= lh[i]
    ensures |ws| == |lh|
    ensures forall i :: 0 <= i < |lh| ==> ws[i] == Write(lh[i], Slot(g, d, i))
  {
    seq(|lh|, i requires 0 <= i < |lh| => Write(lh[i], Slot(g, d, i)))
  }

  /** Installing never touches a log slot. */
  lemma {:induction false} InstallKeepsSlots(g: Geometry, lh: seq<int>, d: Disk, k: nat, i: nat)
    requires InDisk(g, d) && Loggable(g, |d|, lh) && k <= |lh| && i < |lh|
    ensures Slot(g, Apply(d, InstallWrites(g, lh, d)[..k]), i) == Slot(g, d, i)
  {
    var ws := InstallWrites(g, lh, d);
    if k == 0 {
      ApplyAll(d, ws);
    } else {
      InstallKeepsSlots(g, lh, d, k - 1, i);
      ApplyNext(d, ws, k - 1);
    }
  }

  function HeadWrite(g: Geometry, d: Disk, lh: seq<int>): Write
    requires g.start < |d| && |lh| <= LOGSIZE
  {
    Write(g.start, HeadBlock(d[g.start], lh))
  }

  /** recover_from_log, started on disk `d`. */
  ghost function RecoverWrites(g: Geometry, d: Disk): seq<Write>
    requires LogOk(g, d)
  {
    InstallWrites(g, Logged(g, d), d) + [HeadWrite(g, d, [])]
  }

  /** The first |lh| + 1 writes of commit(): the log slots, then the header. */
  ghost function CommitHalf(g: Geometry, d: Disk, lh: seq<int>, cur: Disk): seq<Write>
    requires Clean(g, d) && Loggable(g, |d|, lh) && |cur| == |d|
  {
    LogWrites(g, lh, cur) + [HeadWrite(g, d, lh)]
  }

  /** Every block write of commit(), in order. */
  ghost function CommitWrites(g: Geometry, d: Disk, lh: seq<int>, cur: Disk): seq<Write>
    requires Clean(g, d) && Loggable(g, |d|, lh) && |cur| == |d|
  {
    if lh == [] then []
    else
      CommitHalf(g, d, lh, cur)
      + seq(|lh|, i requires 0 <= i < |lh| => Write(lh[i], cur[lh[i]]))
      + [Write(g.start, HeadBlock(HeadBlock(d[g.start], lh), []))]
  }

  // ---------------------------------------------------------------- what one write does

  /** Copying a slot to its home block changes nothing that recovery can see. */
  lemma InstallKeepsView(g: Geometry, d: Disk, i: nat)
    requires LogOk(g, d) && i < |Logged(g, d)|
    ensures var d' := d[Logged(g, d)[i] := Slot(g, d, i)];
            LogOk(g, d') && Logged(g, d') == Logged(g, d) && View(g, d') == View(g, d)
  {}

  /** Filling a log slot while the header is clear changes nothing either. */
  lemma SlotKeepsView(g: Geometry, d: Disk, i: nat, data: Block)
    requires Clean(g, d) && i < g.size - 1
    ensures var d' := d[g.start + 1 + i := data]; Clean(g, d') && View(g, d') == View(g, d)
  {}

  /** The header write is the commit point: the view jumps to the logged contents. */
  lemma HeadCommits(g: Geometry, d: Disk, lh: seq<int>, cur: Disk)
    requires Clean(g, d) && Loggable(g, |d|, lh) && |cur| == |d|
    requires forall i :: 0 <= i < |lh| ==> Slot(g, d, i) == cur[lh[i]]
    ensures var d' := d[g.start := HeadBlock(d[g.start], lh)];
            LogOk(g, d') && Logged(g, d') == lh && Overlaid(g, View(g, d), lh, cur, View(g, d'))
  {
    var d' := d[g.start := HeadBlock(d[g.start], lh)];
    assert Logged(g, d') == lh;
    assert Logged(g, d) == [];
    forall b | 0 <= b < |d| && Home(g, b)
      ensures ViewAt(g, d', b) == if b in lh then cur[b] else ViewAt(g, d, b)
    {
      var j := IndexOf(lh, b);
    }
  }

  /** Clearing the header is invisible once every slot has been installed. */
  lemma ClearKeepsView(g: Geometry, d: Disk)
    requires LogOk(g, d)
    requires forall i :: 0 <= i < |Logged(g, d)| ==> d[Logged(g, d)[i]] == Slot(g, d, i)
    ensures var d' := d[g.start := HeadBlock(d[g.start], [])];
            Clean(g, d') && View(g, d') == View(g, d)
  {}

  lemma CleanViewIsDisk(g: Geometry, d: Disk)
    requires Clean(g, d)
    ensures forall b :: 0 <= b < |d| && Home(g, b) ==> View(g, d)[b] == d[b]
  {}

  // ---------------------------------------------------------------- recovery

  /** k installs of a recovery from d have led to r: same view, first k home blocks done. */
  ghost predicate Installed(g: Geometry, d: Disk, r: Disk, k: nat)
    requires LogOk(g, d) && k <= |Logged(g, d)|
  {
    && LogOk(g, r) && |r| == |d| && r[g.start] == d[g.start] && View(g, r) == View(g, d)
    && (forall i :: 0 <= i < |Logged(g, d)| ==> Slot(g, r, i) == Slot(g, d, i))
    && (forall i :: 0 <= i < k ==> r[Logged(g, d)[i]] == Slot(g, d, i))
  }

  lemma InstallNext(g: Geometry, d: Disk, r: Disk, k: nat)
    requires LogOk(g, d) && k < |Logged(g, d)| && Installed(g, d, r, k)
    ensures Installed(g, d, r[Logged(g, d)[k] := Slot(g, d, k)], k + 1)
  {
    assert Logged(g, r) == Logged(g, d) && Slot(g, r, k) == Slot(g, d, k);
    InstallKeepsView(g, r, k);
  }

  lemma {:induction false} PartialInstall(g: Geometry, d: Disk, k: nat)
    requires LogOk(g, d) && k <= |Logged(g, d)|
    ensures Installed(g, d, Apply(d, InstallWrites(g, Logged(g, d), d)[..k]), k)
  {
    var ws := InstallWrites(g, Logged(g, d), d);
    if k == 0 {
      assert ws[..0] == [];
    } else {
      PartialInstall(g, d, k - 1);
      ApplyNext(d, ws, k - 1);
      InstallNext(g, d, Apply(d, ws[..k - 1]), k - 1);
    }
  }

  /** A recovery interrupted after any number k of its writes keeps the view. */
  lemma InterruptedRecovery(g: Geometry, d: Disk, k: nat)
    requires LogOk(g, d) && k <= |RecoverWrites(g, d)|
    ensures var r := Apply(d, RecoverWrites(g, d)[..k]);
            && LogOk(g, r) && View(g, r) == View(g, d)
            && (k == |RecoverWrites(g, d)| ==> Clean(g, r))
  {
    var lh := Logged(g, d);
    var ws := InstallWrites(g, lh, d);
    var all := RecoverWrites(g, d);
    if k <= |lh| {
      PartialInstall(g, d, k);
      assert all[..k] == ws[..k];
    } else {
      PartialInstall(g, d, |lh|);
      assert all[..k] == all && ws[..|lh|] == ws;
      assert all[..|all| - 1] == ws;
      ClearKeepsView(g, Apply(d, ws));
    }
  }

  /** A completed recovery. */
  ghost function Recover(g: Geometry, d: Disk): Disk
    requires LogOk(g, d)
  {
    Apply(d, RecoverWrites(g, d))
  }

  lemma RecoverShape(g: Geometry, d: Disk)
    requires LogOk(g, d)
    ensures var mid := Apply(d, InstallWrites(g, Logged(g, d), d));
            && RecoverWrites(g, d) == InstallWrites(g, Logged(g, d), d) + [HeadWrite(g, mid, [])]
            && Recover(g, d) == mid[g.start := HeadBlock(mid[g.start], [])]
            && Clean(g, Recover(g, d))
  {
    var ws := InstallWrites(g, Logged(g, d), d);
    var all := RecoverWrites(g, d);
    PartialInstall(g, d, |ws|);
    ApplyAll(d, ws);
    assert all[..|all| - 1] == ws;
    InterruptedRecovery(g, d, |all|);
    ApplyAll(d, all);
  }

  /** A recovery cut off after at most k writes. */
  ghost function CutRecovery(g: Geometry, d: Disk, k: nat): (r: Disk)
    requires LogOk(g, d)
    ensures LogOk(g, r) && View(g, r) == View(g, d)
  {
    var ws := RecoverWrites(g, d);
    var c := if k <= |ws| then k else |ws|;
    InterruptedRecovery(g, d, c);
    Apply(d, ws[..c])
  }

  /** Recoveries cut off after cuts[0], cuts[1], ... writes, then one that completes. */
  ghost function CrashAndRecover(g: Geometry, d: Disk, cuts: seq<nat>): (r: Disk)
    requires LogOk(g, d)
    ensures |r| == |d|
    decreases |cuts|
  {
    if cuts == [] then Recover(g, d) else CrashAndRecover(g, CutRecovery(g, d, cuts[0]), cuts[1..])
  }

  lemma {:induction false} CrashAndRecoverKeepsView(g: Geometry, d: Disk, cuts: seq<nat>)
    requires LogOk(g, d)
    ensures var r := CrashAndRecover(g, d, cuts);
            Clean(g, r) && View(g, r) == View(g, d)
    decreases |cuts|
  {
    var ws := RecoverWrites(g, d);
    if cuts == [] {
      InterruptedRecovery(g, d, |ws|);
      assert ws[..|ws|] == ws;
    } else {
      CrashAndRecoverKeepsView(g, CutRecovery(g, d, cuts[0]), cuts[1..]);
    }
  }

  /** Recovering twice is recovering once, on every block of the disk. */
  lemma RecoveryIsIdempotent(g: Geometry, d: Disk)
    requires LogOk(g, d)
    ensures LogOk(g, Recover(g, d)) && Recover(g, Recover(g, d)) == Recover(g, d)
  {
    var ws := RecoverWrites(g, d);
    InterruptedRecovery(g, d, |ws|);
    assert ws[..|ws|] == ws;
    var r := Recover(g, d);
    assert Logged(g, r) == [];
    assert RecoverWrites(g, r) == [HeadWrite(g, r, [])];
    ApplyOne(r, HeadWrite(g, r, []));
    assert HeadBlock(r[g.start], []) == r[g.start];
  }

  // ---------------------------------------------------------------- commit

  /** k blocks have been copied to the log, from d to r: same view, still no log. */
  ghost predicate Copied(g: Geometry, d: Disk, lh: seq<int>, cur: Disk, r: Disk, k: nat)
    requires Clean(g, d) && Loggable(g, |d|, lh) && |cur| == |d| && k <= |lh|
  {
    && Clean(g, r) && |r| == |d| && r[g.start] == d[g.start] && View(g, r) == View(g, d)
    && forall i :: 0 <= i < k ==> Slot(g, r, i) == cur[lh[i]]
  }

  lemma {:induction false} PartialLog(g: Geometry, d: Disk, lh: seq<int>, cur: Disk, k: nat)
    requires Clean(g, d) && Loggable(g, |d|, lh) && |cur| == |d| && k <= |lh|
    ensures Copied(g, d, lh, cur, Apply(d, LogWrites(g, lh, cur)[..k]), k)
  {
    var ws := LogWrites(g, lh, cur);
    if k == 0 {
      assert ws[..0] == [];
    } else {
      PartialLog(g, d, lh, cur, k - 1);
      ApplyNext(d, ws, k - 1);
      SlotKeepsView(g, Apply(d, ws[..k - 1]), k - 1, cur[lh[k - 1]]);
    }
  }

  /** The disk right after the commit header write. */
  lemma Committed(g: Geometry, d: Disk, lh: seq<int>, cur: Disk)
    requires Clean(g, d) && Loggable(g, |d|, lh) && |cur| == |d|
    ensures var r := Apply(d, CommitHalf(g, d, lh, cur));
            && LogOk(g, r) && Logged(g, r) == lh
            && r[g.start] == HeadBlock(d[g.start], lh)
            && (forall i :: 0 <= i < |lh| ==> Slot(g, r, i) == cur[lh[i]])
            && Overlaid(g, View(g, d), lh, cur, View(g, r))
  {
    var ws := LogWrites(g, lh, cur);
    PartialLog(g, d, lh, cur, |lh|);
    assert ws[..|lh|] == ws;
    var half := CommitHalf(g, d, lh, cur);
    assert half[..|half| - 1] == ws;
    HeadCommits(g, Apply(d, ws), lh, cur);
  }

  /** The second half of a commit performs exactly the writes of a recovery. */
  lemma CommitEndsLikeRecovery(g: Geometry, d: Disk, lh: seq<int>, cur: Disk)
    requires Clean(g, d) && Loggable(g, |d|, lh) && |cur| == |d| && lh != []
    ensures LogOk(g, Apply(d, CommitHalf(g, d, lh, cur)))
    ensures CommitWrites(g, d, lh, cur)
         == CommitHalf(g, d, lh, cur) + RecoverWrites(g, Apply(d, CommitHalf(g, d, lh, cur)))
  {
    var half := CommitHalf(g, d, lh, cur);
    var r := Apply(d, half);
    Committed(g, d, lh, cur);
    assert InstallWrites(g, lh, r)
        == seq(|lh|, i requires 0 <= i < |lh| => Write(lh[i], cur[lh[i]]));
  }

  lemma CommitHalfShape(g: Geometry, d: Disk, lh: seq<int>, cur: Disk)
    requires Clean(g, d) && Loggable(g, |d|, lh) && |cur| == |d|
    ensures var logged := Apply(d, LogWrites(g, lh, cur));
            var mid := Apply(d, CommitHalf(g, d, lh, cur));
            && mid == logged[g.start := HeadBlock(logged[g.start], lh)]
            && CommitHalf(g, d, lh, cur) == LogWrites(g, lh, cur) + [HeadWrite(g, logged, lh)]
            && LogOk(g, mid) && Logged(g, mid) == lh
  {
    var ws := LogWrites(g, lh, cur);
    var half := CommitHalf(g, d, lh, cur);
    PartialLog(g, d, lh, cur, |lh|);
    ApplyAll(d, ws);
    assert half[..|half| - 1] == ws;
    Committed(g, d, lh, cur);
  }

  lemma CommitShape(g: Geometry, d: Disk, lh: seq<int>, cur: Disk)
    requires Clean(g, d) && Loggable(g, |d|, lh) && |cur| == |d| && lh != []
    ensures var mid := Apply(d, CommitHalf(g, d, lh, cur));
            && LogOk(g, mid)
            && CommitWrites(g, d, lh, cur) == CommitHalf(g, d, lh, cur) + RecoverWrites(g, mid)
            && Apply(d, CommitWrites(g, d, lh, cur)) == Recover(g, mid)
  {
    CommitEndsLikeRecovery(g, d, lh, cur);
    var half := CommitHalf(g, d, lh, cur);
    ApplyConcat(d, half, RecoverWrites(g, Apply(d, half)));
  }

  lemma PrefixOfSum(a: seq<Write>, b: seq<Write>, k: nat)
    requires |a| <= k <= |a + b|
    ensures (a + b)[..k] == a + b[..k - |a|]
  {}

  /** Up to and including the last log slot. */
  lemma InterruptedBefore(g: Geometry, d: Disk, lh: seq<int>, cur: Disk, k: nat)
    requires Clean(g, d) && Loggable(g, |d|, lh) && |cur| == |d| && k <= |lh| && k <= |CommitWrites(g, d, lh, cur)|
    ensures var r := Apply(d, CommitWrites(g, d, lh, cur)[..k]);
            Clean(g, r) && View(g, r) == View(g, d)
  {
    if lh == [] {
      assert CommitWrites(g, d, lh, cur)[..k] == [];
    } else {
      PartialLog(g, d, lh, cur, k);
      assert CommitWrites(g, d, lh, cur)[..k] == LogWrites(g, lh, cur)[..k];
    }
  }

  /** From the header write on. */
  lemma InterruptedAfter(g: Geometry, d: Disk, lh: seq<int>, cur: Disk, k: nat)
    requires Clean(g, d) && Loggable(g, |d|, lh) && |cur| == |d| && |lh| < k <= |CommitWrites(g, d, lh, cur)|
    ensures var r := Apply(d, CommitWrites(g, d, lh, cur)[..k]);
            && LogOk(g, r) && Overlaid(g, View(g, d), lh, cur, View(g, r))
            && (k == |CommitWrites(g, d, lh, cur)| ==> Clean(g, r))
  {
    Committed(g, d, lh, cur);
    CommitEndsLikeRecovery(g, d, lh, cur);
    RecoveryKeepsOverlay(g, View(g, d), lh, cur, d, CommitHalf(g, d, lh, cur), CommitWrites(g, d, lh, cur), k);
  }

  /** The view after the first half, which the rest of the writes recover, stays. */
  lemma RecoveryKeepsOverlay(g: Geometry, base: Disk, lh: seq<int>, cur: Disk, d: Disk, half: seq<Write>,
                             ws: seq<Write>, k: nat)
    requires LogOk(g, Apply(d, half)) && Overlaid(g, base, lh, cur, View(g, Apply(d, half)))
    requires ws == half + RecoverWrites(g, Apply(d, half)) && |half| <= k <= |ws|
    ensures var r := Apply(d, ws[..k]);
            LogOk(g, r) && Overlaid(g, base, lh, cur, View(g, r)) && (k == |ws| ==> Clean(g, r))
  {
    var mid, rest := Apply(d, half), RecoverWrites(g, Apply(d, half));
    PrefixOfSum(half, rest, k);
    ApplyConcat(d, half, rest[..k - |half|]);
    InterruptedRecovery(g, mid, k - |half|);
  }

  /** Any prefix of commit's writes: old view up to and excluding the header write, new after. */
  lemma InterruptedCommit(g: Geometry, d: Disk, lh: seq<int>, cur: Disk, k: nat)
    requires Clean(g, d) && Loggable(g, |d|, lh) && |cur| == |d|
    requires k <= |CommitWrites(g, d, lh, cur)|
    ensures var r := Apply(d, CommitWrites(g, d, lh, cur)[..k]);
            && LogOk(g, r)
            && (k <= |lh| ==> Clean(g, r) && View(g, r) == View(g, d))
            && (k > |lh| ==> Overlaid(g, View(g, d), lh, cur, View(g, r)))
            && (k == |CommitWrites(g, d, lh, cur)| ==> Clean(g, r))
  {
    if k <= |lh| {
      InterruptedBefore(g, d, lh, cur, k);
    } else {
      InterruptedAfter(g, d, lh, cur, k);
    }
  }

  /**
   Crash atomicity.  Cut a commit after any number k of its block writes, then cut any number of
   recoveries anywhere; the recovery that completes leaves an empty log and, in every home
   block, the new contents if the header write had reached the disk and the old ones otherwise.
  */
  lemma CrashAtomicity(g: Geometry, d: Disk, lh: seq<int>, cur: Disk, k: nat, cuts: seq<nat>)
    requires Clean(g, d) && Loggable(g, |d|, lh) && |cur| == |d|
    requires k <= |CommitWrites(g, d, lh, cur)|
    ensures LogOk(g, Apply(d, CommitWrites(g, d, lh, cur)[..k]))
    ensures var r := CrashAndRecover(g, Apply(d, CommitWrites(g, d, lh, cur)[..k]), cuts);
            && Clean(g, r)
            && forall b :: 0 <= b < |d| && Home(g, b)
                 ==> r[b] == if k > |lh| && b in lh then cur[b] else d[b]
  {
    InterruptedCommit(g, d, lh, cur, k);
    var c := Apply(d, CommitWrites(g, d, lh, cur)[..k]);
    CrashAndRecoverKeepsView(g, c, cuts);
    CleanViewIsDisk(g, CrashAndRecover(g, c, cuts));
    CleanViewIsDisk(g, d);
  }
}
