/**
 filewrite of kernel/file.c: a long write is cut into operations that fit the log, each a begin_op,
 a writei and an end_op.  `ops` lists what each operation logs.
*/
module FileWrite {
  import opened FsLayout
  import opened FsImage
  import opened FsBlocks
  import opened FsLogged
  import opened FsTransfer
  import opened FileSystem

  const MAXCHUNK: nat := ((MAXOPBLOCKS - 1 - 1 - 2) / 2) * BSIZE

  /** How many bytes arrive: whole operations, and the part of one that fails. */
  function Arrived(off: nat, n: nat, avail: nat): (r: nat)
    ensures r <= n && r <= avail
    decreases n
  {
    var n1 := Min(n, MAXCHUNK);
    if n == 0 || off + n1 > MAXSIZE then 0
    else
      var r := Transferred(off, n1, avail);
      if r < n1 then r else n1 + Arrived(off + n1, n - n1, avail - n1)
  }

  /** Everything arrives exactly if it can be copied in and the file does not get too long. */
  lemma {:induction false} AllArrives(off: nat, n: nat, avail: nat)
    requires off <= MAXSIZE
    ensures Arrived(off, n, avail) == n <==> avail >= n && off + n <= MAXSIZE
    decreases n
  {
    var n1 := Min(n, MAXCHUNK);
    if n > 0 && off + n1 <= MAXSIZE && Transferred(off, n1, avail) == n1 {
      AllArrives(off + n1, n - n1, avail - n1);
    }
  }

  /** filewrite reports success exactly then. */
  predicate AllFits(v: Image, inum: nat, off: nat, n: int, avail: nat)
    requires inum < |v.inodes|
  {
    n == 0 || (0 < n <= avail && off <= v.inodes[inum].size && off + n <= MAXSIZE)
  }

  /** Two writes, one after the other. */
  lemma SplicedTwice(f: seq<Byte>, off: nat, a: seq<Byte>, b: seq<Byte>)
    requires off <= |f|
    ensures off + |a| <= |Spliced(f, off, a)|
    ensures Spliced(Spliced(f, off, a), off + |a|, b) == Spliced(f, off, a + b)
  {}

  /** Every operation fits its share of the log. */
  ghost predicate Fit(ops: seq<set<Place>>) {
    forall i {:trigger Fits(ops[i])} :: 0 <= i < |ops| ==> Fits(ops[i])
  }

  predicate Fits(logged: set<Place>) { |logged| <= MAXOPBLOCKS }

  lemma OneMoreFits(ops: seq<set<Place>>, logged: set<Place>)
    requires Fit(ops) && Fits(logged)
    ensures Fit(ops + [logged])
  {}

  /** The block that the next operation starts in is there, or there are few bitmap blocks. */
  ghost predicate Ready(sb: Super, v: Image, inum: nat, off: nat)
    requires Shape(v) && inum < |v.inodes|
  {
    off % BSIZE == 0 || Present(v, inum, off / BSIZE) || sb.size <= 4 * BPB
  }

  /** After i bytes: they are in the file, and the rest of the transfer is still to come. */
  ghost predicate Written(v0: Image, v: Image, inum: nat, off: nat, n: nat, src: seq<Byte>, i: nat) {
    && Shape(v0) && Shape(v) && |v.inodes| == |v0.inodes| && inum < |v.inodes| && off <= v0.inodes[inum].size
    && i <= n && i <= |src| && off + i <= v.inodes[inum].size
    && File(v, inum) == Spliced(File(v0, inum), off, src[..i]) && OthersSame(v0, v, {inum})
    && Arrived(off, n, |src|) == i + Arrived(off + i, n - i, |src| - i)
  }

  lemma SplicedMore(f0: seq<Byte>, f1: seq<Byte>, f2: seq<Byte>, off: nat, src: seq<Byte>, i: nat, r: nat)
    requires off <= |f0| && i + r <= |src| && off + i <= |f1|
    requires f1 == Spliced(f0, off, src[..i]) && f2 == Spliced(f1, off + i, src[i..][..r])
    ensures off + i + r <= |f2| && f2 == Spliced(f0, off, src[..i + r])
  {
    SplicedTwice(f0, off, src[..i], src[i..][..r]);
    assert src[..i] + src[i..][..r] == src[..i + r];
  }

  lemma ArrivedMore(off: nat, n: nat, avail: nat, i: nat, n1: nat, r: nat)
    requires i < n && i <= avail && n1 == Min(n - i, MAXCHUNK) && off + i + n1 <= MAXSIZE
    requires Arrived(off, n, avail) == i + Arrived(off + i, n - i, avail - i)
    requires r == Transferred(off + i, n1, avail - i)
    ensures r < n1 ==> Arrived(off, n, avail) == i + r
    ensures r == n1 ==> Arrived(off, n, avail) == i + r + Arrived(off + (i + r), n - (i + r), avail - (i + r))
  {}

  /** What writei does to the files. */
  ghost predicate Put(a: Image, b: Image, inum: nat, off: nat, n: nat, src: seq<Byte>, r: int) {
    && Shape(a) && Shape(b) && |b.inodes| == |a.inodes| && inum < |a.inodes|
    && if off > a.inodes[inum].size || off + n > MAXSIZE then r == -1 && b == a
       else
         && r == Transferred(off, n, |src|)
         && File(b, inum) == Spliced(File(a, inum), off, src[..r]) && OthersSame(a, b, {inum})
  }

  /** A full operation that does not end at a block boundary leaves the block it ends in present. */
  lemma StillReady(sb: Super, a: Snap, b: Snap, inum: nat, off: nat, src: seq<Byte>, logged: set<Place>)
    requires WriteDone(a, b, src, inum, off, MAXCHUNK, logged) && Ready(sb, a.v, inum, off)
    ensures Ready(sb, b.v, inum, off + MAXCHUNK)
  {
    var end := off + MAXCHUNK;
    if end % BSIZE != 0 {
      assert off / BSIZE <= end / BSIZE < EndBlock(off, MAXCHUNK);
    }
  }

  /** Some operations are done, all their bytes having arrived; writei rejects an offset beyond the file. */
  ghost predicate Underway(v0: Image, v: Image, inum: nat, off: nat, n: nat, src: seq<Byte>, i: nat) {
    && Shape(v0) && inum < |v0.inodes|
    && if off > v0.inodes[inum].size then i == 0 && v == v0 else Written(v0, v, inum, off, n, src, i)
  }

  /** Nothing more arrives after the first m bytes. */
  ghost predicate Finished(v0: Image, v: Image, inum: nat, off: nat, n: nat, src: seq<Byte>, m: nat) {
    && Shape(v0) && Shape(v) && |v.inodes| == |v0.inodes| && inum < |v0.inodes|
    && if off > v0.inodes[inum].size then m == 0 && v == v0
       else
         && m == Arrived(off, n, |src|)
         && File(v, inum) == Spliced(File(v0, inum), off, src[..m]) && OthersSame(v0, v, {inum})
  }

  lemma NothingYet(v: Image, inum: nat, off: nat, n: nat, src: seq<Byte>)
    requires Shape(v) && inum < |v.inodes|
    ensures Underway(v, v, inum, off, n, src, 0)
  {
    if off <= v.inodes[inum].size {
      assert Spliced(File(v, inum), off, src[..0]) == File(v, inum);
    }
  }

  lemma Whole(v0: Image, v: Image, inum: nat, off: nat, n: nat, src: seq<Byte>)
    requires Underway(v0, v, inum, off, n, src, n) && n <= |src|
    ensures Finished(v0, v, inum, off, n, src, n) && AllFits(v0, inum, off, n, |src|)
  {
    if off <= v0.inodes[inum].size {
      AllArrives(off, n, |src|);
    }
  }

  lemma NotAll(v0: Image, v: Image, inum: nat, off: nat, n: nat, src: seq<Byte>, m: nat)
    requires Finished(v0, v, inum, off, n, src, m) && m < n
    ensures !AllFits(v0, inum, off, n, |src|)
  {
    if off <= v0.inodes[inum].size {
      AllArrives(off, n, |src|);
    }
  }

  lemma AcceptedOperation(v0: Image, a: Image, b: Image, inum: nat, off: nat, n: nat, src: seq<Byte>, i: nat,
                          n1: nat, r: nat)
    requires Written(v0, a, inum, off, n, src, i) && i < n && n1 == Min(n - i, MAXCHUNK) && off + i + n1 <= MAXSIZE
    requires Put(a, b, inum, off + i, n1, src[i..], r)
    ensures r == n1 ==> Written(v0, b, inum, off, n, src, i + r)
    ensures r != n1 ==> r < n1 && Finished(v0, b, inum, off, n, src, i + r)
  {
    ArrivedMore(off, n, |src|, i, n1, r);
    SplicedMore(File(v0, inum), File(a, inum), File(b, inum), off, src, i, r);
    OthersTwice(v0, a, b, {inum}, {inum});
    assert {inum} + {inum} == {inum};
  }

  lemma AfterOperation(v0: Image, a: Image, b: Image, inum: nat, off: nat, n: nat, src: seq<Byte>, i: nat,
                       n1: nat, r: int)
    requires Underway(v0, a, inum, off, n, src, i) && i < n && i <= |src| && n1 == Min(n - i, MAXCHUNK)
    requires Put(a, b, inum, off + i, n1, src[i..], r)
    ensures r == n1 ==> Underway(v0, b, inum, off, n, src, i + r)
    ensures r != n1 ==> r < n1 && Finished(v0, b, inum, off, n, src, if r > 0 then i + r else i)
  {
    if off <= v0.inodes[inum].size {
      if off + i + n1 <= MAXSIZE {
        AcceptedOperation(v0, a, b, inum, off, n, src, i, n1, r);
      } else {
        assert Finished(v0, b, inum, off, n, src, i);
      }
    }
  }

  lemma ReadyNext(sb: Super, a: Snap, b: Snap, inum: nat, off: nat, n: nat, n1: nat, src: seq<Byte>, r: nat,
                  logged: set<Place>)
    requires WriteDone(a, b, src, inum, off, r, logged) && n1 == Min(n, MAXCHUNK)
    ensures r == n1 < n && Ready(sb, a.v, inum, off) ==> Ready(sb, b.v, inum, off + n1)
  {
    if r == n1 < n && Ready(sb, a.v, inum, off) {
      StillReady(sb, a, b, inum, off, src, logged);
    }
  }

  /** begin_op, writei, end_op. */
  method WriteChunk(fs: FileSystem, inum: nat, off: nat, n: nat, src: seq<Byte>, ghost left: nat)
    returns (ok: bool, r: int, off': nat, ghost logged: set<Place>)
    requires fs.Valid() && inum < |fs.inodes| && off < 0x1_0000_0000 && n == Min(left, MAXCHUNK)
    modifies fs`bitmap, fs`data, fs`inodes, fs`dinodes, fs`owner
    ensures fs.Valid() && |fs.inodes| == |old(fs.inodes)| && Extends(old(fs.owner), fs.owner)
    ensures ok && old(fs.OnDisk()) ==> fs.OnDisk()
    ensures !ok ==> |fs.owner| == Room(fs.sb)
    ensures off' == (if r > 0 then off + r else off)
    ensures ok ==> Put(old(fs.V()), fs.V(), inum, off, n, src, r)
    ensures ok && old(Ready(fs.sb, fs.V(), inum, off)) ==>
      Fits(logged) && (r == n < left ==> Ready(fs.sb, fs.V(), inum, off'))
  {
    ghost var a := fs.Now();
    ok, r, logged := fs.Writei(inum, off, n, src);
    off' := if r > 0 then off + r else off;
    if ok && off <= a.v.inodes[inum].size && off + n <= MAXSIZE {
      ReadyNext(fs.sb, a, fs.Now(), inum, off, left, n, src, r, logged);
    }
  }

  /** One round of the loop: r of at most MAXCHUNK bytes arrive, and fewer than asked for end it. */
  method Operation(fs: FileSystem, inum: nat, off: nat, n: nat, src: seq<Byte>, i: nat, pos: nat, ghost v0: Image)
    returns (ok: bool, more: bool, r: int, pos': nat, ghost m: nat, ghost logged: set<Place>)
    requires fs.Valid() && inum < |fs.inodes| && Underway(v0, fs.V(), inum, off, n, src, i)
    requires i < n && i <= |src| && pos == off + i < 0x1_0000_0000
    modifies fs`bitmap, fs`data, fs`inodes, fs`dinodes, fs`owner
    ensures fs.Valid() && |fs.inodes| == |old(fs.inodes)| && Extends(old(fs.owner), fs.owner)
    ensures ok && old(fs.OnDisk()) ==> fs.OnDisk()
    ensures !ok ==> |fs.owner| == Room(fs.sb)
    ensures ok ==> m <= n && m <= |src| && pos' == off + m < 0x1_0000_0000
    ensures ok && more ==> r > 0 && m == i + r && Underway(v0, fs.V(), inum, off, n, src, m)
    ensures ok && !more ==> m < n && Finished(v0, fs.V(), inum, off, n, src, m)
    ensures ok && old(Ready(fs.sb, fs.V(), inum, pos)) ==>
      Fits(logged) && (more && m < n ==> Ready(fs.sb, fs.V(), inum, pos'))
  {
    ghost var a := fs.V();
    var n1 := Min(n - i, MAXCHUNK);
    ok, r, pos', logged := WriteChunk(fs, inum, pos, n1, src[i..], n - i);
    if ok {
      AfterOperation(v0, a, fs.V(), inum, off, n, src, i, n1, r);
    }
    more, m := r == n1, if r > 0 then i + r else i;
  }

  /** The loop. */
  method Operations(fs: FileSystem, inum: nat, off: nat, n: nat, src: seq<Byte>, ghost ready: bool)
    returns (ok: bool, i: nat, off': nat, ghost m: nat, ghost ops: seq<set<Place>>)
    requires fs.Valid() && inum < |fs.inodes| && off < 0x1_0000_0000 && n < 0x8000_0000
    requires ready == Ready(fs.sb, fs.V(), inum, off)
    modifies fs`bitmap, fs`data, fs`inodes, fs`dinodes, fs`owner
    ensures fs.Valid() && |fs.inodes| == |old(fs.inodes)| && Extends(old(fs.owner), fs.owner)
    ensures ok && old(fs.OnDisk()) ==> fs.OnDisk()
    ensures !ok ==> |fs.owner| == Room(fs.sb)
    ensures ok ==> off' == off + m && Finished(old(fs.V()), fs.V(), inum, off, n, src, m)
    ensures ok ==> (i == n <==> AllFits(old(fs.V()), inum, off, n, |src|))
    ensures ok && ready ==> Fit(ops)
  {
    ghost var v0 := fs.V();
    ExtendsSelf(fs.owner);
    NothingYet(v0, inum, off, n, src);
    i, off', m, ops := 0, off, 0, [];
    while i < n
      invariant i == m <= n && m <= |src| && off' == off + m < 0x1_0000_0000
      invariant fs.Valid() && |fs.inodes| == |v0.inodes| && Extends(old(fs.owner), fs.owner)
      invariant old(fs.OnDisk()) ==> fs.OnDisk()
      invariant Underway(v0, fs.V(), inum, off, n, src, m)
      invariant ready ==> Fit(ops) && (m < n ==> Ready(fs.sb, fs.V(), inum, off'))
    {
      ghost var o, logged := fs.owner, {};
      var more, r;
      ok, more, r, off', m, logged := Operation(fs, inum, off, n, src, i, off', v0);
      ExtendsTwice(old(fs.owner), o, fs.owner);
      if ready && ok {
        OneMoreFits(ops, logged);
      }
      ops := ops + [logged];
      if !ok {
        return;
      }
      if !more {
        NotAll(v0, fs.V(), inum, off, n, src, m);
        return;
      }
      i := i + r;
    }
    ok := true;
    Whole(v0, fs.V(), inum, off, n, src);
  }

  /**
   The FD_INODE branch: cutting a write into operations is invisible in the file, but a write that
   fails part of the way leaves the operations before it.  False is balloc's panic.
  */
  method Filewrite(fs: FileSystem, inum: nat, off: nat, n: int, src: seq<Byte>)
    returns (ok: bool, ret: int, off': nat, ghost m: nat, ghost ops: seq<set<Place>>)
    requires fs.Valid() && inum < |fs.inodes| && off < 0x1_0000_0000 && n < 0x8000_0000
    modifies fs`bitmap, fs`data, fs`inodes, fs`dinodes, fs`owner
    ensures fs.Valid() && |fs.inodes| == |old(fs.inodes)| && Extends(old(fs.owner), fs.owner)
    ensures ok && old(fs.OnDisk()) ==> fs.OnDisk()
    ensures !ok ==> |fs.owner| == Room(fs.sb)
    ensures ok ==> off' == off + m && Finished(old(fs.V()), fs.V(), inum, off, if n > 0 then n else 0, src, m)
    ensures ok ==> ret == if AllFits(old(fs.V()), inum, off, n, |src|) then n else -1
    ensures ok && old(Ready(fs.sb, fs.V(), inum, off)) ==> Fit(ops)
  {
    var i;
    ok, i, off', m, ops := Operations(fs, inum, off, if n > 0 then n else 0, src, Ready(fs.sb, fs.V(), inum, off));
    ret := if i == n then n else -1;
  }

  // ---------------------------------------------------------------- the share can be too small

  /** On a disk with five bitmap blocks, the five blocks that are free, each in its own bitmap block. */
  predicate Gap(b: nat) { b / BPB < 5 && b == GapIn(b / BPB) }

  function GapIn(k: nat): (b: nat)
    ensures b / BPB == k
  {
    if k == 0 then 1 else BPB * k
  }

  ghost function Gaps(n: nat): (r: set<nat>)
    ensures |r| == n && forall b: nat :: b in r <==> b / BPB < n && b == GapIn(b / BPB)
  {
    if n == 0 then {} else Gaps(n - 1) + {GapIn(n - 1)}
  }

  function Nothing(): (r: seq<nat>)
    ensures |r| == NADDRS && forall k :: 0 <= k < NADDRS ==> r[k] == 0
  {
    seq(NADDRS, k => 0)
  }

  /** Inode 0 is twelve blocks long and has none of them; inode b holds block b. */
  function CrowdedInode(b: nat): Inode {
    if b == 0 then Inode(12 * BSIZE, Nothing())
    else if Gap(b) then Inode(0, Nothing())
    else Inode(0, Nothing()[0 := b])
  }

  function Crowded(size: nat): Image {
    Image(seq(size, b => ZeroBlock()), seq(size, b requires b >= 0 => CrowdedInode(b)))
  }

  ghost function CrowdedOwner(size: nat): map<nat, Slot> {
    map b: nat | 1 <= b < size && !Gap(b) :: Slot(b, 0)
  }

  function CrowdedBits(size: nat): seq<BitBlock> {
    seq(size / BPB + 1, q requires q >= 0 => seq(BSIZE, r requires r >= 0 => seq(8, i requires i >= 0 =>
      !Gap(BPB * q + 8 * r + i))))
  }

  lemma CrowdedRef(size: nat, s: Slot)
    requires size > 0
    ensures Shape(Crowded(size))
    ensures ValidSlot(Crowded(size), s) ==>
      Ref(Crowded(size), s) == if s.k == 0 && s.inum != 0 && !Gap(s.inum) then s.inum else 0
  {
    if s.inum < size {
      assert Crowded(size).inodes[s.inum] == CrowdedInode(s.inum);
    }
  }

  lemma CrowdedOwned(size: nat)
    requires 0 < size < 0x1_0000_0000
    ensures Owned(Super(size, 1), Crowded(size), CrowdedOwner(size))
  {
    var v, o := Crowded(size), CrowdedOwner(size);
    CrowdedRef(size, Slot(0, 0));
    forall s | ValidSlot(v, s) ensures SlotOk(v, o, s) {
      CrowdedRef(size, s);
    }
    forall b | b in o ensures BlockOk(Super(size, 1), v, o, b) {
      CrowdedRef(size, Slot(b, 0));
    }
  }

  lemma CrowdedBit(size: nat, b: nat)
    requires b < size
    ensures b / BPB < |CrowdedBits(size)| && (Bit(CrowdedBits(size), b) <==> b < 1 || b in CrowdedOwner(size))
  {
    var q, r, i := b / BPB, b % BPB / 8, b % 8;
    BitParts(b);
    assert CrowdedBits(size)[q][r][i] == !Gap(BPB * q + 8 * r + i);
  }

  lemma CrowdedBitmap(size: nat)
    requires 0 < size
    ensures BitmapOk(Super(size, 1), CrowdedBits(size), CrowdedOwner(size))
  {
    forall b | 0 <= b < size ensures Bit(CrowdedBits(size), b) <==> b < 1 || b in CrowdedOwner(size) {
      CrowdedBit(size, b);
    }
  }

  lemma DifferenceSize(x: set<nat>, y: set<nat>, z: set<nat>)
    requires x <= y && forall b: nat :: b in z <==> b in y && b !in x
    ensures |z| == |y| - |x|
  {
    assert y == x + z && x !! z;
  }

  lemma GapSmall(b: nat)
    ensures Gap(b) ==> 1 <= b <= 4 * BPB
  {}

  lemma CrowdedCount(size: nat)
    requires 4 * BPB < size
    ensures |CrowdedOwner(size)| == size - 6
  {
    var held, gaps, all := CrowdedOwner(size).Keys, Gaps(5), Range(1, size);
    RangeSize(1, size);
    forall b | b in gaps ensures b in all {
      GapSmall(b);
    }
    forall b: nat ensures b in held <==> b in all && b !in gaps {
    }
    DifferenceSize(gaps, all, held);
  }

  /** Blocks 9 to 12 of inode 0 are missing, and the indirect block. */
  lemma FiveMissing(size: nat)
    requires size > 0
    ensures Shape(Crowded(size)) && Need(Crowded(size), 0, 9, 13) == 5
  {
    var v := Crowded(size);
    CrowdedRef(size, Slot(0, 0));
    var five := {Slot(0, 9), Slot(0, 10), Slot(0, 11), Slot(0, 12), Slot(0, 13)};
    forall s | s in five ensures s in Empty(v, 0, 9, 13) {
      CrowdedRef(size, s);
      EmptyIff(v, 0, 9, 13, s);
    }
    SubsetSize(five, Empty(v, 0, 9, 13));
    assert |five| == 5;
    NeedBound(v, 0, 9, 13);
  }

  /** Every gap has become a block, so there is one logged bitmap block for each. */
  lemma {:induction false} GapsLogged(o: map<nat, Slot>, o': map<nat, Slot>, lo: nat, hi: nat, logged: set<Place>,
                                      n: nat)
    returns (places: set<Place>)
    requires forall k :: 0 <= k < n ==> NewBlock(o, o', GapIn(k))
    requires Logs(o, o', 0, lo, hi, logged)
    ensures places <= logged && |places| == 2 * n
    ensures forall p :: p in places ==> (p.DataAt? && p.b / BPB < n) || (p.BitmapAt? && p.k < n)
  {
    if n == 0 {
      places := {};
    } else {
      var b, bits := DataAt(GapIn(n - 1)), BitmapAt(n - 1);
      var rest := GapsLogged(o, o', lo, hi, logged, n - 1);
      assert NewBlock(o, o', GapIn(n - 1));
      assert LoggedAt(o, o', 0, lo, hi, b) && LoggedAt(o, o', 0, lo, hi, bits);
      assert b !in rest && bits !in rest + {b};
      places := rest + {b} + {bits};
    }
  }

  /** When the disk is full, every gap has been filled. */
  lemma GapsFilled(size: nat, v: Image, o: map<nat, Slot>, bm: seq<BitBlock>, k: nat)
    requires 4 * BPB < size && k < 5
    requires Owned(Super(size, 1), v, o) && BitmapOk(Super(size, 1), bm, o) && |o| == size - 1
    ensures NewBlock(CrowdedOwner(size), o, GapIn(k))
  {
    FullCount(Super(size, 1), v, o, bm);
    assert Bit(bm, GapIn(k));
  }

  lemma ElevenLogged(size: nat, v: Image, o: map<nat, Slot>, bm: seq<BitBlock>, logged: set<Place>)
    requires 4 * BPB < size
    requires Owned(Super(size, 1), v, o) && BitmapOk(Super(size, 1), bm, o) && |o| == size - 1
    requires Logs(CrowdedOwner(size), o, 0, 9, 13, logged - {InodeAt(0)}) && InodeAt(0) in logged
    ensures |logged| >= 11
  {
    forall k | 0 <= k < 5 ensures NewBlock(CrowdedOwner(size), o, GapIn(k)) {
      GapsFilled(size, v, o, bm, k);
    }
    var places := GapsLogged(CrowdedOwner(size), o, 9, 13, logged - {InodeAt(0)}, 5);
    SubsetSize(places + {InodeAt(0)}, logged);
  }

  /**
   With more than four bitmap blocks' worth of blocks, one operation can log eleven: its first
   block is missing and the five blocks it adds lie in five bitmap blocks.
  */
  method ShareTooSmall(size: nat) returns (fs: FileSystem, ghost logged: set<Place>)
    requires 4 * BPB < size < 0x1_0000_0000
    ensures fs.Valid() && fs.sb.size == size && |logged| > MAXOPBLOCKS
  {
    fs := CrowdedDisk(size);
    var off, bytes := 9 * BSIZE + 512, seq(MAXCHUNK, i => 0);
    assert off / BSIZE == 9 && EndBlock(off, MAXCHUNK) == 13;
    var ok, r;
    ok, r, logged := fs.Writei(0, off, MAXCHUNK, bytes);
    ElevenLogged(size, fs.V(), fs.owner, fs.bitmap, logged);
  }

  method CrowdedDisk(size: nat) returns (fs: FileSystem)
    requires 4 * BPB < size < 0x1_0000_0000
    ensures fresh(fs) && fs.Valid() && fs.sb == Super(size, 1) && fs.owner == CrowdedOwner(size)
    ensures |fs.owner| == size - 6 && |fs.inodes| > 0 && fs.inodes[0].size == 12 * BSIZE
    ensures Need(fs.V(), 0, 9, 13) == 5
  {
    CrowdedOwned(size);
    CrowdedBitmap(size);
    CrowdedCount(size);
    FiveMissing(size);
    var v := Crowded(size);
    fs := new FileSystem(Super(size, 1), CrowdedBits(size), v.data, v.inodes, CrowdedOwner(size));
    assert fs.V() == Crowded(size) && fs.inodes[0] == CrowdedInode(0);
  }
}
