/**
 Which blocks of a file are there, and which ones reading and writing it adds: exactly the missing
 ones of a range, with the indirect block if the range reaches behind it (bmap in kernel/fs.c).
*/
module FsBlocks {
  import opened FsLayout
  import opened FsImage

  /** A moment of the file system: the image, and who holds what. */
  datatype Snap = Snap(v: Image, o: map<nat, Slot>)

  /** Block bn of the file exists. */
  predicate Present(v: Image, inum: nat, bn: nat)
    requires Shape(v) && inum < |v.inodes|
  {
    bn < MAXFILE && Ref(v, SlotOf(inum, bn)) != 0
  }

  /** The pointer to block bn that lies in the inode itself is there: the direct one, or the indirect block's. */
  predicate Rooted(v: Image, inum: nat, bn: nat)
    requires Shape(v) && inum < |v.inodes|
  {
    v.inodes[inum].addrs[if bn < NDIRECT then bn else NDIRECT] != 0
  }

  ghost predicate AllPresent(v: Image, inum: nat, lo: nat, hi: nat)
    requires Shape(v) && inum < |v.inodes|
  {
    forall bn: nat {:trigger Present(v, inum, bn)} :: lo <= bn < hi ==> Present(v, inum, bn)
  }

  ghost predicate AllRooted(v: Image, inum: nat, lo: nat, hi: nat)
    requires Shape(v) && inum < |v.inodes|
  {
    forall bn: nat {:trigger Rooted(v, inum, bn)} :: lo <= bn < hi ==> Rooted(v, inum, bn)
  }

  /** The n bytes at off lie in blocks off / BSIZE .. EndBlock(off, n). */
  function EndBlock(off: nat, n: nat): (hi: nat)
    ensures off / BSIZE <= hi && (n > 0 ==> off / BSIZE < hi)
  {
    if n == 0 then off / BSIZE else (off + n - 1) / BSIZE + 1
  }

  // ---------------------------------------------------------------- the slots of a range of blocks

  /** s names one of the blocks lo .. hi of the file, or the indirect block on the way to one. */
  predicate InRange(s: Slot, inum: nat, lo: nat, hi: nat) {
    && s.inum == inum
    && if s.k < NDIRECT then lo <= s.k < hi
       else if s.k == NDIRECT then lo < hi && NDIRECT < hi
       else lo <= s.k - 1 < hi
  }

  predicate SlotKept(a: Snap, b: Snap, inum: nat, lo: nat, hi: nat, s: Slot)
    requires Shape(a.v) && Shape(b.v) && ValidSlot(a.v, s) && ValidSlot(b.v, s)
  {
    InRange(s, inum, lo, hi) || Ref(b.v, s) == Ref(a.v, s)
  }

  /** From a to b blocks have been added to the file in that range, and nothing else has changed owners. */
  ghost predicate Within(sb: Super, a: Snap, b: Snap, inum: nat, lo: nat, hi: nat) {
    && Owned(sb, a.v, a.o) && Owned(sb, b.v, b.o) && Extends(a.o, b.o)
    && inum < |a.v.inodes| && |b.v.inodes| == |a.v.inodes|
    && b.v.inodes == a.v.inodes[inum := b.v.inodes[inum]] && b.v.inodes[inum].size == a.v.inodes[inum].size
    && (forall s {:trigger SlotKept(a, b, inum, lo, hi, s)} :: ValidSlot(a.v, s) ==> SlotKept(a, b, inum, lo, hi, s))
  }

  /** ... and every block of the range is there. */
  ghost predicate Mapped(sb: Super, a: Snap, b: Snap, inum: nat, lo: nat, hi: nat) {
    && Within(sb, a, b, inum, lo, hi) && hi <= MAXFILE
    && AllPresent(b.v, inum, lo, hi)
  }

  lemma WithinSelf(sb: Super, a: Snap, inum: nat, lo: nat, hi: nat)
    requires Owned(sb, a.v, a.o) && inum < |a.v.inodes|
    ensures Within(sb, a, a, inum, lo, hi)
  {}

  lemma NothingMapped(sb: Super, a: Snap, inum: nat, lo: nat)
    requires Owned(sb, a.v, a.o) && inum < |a.v.inodes| && lo <= MAXFILE
    ensures Mapped(sb, a, a, inum, lo, lo)
  {}

  lemma WithinTwice(sb: Super, a: Snap, b: Snap, c: Snap, inum: nat, lo: nat, mid: nat, mid': nat, hi: nat)
    requires Within(sb, a, b, inum, lo, mid) && Within(sb, b, c, inum, mid', hi) && lo <= mid' && mid <= hi
    ensures Within(sb, a, c, inum, lo, hi)
  {
    ExtendsTwice(a.o, b.o, c.o);
    forall s | ValidSlot(a.v, s) ensures SlotKept(a, c, inum, lo, hi, s) {
      assert SlotKept(a, b, inum, lo, mid, s) && SlotKept(b, c, inum, mid', hi, s);
    }
  }

  lemma StillPresent(sb: Super, a: Snap, b: Snap, inum: nat, lo: nat, hi: nat)
    requires Owned(sb, a.v, a.o) && Owned(sb, b.v, b.o) && Extends(a.o, b.o)
    requires |b.v.inodes| == |a.v.inodes| && inum < |a.v.inodes| && AllPresent(a.v, inum, lo, hi)
    ensures AllPresent(b.v, inum, lo, hi)
  {
    forall bn: nat | lo <= bn < hi ensures Present(b.v, inum, bn) {
      assert Present(a.v, inum, bn);
      StillThere(sb, a.v, a.o, b.v, b.o, SlotOf(inum, bn));
    }
  }

  // ---------------------------------------------------------------- one slot

  predicate SlotSame(a: Snap, b: Snap, s: Slot, t: Slot)
    requires Shape(a.v) && Shape(b.v) && ValidSlot(a.v, t) && ValidSlot(b.v, t)
  {
    t == s || Ref(b.v, t) == Ref(a.v, t)
  }

  /** From a to b at most slot s has been filled. */
  ghost predicate OnlySlot(sb: Super, a: Snap, b: Snap, s: Slot) {
    && Owned(sb, a.v, a.o) && Owned(sb, b.v, b.o) && Extends(a.o, b.o)
    && s.inum < |a.v.inodes| && |b.v.inodes| == |a.v.inodes|
    && b.v.inodes == a.v.inodes[s.inum := b.v.inodes[s.inum]]
    && b.v.inodes[s.inum].size == a.v.inodes[s.inum].size
    && (forall t {:trigger SlotSame(a, b, s, t)} :: ValidSlot(a.v, t) ==> SlotSame(a, b, s, t))
  }

  lemma SlotUntouched(sb: Super, a: Snap, s: Slot)
    requires Owned(sb, a.v, a.o) && s.inum < |a.v.inodes|
    ensures OnlySlot(sb, a, a, s)
  {
    ExtendsSelf(a.o);
  }

  lemma SlotFilled(sb: Super, a: Snap, b: Snap, s: Slot, x: nat)
    requires Owned(sb, a.v, a.o) && Owned(sb, b.v, b.o) && b.o == a.o[x := s] && x !in a.o
    requires ValidSlot(a.v, s) && |b.v.inodes| == |a.v.inodes|
    requires b.v.inodes == a.v.inodes[s.inum := b.v.inodes[s.inum]]
    requires b.v.inodes[s.inum].size == a.v.inodes[s.inum].size
    requires forall t :: ValidSlot(a.v, t) && t != s ==> Ref(b.v, t) == Ref(a.v, t)
    ensures OnlySlot(sb, a, b, s)
  {
    forall c | c in a.o ensures Kept(a.o, b.o, c) {
    }
  }

  lemma OnlyWithin(sb: Super, a: Snap, b: Snap, s: Slot, inum: nat, lo: nat, hi: nat)
    requires OnlySlot(sb, a, b, s) && InRange(s, inum, lo, hi)
    ensures Within(sb, a, b, inum, lo, hi)
  {
    forall t | ValidSlot(a.v, t) ensures SlotKept(a, b, inum, lo, hi, t) {
      assert SlotSame(a, b, s, t);
    }
  }

  /** bmap fetches the indirect block of block bn ... */
  lemma OnlyIndirect(sb: Super, a: Snap, b: Snap, inum: nat, bn: nat)
    requires OnlySlot(sb, a, b, Slot(inum, NDIRECT)) && bn >= NDIRECT
    ensures Within(sb, a, b, inum, bn, bn + 1)
  {
    OnlyWithin(sb, a, b, Slot(inum, NDIRECT), inum, bn, bn + 1);
  }

  /** ... and block bn. */
  lemma OnlyBlock(sb: Super, a: Snap, b: Snap, inum: nat, bn: nat)
    requires OnlySlot(sb, a, b, SlotOf(inum, bn))
    ensures Within(sb, a, b, inum, bn, bn + 1)
  {
    OnlyWithin(sb, a, b, SlotOf(inum, bn), inum, bn, bn + 1);
  }

  /** One block more. */
  lemma MappedNext(sb: Super, a: Snap, b: Snap, c: Snap, inum: nat, lo: nat, mid: nat, hi: nat)
    requires Mapped(sb, a, b, inum, lo, mid) && Mapped(sb, b, c, inum, mid, hi) && lo <= mid <= hi
    ensures Mapped(sb, a, c, inum, lo, hi)
  {
    WithinTwice(sb, a, b, c, inum, lo, mid, mid, hi);
    StillPresent(sb, b, c, inum, lo, mid);
    forall bn: nat | lo <= bn < hi ensures Present(c.v, inum, bn) {
      assert bn < mid || Present(c.v, inum, bn);
    }
  }

  /** Every slot of a mapped range is in use. */
  lemma SlotMapped(sb: Super, a: Snap, b: Snap, inum: nat, lo: nat, hi: nat, s: Slot)
    requires Mapped(sb, a, b, inum, lo, hi) && InRange(s, inum, lo, hi) && ValidSlot(a.v, s)
    ensures Ref(b.v, s) != 0
  {
    if s.k < NDIRECT {
      assert Present(b.v, inum, s.k);
    } else if s.k > NDIRECT {
      assert Present(b.v, inum, s.k - 1);
    } else {
      assert Present(b.v, inum, hi - 1);
    }
  }

  /** Filling goes one way. */
  lemma WithinFilled(sb: Super, a: Snap, b: Snap, inum: nat, lo: nat, hi: nat)
    requires Within(sb, a, b, inum, lo, hi)
    ensures Filled(a.v, b.v, inum)
  {
    forall k | 0 <= k < NADDRS && a.v.inodes[inum].addrs[k] != 0
      ensures b.v.inodes[inum].addrs[k] == a.v.inodes[inum].addrs[k]
    {
      StillThere(sb, a.v, a.o, b.v, b.o, Slot(inum, k));
    }
  }

  /** The inode itself has changed exactly if one of its own pointers in the range was empty. */
  lemma MappedRooted(sb: Super, a: Snap, b: Snap, inum: nat, lo: nat, hi: nat)
    requires Mapped(sb, a, b, inum, lo, hi)
    ensures b.v.inodes == a.v.inodes <==> AllRooted(a.v, inum, lo, hi)
  {
    var x, y := a.v.inodes[inum].addrs, b.v.inodes[inum].addrs;
    if AllRooted(a.v, inum, lo, hi) {
      forall k | 0 <= k < NADDRS ensures y[k] == x[k] {
        assert SlotKept(a, b, inum, lo, hi, Slot(inum, k));
        if InRange(Slot(inum, k), inum, lo, hi) {
          RootInRange(a.v, inum, lo, hi, k);
          StillThere(sb, a.v, a.o, b.v, b.o, Slot(inum, k));
        }
      }
      assert y == x && b.v.inodes[inum] == a.v.inodes[inum];
    } else {
      var bn: nat :| lo <= bn < hi && !Rooted(a.v, inum, bn);
      var k := if bn < NDIRECT then bn else NDIRECT;
      SlotMapped(sb, a, b, inum, lo, hi, Slot(inum, k));
      assert y[k] != x[k];
    }
  }

  lemma RootInRange(v: Image, inum: nat, lo: nat, hi: nat, k: nat)
    requires Shape(v) && inum < |v.inodes| && AllRooted(v, inum, lo, hi) && k < NADDRS
    requires InRange(Slot(inum, k), inum, lo, hi)
    ensures v.inodes[inum].addrs[k] != 0
  {
    assert Rooted(v, inum, if k < NDIRECT then k else hi - 1);
  }

  lemma PresentRooted(v: Image, inum: nat, lo: nat, hi: nat)
    requires Shape(v) && inum < |v.inodes| && AllPresent(v, inum, lo, hi)
    ensures AllRooted(v, inum, lo, hi)
  {
    forall bn: nat | lo <= bn < hi ensures Rooted(v, inum, bn) {
      assert Present(v, inum, bn);
    }
  }

  lemma SizeKeepsPresent(v: Image, inum: nat, size: nat, lo: nat, hi: nat)
    requires Shape(v) && inum < |v.inodes| && size <= MAXSIZE && AllPresent(v, inum, lo, hi)
    ensures Shape(WithSize(v, inum, size)) && AllPresent(WithSize(v, inum, size), inum, lo, hi)
  {
    forall bn: nat | lo <= bn < hi ensures Present(WithSize(v, inum, size), inum, bn) {
      assert Present(v, inum, bn);
    }
  }

  /** Overwriting data keeps a range mapped. */
  lemma MappedStore(sb: Super, a: Snap, b: Snap, c: Snap, inum: nat, lo: nat, hi: nat)
    requires Mapped(sb, a, b, inum, lo, hi) && Owned(sb, c.v, c.o) && c.o == b.o && c.v.inodes == b.v.inodes
    ensures Mapped(sb, a, c, inum, lo, hi)
  {
    forall s | ValidSlot(a.v, s) ensures SlotKept(a, c, inum, lo, hi, s) {
      assert SlotKept(a, b, inum, lo, hi, s);
      SameOwnerSameRef(sb, b.v, b.o, c.v, s);
    }
    StillPresent(sb, b, c, inum, lo, hi);
  }

  // ---------------------------------------------------------------- how many blocks a range needs

  /** The slots in use. */
  ghost function InUse(v: Image): set<Slot>
    requires Shape(v)
  {
    set i, k | 0 <= i < |v.inodes| && 0 <= k < NADDRS + NINDIRECT && Ref(v, Slot(i, k)) != 0 :: Slot(i, k)
  }

  /** The empty slots of a range. */
  ghost function Empty(v: Image, inum: nat, lo: nat, hi: nat): set<Slot>
    requires Shape(v) && inum < |v.inodes|
  {
    set k |
      0 <= k < NADDRS + NINDIRECT && InRange(Slot(inum, k), inum, lo, hi) && Ref(v, Slot(inum, k)) == 0 ::
      Slot(inum, k)
  }

  /** The number of blocks that are missing in a range, indirect block included. */
  ghost function Need(v: Image, inum: nat, lo: nat, hi: nat): nat
    requires Shape(v) && inum < |v.inodes|
  {
    |Empty(v, inum, lo, hi)|
  }

  lemma InUseIff(v: Image, s: Slot)
    requires Shape(v)
    ensures s in InUse(v) <==> ValidSlot(v, s) && Ref(v, s) != 0
  {
    assert s == Slot(s.inum, s.k);
  }

  lemma EmptyIff(v: Image, inum: nat, lo: nat, hi: nat, s: Slot)
    requires Shape(v) && inum < |v.inodes|
    ensures s in Empty(v, inum, lo, hi) <==> ValidSlot(v, s) && InRange(s, inum, lo, hi) && Ref(v, s) == 0
  {
    assert s == Slot(s.inum, s.k);
  }

  /** Different blocks have different owners. */
  lemma OwnersCount(sb: Super, v: Image, o: map<nat, Slot>, bs: set<nat>) returns (ss: set<Slot>)
    requires Owned(sb, v, o) && bs <= o.Keys
    ensures |ss| == |bs| && forall s :: s in ss <==> ValidSlot(v, s) && Ref(v, s) != 0 && Ref(v, s) in bs
  {
    if bs == {} {
      return {};
    }
    var b :| b in bs;
    var rest := OwnersCount(sb, v, o, bs - {b});
    SlotOwned(sb, v, o, b);
    ss := rest + {o[b]};
    forall s | ValidSlot(v, s) && Ref(v, s) == b ensures s == o[b] {
      OwnerOf(sb, v, o, s);
    }
  }

  /** There are as many owned blocks as slots in use. */
  lemma OwnedCount(sb: Super, v: Image, o: map<nat, Slot>)
    requires Owned(sb, v, o)
    ensures |o| == |InUse(v)|
  {
    var ss := OwnersCount(sb, v, o, o.Keys);
    forall s ensures s in ss <==> s in InUse(v) {
      InUseIff(v, s);
      if ValidSlot(v, s) {
        OwnerOf(sb, v, o, s);
      }
    }
    assert ss == InUse(v);
  }

  lemma SubsetSize<T>(x: set<T>, y: set<T>)
    requires x <= y
    ensures |x| <= |y| && (x != y ==> |x| < |y|)
  {
    assert y == x + (y - x);
    assert x != y ==> y - x != {};
  }

  /** What has been added are empty slots of the range. */
  lemma WithinCount(sb: Super, a: Snap, b: Snap, inum: nat, lo: nat, hi: nat)
    requires Within(sb, a, b, inum, lo, hi)
    ensures |b.o| <= |a.o| + Need(a.v, inum, lo, hi)
    ensures |b.o| == |a.o| + Need(a.v, inum, lo, hi) <==> Empty(b.v, inum, lo, hi) == {}
  {
    OwnedCount(sb, a.v, a.o);
    OwnedCount(sb, b.v, b.o);
    var x, y, all, rest := InUse(a.v), InUse(b.v), Empty(a.v, inum, lo, hi), Empty(b.v, inum, lo, hi);
    forall s ensures (s in x ==> s in y) && (s in y && s !in x ==> s in all) && (s in rest <==> s in all && s !in y) {
      WithinSlot(sb, a, b, inum, lo, hi, s);
    }
    forall s | s in all ensures s !in x {
      InUseIff(a.v, s);
      EmptyIff(a.v, inum, lo, hi, s);
    }
    AddedCount(x, y, all, rest);
  }

  lemma WithinSlot(sb: Super, a: Snap, b: Snap, inum: nat, lo: nat, hi: nat, s: Slot)
    requires Within(sb, a, b, inum, lo, hi)
    ensures s in InUse(a.v) ==> s in InUse(b.v)
    ensures s in InUse(b.v) && s !in InUse(a.v) ==> s in Empty(a.v, inum, lo, hi)
    ensures s in Empty(b.v, inum, lo, hi) <==> s in Empty(a.v, inum, lo, hi) && s !in InUse(b.v)
  {
    InUseIff(a.v, s);
    InUseIff(b.v, s);
    EmptyIff(a.v, inum, lo, hi, s);
    EmptyIff(b.v, inum, lo, hi, s);
    if ValidSlot(a.v, s) {
      assert SlotKept(a, b, inum, lo, hi, s);
      if Ref(a.v, s) != 0 {
        StillThere(sb, a.v, a.o, b.v, b.o, s);
      }
    }
  }

  lemma AddedCount(x: set<Slot>, y: set<Slot>, all: set<Slot>, rest: set<Slot>)
    requires x <= y && y - x <= all && rest == all - y && x !! all
    ensures |y| <= |x| + |all| && (|y| == |x| + |all| <==> rest == {})
  {
    assert y == x + (y - x) && all == (y - x) + rest;
  }

  lemma MappedCount(sb: Super, a: Snap, b: Snap, inum: nat, lo: nat, hi: nat)
    requires Mapped(sb, a, b, inum, lo, hi)
    ensures |b.o| == |a.o| + Need(a.v, inum, lo, hi)
  {
    forall s ensures s !in Empty(b.v, inum, lo, hi) {
      EmptyIff(b.v, inum, lo, hi, s);
      if ValidSlot(b.v, s) && InRange(s, inum, lo, hi) {
        SlotMapped(sb, a, b, inum, lo, hi, s);
      }
    }
    WithinCount(sb, a, b, inum, lo, hi);
  }

  /** One block: how many blocks it took, and when the inode changed. */
  lemma MappedOne(sb: Super, a: Snap, b: Snap, inum: nat, bn: nat)
    requires Mapped(sb, a, b, inum, bn, bn + 1)
    ensures |b.o| == |a.o| + Need(a.v, inum, bn, bn + 1)
    ensures b.v.inodes == a.v.inodes <==> Rooted(a.v, inum, bn)
  {
    MappedCount(sb, a, b, inum, bn, bn + 1);
    MappedRooted(sb, a, b, inum, bn, bn + 1);
    assert AllRooted(a.v, inum, bn, bn + 1) <==> Rooted(a.v, inum, bn);
  }

  lemma NeedGrows(v: Image, inum: nat, lo: nat, hi: nat, hi': nat)
    requires Shape(v) && inum < |v.inodes| && hi <= hi'
    ensures Need(v, inum, lo, hi) <= Need(v, inum, lo, hi')
  {
    forall s | s in Empty(v, inum, lo, hi) ensures s in Empty(v, inum, lo, hi') {
      EmptyIff(v, inum, lo, hi, s);
      EmptyIff(v, inum, lo, hi', s);
    }
    SubsetSize(Empty(v, inum, lo, hi), Empty(v, inum, lo, hi'));
  }

  /** The number of data blocks of the disk. */
  function Room(sb: Super): int { sb.size - sb.nmeta }

  /** The disk is full and a block of the range is still missing. */
  ghost predicate Stuck(sb: Super, a: Snap, b: Snap, inum: nat, lo: nat, hi: nat) {
    Within(sb, a, b, inum, lo, hi) && |b.o| == Room(sb) && Empty(b.v, inum, lo, hi) != {}
  }

  lemma SlotStuck(sb: Super, a: Snap, b: Snap, inum: nat, bn: nat, s: Slot)
    requires Within(sb, a, b, inum, bn, bn + 1) && |b.o| == Room(sb)
    requires ValidSlot(b.v, s) && InRange(s, inum, bn, bn + 1) && Ref(b.v, s) == 0
    ensures Stuck(sb, a, b, inum, bn, bn + 1)
  {
    EmptyIff(b.v, inum, bn, bn + 1, s);
  }

  lemma NothingNeeded(sb: Super, a: Snap, bm: seq<BitBlock>, inum: nat, lo: nat)
    requires Owned(sb, a.v, a.o) && BitmapOk(sb, bm, a.o) && inum < |a.v.inodes|
    ensures |a.o| + Need(a.v, inum, lo, lo) <= Room(sb)
  {
    FullCount(sb, a.v, a.o, bm);
    assert Empty(a.v, inum, lo, lo) == {};
  }

  lemma StuckNeeds(sb: Super, a: Snap, b: Snap, inum: nat, lo: nat, hi: nat, hi': nat)
    requires Stuck(sb, a, b, inum, lo, hi) && hi <= hi'
    ensures |a.o| + Need(a.v, inum, lo, hi') > Room(sb)
  {
    WithinCount(sb, a, b, inum, lo, hi);
    NeedGrows(a.v, inum, lo, hi, hi');
  }

  lemma StuckLater(sb: Super, a: Snap, b: Snap, c: Snap, inum: nat, lo: nat, mid: nat, hi: nat)
    requires Mapped(sb, a, b, inum, lo, mid) && Stuck(sb, b, c, inum, mid, hi) && lo <= mid <= hi
    ensures Stuck(sb, a, c, inum, lo, hi)
  {
    WithinTwice(sb, a, b, c, inum, lo, mid, mid, hi);
    var s :| s in Empty(c.v, inum, mid, hi);
    EmptyIff(c.v, inum, mid, hi, s);
    EmptyIff(c.v, inum, lo, hi, s);
  }

  /** No more blocks are owned than there are, and all of them exactly if the bitmap is full. */
  lemma FullCount(sb: Super, v: Image, o: map<nat, Slot>, bm: seq<BitBlock>)
    requires Owned(sb, v, o) && BitmapOk(sb, bm, o)
    ensures |o| <= Room(sb)
    ensures |o| == Room(sb) <==> forall c :: 0 <= c < sb.size ==> Bit(bm, c)
  {
    var all := Range(sb.nmeta, sb.size);
    RangeSize(sb.nmeta, sb.size);
    forall b | b in o.Keys ensures b in all {
      SlotOwned(sb, v, o, b);
    }
    SubsetSize(o.Keys, all);
    if forall c :: 0 <= c < sb.size ==> Bit(bm, c) {
      forall c | c in all ensures c in o.Keys {
        assert Bit(bm, c);
      }
      assert o.Keys == all;
    }
  }

  lemma RangeSize(lo: nat, hi: nat)
    requires lo <= hi
    ensures |Range(lo, hi)| == hi - lo
    decreases hi - lo
  {
    if lo < hi {
      RangeSize(lo + 1, hi);
    }
  }
}
