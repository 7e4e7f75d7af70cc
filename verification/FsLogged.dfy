/**
 Which blocks writei logs, and how they fit into one operation's share of the log: the blocks
 written, the blocks added, the indirect block, the bitmap blocks of the added ones (kernel/fs.c)
 against the MAXOPBLOCKS that begin_op reserves (kernel/param.h, kernel/file.c).
*/
module FsLogged {
  import opened FsLayout
  import opened FsImage
  import opened FsBlocks

  const MAXOPBLOCKS: nat := 10
  const IPB: nat := 16          // inodes per block

  /** What log_write is called on. */
  datatype Place = DataAt(b: nat) | BitmapAt(k: nat) | InodeAt(k: nat)

  ghost predicate NewBlock(o: map<nat, Slot>, o': map<nat, Slot>, x: nat) { x in o' && x !in o }

  /** A block has been added behind an indirect block. */
  ghost predicate Behind(o: map<nat, Slot>, o': map<nat, Slot>) {
    exists c: nat {:trigger NewBlock(o, o', c)} :: NewBlock(o, o', c) && o'[c].k > NDIRECT
  }

  /** s names one of the blocks lo .. hi of the file. */
  predicate DataSlot(s: Slot, inum: nat, lo: nat, hi: nat) { s.k != NDIRECT && InRange(s, inum, lo, hi) }

  /**
   Between o and o', with blocks lo .. hi of the file written: the written and the added blocks,
   the indirect block if an entry was added to it, the bitmap blocks of the added blocks.
  */
  ghost predicate LoggedAt(o: map<nat, Slot>, o': map<nat, Slot>, inum: nat, lo: nat, hi: nat, p: Place) {
    match p
    case DataAt(x) =>
      && x in o'
      && (DataSlot(o'[x], inum, lo, hi) || x !in o || (o'[x] == Slot(inum, NDIRECT) && Behind(o, o')))
    case BitmapAt(k) => exists c: nat {:trigger NewBlock(o, o', c)} :: NewBlock(o, o', c) && c / BPB == k
    case InodeAt(_) => false
  }

  ghost predicate Logs(o: map<nat, Slot>, o': map<nat, Slot>, inum: nat, lo: nat, hi: nat, logged: set<Place>) {
    forall p {:trigger LoggedAt(o, o', inum, lo, hi, p)} :: p in logged <==> LoggedAt(o, o', inum, lo, hi, p)
  }

  lemma NothingLogged(o: map<nat, Slot>, inum: nat, lo: nat)
    ensures Logs(o, o, inum, lo, lo, {})
  {}

  /** balloc and the store of the new block's number. */
  function FillLogged(s: Slot, x: nat, ind: nat): set<Place> {
    {BitmapAt(x / BPB), DataAt(x)} + if s.k > NDIRECT then {DataAt(ind)} else {}
  }

  lemma FillLogs(o: map<nat, Slot>, s: Slot, x: nat, ind: nat)
    requires x !in o && (s.k > NDIRECT ==> ind in o && o[ind] == Slot(s.inum, NDIRECT))
    requires forall b :: b in o && o[b] == Slot(s.inum, NDIRECT) ==> b == ind
    ensures Logs(o, o[x := s], s.inum, 0, 0, FillLogged(s, x, ind))
  {
    var o' := o[x := s];
    assert NewBlock(o, o', x);
    forall p ensures p in FillLogged(s, x, ind) <==> LoggedAt(o, o', s.inum, 0, 0, p) {
      match p
      case DataAt(y) =>
        assert Behind(o, o') <==> s.k > NDIRECT;
      case BitmapAt(k) =>
      case InodeAt(_) =>
    }
  }

  lemma FilledLogs(sb: Super, a: Snap, s: Slot, x: nat)
    requires Owned(sb, a.v, a.o) && ValidSlot(a.v, s) && x !in a.o
    requires s.k >= NADDRS ==> Ref(a.v, Slot(s.inum, NDIRECT)) != 0
    ensures Logs(a.o, a.o[x := s], s.inum, 0, 0, FillLogged(s, x, Ref(a.v, Slot(s.inum, NDIRECT))))
  {
    OwnerOf(sb, a.v, a.o, Slot(s.inum, NDIRECT));
    forall b | b in a.o && a.o[b] == Slot(s.inum, NDIRECT) ensures b == Ref(a.v, Slot(s.inum, NDIRECT)) {
      SlotOwned(sb, a.v, a.o, b);
    }
    FillLogs(a.o, s, x, Ref(a.v, Slot(s.inum, NDIRECT)));
  }

  /** Adding blocks after a stretch has been written. */
  lemma LogsMore(sb: Super, a: Snap, b: Snap, c: Snap, inum: nat, lo': nat, hi': nat, lo: nat, mid: nat,
                 l: set<Place>, l': set<Place>)
    requires Within(sb, a, b, inum, lo', hi') && AllPresent(b.v, inum, lo, mid) && Owned(sb, c.v, c.o)
    requires |c.v.inodes| == |b.v.inodes| && Extends(b.o, c.o)
    requires Logs(a.o, b.o, inum, lo, mid, l) && Logs(b.o, c.o, inum, 0, 0, l')
    ensures Logs(a.o, c.o, inum, lo, mid, l + l')
  {
    ExtendsTwice(a.o, b.o, c.o);
    NewInSteps(a.o, b.o, c.o);
    BehindIndirect(sb, a, b, inum, lo', hi');
    forall p ensures p in l + l' <==> LoggedAt(a.o, c.o, inum, lo, mid, p) {
      assert p in l <==> LoggedAt(a.o, b.o, inum, lo, mid, p);
      assert p in l' <==> LoggedAt(b.o, c.o, inum, 0, 0, p);
      if p.DataAt? {
        DataInSteps(sb, a, b, c, inum, lo, mid, p.b);
      }
    }
  }

  /** An added block is one of the range. */
  lemma NewInRange(sb: Super, a: Snap, b: Snap, inum: nat, lo: nat, hi: nat, x: nat)
    requires Within(sb, a, b, inum, lo, hi) && NewBlock(a.o, b.o, x)
    ensures ValidSlot(b.v, b.o[x]) && Ref(b.v, b.o[x]) == x != 0 && InRange(b.o[x], inum, lo, hi)
  {
    SlotOwned(sb, b.v, b.o, x);
    assert SlotKept(a, b, inum, lo, hi, b.o[x]);
    OwnerOf(sb, a.v, a.o, b.o[x]);
    OwnerOf(sb, b.v, b.o, b.o[x]);
  }

  lemma BehindIndirect(sb: Super, a: Snap, b: Snap, inum: nat, lo: nat, hi: nat)
    requires Within(sb, a, b, inum, lo, hi)
    ensures Behind(a.o, b.o) ==> Ref(b.v, Slot(inum, NDIRECT)) != 0
  {
    if Behind(a.o, b.o) {
      var c :| NewBlock(a.o, b.o, c) && b.o[c].k > NDIRECT;
      NewInRange(sb, a, b, inum, lo, hi, c);
      OwnerOf(sb, b.v, b.o, b.o[c]);
    }
  }

  lemma NewInSteps(o: map<nat, Slot>, o1: map<nat, Slot>, o2: map<nat, Slot>)
    requires Extends(o, o1) && Extends(o1, o2)
    ensures forall x: nat :: NewBlock(o, o2, x) <==> NewBlock(o, o1, x) || NewBlock(o1, o2, x)
    ensures Behind(o, o2) <==> Behind(o, o1) || Behind(o1, o2)
  {
    forall x: nat ensures NewBlock(o, o2, x) <==> NewBlock(o, o1, x) || NewBlock(o1, o2, x) {
      assert x in o ==> Kept(o, o1, x);
      assert x in o1 ==> Kept(o1, o2, x);
    }
    if Behind(o, o1) {
      var c :| NewBlock(o, o1, c) && o1[c].k > NDIRECT;
      assert NewBlock(o, o2, c) && Kept(o1, o2, c);
    }
    if Behind(o1, o2) {
      var c :| NewBlock(o1, o2, c) && o2[c].k > NDIRECT;
      assert NewBlock(o, o2, c);
    }
    if Behind(o, o2) {
      var c :| NewBlock(o, o2, c) && o2[c].k > NDIRECT;
      assert NewBlock(o, o1, c) || NewBlock(o1, o2, c);
      assert c in o1 ==> Kept(o1, o2, c);
    }
  }

  lemma DataInSteps(sb: Super, a: Snap, b: Snap, c: Snap, inum: nat, lo: nat, mid: nat, x: nat)
    requires Owned(sb, b.v, b.o) && Extends(a.o, b.o) && inum < |b.v.inodes| && AllPresent(b.v, inum, lo, mid)
    requires Owned(sb, c.v, c.o) && |c.v.inodes| == |b.v.inodes| && Extends(b.o, c.o)
    requires Behind(a.o, c.o) <==> Behind(a.o, b.o) || Behind(b.o, c.o)
    requires Behind(a.o, b.o) ==> Ref(b.v, Slot(inum, NDIRECT)) != 0
    ensures LoggedAt(a.o, c.o, inum, lo, mid, DataAt(x))
       <==> LoggedAt(a.o, b.o, inum, lo, mid, DataAt(x)) || LoggedAt(b.o, c.o, inum, 0, 0, DataAt(x))
  {
    assert x in b.o ==> Kept(b.o, c.o, x);
    assert x in a.o ==> Kept(a.o, b.o, x);
    if x in c.o {
      SlotOwned(sb, c.v, c.o, x);
      var s := c.o[x];
      if DataSlot(s, inum, lo, mid) || (s == Slot(inum, NDIRECT) && Behind(a.o, b.o)) {
        if s != Slot(inum, NDIRECT) {
          assert Present(b.v, inum, if s.k < NDIRECT then s.k else s.k - 1);
        }
        OwnerOf(sb, b.v, b.o, s);
        StillThere(sb, b.v, b.o, c.v, c.o, s);
      }
    }
  }

  /** Writing the next block of the file. */
  lemma LogsStore(sb: Super, a: Snap, b: Snap, inum: nat, lo: nat, mid: nat, l: set<Place>, x: nat)
    requires Owned(sb, b.v, b.o) && inum < |b.v.inodes| && lo <= mid < MAXFILE && x == Ref(b.v, SlotOf(inum, mid)) != 0
    requires Logs(a.o, b.o, inum, lo, mid, l)
    ensures Logs(a.o, b.o, inum, lo, mid + 1, l + {DataAt(x)})
  {
    OwnerOf(sb, b.v, b.o, SlotOf(inum, mid));
    var hi := mid + 1;
    forall p ensures p in l + {DataAt(x)} <==> LoggedAt(a.o, b.o, inum, lo, hi, p) {
      assert p in l <==> LoggedAt(a.o, b.o, inum, lo, mid, p);
      if p.DataAt? && p.b in b.o {
        SlotOwned(sb, b.v, b.o, p.b);
      }
    }
  }

  // ---------------------------------------------------------------- counting

  /** The blocks, and the bitmap blocks, among the places. */
  ghost function Blocks(l: set<Place>): set<nat> { set p | p in l && p.DataAt? :: p.b }

  ghost function Bitmaps(l: set<Place>): set<nat> { set p | p in l && p.BitmapAt? :: p.k }

  lemma {:induction false} PlaceCount(l: set<Place>)
    requires forall p :: p in l ==> !p.InodeAt?
    ensures |l| == |Blocks(l)| + |Bitmaps(l)|
  {
    if l != {} {
      var p :| p in l;
      var rest := l - {p};
      PlaceCount(rest);
      if p.DataAt? {
        assert Blocks(l) == Blocks(rest) + {p.b} && Bitmaps(l) == Bitmaps(rest) && p.b !in Blocks(rest);
      } else {
        assert Bitmaps(l) == Bitmaps(rest) + {p.k} && Blocks(l) == Blocks(rest) && p.k !in Bitmaps(rest);
      }
    }
  }

  /** The slots of blocks lo .. hi. */
  ghost function DataSlots(inum: nat, lo: nat, hi: nat): set<Slot>
    requires lo <= hi
    decreases hi - lo
  {
    if lo == hi then {} else {SlotOf(inum, lo)} + DataSlots(inum, lo + 1, hi)
  }

  lemma {:induction false} DataSlotsIff(inum: nat, lo: nat, hi: nat, s: Slot)
    requires lo <= hi
    ensures s in DataSlots(inum, lo, hi) <==> DataSlot(s, inum, lo, hi)
    decreases hi - lo
  {
    if lo < hi {
      DataSlotsIff(inum, lo + 1, hi, s);
      assert DataSlot(s, inum, lo, hi) <==> s == SlotOf(inum, lo) || DataSlot(s, inum, lo + 1, hi);
    }
  }

  lemma {:induction false} DataSlotsCount(inum: nat, lo: nat, hi: nat)
    requires lo <= hi
    ensures |DataSlots(inum, lo, hi)| == hi - lo
    decreases hi - lo
  {
    if lo < hi {
      DataSlotsIff(inum, lo + 1, hi, SlotOf(inum, lo));
      DataSlotsCount(inum, lo + 1, hi);
    }
  }

  /** The slots of blocks lo .. hi and of the indirect block. */
  ghost function RangeSlots(inum: nat, lo: nat, hi: nat): set<Slot>
    requires lo <= hi
  {
    DataSlots(inum, lo, hi) + {Slot(inum, NDIRECT)}
  }

  lemma InRangeSlots(inum: nat, lo: nat, hi: nat, s: Slot)
    requires lo <= hi && (s == Slot(inum, NDIRECT) || InRange(s, inum, lo, hi))
    ensures s in RangeSlots(inum, lo, hi)
  {
    DataSlotsIff(inum, lo, hi, s);
  }

  /** All blocks that are logged lie in the range or are its indirect block. */
  lemma BlocksBound(sb: Super, a: Snap, b: Snap, inum: nat, lo: nat, hi: nat, hi': nat, l: set<Place>)
    requires Within(sb, a, b, inum, lo, hi') && lo <= hi <= hi' && Logs(a.o, b.o, inum, lo, hi, l)
    ensures |Blocks(l)| <= hi' - lo + 1
  {
    forall x | x in Blocks(l) ensures x in b.o.Keys && b.o[x] in RangeSlots(inum, lo, hi') {
      assert DataAt(x) in l && LoggedAt(a.o, b.o, inum, lo, hi, DataAt(x));
      if x !in a.o {
        assert NewBlock(a.o, b.o, x);
        NewInRange(sb, a, b, inum, lo, hi', x);
      }
      InRangeSlots(inum, lo, hi', b.o[x]);
    }
    var ss := OwnersCount(sb, b.v, b.o, Blocks(l));
    forall s | s in ss ensures s in RangeSlots(inum, lo, hi') {
      OwnerOf(sb, b.v, b.o, s);
    }
    SubsetSize(ss, RangeSlots(inum, lo, hi'));
    DataSlotsCount(inum, lo, hi');
  }

  ghost function Quotients(bs: set<nat>): set<nat> { set b | b in bs :: b / BPB }

  lemma {:induction false} QuotientCount(bs: set<nat>)
    ensures |Quotients(bs)| <= |bs|
  {
    if bs != {} {
      var b :| b in bs;
      QuotientCount(bs - {b});
      forall k | k in Quotients(bs) ensures k in Quotients(bs - {b}) + {b / BPB} {
        var c :| c in bs && c / BPB == k;
        assert c == b || c in bs - {b};
      }
      SubsetSize(Quotients(bs), Quotients(bs - {b}) + {b / BPB});
    }
  }

  /** No more bitmap blocks are logged than blocks added, nor than there are. */
  lemma BitmapsBound(sb: Super, a: Snap, b: Snap, inum: nat, lo: nat, hi: nat, hi': nat, l: set<Place>)
    requires Within(sb, a, b, inum, lo, hi') && Logs(a.o, b.o, inum, lo, hi, l)
    ensures |Bitmaps(l)| <= Need(a.v, inum, lo, hi') && |Bitmaps(l)| <= (sb.size + BPB - 1) / BPB
  {
    var added := b.o.Keys - a.o.Keys;
    forall k | k in Bitmaps(l) ensures k in Quotients(added) {
      assert BitmapAt(k) in l && LoggedAt(a.o, b.o, inum, lo, hi, BitmapAt(k));
      var c: nat :| NewBlock(a.o, b.o, c) && c / BPB == k;
      assert c in added;
    }
    SubsetSize(Bitmaps(l), Quotients(added));
    QuotientCount(added);
    forall x | x in a.o.Keys ensures x in b.o.Keys {
      assert Kept(a.o, b.o, x);
    }
    assert b.o.Keys == a.o.Keys + added;
    WithinCount(sb, a, b, inum, lo, hi');
    QuotientsFit(sb, b, added);
    SubsetSize(Bitmaps(l), Range(0, (sb.size + BPB - 1) / BPB));
    RangeSize(0, (sb.size + BPB - 1) / BPB);
  }

  lemma QuotientsFit(sb: Super, b: Snap, added: set<nat>)
    requires Owned(sb, b.v, b.o) && added <= b.o.Keys
    ensures Quotients(added) <= Range(0, (sb.size + BPB - 1) / BPB)
  {
    forall k | k in Quotients(added) ensures k in Range(0, (sb.size + BPB - 1) / BPB) {
      var c :| c in added && c / BPB == k;
      SlotOwned(sb, b.v, b.o, c);
    }
  }

  /** What a range needs: each of its blocks and the indirect block, unless it is there. */
  lemma NeedBound(v: Image, inum: nat, lo: nat, hi: nat)
    requires Shape(v) && inum < |v.inodes| && lo <= hi
    ensures Need(v, inum, lo, hi) <= hi - lo + 1
    ensures lo < hi && Present(v, inum, lo) ==> Need(v, inum, lo, hi) <= hi - lo
  {
    var e, r := Empty(v, inum, lo, hi), RangeSlots(inum, lo, hi);
    forall s | s in e ensures s in r {
      EmptyIff(v, inum, lo, hi, s);
      InRangeSlots(inum, lo, hi, s);
    }
    SubsetSize(e, r);
    DataSlotsCount(inum, lo, hi);
    if lo < hi && Present(v, inum, lo) {
      EmptyIff(v, inum, lo, hi, SlotOf(inum, lo));
      InRangeSlots(inum, lo, hi, SlotOf(inum, lo));
    }
  }

  /**
   A write of at most three blocks' worth of bytes, the inode block included, fits MAXOPBLOCKS if
   its first block is there, or if it touches only three, or if there are at most four bitmap blocks.
  */
  lemma ShareSuffices(sb: Super, a: Snap, b: Snap, inum: nat, lo: nat, hi: nat, hi': nat, l: set<Place>)
    requires Within(sb, a, b, inum, lo, hi') && lo <= hi <= hi' <= lo + 4 && Logs(a.o, b.o, inum, lo, hi, l)
    requires hi' <= lo + 3 || Present(a.v, inum, lo) || sb.size <= 4 * BPB
    ensures |l| + 1 <= MAXOPBLOCKS
  {
    forall p | p in l ensures !p.InodeAt? {
      assert LoggedAt(a.o, b.o, inum, lo, hi, p);
    }
    PlaceCount(l);
    BlocksBound(sb, a, b, inum, lo, hi, hi', l);
    BitmapsBound(sb, a, b, inum, lo, hi, hi', l);
    NeedBound(a.v, inum, lo, hi');
  }
}
