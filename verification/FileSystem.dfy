/**
 kernel/fs.c as code: balloc, bfree, bmap, itrunc, readi and writei over the bitmap, the data
 blocks and the inodes.  The buffer cache and the log are below this layer, so a block is read
 and written directly; a panic is a result.  `owner` is the proof's record of who holds what.
*/
module FileSystem {
  import opened FsLayout
  import opened FsImage
  import opened FsBlocks
  import opened FsLogged
  import opened FsTransfer

  /** Zeroing an unowned block changes no slot and no byte. */
  lemma FreshBlock(sb: Super, v: Image, owner: map<nat, Slot>, b: nat)
    requires Owned(sb, v, owner) && sb.nmeta <= b < sb.size && b !in owner
    ensures var w := v.(data := v.data[b := ZeroBlock()]);
            && Owned(sb, w, owner) && SameBytes(w, v)
            && forall t :: ValidSlot(v, t) ==> Ref(w, t) == Ref(v, t)
  {
    var w := v.(data := v.data[b := ZeroBlock()]);
    WriteKeepsOwned(sb, v, owner, b, ZeroBlock());
    forall t | ValidSlot(v, t) ensures Ref(w, t) == Ref(v, t) {
      WriteKeepsRefs(sb, v, owner, b, ZeroBlock(), t);
    }
    forall i, off | 0 <= i < |v.inodes| && 0 <= off < MAXSIZE ensures SameAt(w, v, i, off) {
      WriteChangesOneBlock(sb, v, owner, b, ZeroBlock(), i, off);
    }
  }

  lemma BitSetOk(sb: Super, bm: seq<BitBlock>, owner: map<nat, Slot>, b: nat, s: Slot)
    requires BitmapOk(sb, bm, owner) && sb.nmeta <= b < sb.size
    ensures BitmapOk(sb, SetBit(bm, b), owner[b := s])
  {
    forall c | 0 <= c < sb.size
      ensures Bit(SetBit(bm, b), c) <==> c < sb.nmeta || c in owner[b := s]
    {
      BitAfterSet(bm, b, c);
    }
  }

  /** The image after balloc has returned b and b has been stored in slot s. */
  function Allocated(v: Image, s: Slot, b: nat): Image
    requires Shape(v) && ValidSlot(v, s) && b < |v.data| < 0x1_0000_0000
  {
    var w := v.(data := v.data[b := ZeroBlock()]);
    if s.k >= NADDRS && Ref(w, Slot(s.inum, NDIRECT)) >= |w.data| then w else SetRef(w, s, b)
  }

  lemma AllocEffect(sb: Super, v: Image, bm: seq<BitBlock>, owner: map<nat, Slot>, s: Slot, b: nat)
    requires Owned(sb, v, owner) && BitmapOk(sb, bm, owner)
    requires ValidSlot(v, s) && Ref(v, s) == 0 && (s.k >= NADDRS ==> Ref(v, Slot(s.inum, NDIRECT)) != 0)
    requires sb.nmeta <= b < sb.size && b !in owner
    ensures s.k >= NADDRS ==> Ref(v, Slot(s.inum, NDIRECT)) < |v.data|
    ensures var w := Allocated(v, s, b);
            && w == SetRef(v.(data := v.data[b := ZeroBlock()]), s, b)
            && Owned(sb, w, owner[b := s]) && SameBytes(w, v)
            && (forall t :: ValidSlot(v, t) ==> Ref(w, t) == if t == s then b else Ref(v, t))
    ensures BitmapOk(sb, SetBit(bm, b), owner[b := s])
  {
    var v1 := v.(data := v.data[b := ZeroBlock()]);
    FreshBlock(sb, v, owner, b);
    IndirectInRange(sb, v, owner, s.inum);
    FillKeepsOwned(sb, v1, owner, s, b);
    FillKeepsBytes(sb, v1, owner, s, b);
    forall t | ValidSlot(v, t) ensures Ref(SetRef(v1, s, b), t) == if t == s then b else Ref(v, t) {
      FillSetsOneRef(sb, v1, owner, s, b, t);
    }
    SameBytesTransitive(v, v1, SetRef(v1, s, b));
    BitSetOk(sb, bm, owner, b, s);
  }

  /** Every block is in use. */
  ghost predicate Full(sb: Super, bm: seq<BitBlock>)
    requires sb.size <= |bm| * BPB
  {
    forall c :: 0 <= c < sb.size ==> Bit(bm, c)
  }

  /** What balloc and storing the block's number in an empty slot mean. */
  lemma FillEffect(sb: Super, a: Snap, bm: seq<BitBlock>, s: Slot, b: nat, c: Snap)
    requires Owned(sb, a.v, a.o) && BitmapOk(sb, bm, a.o)
    requires ValidSlot(a.v, s) && Ref(a.v, s) == 0 && (s.k >= NADDRS ==> Ref(a.v, Slot(s.inum, NDIRECT)) != 0)
    requires sb.nmeta <= b < sb.size && b !in a.o && c == Snap(Allocated(a.v, s, b), a.o[b := s])
    ensures Owned(sb, c.v, c.o) && SameBytes(c.v, a.v) && Ref(c.v, s) == b && OnlySlot(sb, a, c, s)
    ensures BitmapOk(sb, SetBit(bm, b), c.o)
    ensures Logs(a.o, c.o, s.inum, 0, 0, FillLogged(s, b, Ref(a.v, Slot(s.inum, NDIRECT))))
  {
    AllocEffect(sb, a.v, bm, a.o, s, b);
    SlotFilled(sb, a, c, s, b);
    FilledLogs(sb, a, s, b);
  }

  /** bmap's two steps together. */
  lemma BlockFetched(sb: Super, a: Snap, b: Snap, c: Snap, inum: nat, bn: nat, l: set<Place>, l': set<Place>)
    requires Within(sb, a, b, inum, bn, bn + 1) && OnlySlot(sb, b, c, SlotOf(inum, bn)) && bn < MAXFILE
    requires SameBytes(b.v, a.v) && SameBytes(c.v, b.v)
    requires Logs(a.o, b.o, inum, 0, 0, l) && Logs(b.o, c.o, inum, 0, 0, l')
    ensures Within(sb, a, c, inum, bn, bn + 1) && SameBytes(c.v, a.v) && Logs(a.o, c.o, inum, 0, 0, l + l')
    ensures Ref(c.v, SlotOf(inum, bn)) != 0 ==> Mapped(sb, a, c, inum, bn, bn + 1)
  {
    SameBytesTransitive(a.v, b.v, c.v);
    OnlyBlock(sb, b, c, inum, bn);
    WithinTwice(sb, a, b, c, inum, bn, bn + 1, bn, bn + 1);
    LogsMore(sb, a, b, c, inum, bn, bn + 1, 0, 0, l, l');
  }

  /**
   What writei leaves of writing the first tot bytes of src: the file with the bytes spliced in,
   the other files as they were, the blocks written, and the log_writes, one of them of the inode.
  */
  ghost predicate WriteDone(a: Snap, b: Snap, src: seq<Byte>, inum: nat, off: nat, tot: nat, logged: set<Place>) {
    && Shape(a.v) && Shape(b.v) && |b.v.inodes| == |a.v.inodes| && inum < |a.v.inodes|
    && off <= a.v.inodes[inum].size && tot <= |src|
    && File(b.v, inum) == Spliced(File(a.v, inum), off, src[..tot])
    && OthersSame(a.v, b.v, {inum})
    && AllPresent(b.v, inum, off / BSIZE, EndBlock(off, tot))
    && InodeAt(inum / IPB) in logged
    && Logs(a.o, b.o, inum, off / BSIZE, EndBlock(off, tot), logged - {InodeAt(inum / IPB)})
  }

  /** At most three blocks' worth of bytes, and not with the first block missing on a disk with five bitmap blocks. */
  predicate SmallWrite(sb: Super, v: Image, inum: nat, off: nat, n: nat)
    requires Shape(v) && inum < |v.inodes|
  {
    n <= 3 * BSIZE && (off % BSIZE == 0 || Present(v, inum, off / BSIZE) || sb.size <= 4 * BPB)
  }

  /** What all of writei does to the files and what it logs. */
  lemma WriteEffect(sb: Super, a: Snap, b: Snap, src: seq<Byte>, inum: nat, off: nat, n: nat, tot: nat, reach: nat,
                    c: Snap, l: set<Place>)
    requires WroteTo(sb, a, b, src, inum, off, tot, reach, l) && tot <= reach <= n && off + n <= MAXSIZE
    requires off <= a.v.inodes[inum].size && c.o == b.o
    requires var size := a.v.inodes[inum].size; c.v == WithSize(b.v, inum, if off + tot > size then off + tot else size)
    ensures |b.o| == |a.o| + Need(a.v, inum, off / BSIZE, EndBlock(off, reach))
    ensures WriteDone(a, c, src, inum, off, tot, l + {InodeAt(inum / IPB)})
    ensures SmallWrite(sb, a.v, inum, off, n) ==> |l + {InodeAt(inum / IPB)}| <= MAXOPBLOCKS
  {
    var lo, hi, hi' := off / BSIZE, EndBlock(off, tot), EndBlock(off, reach);
    MappedCount(sb, a, b, inum, lo, hi');
    WrittenAllFiles(a.v, b.v, inum, off, src[..tot], c.v);
    ReachGrows(off, tot, reach);
    assert AllPresent(b.v, inum, lo, hi);
    SizeKeepsPresent(b.v, inum, c.v.inodes[inum].size, lo, hi);
    var ip := InodeAt(inum / IPB);
    assert !LoggedAt(a.o, b.o, inum, lo, hi, ip);
    assert l + {ip} - {ip} == l;
    if SmallWrite(sb, a.v, inum, off, n) {
      FewBlocks(off, n, reach);
      ShareSuffices(sb, a, b, inum, lo, hi, hi', l);
    }
  }

  lemma FewBlocks(off: nat, n: nat, m: nat)
    requires m <= n <= 3 * BSIZE
    ensures EndBlock(off, m) <= off / BSIZE + 4 && (off % BSIZE == 0 ==> EndBlock(off, m) <= off / BSIZE + 3)
  {}

  /** If the disk was up to date, it still is exactly if no pointer of an inode has been filled in since. */
  lemma DiskBehind(sb: Super, v0: Image, owner0: map<nat, Slot>, v: Image, owner: map<nat, Slot>,
                   dinodes: seq<Inode>, inum: nat)
    requires Owned(sb, v0, owner0) && Owned(sb, v, owner) && Filled(v0, v, inum)
    requires Owned(sb, Image(v0.data, dinodes), owner0) && |dinodes| == |v0.inodes|
    ensures Owned(sb, Image(v.data, dinodes), owner) <==> v.inodes == v0.inodes
  {
    OwnedIff(sb, v0, owner0, Image(v0.data, dinodes));
    OwnedIff(sb, v, owner, Image(v.data, dinodes));
    assert v.inodes == v0.inodes <==> v.inodes[inum].addrs == v0.inodes[inum].addrs;
  }

  class FileSystem {
    const sb: Super
    var bitmap: seq<BitBlock>
    var data: seq<Block>
    var inodes: seq<Inode>     // in memory
    var dinodes: seq<Inode>    // on disk
    ghost var owner: map<nat, Slot>

    ghost function V(): Image
      reads this
    {
      Image(data, inodes)
    }

    /** What is on disk: the inodes as iupdate last wrote them. */
    ghost function D(): Image
      reads this
    {
      Image(data, dinodes)
    }

    ghost function Now(): Snap
      reads this
    {
      Snap(V(), owner)
    }

    ghost predicate Valid()
      reads this
    {
      && Owned(sb, V(), owner) && BitmapOk(sb, bitmap, owner)
      && Shape(D()) && |dinodes| == |inodes|
    }

    /** The inodes on disk account for every allocated block too: a mount finds what memory holds. */
    ghost predicate OnDisk()
      reads this
    {
      Owned(sb, D(), owner)
    }

    constructor (sb: Super, bitmap: seq<BitBlock>, data: seq<Block>, inodes: seq<Inode>,
                 ghost owner: map<nat, Slot>)
      requires Owned(sb, Image(data, inodes), owner) && BitmapOk(sb, bitmap, owner)
      ensures Valid() && this.sb == sb && this.owner == owner
      ensures this.bitmap == bitmap && this.data == data && this.inodes == this.dinodes == inodes && OnDisk()
    {
      this.sb, this.bitmap, this.data := sb, bitmap, data;
      this.inodes, this.dinodes, this.owner := inodes, inodes, owner;
    }

    /** balloc's inner loop: the first clear bit of one bitmap block. */
    method ScanBlock(base: nat) returns (found: bool, bi: nat)
      requires sb.size <= |bitmap| * BPB && base % BPB == 0 && base < sb.size
      ensures found ==> bi < BPB && base + bi < sb.size && !Bit(bitmap, base + bi)
      ensures forall c :: base <= c < base + (if found then bi else BPB) && c < sb.size ==> Bit(bitmap, c)
    {
      bi := 0;
      while bi < BPB && base + bi < sb.size
        invariant 0 <= bi <= BPB
        invariant forall c :: base <= c < base + bi && c < sb.size ==> Bit(bitmap, c)
      {
        BitInBlock(bitmap, base, bi);
        if !bitmap[base / BPB][bi / 8][bi % 8] {
          return true, bi;
        }
        bi := bi + 1;
      }
      return false, 0;
    }

    /** Allocate a zeroed block: the lowest free one; no result is the "out of blocks" panic. */
    method Balloc() returns (ok: bool, b: nat, ghost logged: set<Place>)
      requires Valid()
      modifies `bitmap, `data
      ensures ok <==> !Full(sb, old(bitmap))
      ensures !ok ==> bitmap == old(bitmap) && data == old(data)
      ensures ok ==> sb.nmeta <= b < sb.size && b !in owner
      ensures ok ==> bitmap == SetBit(old(bitmap), b) && data == old(data)[b := ZeroBlock()]
      ensures ok ==> forall c :: 0 <= c < b ==> old(Bit(bitmap, c))
      ensures logged == if ok then {BitmapAt(b / BPB), DataAt(b)} else {}
    {
      var base := 0;
      while base < sb.size
        invariant base % BPB == 0 && bitmap == old(bitmap) && data == old(data)
        invariant forall c :: 0 <= c < base && c < sb.size ==> Bit(bitmap, c)
      {
        var found, bi := ScanBlock(base);
        if found {
          b := base + bi;
          bitmap := SetBit(bitmap, b);
          data := data[b := ZeroBlock()];
          return true, b, {BitmapAt(b / BPB), DataAt(b)};
        }
        base := base + BPB;
      }
      return false, 0, {};
    }

    /** Clear a block's bit; false is the "freeing free block" panic. */
    method Bfree(b: nat) returns (ok: bool)
      requires b / BPB < |bitmap|
      modifies `bitmap
      ensures ok <==> old(Bit(bitmap, b))
      ensures bitmap == if ok then ClearBit(old(bitmap), b) else old(bitmap)
    {
      if !bitmap[b / BPB][b % BPB / 8][b % 8] {
        return false;
      }
      bitmap := ClearBit(bitmap, b);
      return true;
    }

    /** balloc, and store the new block in an empty slot. */
    method AllocSlot(s: Slot) returns (ok: bool, b: nat, ghost logged: set<Place>)
      requires Valid() && ValidSlot(V(), s)
      requires s.k >= NADDRS ==> Ref(V(), Slot(s.inum, NDIRECT)) != 0
      modifies `bitmap, `data, `inodes, `owner
      ensures ok <==> !Full(sb, old(bitmap))
      ensures ok ==> sb.nmeta <= b < sb.size && b !in old(owner) && owner == old(owner)[b := s]
      ensures ok ==> V() == Allocated(old(V()), s, b) && bitmap == SetBit(old(bitmap), b)
      ensures !ok ==> owner == old(owner) && V() == old(V()) && bitmap == old(bitmap)
      ensures logged == if ok then FillLogged(s, b, old(Ref(V(), Slot(s.inum, NDIRECT)))) else {}
    {
      ghost var v0 := V();
      IndirectInRange(sb, v0, owner, s.inum);
      ok, b, logged := Balloc();
      if !ok {
        return;
      }
      if s.k < NADDRS {
        inodes := inodes[s.inum := inodes[s.inum].(addrs := inodes[s.inum].addrs[s.k := b])];
      } else {
        var ind := inodes[s.inum].addrs[NDIRECT];
        data := data[ind := SetWord(data[ind], s.k - NADDRS, b)];
        logged := logged + {DataAt(ind)};
      }
      assert V() == Allocated(v0, s, b);
      owner := owner[b := s];
    }

    /** AllocSlot on an empty slot: what it means for the files and for ownership. */
    method FillSlot(s: Slot) returns (ok: bool, b: nat, ghost logged: set<Place>)
      requires Valid() && ValidSlot(V(), s) && Ref(V(), s) == 0
      requires s.k >= NADDRS ==> Ref(V(), Slot(s.inum, NDIRECT)) != 0
      modifies `bitmap, `data, `inodes, `owner
      ensures Valid() && SameBytes(V(), old(V())) && OnlySlot(sb, old(Now()), Now(), s)
      ensures ok ==> b == Ref(V(), s) != 0
      ensures !ok ==> |owner| == Room(sb) && Ref(V(), s) == 0
      ensures Logs(old(owner), owner, s.inum, 0, 0, logged)
    {
      ghost var a := Now();
      FullCount(sb, V(), owner, bitmap);
      ok, b, logged := AllocSlot(s);
      if ok {
        FillEffect(sb, a, old(bitmap), s, b, Now());
      } else {
        NothingLogged(owner, s.inum, 0);
        SlotUntouched(sb, a, s);
      }
    }

    /** The block in a slot, allocated if the slot is empty. */
    method Fetch(s: Slot) returns (ok: bool, addr: nat, ghost logged: set<Place>)
      requires Valid() && ValidSlot(V(), s)
      requires s.k >= NADDRS ==> Ref(V(), Slot(s.inum, NDIRECT)) != 0
      modifies `bitmap, `data, `inodes, `owner
      ensures Valid() && SameBytes(V(), old(V())) && OnlySlot(sb, old(Now()), Now(), s)
      ensures ok ==> addr == Ref(V(), s) != 0
      ensures !ok ==> |owner| == Room(sb) && Ref(V(), s) == 0
      ensures Logs(old(owner), owner, s.inum, 0, 0, logged)
      ensures old(Ref(V(), s)) != 0 ==> ok && V() == old(V()) && owner == old(owner)
    {
      if s.k < NADDRS {
        addr := inodes[s.inum].addrs[s.k];
      } else {
        IndirectInRange(sb, V(), owner, s.inum);
        addr := Word(data[inodes[s.inum].addrs[NDIRECT]], s.k - NADDRS);
      }
      ok, logged := true, {};
      if addr == 0 {
        ok, addr, logged := FillSlot(s);
      } else {
        NothingLogged(owner, s.inum, 0);
        SlotUntouched(sb, Now(), s);
      }
    }

    /**
     The disk block of the bn-th block of a file, allocated if missing; false is a panic: the disk
     has not room for what is missing, or bn is out of range.  No byte of any file changes and no
     block changes hands.
    */
    method Bmap(inum: nat, bn: nat) returns (ok: bool, addr: nat, ghost logged: set<Place>)
      requires Valid() && inum < |inodes|
      modifies `bitmap, `data, `inodes, `owner
      ensures Valid() && SameBytes(V(), old(V())) && Extends(old(owner), owner)
      ensures ok <==> bn < MAXFILE && |old(owner)| + Need(old(V()), inum, bn, bn + 1) <= Room(sb)
      ensures ok ==> addr == Ref(V(), SlotOf(inum, bn)) != 0 && Mapped(sb, old(Now()), Now(), inum, bn, bn + 1)
      ensures ok ==> (inodes == old(inodes) <==> Rooted(old(V()), inum, bn))
      ensures ok ==> Logs(old(owner), owner, inum, 0, 0, logged)
      ensures !ok && bn < MAXFILE ==> Stuck(sb, old(Now()), Now(), inum, bn, bn + 1)
      ensures old(Present(V(), inum, bn)) ==> ok && V() == old(V()) && owner == old(owner)
    {
      if bn >= NDIRECT + NINDIRECT {
        ExtendsSelf(owner);
        return false, 0, {};
      }
      ok, addr, logged := MapBlock(inum, bn);
      ghost var a := old(Now());
      FullCount(sb, V(), owner, bitmap);
      if ok {
        MappedOne(sb, a, Now(), inum, bn);
      } else {
        StuckNeeds(sb, a, Now(), inum, bn, bn + 1, bn + 1);
      }
    }

    /** bmap below MAXFILE. */
    method MapBlock(inum: nat, bn: nat) returns (ok: bool, addr: nat, ghost logged: set<Place>)
      requires Valid() && inum < |inodes| && bn < MAXFILE
      modifies `bitmap, `data, `inodes, `owner
      ensures Valid() && SameBytes(V(), old(V())) && Extends(old(owner), owner)
      ensures ok ==> addr == Ref(V(), SlotOf(inum, bn)) != 0 && Mapped(sb, old(Now()), Now(), inum, bn, bn + 1)
      ensures ok ==> Logs(old(owner), owner, inum, 0, 0, logged)
      ensures !ok ==> Stuck(sb, old(Now()), Now(), inum, bn, bn + 1)
      ensures old(Present(V(), inum, bn)) ==> ok && V() == old(V()) && owner == old(owner)
    {
      ghost var a := Now();
      ok, addr, logged := true, 0, {};
      if bn >= NDIRECT {
        ok, addr, logged := Fetch(Slot(inum, NDIRECT));
        OnlyIndirect(sb, a, Now(), inum, bn);
        if !ok {
          SlotStuck(sb, a, Now(), inum, bn, Slot(inum, NDIRECT));
          return;
        }
      } else {
        WithinSelf(sb, a, inum, bn, bn + 1);
        NothingLogged(owner, inum, 0);
      }
      ghost var b, l := Now(), logged;
      ok, addr, logged := Fetch(SlotOf(inum, bn));
      BlockFetched(sb, a, b, Now(), inum, bn, l, logged);
      logged := l + logged;
      if !ok {
        SlotStuck(sb, a, Now(), inum, bn, SlotOf(inum, bn));
      }
    }

    /**
     Write an inode back: the disk then holds the file as it is in memory, and it accounts for
     every block as soon as no other inode is behind.
    */
    method Iupdate(inum: nat)
      requires Valid() && inum < |inodes|
      modifies `dinodes
      ensures Valid() && dinodes == old(dinodes)[inum := inodes[inum]]
      ensures File(D(), inum) == File(V(), inum)
      ensures OnDisk() <==> forall i :: 0 <= i < |inodes| && i != inum ==> old(dinodes[i]).addrs == inodes[i].addrs
    {
      dinodes := dinodes[inum := inodes[inum]];
      OwnedIff(sb, V(), owner, D());
      forall off | 0 <= off < inodes[inum].size ensures ByteAt(D(), inum, off) == ByteAt(V(), inum, off) {
      }
    }

    /** bmap for the block of a read at pos. */
    method MapForRead(ghost a: Snap, ghost f: seq<Byte>, inum: nat, off: nat, ghost reach: nat,
                      ghost bytes: seq<Byte>, tot: nat, pos: nat)
      returns (ok: bool, addr: nat)
      requires Valid() && inum < |inodes| && Contents(a.v, inum, f)
      requires ReadTo(sb, a, Now(), f, inum, off, tot, tot, bytes)
      requires pos < MAXSIZE && EndBlock(off, tot) == pos / BSIZE
      requires EndBlock(off, tot + 1) == pos / BSIZE + 1 <= EndBlock(off, reach)
      modifies `bitmap, `data, `inodes, `owner
      ensures Valid() && SameBytes(V(), a.v) && Extends(a.o, owner)
      ensures ok ==> addr == Ref(V(), SlotOf(inum, pos / BSIZE)) != 0
      ensures ok ==> ReadTo(sb, a, Now(), f, inum, off, tot, tot + 1, bytes)
      ensures !ok ==> NoRoom(sb, a, inum, off, reach)
      ensures Here(a, inum, off, reach) && old(Now()) == a ==> ok && Now() == a
    {
      ghost var b, l := Now(), {};
      ok, addr, l := MapBlock(inum, pos / BSIZE);
      SameBytesTransitive(a.v, b.v, V());
      ExtendsTwice(a.o, b.o, owner);
      HereAt(a, inum, off, reach, pos / BSIZE);
      if ok {
        ReadMapped(sb, a, b, Now(), f, inum, off, tot, pos, bytes);
      } else {
        BlockStuck(sb, a, b, Now(), inum, off, pos / BSIZE, reach);
      }
    }

    /** One pass of readi's loop, at pos; `copied` is either_copyout's result. */
    method ReadNext(ghost a: Snap, ghost f: seq<Byte>, inum: nat, off: nat, ghost want: nat, room: nat,
                    ghost reach: nat, bytes: seq<Byte>, tot: nat, pos: nat, tot': nat)
      returns (ok: bool, copied: bool, bytes': seq<Byte>)
      requires Valid() && inum < |inodes| && Contents(a.v, inum, f) && off + want <= |f|
      requires ReadTo(sb, a, Now(), f, inum, off, tot, tot, bytes)
      requires NextChunk(off, want, room, tot, pos, tot') && reach == Reach(off, want, room)
      modifies `bitmap, `data, `inodes, `owner
      ensures Valid() && SameBytes(V(), a.v) && Extends(a.o, owner)
      ensures copied <==> tot' <= room
      ensures ok && copied ==> ReadTo(sb, a, Now(), f, inum, off, tot', tot', bytes')
      ensures ok && !copied ==> ReadTo(sb, a, Now(), f, inum, off, tot, tot + 1, bytes')
      ensures !ok ==> NoRoom(sb, a, inum, off, reach)
      ensures Here(a, inum, off, reach) && old(Now()) == a ==> ok && Now() == a
    {
      copied, bytes' := tot' <= room, bytes;
      var addr;
      ok, addr := MapForRead(a, f, inum, off, reach, bytes, tot, pos);
      if ok && copied {
        var lo, hi := pos % BSIZE, pos % BSIZE + (tot' - tot);
        ReadChunk(sb, a, Now(), f, inum, off, tot, pos, tot', bytes, addr, lo, hi);
        bytes' := bytes + data[addr][lo..hi];
      }
    }

    /** The copying loop of readi. */
    method ReadBlocks(ghost f: seq<Byte>, inum: nat, off: nat, want: nat, room: nat, ghost reach: nat)
      returns (ok: bool, tot: int, bytes: seq<Byte>)
      requires Valid() && Contents(V(), inum, f) && off + want <= |f| && reach == Reach(off, want, room)
      modifies `bitmap, `data, `inodes, `owner
      ensures Valid() && SameBytes(V(), old(V())) && Extends(old(owner), owner)
      ensures ok ==> ReadRange(f, off, want, room, tot, bytes)
      ensures ok ==> Mapped(sb, old(Now()), Now(), inum, off / BSIZE, EndBlock(off, reach))
      ensures !ok ==> NoRoom(sb, old(Now()), inum, off, reach)
      ensures Here(old(Now()), inum, off, reach) ==> ok && Now() == old(Now())
    {
      ghost var a := Now();
      ghost var here := Here(a, inum, off, reach);
      tot, bytes, ok := 0, [], true;
      ReadNothing(sb, a, f, inum, off);
      while tot < want
        invariant ok && Progress(off, want, room, tot) && Valid()
        invariant ReadTo(sb, a, Now(), f, inum, off, tot, tot, bytes)
        invariant here ==> Now() == a
      {
        var pos := off + tot;
        var tot' := tot + Min(want - tot, BSIZE - pos % BSIZE);
        ChunkFits(off, want, room, tot, pos, tot');
        var copied;
        ok, copied, bytes := ReadNext(a, f, inum, off, want, room, reach, bytes, tot, pos, tot');
        if !ok || !copied {
          tot := -1;
          return;
        }
        tot := tot';
      }
      ReachDone(off, want, room);
    }

    /** readi once the request has been clipped. */
    method ReadClipped(inum: nat, off: nat, want: nat, room: nat, ghost reach: nat)
      returns (ok: bool, tot: int, bytes: seq<Byte>)
      requires Valid() && inum < |inodes| && off + want <= inodes[inum].size && reach == Reach(off, want, room)
      modifies `bitmap, `data, `inodes, `owner
      ensures Valid() && SameBytes(V(), old(V())) && Extends(old(owner), owner)
      ensures ok ==> ReadRange(old(File(V(), inum)), off, want, room, tot, bytes)
      ensures ok ==> Filled(old(V()), V(), inum)
      ensures ok <==> !NoRoom(sb, old(Now()), inum, off, reach)
      ensures ok && old(OnDisk()) ==> (OnDisk() <==> AllRooted(old(V()), inum, off / BSIZE, EndBlock(off, reach)))
      ensures Here(old(Now()), inum, off, reach) ==> ok && Now() == old(Now())
    {
      ghost var a, f := Now(), File(V(), inum);
      ghost var lo, hi := off / BSIZE, EndBlock(off, reach);
      assert forall o :: 0 <= o < |f| ==> ContentAt(a.v, inum, f, o);
      ok, tot, bytes := ReadBlocks(f, inum, off, want, room, reach);
      FullCount(sb, V(), owner, bitmap);
      if ok {
        MappedCount(sb, a, Now(), inum, lo, hi);
        MappedRooted(sb, a, Now(), inum, lo, hi);
        WithinFilled(sb, a, Now(), inum, lo, hi);
        if old(OnDisk()) {
          DiskBehind(sb, a.v, a.o, V(), owner, dinodes, inum);
        }
      }
    }

    /**
     Read up to n bytes at off; the destination accepts `room` bytes.  `bytes` is what was
     copied out and tot the return value; false is balloc's panic, when there is not room for the
     missing blocks.  Nothing is allocated if every block is there; the disk goes on accounting
     for every block exactly if no empty pointer of the inode is met.
    */
    method Readi(inum: nat, off: nat, n: nat, room: nat) returns (ok: bool, tot: int, bytes: seq<Byte>)
      requires Valid() && inum < |inodes|
      requires off < 0x1_0000_0000 && n < 0x1_0000_0000
      modifies `bitmap, `data, `inodes, `owner
      ensures Valid() && SameBytes(V(), old(V())) && Extends(old(owner), owner)
      ensures ok ==> ReadResult(old(File(V(), inum)), off, n, room, tot, bytes)
      ensures ok ==> Filled(old(V()), V(), inum)
      ensures var reach := ReadReach(old(inodes[inum].size), off, n, room);
        && (ok <==> !NoRoom(sb, old(Now()), inum, off, reach))
        && (ok && old(OnDisk()) ==> (OnDisk() <==> AllRooted(old(V()), inum, off / BSIZE, EndBlock(off, reach))))
        && (Here(old(Now()), inum, off, reach) ==> ok && Now() == old(Now()))
    {
      ghost var reach := ReadReach(inodes[inum].size, off, n, room);
      if off > inodes[inum].size || off + n >= 0x1_0000_0000 {
        ExtendsSelf(owner);
        NothingNeeded(sb, Now(), bitmap, inum, off / BSIZE);
        return true, 0, [];
      }
      ok, tot, bytes := ReadClipped(inum, off, Min(n, inodes[inum].size - off), room, reach);
    }

    /** One pass of writei's loop, at pos; `copied` is either_copyin's result. */
    method WriteNext(ghost a: Snap, inum: nat, off: nat, ghost n: nat, src: seq<Byte>, tot: nat, pos: nat, tot': nat,
                     ghost l: set<Place>)
      returns (ok: bool, copied: bool, ghost l': set<Place>)
      requires Valid() && inum < |inodes| && off + n <= MAXSIZE
      requires WroteTo(sb, a, Now(), src, inum, off, tot, tot, l) && NextChunk(off, n, |src|, tot, pos, tot')
      modifies `bitmap, `data, `inodes, `owner
      ensures Valid() && Extends(a.o, owner)
      ensures copied <==> tot' <= |src|
      ensures ok && copied ==> WroteTo(sb, a, Now(), src, inum, off, tot', tot', l')
      ensures ok && !copied ==> WroteTo(sb, a, Now(), src, inum, off, tot, tot + 1, l')
      ensures !ok ==> NoRoom(sb, a, inum, off, Reach(off, n, |src|)) && |owner| == Room(sb)
    {
      copied := tot' <= |src|;
      ghost var b := Now();
      var addr;
      ok, addr, l' := MapBlock(inum, pos / BSIZE);
      ExtendsTwice(a.o, b.o, owner);
      if !ok {
        BlockStuck(sb, a, b, Now(), inum, off, pos / BSIZE, Reach(off, n, |src|));
      } else {
        WriteMapped(sb, a, b, Now(), src, inum, off, tot, pos, l, l');
        l' := l + l';
        if copied {
          ghost var c := Now();
          Store(inum, pos, addr, src[tot..tot']);
          WriteChunk(sb, a, c, Now(), src, inum, off, tot, pos, tot', l', addr);
          l' := l' + {DataAt(addr)};
        }
      }
    }

    /** The copying loop of writei. */
    method WriteBlocks(inum: nat, off: nat, n: nat, src: seq<Byte>) returns (ok: bool, tot: nat, ghost l: set<Place>)
      requires Valid() && inum < |inodes| && off + n <= MAXSIZE
      modifies `bitmap, `data, `inodes, `owner
      ensures Valid() && Extends(old(owner), owner)
      ensures ok ==> tot == Transferred(off, n, |src|)
      ensures ok ==> WroteTo(sb, old(Now()), Now(), src, inum, off, tot, Reach(off, n, |src|), l)
      ensures !ok ==> NoRoom(sb, old(Now()), inum, off, Reach(off, n, |src|)) && |owner| == Room(sb)
    {
      ghost var a := Now();
      ok, tot, l := true, 0, {};
      WroteNothing(sb, a, src, inum, off);
      while tot < n
        invariant ok && Progress(off, n, |src|, tot) && Valid()
        invariant WroteTo(sb, a, Now(), src, inum, off, tot, tot, l)
      {
        var pos := off + tot;
        var tot' := tot + Min(n - tot, BSIZE - pos % BSIZE);
        ChunkFits(off, n, |src|, tot, pos, tot');
        var copied;
        ok, copied, l := WriteNext(a, inum, off, n, src, tot, pos, tot', l);
        if !ok || !copied {
          return;
        }
        tot := tot';
      }
      ReachDone(off, n, |src|);
    }

    /** Raise the size and write the inode back. */
    method RaiseSize(inum: nat, pos: nat)
      requires Valid() && inum < |inodes| && pos <= MAXSIZE
      modifies `inodes, `dinodes
      ensures Valid()
      ensures var size := old(inodes[inum].size); V() == WithSize(old(V()), inum, if pos > size then pos else size)
      ensures |inodes| == |old(inodes)| && dinodes == old(dinodes)[inum := inodes[inum]]
      ensures File(D(), inum) == File(V(), inum)
      ensures OnDisk() <==> forall i :: 0 <= i < |inodes| && i != inum ==> old(dinodes[i]).addrs == inodes[i].addrs
    {
      ghost var v := V();
      if pos > inodes[inum].size {
        inodes := inodes[inum := inodes[inum].(size := pos)];
      }
      assert V() == WithSize(v, inum, inodes[inum].size);
      SizeKeepsOwned(sb, v, owner, inum, inodes[inum].size);
      Iupdate(inum);
    }

    /** The end of writei. */
    method FinishWrite(ghost a: Snap, ghost src: seq<Byte>, inum: nat, off: nat, ghost n: nat, tot: nat,
                       ghost reach: nat, ghost l: set<Place>)
      returns (ghost logged: set<Place>)
      requires Valid() && inum < |inodes| && WroteTo(sb, a, Now(), src, inum, off, tot, reach, l)
      requires tot <= reach <= n && off + n <= MAXSIZE && off <= a.v.inodes[inum].size
      modifies `inodes, `dinodes
      ensures Valid() && |inodes| == |old(inodes)| && WriteDone(a, Now(), src, inum, off, tot, logged)
      ensures dinodes == old(dinodes)[inum := inodes[inum]] && File(D(), inum) == File(V(), inum)
      ensures |owner| == |a.o| + Need(a.v, inum, off / BSIZE, EndBlock(off, reach))
      ensures SmallWrite(sb, a.v, inum, off, n) ==> |logged| <= MAXOPBLOCKS
      ensures Owned(sb, Image(a.v.data, old(dinodes)), a.o) ==> OnDisk()
    {
      ghost var b := Now();
      logged := l + {InodeAt(inum / IPB)};
      RaiseSize(inum, off + tot);
      WriteEffect(sb, a, b, src, inum, off, n, tot, reach, Now(), l);
      if Owned(sb, Image(a.v.data, old(dinodes)), a.o) {
        OwnedIff(sb, a.v, a.o, Image(a.v.data, old(dinodes)));
      }
    }

    /** writei for a request that it does not reject. */
    method WriteAccepted(inum: nat, off: nat, n: nat, src: seq<Byte>, ghost reach: nat)
      returns (ok: bool, tot: nat, ghost logged: set<Place>)
      requires Valid() && inum < |inodes| && off <= inodes[inum].size && off + n <= MAXSIZE
      requires reach == Reach(off, n, |src|)
      modifies `bitmap, `data, `inodes, `dinodes, `owner
      ensures Valid() && |inodes| == |old(inodes)| && Extends(old(owner), owner)
      ensures ok <==> !NoRoom(sb, old(Now()), inum, off, reach)
      ensures |owner| == if ok then |old(owner)| + Need(old(V()), inum, off / BSIZE, EndBlock(off, reach)) else Room(sb)
      ensures ok ==> tot == Transferred(off, n, |src|) && WriteDone(old(Now()), Now(), src, inum, off, tot, logged)
      ensures ok ==> dinodes == old(dinodes)[inum := inodes[inum]] && File(D(), inum) == File(V(), inum)
      ensures ok && SmallWrite(sb, old(V()), inum, off, n) ==> |logged| <= MAXOPBLOCKS
      ensures ok && old(OnDisk()) ==> OnDisk()
    {
      ghost var a := Now();
      ok, tot, logged := WriteBlocks(inum, off, n, src);
      FullCount(sb, V(), owner, bitmap);
      if ok {
        logged := FinishWrite(a, src, inum, off, n, tot, reach, logged);
      }
    }

    /**
     Write n bytes at off from a source of which |src| bytes can be copied in; each chunk is
     copied completely or not at all.  The inode goes back to disk with the blocks it has got.
     False is balloc's panic, when there is not room for the missing blocks.
    */
    method Writei(inum: nat, off: nat, n: nat, src: seq<Byte>) returns (ok: bool, tot: int, ghost logged: set<Place>)
      requires Valid() && inum < |inodes|
      requires off < 0x1_0000_0000 && n < 0x1_0000_0000
      modifies `bitmap, `data, `inodes, `dinodes, `owner
      ensures Valid() && |inodes| == |old(inodes)| && Extends(old(owner), owner)
      ensures off > old(inodes[inum].size) || off + n > MAXSIZE
          ==> ok && tot == -1 && V() == old(V()) && dinodes == old(dinodes) && logged == {}
      ensures off <= old(inodes[inum].size) && off + n <= MAXSIZE ==>
        var reach := Reach(off, n, |src|);
        && (ok <==> !NoRoom(sb, old(Now()), inum, off, reach))
        && |owner| == if ok then |old(owner)| + Need(old(V()), inum, off / BSIZE, EndBlock(off, reach)) else Room(sb)
      ensures ok && off <= old(inodes[inum].size) && off + n <= MAXSIZE ==>
        && tot == Transferred(off, n, |src|) && WriteDone(old(Now()), Now(), src, inum, off, tot, logged)
        && dinodes == old(dinodes)[inum := inodes[inum]] && File(D(), inum) == File(V(), inum)
      ensures ok && SmallWrite(sb, old(V()), inum, off, n) ==> |logged| <= MAXOPBLOCKS
      ensures ok && old(OnDisk()) ==> OnDisk()
    {
      logged := {};
      if off > inodes[inum].size || off + n >= 0x1_0000_0000 {
        ExtendsSelf(owner);
        return true, -1, {};
      }
      if off + n > MAXFILE * BSIZE {
        ExtendsSelf(owner);
        return true, -1, {};
      }
      ok, tot, logged := WriteAccepted(inum, off, n, src, Reach(off, n, |src|));
    }

    /** memmove into the buffer of one data block. */
    method Store(inum: nat, pos: nat, addr: nat, bytes: seq<Byte>)
      requires Valid() && inum < |inodes| && pos < MAXSIZE && pos % BSIZE + |bytes| <= BSIZE
      requires addr == Ref(V(), SlotOf(inum, pos / BSIZE)) != 0
      modifies `data
      ensures Valid() && Written(old(V()), V(), inum, pos, bytes) && inodes == old(inodes)
    {
      OwnerOf(sb, V(), owner, SlotOf(inum, pos / BSIZE));
      StoreEffect(sb, V(), owner, inum, pos, addr, bytes);
      data := data[addr := CopyIn(data[addr], pos % BSIZE, bytes)];
    }

    /** bfree of slot k of a file, if it is in use; "freeing free block" cannot happen. */
    method FreeOne(ghost v0: Image, inum: nat, ghost k: nat, b: nat, ghost ks: set<nat>)
      requires Owned(sb, v0, owner) && PartlyFreed(sb, bitmap, owner, inum, ks)
      requires inum < |v0.inodes| && k < NADDRS + NINDIRECT && k !in ks && b == Ref(v0, Slot(inum, k))
      modifies `bitmap
      ensures PartlyFreed(sb, bitmap, owner, inum, ks + {k})
    {
      FreesOneMore(sb, v0, owner, bitmap, inum, ks, k);
      if b != 0 {
        StillSet(sb, v0, owner, bitmap, inum, ks, k);
        var freed := Bfree(b);
        assert freed;
      }
    }

    /** itrunc's loop over the direct blocks. */
    method FreeDirect(inum: nat) returns (ghost ks: set<nat>)
      requires Valid() && inum < |inodes|
      modifies `bitmap, `inodes
      ensures ks == Range(0, NDIRECT) && PartlyFreed(sb, bitmap, owner, inum, ks)
      ensures |inodes| == |old(inodes)| && inodes == old(inodes)[inum := inodes[inum]]
      ensures |inodes[inum].addrs| == NADDRS && forall k :: 0 <= k < NADDRS ==>
        inodes[inum].addrs[k] == if k < NDIRECT then 0 else old(inodes[inum].addrs[k])
    {
      ghost var v0 := V();
      ks := {};
      var i := 0;
      while i < NDIRECT
        invariant 0 <= i <= NDIRECT && (forall k :: k in ks <==> 0 <= k < i)
        invariant |inodes| == |old(inodes)| && inodes == old(inodes)[inum := inodes[inum]]
        invariant |inodes[inum].addrs| == NADDRS && forall k :: 0 <= k < NADDRS ==>
          inodes[inum].addrs[k] == if k < i then 0 else v0.inodes[inum].addrs[k]
        invariant PartlyFreed(sb, bitmap, owner, inum, ks)
      {
        var b := inodes[inum].addrs[i];
        assert b == Ref(v0, Slot(inum, i));
        FreeOne(v0, inum, i, b, ks);
        if b != 0 {
          inodes := inodes[inum := inodes[inum].(addrs := inodes[inum].addrs[i := 0])];
        }
        ks := ks + {i};
        i := i + 1;
      }
    }

    /** itrunc's loop over the entries of the indirect block. */
    method FreeIndirect(ghost v0: Image, inum: nat, ind: nat, ghost ks0: set<nat>) returns (ghost ks: set<nat>)
      requires Owned(sb, v0, owner) && PartlyFreed(sb, bitmap, owner, inum, ks0) && v0.data == data
      requires inum < |v0.inodes| && 0 < ind == Ref(v0, Slot(inum, NDIRECT)) < |data|
      requires forall k :: k in ks0 ==> k < NADDRS
      modifies `bitmap
      ensures PartlyFreed(sb, bitmap, owner, inum, ks)
      ensures ks == ks0 + Range(NADDRS, NADDRS + NINDIRECT)
    {
      ks := ks0;
      var j := 0;
      while j < NINDIRECT
        invariant 0 <= j <= NINDIRECT && (forall k :: k in ks <==> k in ks0 || NADDRS <= k < NADDRS + j)
        invariant PartlyFreed(sb, bitmap, owner, inum, ks)
      {
        var b := Word(data[ind], j);
        assert b == Ref(v0, Slot(inum, NADDRS + j));
        FreeOne(v0, inum, NADDRS + j, b, ks);
        ks := ks + {NADDRS + j};
        j := j + 1;
      }
    }

    /** itrunc's second half, on the bitmap: the indirect block and what it lists. */
    method FreeBehindIndirect(ghost v0: Image, inum: nat, ind: nat, ghost ks0: set<nat>)
      requires Owned(sb, v0, owner) && PartlyFreed(sb, bitmap, owner, inum, ks0) && v0.data == data
      requires inum < |v0.inodes| && ind == Ref(v0, Slot(inum, NDIRECT))
      requires ks0 == Range(0, NDIRECT)
      modifies `bitmap
      ensures BitmapOk(sb, bitmap, Without(owner, inum))
    {
      if ind == 0 {
        NoIndirect(sb, v0, owner, bitmap, inum, ks0);
        AllFreed(sb, v0, owner, bitmap, inum, ks0 + Range(NDIRECT, NADDRS + NINDIRECT));
        return;
      }
      IndirectInRange(sb, v0, owner, inum);
      ghost var ks := FreeIndirect(v0, inum, ind, ks0);
      StillSet(sb, v0, owner, bitmap, inum, ks, NDIRECT);
      FreesOneMore(sb, v0, owner, bitmap, inum, ks, NDIRECT);
      var freed := Bfree(ind);
      assert freed;
      AllFreed(sb, v0, owner, bitmap, inum, ks + {NDIRECT});
    }

    /** Everything itrunc frees: afterwards no slot of the file is in use. */
    method FreeAll(inum: nat)
      requires Valid() && inum < |inodes|
      modifies `bitmap, `inodes
      ensures BitmapOk(sb, bitmap, Without(owner, inum))
      ensures |inodes| == |old(inodes)|
      ensures inodes == old(inodes)[inum := inodes[inum]] && inodes[inum].addrs == seq(NADDRS, i => 0)
    {
      ghost var v0 := V();
      ghost var ks := FreeDirect(inum);
      var ind := inodes[inum].addrs[NDIRECT];
      FreeBehindIndirect(v0, inum, ind, ks);
      if ind != 0 {
        inodes := inodes[inum := inodes[inum].(addrs := inodes[inum].addrs[NDIRECT := 0])];
      }
    }

    /** Free every block of a file and make it empty; no bfree in it panics. */
    method Itrunc(inum: nat)
      requires Valid() && inum < |inodes|
      modifies `bitmap, `inodes, `dinodes, `owner
      ensures Valid()
      ensures V() == Truncated(old(V()), inum) && owner == Without(old(owner), inum)
      ensures File(V(), inum) == File(D(), inum) == [] && dinodes == old(dinodes)[inum := inodes[inum]]
      ensures old(OnDisk()) ==> OnDisk()
      ensures OthersSame(old(V()), V(), {inum})
    {
      TruncateKeepsOwned(sb, V(), owner, inum);
      if OnDisk() {
        OwnedIff(sb, V(), owner, D());
      }
      FreeAll(inum);
      inodes := inodes[inum := inodes[inum].(size := 0)];
      owner := Without(owner, inum);
      assert V() == Truncated(old(V()), inum);
      Iupdate(inum);
    }
  }

  lemma SplicedSlice(f: seq<Byte>, off: nat, d: seq<Byte>)
    requires off <= |f|
    ensures off + |d| <= |Spliced(f, off, d)| && Spliced(f, off, d)[off..off + |d|] == d
  {}

  /**
   What was written is what is read back, across direct and indirect blocks: if the disk has room
   for the write, the read that follows cannot fail, allocates nothing and returns the bytes.
  */
  method WriteThenRead(fs: FileSystem, inum: nat, off: nat, src: seq<Byte>)
    returns (ok: bool, tot: int, n: int, bytes: seq<Byte>)
    requires fs.Valid() && inum < |fs.inodes|
    requires off < 0x1_0000_0000 && |src| < 0x1_0000_0000
    modifies fs
    ensures fs.Valid() && |fs.inodes| == |old(fs.inodes)|
    ensures off <= old(fs.inodes[inum].size) && off + |src| <= MAXSIZE ==>
      (ok <==> !NoRoom(fs.sb, old(fs.Now()), inum, off, |src|))
    ensures ok && off <= old(fs.inodes[inum].size) && off + |src| <= MAXSIZE ==>
      && tot == n == |src| && bytes == src
      && File(fs.V(), inum) == Spliced(old(File(fs.V(), inum)), off, src)
    ensures off > old(fs.inodes[inum].size) || off + |src| > MAXSIZE
        ==> ok && tot == -1 && n == 0 && bytes == [] && fs.V() == old(fs.V())
    ensures ok && old(fs.OnDisk()) ==> fs.OnDisk()
  {
    n, bytes := 0, [];
    ghost var l;
    ok, tot, l := fs.Writei(inum, off, |src|, src);
    if ok && tot == |src| {
      assert src[..tot] == src;
      ghost var v := fs.V();
      SplicedSlice(old(File(fs.V(), inum)), off, src);
      PresentRooted(v, inum, off / BSIZE, EndBlock(off, |src|));
      ok, n, bytes := fs.Readi(inum, off, |src|, |src|);
    }
  }
}
