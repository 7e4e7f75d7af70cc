/**
 mkfs/mkfs.c: building the first file system with a bump allocator, and the bitmap it writes at
 the end.  A false result is mkfs giving up: reading a sector past the end of the image fails.
*/
module Mkfs {
  import opened FsLayout
  import opened FsImage
  import opened FsBlocks
  import opened FsLogged
  import opened FsTransfer
  import opened FileSystem
  import opened MkfsImage

  class Builder {
    var data: seq<Block>
    var inodes: seq<Inode>
    var freeblock: nat
    var freeinode: nat
    ghost var owner: map<nat, Slot>

    ghost function V(): Image
      reads this
    {
      Image(data, inodes)
    }

    ghost function Now(): Snap
      reads this
    {
      Snap(V(), owner)
    }

    /** Blocks below freeblock are exactly the owned ones, later blocks and inodes have never been written. */
    ghost predicate Valid()
      reads this
    {
      && Owned(SB, V(), owner) && NMETA <= freeblock <= FSSIZE && |inodes| == NINODES
      && (forall b :: b in owner <==> NMETA <= b < freeblock)
      && (forall b :: freeblock <= b < FSSIZE ==> data[b] == ZeroBlock())
      && 1 <= freeinode <= NINODES
      && (forall i :: freeinode <= i < NINODES ==> inodes[i] == EmptyInode())
    }

    constructor ()
      ensures Valid() && AllNeat(V()) && freeinode == 1 && freeblock == NMETA
      ensures forall i :: 0 <= i < NINODES ==> File(V(), i) == []
    {
      data := seq(FSSIZE, i => ZeroBlock());
      inodes := seq(NINODES, i => EmptyInode());
      freeblock, freeinode, owner := NMETA, 1, map[];
      new;
      ZeroImageOwned(V());
    }

    /** The bump allocator has handed out exactly the owned blocks. */
    lemma OwnerCount()
      requires Valid()
      ensures |owner| == freeblock - NMETA
    {
      RangeSize(NMETA, freeblock);
      assert owner.Keys == Range(NMETA, freeblock);
    }

    /** The next inode: an empty file that no earlier call has handed out. */
    method Ialloc() returns (inum: nat)
      requires Valid() && freeinode < NINODES
      modifies `freeinode, `inodes
      ensures Valid() && inum == old(freeinode) && freeinode == inum + 1
      ensures File(V(), inum) == [] && inodes == old(inodes)
    {
      inum := freeinode;
      freeinode := freeinode + 1;
      inodes := inodes[inum := EmptyInode()];
      assert inodes == old(inodes);
    }

    /** din.addrs[k] = freeblock++, or indirect[j] = freeblock++ and wsect, followed by rsect. */
    method Bump(s: Slot) returns (ok: bool, b: nat)
      requires Valid() && ValidSlot(V(), s) && Ref(V(), s) == 0 && s.inum < freeinode
      requires s.k >= NADDRS ==> Ref(V(), Slot(s.inum, NDIRECT)) != 0
      modifies `data, `inodes, `freeblock, `owner
      ensures ok <==> old(freeblock) < FSSIZE
      ensures Valid() && SameBytes(V(), old(V())) && OnlySlot(SB, old(Now()), Now(), s)
      ensures ok ==> Ref(V(), s) == b != 0 && freeblock == old(freeblock) + 1
      ensures !ok ==> Now() == old(Now()) && freeblock == old(freeblock)
    {
      b := freeblock;
      ghost var a := Now();
      if b >= FSSIZE {
        SlotUntouched(SB, a, s);
        return false, b;
      }
      BumpEffect(a, s, b);
      if s.k < NADDRS {
        inodes := inodes[s.inum := inodes[s.inum].(addrs := inodes[s.inum].addrs[s.k := b])];
      } else {
        var ind := inodes[s.inum].addrs[NDIRECT];
        data := data[ind := SetWord(data[ind], s.k - NADDRS, b)];
      }
      assert V() == SetRef(a.v, s, b);
      freeblock := freeblock + 1;
      owner := owner[b := s];
      return true, b;
    }

    /** The block of a slot of the file being appended to. */
    method Fetch(s: Slot) returns (ok: bool, b: nat)
      requires Valid() && ValidSlot(V(), s) && s.inum < freeinode
      requires s.k >= NADDRS ==> Ref(V(), Slot(s.inum, NDIRECT)) != 0
      modifies `data, `inodes, `freeblock, `owner
      ensures Valid() && SameBytes(V(), old(V())) && OnlySlot(SB, old(Now()), Now(), s)
      ensures ok ==> Ref(V(), s) == b != 0
      ensures !ok ==> |owner| == Room(SB) && Ref(V(), s) == 0
    {
      if s.k < NADDRS {
        b := inodes[s.inum].addrs[s.k];
      } else {
        IndirectInRange(SB, V(), owner, s.inum);
        b := Word(data[inodes[s.inum].addrs[NDIRECT]], s.k - NADDRS);
      }
      ok := true;
      if b == 0 {
        ok, b := Bump(s);
        OwnerCount();
      } else {
        SlotUntouched(SB, Now(), s);
      }
    }

    /** The block that offset off of a file lies in, as iappend finds or adds it. */
    method FetchBlock(inum: nat, fbn: nat) returns (ok: bool, x: nat)
      requires Valid() && inum < freeinode && fbn < MAXFILE
      modifies `data, `inodes, `freeblock, `owner
      ensures Valid() && SameBytes(V(), old(V()))
      ensures ok ==> Ref(V(), SlotOf(inum, fbn)) == x != 0 && Mapped(SB, old(Now()), Now(), inum, fbn, fbn + 1)
      ensures !ok ==> Stuck(SB, old(Now()), Now(), inum, fbn, fbn + 1)
    {
      ghost var a := Now();
      if fbn >= NDIRECT {
        ok, x := Fetch(Slot(inum, NDIRECT));
        OnlyIndirect(SB, a, Now(), inum, fbn);
        if !ok {
          SlotStuck(SB, a, Now(), inum, fbn, Slot(inum, NDIRECT));
          return;
        }
      } else {
        WithinSelf(SB, a, inum, fbn, fbn + 1);
      }
      ghost var b := Now();
      ok, x := Fetch(SlotOf(inum, fbn));
      SameBytesTransitive(a.v, b.v, V());
      OnlyBlock(SB, b, Now(), inum, fbn);
      WithinTwice(SB, a, b, Now(), inum, fbn, fbn + 1, fbn, fbn + 1);
      if !ok {
        SlotStuck(SB, a, Now(), inum, fbn, SlotOf(inum, fbn));
      }
    }

    /** One pass of iappend's loop: the bytes that go to the block of offset off. */
    method AppendChunk(inum: nat, off: nat, bytes: seq<Byte>) returns (ok: bool)
      requires Valid() && inum < freeinode && off < MAXSIZE && 0 < |bytes| && off % BSIZE + |bytes| <= BSIZE
      modifies `data, `inodes, `freeblock, `owner
      ensures Valid()
      ensures ok ==> Written(old(V()), V(), inum, off, bytes)
      ensures ok ==> Mapped(SB, old(Now()), Now(), inum, off / BSIZE, off / BSIZE + 1)
      ensures !ok ==> Stuck(SB, old(Now()), Now(), inum, off / BSIZE, off / BSIZE + 1)
    {
      var x;
      ghost var a := Now();
      ok, x := FetchBlock(inum, off / BSIZE);
      if ok {
        ghost var b := Now();
        OwnerOf(SB, b.v, owner, SlotOf(inum, off / BSIZE));
        StoreEffect(SB, b.v, owner, inum, off, x, bytes);
        data := data[x := CopyIn(data[x], off % BSIZE, bytes)];
        WrittenAfterSame(a.v, b.v, V(), inum, off, bytes);
        MappedStore(SB, a, b, Now(), inum, off / BSIZE, off / BSIZE + 1);
      }
    }

    /** iappend's loop has written the first `done` bytes at off. */
    ghost predicate Appended(a: Snap, inum: nat, off: nat, bytes: seq<Byte>, done: nat)
      reads this
    {
      && Mapped(SB, a, Now(), inum, off / BSIZE, EndBlock(off, done)) && done <= |bytes|
      && Written(a.v, V(), inum, off, bytes[..done]) && Tidy(V(), inum, off + done)
    }

    /** One pass of iappend's loop, from `done` bytes to done'. */
    method AppendNext(ghost a: Snap, inum: nat, off: nat, bytes: seq<Byte>, done: nat, pos: nat, done': nat)
      returns (ok: bool)
      requires Valid() && inum < freeinode && off + done <= MAXSIZE && Appended(a, inum, off, bytes, done)
      requires NextChunk(off, |bytes|, |bytes|, done, pos, done')
      modifies `data, `inodes, `freeblock, `owner
      ensures Valid()
      ensures ok ==> off + done' <= MAXSIZE && Appended(a, inum, off, bytes, done')
      ensures !ok ==> off + |bytes| > MAXSIZE || NoRoom(SB, a, inum, off, |bytes|)
    {
      if pos / BSIZE >= MAXFILE {
        return false;   // assert(fbn < MAXFILE)
      }
      ghost var b := Now();
      ok := AppendChunk(inum, pos, bytes[done..done']);
      if ok {
        AppendedNext(a, b, Now(), inum, off, bytes, done, pos, done');
      } else {
        ReachDone(off, |bytes|, |bytes|);
        BlockStuck(SB, a, b, Now(), inum, off, pos / BSIZE, |bytes|);
      }
    }

    /** The loop of iappend, without the final size update. */
    method AppendBytes(inum: nat, off: nat, bytes: seq<Byte>) returns (ok: bool)
      requires Valid() && inum < freeinode && off <= MAXSIZE && Tidy(V(), inum, off)
      modifies `data, `inodes, `freeblock, `owner
      ensures Valid()
      ensures ok ==> off + |bytes| <= MAXSIZE && Written(old(V()), V(), inum, off, bytes)
      ensures ok ==> Tidy(V(), inum, off + |bytes|)
      ensures ok ==> Mapped(SB, old(Now()), Now(), inum, off / BSIZE, EndBlock(off, |bytes|))
      ensures !ok ==> off + |bytes| > MAXSIZE || NoRoom(SB, old(Now()), inum, off, |bytes|)
    {
      ghost var a := Now();
      NothingAppended(a, inum, off, bytes);
      var done := 0;
      while done < |bytes|
        invariant Progress(off, |bytes|, |bytes|, done) && off + done <= MAXSIZE
        invariant Valid() && Appended(a, inum, off, bytes, done)
      {
        var pos := off + done;
        var done' := done + Min(|bytes| - done, BSIZE - pos % BSIZE);
        ChunkFits(off, |bytes|, |bytes|, done, pos, done');
        ok := AppendNext(a, inum, off, bytes, done, pos, done');
        if !ok {
          return;
        }
        done := done';
      }
      assert bytes[..done] == bytes;
      ok := true;
    }

    /** ... with the exact number of blocks it takes. */
    method AppendExact(inum: nat, off: nat, bytes: seq<Byte>) returns (ok: bool)
      requires Valid() && inum < freeinode && off <= MAXSIZE && Tidy(V(), inum, off)
      modifies `data, `inodes, `freeblock, `owner
      ensures Valid()
      ensures ok ==> Written(old(V()), V(), inum, off, bytes) && Tidy(V(), inum, off + |bytes|)
      ensures ok <==> off + |bytes| <= MAXSIZE && old(freeblock) + AddedBlocks(off, |bytes|) <= FSSIZE
      ensures ok ==> freeblock == old(freeblock) + AddedBlocks(off, |bytes|)
    {
      ghost var a := Now();
      assert EndOf(a.v, inum, off, inum) == off && Neat(a.v, inum, off);
      OwnerCount();
      ok := AppendBytes(inum, off, bytes);
      OwnerCount();
      if off + |bytes| <= MAXSIZE {
        NeatNeed(a.v, inum, off, |bytes|);
        if ok {
          MappedCount(SB, a, Now(), inum, off / BSIZE, EndBlock(off, |bytes|));
        }
      }
    }

    /** Append to a file; every other file keeps its contents. */
    method Iappend(inum: nat, bytes: seq<Byte>) returns (ok: bool)
      requires Valid() && AllNeat(V()) && inum < freeinode
      modifies `data, `inodes, `freeblock, `owner
      ensures var size := old(inodes[inum].size);
        && (ok <==> size + |bytes| <= MAXSIZE && old(freeblock) + AddedBlocks(size, |bytes|) <= FSSIZE)
        && (ok ==> freeblock == old(freeblock) + AddedBlocks(size, |bytes|))
      ensures ok ==> Valid() && AllNeat(V()) && File(V(), inum) == old(File(V(), inum)) + bytes
      ensures ok ==> OthersSame(old(V()), V(), {inum})
    {
      ghost var v0 := V();
      var off := inodes[inum].size;
      TidyOrNeat(v0, inum);
      ok := AppendExact(inum, off, bytes);
      if ok {
        ghost var v := V();
        inodes := inodes[inum := inodes[inum].(size := off + |bytes|)];
        assert V() == WithSize(v, inum, off + |bytes|);
        SizeKeepsOwned(SB, v, owner, inum, off + |bytes|);
        AppendEffect(v0, v, inum, bytes, off + |bytes|);
      }
    }

    /** The loop that copies a file of the host in: it is read a block at a time. */
    method AppendFile(inum: nat, contents: seq<Byte>) returns (ok: bool)
      requires Valid() && AllNeat(V()) && inum < freeinode && File(V(), inum) == []
      modifies `data, `inodes, `freeblock, `owner
      ensures ok <==> |contents| <= MAXSIZE && old(freeblock) + FileBlocks(|contents|) <= FSSIZE
      ensures ok ==> Valid() && AllNeat(V()) && File(V(), inum) == contents && OthersSame(old(V()), V(), {inum})
      ensures ok ==> freeblock == old(freeblock) + FileBlocks(|contents|)
    {
      ghost var v0 := V();
      var done := 0;
      while done < |contents|
        invariant 0 <= done <= |contents| && done <= MAXSIZE && Valid() && AllNeat(V())
        invariant File(V(), inum) == contents[..done] && OthersSame(v0, V(), {inum})
        invariant freeblock == old(freeblock) + FileBlocks(done)
      {
        var cc := Min(BSIZE, |contents| - done);
        ok := AppendPart(v0, inum, contents, done, done + cc);
        if !ok {
          FileBlocksGrow(done + cc, |contents|);
          return;
        }
        done := done + cc;
      }
      assert contents[..done] == contents;
      ok := true;
    }

    /** One read and iappend of that loop. */
    method AppendPart(ghost v0: Image, inum: nat, contents: seq<Byte>, done: nat, done': nat) returns (ok: bool)
      requires Valid() && AllNeat(V()) && inum < freeinode && done <= done' <= |contents|
      requires File(V(), inum) == contents[..done] && OthersSame(v0, V(), {inum})
      modifies `data, `inodes, `freeblock, `owner
      ensures ok <==> done' <= MAXSIZE && old(freeblock) + AddedBlocks(done, done' - done) <= FSSIZE
      ensures ok ==> Valid() && AllNeat(V()) && File(V(), inum) == contents[..done'] && OthersSame(v0, V(), {inum})
      ensures ok ==> freeblock == old(freeblock) + AddedBlocks(done, done' - done)
    {
      ghost var v1 := V();
      assert inodes[inum].size == |File(V(), inum)| == done;
      assert contents[..done] + contents[done..done'] == contents[..done'];
      ok := Iappend(inum, contents[done..done']);
      if ok {
        OthersTwice(v0, v1, V(), {inum}, {inum});
        assert {inum} + {inum} == {inum};
      }
    }

    /** One turn of the loop over mkfs's arguments. */
    method AddFile(file: Input) returns (ok: bool)
      requires Valid() && AllNeat(V()) && ROOTINO < freeinode < NINODES
      modifies this
      ensures var size := |old(File(V(), ROOTINO))|;
        && (ok <==> Admissible(file) && size + DIRENT <= MAXSIZE
                    && old(freeblock) + AddedBlocks(size, DIRENT) + FileBlocks(|file.contents|) <= FSSIZE)
        && (ok ==> freeblock == old(freeblock) + AddedBlocks(size, DIRENT) + FileBlocks(|file.contents|))
      ensures ok ==> Valid() && AllNeat(V()) && freeinode == old(freeinode) + 1
      ensures ok ==> File(V(), ROOTINO) == old(File(V(), ROOTINO)) + Dirent(old(freeinode), ShortName(file.path))
      ensures ok ==> File(V(), old(freeinode)) == file.contents
      ensures ok ==> OthersSame(old(V()), V(), {ROOTINO, old(freeinode)})
    {
      if SLASH in Stripped(file.path) {
        return false;   // assert(index(shortname, '/') == 0)
      }
      ghost var v0 := V();
      var inum := Ialloc();
      ok := Iappend(ROOTINO, Dirent(inum, ShortName(file.path)));
      if ok {
        ghost var v1 := V();
        assert SameFile(v0, v1, inum);
        ok := AppendFile(inum, file.contents);
        if ok {
          OthersTwice(v0, v1, V(), {ROOTINO}, {inum});
          assert {ROOTINO} + {inum} == {ROOTINO, inum} && SameFile(v1, V(), ROOTINO);
        }
      }
    }

    /** The root directory with its first two entries. */
    method Start()
      requires Valid() && AllNeat(V()) && freeinode == ROOTINO && freeblock == NMETA && File(V(), ROOTINO) == []
      modifies this
      ensures Valid() && AllNeat(V()) && freeinode == 2 && freeblock == NMETA + FileBlocks(2 * DIRENT)
      ensures File(V(), ROOTINO) == Dirent(ROOTINO, [DOT]) + Dirent(ROOTINO, [DOT, DOT])
    {
      var root := Ialloc();
      AddSelf([DOT]);
      AddSelf([DOT, DOT]);
    }

    /** An entry of the root directory for itself. */
    method AddSelf(name: seq<Byte>)
      requires Valid() && AllNeat(V()) && freeinode == 2 && |File(V(), ROOTINO)| <= DIRENT && freeblock < FSSIZE
      modifies this
      ensures Valid() && AllNeat(V()) && freeinode == 2
      ensures freeblock == old(freeblock) + AddedBlocks(|old(File(V(), ROOTINO))|, DIRENT)
      ensures |File(V(), ROOTINO)| <= 2 * DIRENT
      ensures File(V(), ROOTINO) == old(File(V(), ROOTINO)) + Dirent(ROOTINO, name)
    {
      var ok := Iappend(ROOTINO, Dirent(ROOTINO, name));
      assert ok;
    }

    /** The first k arguments have been handled. */
    ghost predicate Handled(files: seq<Input>, k: nat)
      requires k <= |files|
      reads this
    {
      && Valid() && AllNeat(V()) && freeinode == k + 2 && Holds(V(), files, k)
      && freeblock == NMETA + TotalBlocks(files, k) && AllAdmissible(files, k)
    }

    /** The next argument. */
    method AddNext(files: seq<Input>, k: nat) returns (ok: bool)
      requires k < |files| && k + 3 <= NINODES && Handled(files, k)
      modifies this
      ensures ok ==> Handled(files, k + 1)
      ensures !ok ==> !Acceptable(files)
    {
      TotalStep(files, k);
      ghost var v := V();
      ok := AddFile(files[k]);
      if ok {
        HoldsNext(v, V(), files, k);
      } else {
        NotAcceptable(files, k);
      }
    }

    /** The loop over mkfs's arguments. */
    method AddFiles(files: seq<Input>) returns (ok: bool)
      requires |files| + 2 <= NINODES && Handled(files, 0)
      modifies this
      ensures ok <==> Acceptable(files)
      ensures ok ==> Handled(files, |files|)
    {
      var i := 0;
      while i < |files|
        invariant 0 <= i <= |files| && Handled(files, i)
      {
        ok := AddNext(files, i);
        if !ok {
          return;
        }
        i := i + 1;
      }
      ok := true;
    }

    /** "fix size of root inode dir": round up to the next block, one further if already whole. */
    method FixRootSize(root: nat)
      requires Valid() && AllNeat(V()) && root < freeinode && inodes[root].size < MAXSIZE
      modifies `inodes
      ensures Valid() && File(V(), root) == Padded(old(File(V(), root)))
      ensures OthersSame(old(V()), V(), {root})
      ensures Present(V(), root, old(inodes[root].size) / BSIZE) <==> old(inodes[root].size) % BSIZE != 0
    {
      ghost var v := V();
      var off := (inodes[root].size / BSIZE + 1) * BSIZE;
      NeatAt(v, root);
      RaisedFile(v, root, off);
      RaisedOthers(v, root, off);
      RaisedHole(v, root, off);
      SizeKeepsOwned(SB, v, owner, root, off);
      inodes := inodes[root := inodes[root].(size := off)];
      assert V() == WithSize(v, root, off);
    }

    /** mkfs's balloc: mark the first `used` blocks. */
    static method Balloc(used: nat) returns (bm: seq<BitBlock>)
      requires used < BSIZE * 8
      ensures |bm| == 1 && forall b :: 0 <= b < BPB ==> (Bit(bm, b) <==> b < used)
    {
      bm := [seq(BSIZE, j => seq(8, i => false))];
      var i := 0;
      while i < used
        invariant 0 <= i <= used && |bm| == 1
        invariant forall b :: 0 <= b < BPB ==> (Bit(bm, b) <==> b < i)
      {
        ghost var prev := bm;
        bm := SetBit(bm, i);
        forall b | 0 <= b < BPB ensures Bit(bm, b) <==> b < i + 1 {
          BitAfterSet(prev, i, b);
        }
        i := i + 1;
      }
    }

    /** The finished image is one the kernel may mount: block ownership holds from the start. */
    method Finish() returns (fs: FileSystem)
      requires Valid()
      ensures fresh(fs) && fs.Valid() && fs.OnDisk() && fs.sb == SB
      ensures fs.data == data && fs.inodes == fs.dinodes == inodes && fs.owner == owner
    {
      var bm := Balloc(freeblock);
      fs := new FileSystem(SB, bm, data, inodes, owner);
    }
  }

  lemma NothingAppended(a: Snap, inum: nat, off: nat, bytes: seq<Byte>)
    requires Owned(SB, a.v, a.o) && inum < |a.v.inodes| && off <= MAXSIZE
    ensures Mapped(SB, a, a, inum, off / BSIZE, EndBlock(off, 0)) && Written(a.v, a.v, inum, off, bytes[..0])
  {
    NothingMapped(SB, a, inum, off / BSIZE);
    SameIsWritten(a.v, a.v, inum, off);
    assert bytes[..0] == [];
  }

  lemma AppendedNext(a: Snap, b: Snap, c: Snap, inum: nat, off: nat, bytes: seq<Byte>, done: nat, pos: nat, done': nat)
    requires inum < |a.v.inodes| && Mapped(SB, a, b, inum, off / BSIZE, EndBlock(off, done))
    requires NextChunk(off, |bytes|, |bytes|, done, pos, done')
    requires Written(a.v, b.v, inum, off, bytes[..done]) && Tidy(b.v, inum, off + done)
    requires Mapped(SB, b, c, inum, pos / BSIZE, pos / BSIZE + 1) && Written(b.v, c.v, inum, pos, bytes[done..done'])
    ensures off + done' <= MAXSIZE && Mapped(SB, a, c, inum, off / BSIZE, EndBlock(off, done'))
    ensures Written(a.v, c.v, inum, off, bytes[..done']) && Tidy(c.v, inum, off + done')
  {
    MappedNext(SB, a, b, c, inum, off / BSIZE, pos / BSIZE, pos / BSIZE + 1);
    assert bytes[..done] + bytes[done..done'] == bytes[..done'];
    WrittenNext(a.v, b.v, c.v, inum, off, bytes[..done], bytes[done..done']);
    NeatStep(b, c, inum, pos, bytes[done..done'], off + done');
  }

  lemma ZeroImageOwned(v: Image)
    requires |v.data| == FSSIZE && |v.inodes| == NINODES
    requires forall i :: 0 <= i < NINODES ==> v.inodes[i] == EmptyInode()
    ensures Owned(SB, v, map[]) && AllNeat(v)
  {}

  lemma BumpEffect(a: Snap, s: Slot, b: nat)
    requires Fillable(SB, a.v, a.o, s, b)
    ensures s.k >= NADDRS ==> Ref(a.v, Slot(s.inum, NDIRECT)) < |a.v.data|
    ensures var c := Snap(SetRef(a.v, s, b), a.o[b := s]);
            Owned(SB, c.v, c.o) && SameBytes(c.v, a.v) && OnlySlot(SB, a, c, s) && Ref(c.v, s) == b
    ensures forall c :: 0 <= c < FSSIZE && c !in a.o ==> SetRef(a.v, s, b).data[c] == a.v.data[c]
  {
    OwnerOf(SB, a.v, a.o, Slot(s.inum, NDIRECT));
    FillKeepsOwned(SB, a.v, a.o, s, b);
    FillKeepsBytes(SB, a.v, a.o, s, b);
    var c := Snap(SetRef(a.v, s, b), a.o[b := s]);
    forall t | ValidSlot(a.v, t) ensures Ref(c.v, t) == if t == s then b else Ref(a.v, t) {
      FillSetsOneRef(SB, a.v, a.o, s, b, t);
    }
    SlotFilled(SB, a, c, s, b);
  }

  /**
   mkfs for any list of files: the image is one the kernel may mount, every file holds what its
   argument holds, and the root directory names them, padded with zeroes to whole blocks.  The
   last block of the directory is missing exactly if its entries filled whole blocks.
  */
  method Build(files: seq<Input>) returns (fs: FileSystem?)
    requires |files| + 2 <= NINODES
    ensures fs != null <==> Acceptable(files)
    ensures fs != null ==>
      && fresh(fs) && fs.Valid() && fs.OnDisk() && fs.sb == SB && |fs.inodes| == NINODES && fs.dinodes == fs.inodes
      && (forall i {:trigger files[i]} :: 0 <= i < |files| ==> File(fs.V(), i + 2) == files[i].contents)
      && File(fs.V(), ROOTINO) == Padded(RootDir(files, |files|))
      && (Present(fs.V(), ROOTINO, |RootDir(files, |files|)| / BSIZE) <==> |RootDir(files, |files|)| % BSIZE != 0)
      && |fs.owner| == TotalBlocks(files, |files|)
  {
    fs := null;
    var b := new Builder();
    b.Start();
    var ok := b.AddFiles(files);
    if !ok {
      return;
    }
    ghost var v := b.V();
    b.FixRootSize(ROOTINO);
    forall i | 0 <= i < |files| ensures File(b.V(), i + 2) == files[i].contents {
      HoldsFixed(v, b.V(), files, i);
    }
    b.OwnerCount();
    fs := b.Finish();
  }

  // ---------------------------------------------------------------- a hole from the start

  function EmptyFiles(n: nat): (files: seq<Input>)
    ensures |files| == n
  {
    seq(n, i => Input([97], []))
  }

  lemma {:induction false} EmptyFilesBlocks(n: nat, k: nat)
    requires k <= n
    ensures ContentBlocks(EmptyFiles(n), k) == 0
  {
    if k > 0 {
      EmptyFilesBlocks(n, k - 1);
    }
  }

  lemma {:induction false} EmptyFilesAdmissible(n: nat, k: nat)
    requires k <= n
    ensures AllAdmissible(EmptyFiles(n), k)
  {
    if k > 0 {
      EmptyFilesAdmissible(n, k - 1);
    }
  }

  lemma EmptyFilesFit(n: nat)
    requires n + 2 <= NINODES
    ensures Acceptable(EmptyFiles(n)) && TotalBlocks(EmptyFiles(n), n) == FileBlocks(DIRENT * (n + 2)) <= 4
  {
    EmptyFilesBlocks(n, n);
    EmptyFilesAdmissible(n, n);
  }

  /**
   Reading a byte of a missing direct block, with a block free, allocates it without iupdate: the
   bitmap then has a bit set for a block that no inode on disk holds.
  */
  method ReadHole(fs: FileSystem, inum: nat, off: nat) returns (ghost lost: nat)
    requires fs.Valid() && fs.OnDisk() && fs.dinodes == fs.inodes && inum < |fs.inodes|
    requires off < fs.inodes[inum].size && off / BSIZE < NDIRECT && !Present(fs.V(), inum, off / BSIZE)
    requires |fs.owner| < Room(fs.sb)
    modifies fs
    ensures fs.Valid() && !fs.OnDisk()
    ensures fs.sb.nmeta <= lost < fs.sb.size && Bit(fs.bitmap, lost)
    ensures forall s :: ValidSlot(fs.D(), s) ==> Ref(fs.D(), s) != lost
  {
    ghost var v, bn := fs.V(), off / BSIZE;
    DirectNeed(v, inum, bn);
    assert ReadReach(fs.inodes[inum].size, off, 1, 1) == 1 && EndBlock(off, 1) == bn + 1 && !Rooted(v, inum, bn);
    var ok, tot, bytes := fs.Readi(inum, off, 1, 1);
    assert !AllRooted(v, inum, bn, bn + 1);
    OwnedIff(fs.sb, fs.V(), fs.owner, fs.D());
    lost := LostBlock(fs.sb, fs.V(), fs.owner, fs.D(), inum);
    SlotOwned(fs.sb, fs.V(), fs.owner, lost);
  }

  /** A direct block needs no more than itself. */
  lemma DirectNeed(v: Image, inum: nat, bn: nat)
    requires Shape(v) && inum < |v.inodes| && bn < NDIRECT
    ensures Need(v, inum, bn, bn + 1) <= 1
  {
    var e := Empty(v, inum, bn, bn + 1);
    forall s | s in e ensures s == SlotOf(inum, bn) {
      EmptyIff(v, inum, bn, bn + 1, s);
    }
    SubsetSize(e, {SlotOf(inum, bn)});
  }

  /** With 62 files the root directory fills a block, so mkfs gives it a second one that does not exist. */
  method RootReadLosesBlock() returns (fs: FileSystem, ghost lost: nat)
    ensures fs.Valid() && !fs.OnDisk()
    ensures fs.sb.nmeta <= lost < fs.sb.size && Bit(fs.bitmap, lost)
    ensures forall s :: ValidSlot(fs.D(), s) ==> Ref(fs.D(), s) != lost
  {
    var n := 62;
    var files := EmptyFiles(n);
    EmptyFilesFit(n);
    assert |RootDir(files, |files|)| == BSIZE;
    fs := Build(files);
    assert |File(fs.V(), ROOTINO)| == 2 * BSIZE && !Present(fs.V(), ROOTINO, BSIZE / BSIZE);
    lost := ReadHole(fs, ROOTINO, BSIZE);
  }
}
