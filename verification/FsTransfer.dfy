/**
 The transfers of readi and writei as values: how far they get, block by block, and what each
 block adds to what has been read or written (kernel/fs.c).
*/
module FsTransfer {
  import opened FsLayout
  import opened FsImage
  import opened FsBlocks
  import opened FsLogged

  /** How much of an n-byte transfer at `off` succeeds when `avail` bytes can be copied. */
  function Transferred(off: nat, n: nat, avail: nat): (r: nat)
    ensures r <= n && r <= avail
    ensures avail >= n ==> r == n
    decreases n
  {
    var m := Min(n, BSIZE - off % BSIZE);
    if n == 0 || m > avail then 0 else m + Transferred(off + m, n - m, avail - m)
  }

  /** After tot bytes the transfer is at a block boundary, on the way to Transferred(off, n, avail). */
  ghost predicate Progress(off: nat, n: nat, avail: nat, tot: int) {
    && 0 <= tot <= n && tot <= avail && (tot == 0 || tot == n || (off + tot) % BSIZE == 0)
    && Transferred(off, n, avail) == tot + Transferred(off + tot, n - tot, avail - tot)
  }

  function Min(a: int, b: int): int { if a < b then a else b }

  /** blk with `bytes` copied in at offset `at`. */
  function CopyIn(blk: Block, at: nat, bytes: seq<Byte>): (r: Block)
    requires at + |bytes| <= BSIZE
    ensures forall i :: 0 <= i < BSIZE ==> r[i] == if at <= i < at + |bytes| then bytes[i - at] else blk[i]
  {
    blk[..at] + bytes + blk[at + |bytes|..]
  }

  /** Consecutive bytes of one block. */
  lemma SameBlock(pos: nat, i: nat)
    requires pos % BSIZE + i < BSIZE
    ensures (pos + i) / BSIZE == pos / BSIZE && (pos + i) % BSIZE == pos % BSIZE + i
  {}

  predicate ContentAt(v: Image, inum: nat, f: seq<Byte>, o: nat)
    requires Shape(v) && inum < |v.inodes| && |f| == v.inodes[inum].size && o < |f|
  {
    f[o] == ByteAt(v, inum, o)
  }

  /** f is the contents of the file. */
  ghost predicate Contents(v: Image, inum: nat, f: seq<Byte>) {
    && Shape(v) && inum < |v.inodes| && |f| == v.inodes[inum].size
    && forall o {:trigger ContentAt(v, inum, f, o)} :: 0 <= o < |f| ==> ContentAt(v, inum, f, o)
  }

  /** The bytes of one data block are a slice of the file, also after blocks have been added. */
  lemma ChunkOfFile(sb: Super, v: Image, owner: map<nat, Slot>, v0: Image, f: seq<Byte>, inum: nat,
                    pos: nat, end: nat, addr: nat, lo: nat, hi: nat)
    requires Owned(sb, v, owner) && SameBytes(v, v0) && Contents(v0, inum, f) && pos < end <= |f|
    requires lo == pos % BSIZE && hi == lo + (end - pos) <= BSIZE
    requires addr == Ref(v, SlotOf(inum, pos / BSIZE)) != 0
    ensures addr < |v.data| && v.data[addr][lo..hi] == f[pos..end]
  {
    OwnerOf(sb, v, owner, SlotOf(inum, pos / BSIZE));
    var chunk, part := v.data[addr][lo..hi], f[pos..end];
    forall i | 0 <= i < end - pos ensures chunk[i] == part[i] {
      SameBlock(pos, i);
      assert SameAt(v, v0, inum, pos + i) && ContentAt(v0, inum, f, pos + i);
    }
  }

  /** Reading `want` bytes that the file has: each block is copied out whole or not at all. */
  ghost predicate ReadRange(f: seq<Byte>, off: nat, want: nat, room: nat, tot: int, bytes: seq<Byte>)
    requires off + want <= |f|
  {
    var t := Transferred(off, want, room);
    bytes == f[off..off + t] && tot == if t == want then want else -1
  }

  /** What readi promises: the requested slice, clipped to the file. */
  ghost predicate ReadResult(f: seq<Byte>, off: nat, n: nat, room: nat, tot: int, bytes: seq<Byte>) {
    if off > |f| || off + n >= 0x1_0000_0000 then tot == 0 && bytes == []
    else ReadRange(f, off, Min(n, |f| - off), room, tot, bytes)
  }

  /** How many bytes the blocks that a read maps cover: also the block at which copying out fails. */
  function Reach(off: nat, want: nat, room: nat): nat {
    var t := Transferred(off, want, room);
    if t == want then want else t + 1
  }

  /** The same for readi's arguments, with the request clipped to the file. */
  function ReadReach(size: nat, off: nat, n: nat, room: nat): nat {
    if off > size || off + n >= 0x1_0000_0000 then 0 else Reach(off, Min(n, size - off), room)
  }

  /** The next chunk, from tot up to tot', is the rest of the block of pos, or all that is left. */
  ghost predicate NextChunk(off: nat, want: nat, room: nat, tot: nat, pos: nat, tot': nat) {
    && pos == off + tot && tot < tot' <= want && pos % BSIZE + (tot' - tot) <= BSIZE
    && EndBlock(off, tot) == pos / BSIZE && EndBlock(off, tot') == EndBlock(off, tot + 1) == pos / BSIZE + 1
    && pos / BSIZE + 1 <= EndBlock(off, Reach(off, want, room))
    && (tot' <= room ==> Progress(off, want, room, tot'))
    && (tot' > room ==> Reach(off, want, room) == tot + 1 && Transferred(off, want, room) == tot)
  }

  lemma ChunkFits(off: nat, want: nat, room: nat, tot: nat, pos: nat, tot': nat)
    requires Progress(off, want, room, tot) && tot < want
    requires pos == off + tot && tot' == tot + Min(want - tot, BSIZE - pos % BSIZE)
    ensures NextChunk(off, want, room, tot, pos, tot')
  {
    SameBlock(pos, tot' - tot - 1);
    assert tot' < want ==> (off + tot') % BSIZE == 0;
    ReachGrows(off, tot + 1, Reach(off, want, room));
  }

  lemma ReachDone(off: nat, want: nat, room: nat)
    requires Progress(off, want, room, want)
    ensures Transferred(off, want, room) == Reach(off, want, room) == want
  {}

  lemma ReachGrows(off: nat, n: nat, m: nat)
    requires n <= m
    ensures EndBlock(off, n) <= EndBlock(off, m)
  {}

  lemma SlicesJoin(f: seq<Byte>, off: nat, pos: nat, end: nat)
    requires off <= pos <= end <= |f|
    ensures f[off..pos] + f[pos..end] == f[off..end]
  {}

  /** Copying bytes into the block of offset pos writes exactly those bytes of the file. */
  lemma StoreEffect(sb: Super, v: Image, owner: map<nat, Slot>, inum: nat, pos: nat, addr: nat, bytes: seq<Byte>)
    requires Owned(sb, v, owner) && inum < |v.inodes| && pos < MAXSIZE && pos % BSIZE + |bytes| <= BSIZE
    requires addr == Ref(v, SlotOf(inum, pos / BSIZE)) != 0 && addr < |v.data|
    ensures var w := v.(data := v.data[addr := CopyIn(v.data[addr], pos % BSIZE, bytes)]);
            Owned(sb, w, owner) && Written(v, w, inum, pos, bytes)
  {
    OwnerOf(sb, v, owner, SlotOf(inum, pos / BSIZE));
    var blk := CopyIn(v.data[addr], pos % BSIZE, bytes);
    var w := v.(data := v.data[addr := blk]);
    WriteKeepsOwned(sb, v, owner, addr, blk);
    forall i, o | 0 <= i < |v.inodes| && 0 <= o < MAXSIZE
      ensures WrittenAt(v, w, inum, pos, bytes, i, o)
    {
      WriteChangesOneBlock(sb, v, owner, addr, blk, i, o);
    }
  }

  // ---------------------------------------------------------------- room for a transfer

  /** The blocks of the n bytes at off are all there. */
  ghost predicate Here(a: Snap, inum: nat, off: nat, n: nat)
    requires Shape(a.v) && inum < |a.v.inodes|
  {
    AllPresent(a.v, inum, off / BSIZE, EndBlock(off, n))
  }

  /** The disk has not got the blocks that are missing for the n bytes at off. */
  ghost predicate NoRoom(sb: Super, a: Snap, inum: nat, off: nat, n: nat)
    requires Shape(a.v) && inum < |a.v.inodes|
  {
    |a.o| + Need(a.v, inum, off / BSIZE, EndBlock(off, n)) > Room(sb)
  }

  lemma HereAt(a: Snap, inum: nat, off: nat, n: nat, bn: nat)
    requires Shape(a.v) && inum < |a.v.inodes| && off / BSIZE <= bn < EndBlock(off, n)
    ensures Here(a, inum, off, n) ==> Present(a.v, inum, bn)
  {}

  lemma BlockStuck(sb: Super, a: Snap, b: Snap, c: Snap, inum: nat, off: nat, bn: nat, n: nat)
    requires Mapped(sb, a, b, inum, off / BSIZE, bn) && Stuck(sb, b, c, inum, bn, bn + 1)
    requires off / BSIZE <= bn && bn + 1 <= EndBlock(off, n)
    ensures NoRoom(sb, a, inum, off, n)
  {
    StuckLater(sb, a, b, c, inum, off / BSIZE, bn, bn + 1);
    StuckNeeds(sb, a, c, inum, off / BSIZE, bn + 1, EndBlock(off, n));
  }

  // ---------------------------------------------------------------- reading

  /** From a to b, tot bytes at off have been read, and the blocks of `reach` bytes are there. */
  ghost predicate ReadTo(sb: Super, a: Snap, b: Snap, f: seq<Byte>, inum: nat, off: nat, tot: nat, reach: nat,
                         bytes: seq<Byte>) {
    && Mapped(sb, a, b, inum, off / BSIZE, EndBlock(off, reach)) && SameBytes(b.v, a.v)
    && off + tot <= |f| && bytes == f[off..off + tot]
  }

  lemma ReadNothing(sb: Super, a: Snap, f: seq<Byte>, inum: nat, off: nat)
    requires Owned(sb, a.v, a.o) && Contents(a.v, inum, f) && off <= |f|
    ensures ReadTo(sb, a, a, f, inum, off, 0, 0, [])
  {
    NothingMapped(sb, a, inum, off / BSIZE);
  }

  /** bmap of the next block. */
  lemma ReadMapped(sb: Super, a: Snap, b: Snap, c: Snap, f: seq<Byte>, inum: nat, off: nat, tot: nat, pos: nat,
                   bytes: seq<Byte>)
    requires ReadTo(sb, a, b, f, inum, off, tot, tot, bytes) && SameBytes(c.v, b.v)
    requires EndBlock(off, tot) == pos / BSIZE && EndBlock(off, tot + 1) == pos / BSIZE + 1
    requires Mapped(sb, b, c, inum, pos / BSIZE, pos / BSIZE + 1)
    ensures ReadTo(sb, a, c, f, inum, off, tot, tot + 1, bytes)
  {
    MappedNext(sb, a, b, c, inum, off / BSIZE, pos / BSIZE, pos / BSIZE + 1);
    SameBytesTransitive(a.v, b.v, c.v);
  }

  /** The bytes of that block. */
  lemma ReadChunk(sb: Super, a: Snap, c: Snap, f: seq<Byte>, inum: nat, off: nat, tot: nat, pos: nat, tot': nat,
                  bytes: seq<Byte>, addr: nat, lo: nat, hi: nat)
    requires Contents(a.v, inum, f) && ReadTo(sb, a, c, f, inum, off, tot, tot + 1, bytes)
    requires pos == off + tot && tot < tot' && off + tot' <= |f| && EndBlock(off, tot') == EndBlock(off, tot + 1)
    requires lo == pos % BSIZE && hi == lo + (tot' - tot) <= BSIZE
    requires addr == Ref(c.v, SlotOf(inum, pos / BSIZE)) != 0
    ensures addr < |c.v.data| && ReadTo(sb, a, c, f, inum, off, tot', tot', bytes + c.v.data[addr][lo..hi])
  {
    ChunkOfFile(sb, c.v, c.o, a.v, f, inum, pos, off + tot', addr, lo, hi);
    SlicesJoin(f, off, pos, off + tot');
  }

  // ---------------------------------------------------------------- writing

  /** From a to b, the first tot bytes of src have been written at off, and the blocks of `reach` bytes are there. */
  ghost predicate WroteTo(sb: Super, a: Snap, b: Snap, src: seq<Byte>, inum: nat, off: nat, tot: nat, reach: nat,
                          l: set<Place>) {
    && Mapped(sb, a, b, inum, off / BSIZE, EndBlock(off, reach)) && tot <= |src|
    && Written(a.v, b.v, inum, off, src[..tot])
    && Logs(a.o, b.o, inum, off / BSIZE, EndBlock(off, tot), l)
  }

  lemma WroteNothing(sb: Super, a: Snap, src: seq<Byte>, inum: nat, off: nat)
    requires Owned(sb, a.v, a.o) && inum < |a.v.inodes| && off <= MAXSIZE
    ensures WroteTo(sb, a, a, src, inum, off, 0, 0, {})
  {
    NothingMapped(sb, a, inum, off / BSIZE);
    NothingLogged(a.o, inum, off / BSIZE);
    SameIsWritten(a.v, a.v, inum, off);
    assert src[..0] == [];
  }

  /** bmap of the next block. */
  lemma WriteMapped(sb: Super, a: Snap, b: Snap, c: Snap, src: seq<Byte>, inum: nat, off: nat, tot: nat, pos: nat,
                    l: set<Place>, l': set<Place>)
    requires WroteTo(sb, a, b, src, inum, off, tot, tot, l) && SameBytes(c.v, b.v)
    requires EndBlock(off, tot) == pos / BSIZE && EndBlock(off, tot + 1) == pos / BSIZE + 1
    requires Mapped(sb, b, c, inum, pos / BSIZE, pos / BSIZE + 1) && Logs(b.o, c.o, inum, 0, 0, l')
    ensures WroteTo(sb, a, c, src, inum, off, tot, tot + 1, l + l')
  {
    MappedNext(sb, a, b, c, inum, off / BSIZE, pos / BSIZE, pos / BSIZE + 1);
    LogsMore(sb, a, b, c, inum, off / BSIZE, pos / BSIZE, off / BSIZE, pos / BSIZE, l, l');
    SameIsWritten(b.v, c.v, inum, off + tot);
    WrittenNext(a.v, b.v, c.v, inum, off, src[..tot], []);
    assert src[..tot] + [] == src[..tot];
  }

  /** The bytes of that block have been stored. */
  lemma WriteChunk(sb: Super, a: Snap, c: Snap, d: Snap, src: seq<Byte>, inum: nat, off: nat, tot: nat, pos: nat,
                   tot': nat, l: set<Place>, addr: nat)
    requires WroteTo(sb, a, c, src, inum, off, tot, tot + 1, l) && pos == off + tot && tot < tot' <= |src|
    requires EndBlock(off, tot) == pos / BSIZE && EndBlock(off, tot') == EndBlock(off, tot + 1) == pos / BSIZE + 1
    requires addr == Ref(c.v, SlotOf(inum, pos / BSIZE)) != 0
    requires Owned(sb, d.v, d.o) && d.o == c.o && d.v.inodes == c.v.inodes
    requires Written(c.v, d.v, inum, pos, src[tot..tot'])
    ensures WroteTo(sb, a, d, src, inum, off, tot', tot', l + {DataAt(addr)})
  {
    MappedStore(sb, a, c, d, inum, off / BSIZE, pos / BSIZE + 1);
    LogsStore(sb, a, c, inum, off / BSIZE, pos / BSIZE, l, addr);
    WrittenNext(a.v, c.v, d.v, inum, off, src[..tot], src[tot..tot']);
    assert src[..tot] + src[tot..tot'] == src[..tot'];
  }
}
