/**
 The block-mapped inode layer of kernel/fs.c as values: which block each pointer slot refers
 to, who owns each allocated block, and which bytes each file holds.
*/
module FsImage {
  import opened FsLayout

  /** Disk geometry: blocks below nmeta are boot, super, log, inode and bitmap blocks. */
  datatype Super = Super(size: nat, nmeta: nat)

  /** addrs[0..12) are direct blocks, addrs[12] the indirect block, 0 means none. */
  datatype Inode = Inode(size: nat, addrs: seq<nat>)

  datatype Image = Image(data: seq<Block>, inodes: seq<Inode>)

  /** A place that can hold a block number: addrs[k], or entry k - 13 of the indirect block. */
  datatype Slot = Slot(inum: nat, k: nat)

  const NADDRS: nat := 13
  const MAXSIZE: nat := MAXFILE * BSIZE

  ghost predicate SuperOk(sb: Super) { 0 < sb.nmeta <= sb.size < 0x1_0000_0000 }

  ghost predicate Shape(v: Image) {
    forall i :: 0 <= i < |v.inodes| ==> |v.inodes[i].addrs| == NADDRS && v.inodes[i].size <= MAXSIZE
  }

  predicate ValidSlot(v: Image, s: Slot) {
    s.inum < |v.inodes| && s.k < NADDRS + NINDIRECT
  }

  /** The block number stored in a slot. */
  function Ref(v: Image, s: Slot): nat
    requires Shape(v) && ValidSlot(v, s)
  {
    var a := v.inodes[s.inum].addrs;
    if s.k < NADDRS then a[s.k]
    else if a[NDIRECT] == 0 || a[NDIRECT] >= |v.data| then 0
    else Word(v.data[a[NDIRECT]], s.k - NADDRS)
  }

  /** The slot that names the bn-th block of a file. */
  function SlotOf(inum: nat, bn: nat): Slot {
    if bn < NDIRECT then Slot(inum, bn) else Slot(inum, bn + 1)
  }

  predicate SlotOk(v: Image, owner: map<nat, Slot>, s: Slot)
    requires Shape(v) && ValidSlot(v, s)
  {
    Ref(v, s) != 0 ==> Ref(v, s) in owner && owner[Ref(v, s)] == s
  }

  predicate BlockOk(sb: Super, v: Image, owner: map<nat, Slot>, b: nat)
    requires Shape(v) && b in owner
  {
    sb.nmeta <= b < sb.size && ValidSlot(v, owner[b]) && Ref(v, owner[b]) == b
  }

  /**
   `owner` is a bijection between the allocated data blocks and the non-empty slots: no block
   is held twice, none is lost, none is a metadata block.
  */
  ghost predicate Owned(sb: Super, v: Image, owner: map<nat, Slot>) {
    && SuperOk(sb) && Shape(v) && |v.data| == sb.size
    && (forall s {:trigger SlotOk(v, owner, s)} :: ValidSlot(v, s) ==> SlotOk(v, owner, s))
    && (forall b {:trigger BlockOk(sb, v, owner, b)} :: b in owner ==> BlockOk(sb, v, owner, b))
  }

  /** A slot in use holds a data block, and that block is its own. */
  lemma OwnerOf(sb: Super, v: Image, owner: map<nat, Slot>, s: Slot)
    requires Owned(sb, v, owner) && ValidSlot(v, s)
    ensures Ref(v, s) == 0 || (sb.nmeta <= Ref(v, s) < sb.size && Ref(v, s) in owner && owner[Ref(v, s)] == s)
  {
    assert SlotOk(v, owner, s);
    if Ref(v, s) in owner {
      assert BlockOk(sb, v, owner, Ref(v, s));
    }
  }

  lemma SlotOwned(sb: Super, v: Image, owner: map<nat, Slot>, b: nat)
    requires Owned(sb, v, owner) && b in owner
    ensures sb.nmeta <= b < sb.size && ValidSlot(v, owner[b]) && Ref(v, owner[b]) == b
  {
    assert BlockOk(sb, v, owner, b);
  }

  lemma SameRefsOwned(sb: Super, v: Image, owner: map<nat, Slot>, w: Image)
    requires Owned(sb, v, owner) && Shape(w) && |w.data| == |v.data| && |w.inodes| == |v.inodes|
    requires forall s :: ValidSlot(v, s) ==> Ref(w, s) == Ref(v, s)
    ensures Owned(sb, w, owner)
  {
    forall s | ValidSlot(w, s) ensures SlotOk(w, owner, s) {
      OwnerOf(sb, v, owner, s);
    }
    forall b | b in owner ensures BlockOk(sb, w, owner, b) {
      SlotOwned(sb, v, owner, b);
    }
  }

  ghost predicate BitmapOk(sb: Super, bm: seq<BitBlock>, owner: map<nat, Slot>) {
    && sb.size <= |bm| * BPB
    && forall b :: 0 <= b < sb.size ==> (Bit(bm, b) <==> b < sb.nmeta || b in owner)
  }

  /** Byte `off` of a file; a missing block reads as zeroes. */
  function ByteAt(v: Image, inum: nat, off: nat): Byte
    requires Shape(v) && inum < |v.inodes| && off < MAXSIZE
  {
    var b := Ref(v, SlotOf(inum, off / BSIZE));
    if b == 0 || b >= |v.data| then 0 else v.data[b][off % BSIZE]
  }

  /** The contents of a file. */
  function File(v: Image, inum: nat): (f: seq<Byte>)
    requires Shape(v) && inum < |v.inodes|
    ensures |f| == v.inodes[inum].size
    ensures forall off :: 0 <= off < |f| ==> f[off] == ByteAt(v, inum, off)
  {
    seq(v.inodes[inum].size, off requires 0 <= off < v.inodes[inum].size => ByteAt(v, inum, off))
  }

  predicate SameAt(v: Image, w: Image, i: nat, off: nat)
    requires Shape(v) && Shape(w) && i < |v.inodes| == |w.inodes| && off < MAXSIZE
  {
    ByteAt(v, i, off) == ByteAt(w, i, off)
  }

  /** Same files: same number, same sizes, same bytes (also beyond the size). */
  ghost predicate SameBytes(v: Image, w: Image) {
    && Shape(v) && Shape(w) && |v.inodes| == |w.inodes|
    && (forall i :: 0 <= i < |v.inodes| ==> v.inodes[i].size == w.inodes[i].size)
    && (forall i, off {:trigger SameAt(v, w, i, off)} ::
          0 <= i < |v.inodes| && 0 <= off < MAXSIZE ==> SameAt(v, w, i, off))
  }

  predicate SameFile(v: Image, w: Image, i: nat)
    requires Shape(v) && Shape(w) && i < |v.inodes| == |w.inodes|
  {
    File(w, i) == File(v, i)
  }

  /** Every file but those in `except` has the same contents. */
  ghost predicate OthersSame(v: Image, w: Image, except: set<nat>) {
    && Shape(v) && Shape(w) && |v.inodes| == |w.inodes|
    && forall i: nat {:trigger SameFile(v, w, i)} :: i < |v.inodes| && i !in except ==> SameFile(v, w, i)
  }

  lemma OthersTwice(v0: Image, v1: Image, v2: Image, a: set<nat>, b: set<nat>)
    requires OthersSame(v0, v1, a) && OthersSame(v1, v2, b)
    ensures OthersSame(v0, v2, a + b)
  {
    forall i: nat | i < |v0.inodes| && i !in a + b ensures SameFile(v0, v2, i) {
      assert SameFile(v0, v1, i) && SameFile(v1, v2, i);
    }
  }

  // ---------------------------------------------------------------- writing a block

  /** Overwriting a block that is not an indirect block leaves every slot alone. */
  lemma WriteKeepsRefs(sb: Super, v: Image, owner: map<nat, Slot>, b: nat, blk: Block, s: Slot)
    requires Owned(sb, v, owner) && sb.nmeta <= b < sb.size && ValidSlot(v, s)
    requires b in owner ==> owner[b].k != NDIRECT
    ensures Ref(v.(data := v.data[b := blk]), s) == Ref(v, s)
  {
    OwnerOf(sb, v, owner, Slot(s.inum, NDIRECT));
  }

  lemma WriteKeepsOwned(sb: Super, v: Image, owner: map<nat, Slot>, b: nat, blk: Block)
    requires Owned(sb, v, owner) && sb.nmeta <= b < sb.size
    requires b in owner ==> owner[b].k != NDIRECT
    ensures Owned(sb, v.(data := v.data[b := blk]), owner)
  {
    var w := v.(data := v.data[b := blk]);
    forall s | ValidSlot(v, s) ensures Ref(w, s) == Ref(v, s) {
      WriteKeepsRefs(sb, v, owner, b, blk, s);
    }
    SameRefsOwned(sb, v, owner, w);
  }

  /** Overwriting a data block changes one block's worth of its owner's bytes, nothing else. */
  lemma WriteChangesOneBlock(sb: Super, v: Image, owner: map<nat, Slot>, b: nat, blk: Block, i: nat, off: nat)
    requires Owned(sb, v, owner) && sb.nmeta <= b < sb.size
    requires b in owner ==> owner[b].k != NDIRECT
    requires i < |v.inodes| && off < MAXSIZE
    ensures ByteAt(v.(data := v.data[b := blk]), i, off)
         == if b in owner && owner[b] == SlotOf(i, off / BSIZE) then blk[off % BSIZE] else ByteAt(v, i, off)
  {
    var s := SlotOf(i, off / BSIZE);
    WriteKeepsRefs(sb, v, owner, b, blk, s);
    OwnerOf(sb, v, owner, s);
    if b in owner {
      SlotOwned(sb, v, owner, b);
    }
  }

  // ---------------------------------------------------------------- filling a slot

  /** ip->addrs[k] = b, or a[j] = b in the indirect block. */
  function SetRef(v: Image, s: Slot, b: nat): Image
    requires Shape(v) && ValidSlot(v, s) && b < 0x1_0000_0000
    requires s.k >= NADDRS ==> Ref(v, Slot(s.inum, NDIRECT)) < |v.data|
  {
    var ip := v.inodes[s.inum];
    if s.k < NADDRS then v.(inodes := v.inodes[s.inum := ip.(addrs := ip.addrs[s.k := b])])
    else
      var ind := ip.addrs[NDIRECT];
      v.(data := v.data[ind := SetWord(v.data[ind], s.k - NADDRS, b)])
  }

  /** A slot that can be filled: empty, and its indirect block exists. */
  ghost predicate Fillable(sb: Super, v: Image, owner: map<nat, Slot>, s: Slot, b: nat) {
    && Owned(sb, v, owner) && ValidSlot(v, s) && Ref(v, s) == 0
    && (s.k >= NADDRS ==> Ref(v, Slot(s.inum, NDIRECT)) != 0)
    && sb.nmeta <= b < sb.size && b !in owner && v.data[b] == ZeroBlock()
  }

  lemma IndirectInRange(sb: Super, v: Image, owner: map<nat, Slot>, inum: nat)
    requires Owned(sb, v, owner) && inum < |v.inodes|
    ensures Ref(v, Slot(inum, NDIRECT)) < |v.data|
  {
    OwnerOf(sb, v, owner, Slot(inum, NDIRECT));
  }

  lemma ZeroWord(j: nat)
    requires j < NINDIRECT
    ensures Word(ZeroBlock(), j) == 0
  {}

  /** Filling a slot with a fresh block changes that slot only. */
  lemma FillSetsOneRef(sb: Super, v: Image, owner: map<nat, Slot>, s: Slot, b: nat, t: Slot)
    requires Fillable(sb, v, owner, s, b) && ValidSlot(v, t)
    ensures s.k >= NADDRS ==> Ref(v, Slot(s.inum, NDIRECT)) < |v.data|
    ensures Shape(SetRef(v, s, b)) && Ref(SetRef(v, s, b), t) == if t == s then b else Ref(v, t)
  {
    var si, ti := Slot(s.inum, NDIRECT), Slot(t.inum, NDIRECT);
    OwnerOf(sb, v, owner, si);
    OwnerOf(sb, v, owner, ti);
    if s.k >= NADDRS {
      if t.k >= NADDRS {
        if Ref(v, ti) == Ref(v, si) {
          WordAfterSet(v.data[Ref(v, si)], s.k - NADDRS, b, t.k - NADDRS);
        }
      }
    } else if s.k == NDIRECT && t.k >= NADDRS {
      ZeroWord(t.k - NADDRS);
    }
  }

  lemma FillKeepsOwned(sb: Super, v: Image, owner: map<nat, Slot>, s: Slot, b: nat)
    requires Fillable(sb, v, owner, s, b)
    ensures s.k >= NADDRS ==> Ref(v, Slot(s.inum, NDIRECT)) < |v.data|
    ensures Owned(sb, SetRef(v, s, b), owner[b := s])
  {
    FillSetsOneRef(sb, v, owner, s, b, s);
    var w, owner' := SetRef(v, s, b), owner[b := s];
    forall t | ValidSlot(v, t) ensures Ref(w, t) == (if t == s then b else Ref(v, t)) && SlotOk(w, owner', t) {
      FillSetsOneRef(sb, v, owner, s, b, t);
      OwnerOf(sb, v, owner, t);
    }
    forall c | c in owner' ensures BlockOk(sb, w, owner', c) {
      if c != b {
        SlotOwned(sb, v, owner, c);
      }
    }
  }

  /** Giving a file a zeroed block where it had none does not change any byte of any file. */
  lemma FillKeepsBytes(sb: Super, v: Image, owner: map<nat, Slot>, s: Slot, b: nat)
    requires Fillable(sb, v, owner, s, b)
    ensures s.k >= NADDRS ==> Ref(v, Slot(s.inum, NDIRECT)) < |v.data|
    ensures SameBytes(SetRef(v, s, b), v)
  {
    FillSetsOneRef(sb, v, owner, s, b, s);
    var w := SetRef(v, s, b);
    forall i, off | 0 <= i < |v.inodes| && 0 <= off < MAXSIZE
      ensures SameAt(w, v, i, off)
    {
      var t := SlotOf(i, off / BSIZE);
      FillSetsOneRef(sb, v, owner, s, b, t);
      OwnerOf(sb, v, owner, t);
      OwnerOf(sb, v, owner, Slot(s.inum, NDIRECT));
    }
  }

  // ---------------------------------------------------------------- truncation

  /** The image after itrunc(inum). */
  function Truncated(v: Image, inum: nat): Image
    requires inum < |v.inodes|
  {
    v.(inodes := v.inodes[inum := Inode(0, seq(NADDRS, i => 0))])
  }

  ghost function Without(owner: map<nat, Slot>, inum: nat): map<nat, Slot> {
    map b | b in owner && owner[b].inum != inum :: owner[b]
  }

  /** Truncation gives up exactly the file's own blocks and leaves the other files alone. */
  lemma TruncateKeepsOwned(sb: Super, v: Image, owner: map<nat, Slot>, inum: nat)
    requires Owned(sb, v, owner) && inum < |v.inodes|
    ensures Owned(sb, Truncated(v, inum), Without(owner, inum))
    ensures File(Truncated(v, inum), inum) == [] && OthersSame(v, Truncated(v, inum), {inum})
  {
    var w := Truncated(v, inum);
    forall s | ValidSlot(v, s)
      ensures Ref(w, s) == (if s.inum == inum then 0 else Ref(v, s)) && SlotOk(w, Without(owner, inum), s)
    {
      OwnerOf(sb, v, owner, s);
    }
    forall b | b in Without(owner, inum) ensures BlockOk(sb, w, Without(owner, inum), b) {
      SlotOwned(sb, v, owner, b);
    }
    forall i: nat | i < |v.inodes| && i != inum ensures SameFile(v, w, i) {
      forall off | 0 <= off < v.inodes[i].size ensures ByteAt(w, i, off) == ByteAt(v, i, off) {
      }
    }
  }

  // ---------------------------------------------------------------- freeing step by step

  function Range(lo: nat, hi: nat): (r: set<nat>)
    requires lo <= hi
    ensures forall k :: k in r <==> lo <= k < hi
    decreases hi - lo
  {
    if lo == hi then {} else {lo} + Range(lo + 1, hi)
  }

  /** The bitmap while itrunc(inum) has freed the slots in ks and no others. */
  ghost predicate PartlyFreed(sb: Super, bm: seq<BitBlock>, owner: map<nat, Slot>, inum: nat, ks: set<nat>) {
    && sb.size <= |bm| * BPB
    && forall b :: 0 <= b < sb.size ==>
         (Bit(bm, b) <==> b < sb.nmeta || (b in owner && !(owner[b].inum == inum && owner[b].k in ks)))
  }

  /** The block in a slot not freed yet has its bit set, so bfree does not panic on it. */
  lemma StillSet(sb: Super, v: Image, owner: map<nat, Slot>, bm: seq<BitBlock>, inum: nat, ks: set<nat>, k: nat)
    requires Owned(sb, v, owner) && PartlyFreed(sb, bm, owner, inum, ks)
    requires ValidSlot(v, Slot(inum, k)) && k !in ks && Ref(v, Slot(inum, k)) != 0
    ensures Ref(v, Slot(inum, k)) < sb.size && Bit(bm, Ref(v, Slot(inum, k)))
  {
    OwnerOf(sb, v, owner, Slot(inum, k));
  }

  lemma FreesOneMore(sb: Super, v: Image, owner: map<nat, Slot>, bm: seq<BitBlock>, inum: nat, ks: set<nat>, k: nat)
    requires Owned(sb, v, owner) && PartlyFreed(sb, bm, owner, inum, ks)
    requires ValidSlot(v, Slot(inum, k)) && k !in ks
    ensures var b := Ref(v, Slot(inum, k));
            && b < sb.size
            && PartlyFreed(sb, if b == 0 then bm else ClearBit(bm, b), owner, inum, ks + {k})
  {
    var b := Ref(v, Slot(inum, k));
    if b == 0 {
      forall c | 0 <= c < sb.size && c in owner ensures owner[c] != Slot(inum, k) {
        SlotOwned(sb, v, owner, c);
      }
    } else {
      StillSet(sb, v, owner, bm, inum, ks, k);
      OwnerOf(sb, v, owner, Slot(inum, k));
      forall c | 0 <= c < sb.size
        ensures Bit(ClearBit(bm, b), c) <==> c != b && Bit(bm, c)
      {
        BitAfterClear(bm, b, c);
      }
      forall c | c in owner && owner[c] == Slot(inum, k) ensures c == b {
        SlotOwned(sb, v, owner, c);
      }
    }
  }

  /** A file without an indirect block holds nothing behind it. */
  lemma NoIndirect(sb: Super, v: Image, owner: map<nat, Slot>, bm: seq<BitBlock>, inum: nat, ks: set<nat>)
    requires Owned(sb, v, owner) && PartlyFreed(sb, bm, owner, inum, ks)
    requires inum < |v.inodes| && Ref(v, Slot(inum, NDIRECT)) == 0
    ensures PartlyFreed(sb, bm, owner, inum, ks + Range(NDIRECT, NADDRS + NINDIRECT))
  {
    forall c | c in owner ensures owner[c].inum != inum || owner[c].k < NDIRECT {
      SlotOwned(sb, v, owner, c);
    }
  }

  lemma AllFreed(sb: Super, v: Image, owner: map<nat, Slot>, bm: seq<BitBlock>, inum: nat, ks: set<nat>)
    requires Owned(sb, v, owner) && PartlyFreed(sb, bm, owner, inum, ks)
    requires forall k :: 0 <= k < NADDRS + NINDIRECT ==> k in ks
    ensures BitmapOk(sb, bm, Without(owner, inum))
  {
    forall c | c in owner && owner[c].inum == inum ensures owner[c].k in ks {
      SlotOwned(sb, v, owner, c);
    }
  }

  // ---------------------------------------------------------------- effect of writing bytes

  predicate WrittenAt(v0: Image, v: Image, inum: nat, off: nat, bytes: seq<Byte>, i: nat, o: nat)
    requires Shape(v0) && Shape(v) && i < |v.inodes| == |v0.inodes| && o < MAXSIZE
  {
    ByteAt(v, i, o) == if i == inum && off <= o < off + |bytes| then bytes[o - off] else ByteAt(v0, i, o)
  }

  /** v is v0 with `bytes` written at `off` of file inum, the size not yet updated. */
  ghost predicate Written(v0: Image, v: Image, inum: nat, off: nat, bytes: seq<Byte>) {
    && Shape(v0) && Shape(v) && |v.inodes| == |v0.inodes|
    && (forall i :: 0 <= i < |v.inodes| ==> v.inodes[i].size == v0.inodes[i].size)
    && forall i, o {:trigger WrittenAt(v0, v, inum, off, bytes, i, o)} ::
         0 <= i < |v.inodes| && 0 <= o < MAXSIZE ==> WrittenAt(v0, v, inum, off, bytes, i, o)
  }

  lemma WrittenNext(v0: Image, v1: Image, v2: Image, inum: nat, off: nat, a: seq<Byte>, b: seq<Byte>)
    requires Written(v0, v1, inum, off, a) && Written(v1, v2, inum, off + |a|, b)
    ensures Written(v0, v2, inum, off, a + b)
  {
    forall i, o | 0 <= i < |v0.inodes| && 0 <= o < MAXSIZE ensures WrittenAt(v0, v2, inum, off, a + b, i, o) {
      assert WrittenAt(v0, v1, inum, off, a, i, o) && WrittenAt(v1, v2, inum, off + |a|, b, i, o);
    }
  }

  lemma SameIsWritten(v0: Image, v1: Image, inum: nat, off: nat)
    requires SameBytes(v1, v0)
    ensures Written(v0, v1, inum, off, [])
  {
    forall i, o | 0 <= i < |v0.inodes| && 0 <= o < MAXSIZE ensures WrittenAt(v0, v1, inum, off, [], i, o) {
      assert SameAt(v1, v0, i, o);
    }
  }

  lemma WrittenAfterSame(v0: Image, v1: Image, v2: Image, inum: nat, off: nat, b: seq<Byte>)
    requires SameBytes(v1, v0) && Written(v1, v2, inum, off, b)
    ensures Written(v0, v2, inum, off, b)
  {
    forall i, o | 0 <= i < |v0.inodes| && 0 <= o < MAXSIZE ensures WrittenAt(v0, v2, inum, off, b, i, o) {
      assert SameAt(v1, v0, i, o) && WrittenAt(v1, v2, inum, off, b, i, o);
    }
  }

  function WithSize(v: Image, inum: nat, size: nat): Image
    requires inum < |v.inodes|
  {
    v.(inodes := v.inodes[inum := v.inodes[inum].(size := size)])
  }

  lemma SizeKeepsOwned(sb: Super, v: Image, owner: map<nat, Slot>, inum: nat, size: nat)
    requires Owned(sb, v, owner) && inum < |v.inodes| && size <= MAXSIZE
    ensures Owned(sb, WithSize(v, inum, size), owner)
  {
    var w := WithSize(v, inum, size);
    forall s | ValidSlot(v, s) ensures Ref(w, s) == Ref(v, s) {
    }
    SameRefsOwned(sb, v, owner, w);
  }

  /** The bytes of every file after the size has been raised. */
  lemma WrittenByte(v0: Image, v: Image, inum: nat, off: nat, bytes: seq<Byte>, size: nat, i: nat, o: nat)
    requires Written(v0, v, inum, off, bytes) && inum < |v.inodes| && i < |v.inodes| && size <= MAXSIZE && o < MAXSIZE
    ensures var w := WithSize(v, inum, size);
            && Shape(w)
            && ByteAt(w, i, o) == if i == inum && off <= o < off + |bytes| then bytes[o - off] else ByteAt(v0, i, o)
  {
    assert WrittenAt(v0, v, inum, off, bytes, i, o);
  }

  /** Once the size has been raised, the file is the old one with the bytes spliced in. */
  lemma WrittenOwn(v0: Image, v: Image, inum: nat, off: nat, bytes: seq<Byte>, w: Image)
    requires Written(v0, v, inum, off, bytes) && inum < |v.inodes|
    requires off <= v0.inodes[inum].size && off + |bytes| <= MAXSIZE
    requires var size := v0.inodes[inum].size;
             w == WithSize(v, inum, if off + |bytes| > size then off + |bytes| else size)
    ensures Shape(w) && File(w, inum) == Spliced(File(v0, inum), off, bytes)
  {
    var f, g := Spliced(File(v0, inum), off, bytes), File(w, inum);
    forall o | 0 <= o < |g| ensures g[o] == f[o] {
      WrittenByte(v0, v, inum, off, bytes, |g|, inum, o);
    }
  }

  lemma WrittenAllFiles(v0: Image, v: Image, inum: nat, off: nat, bytes: seq<Byte>, w: Image)
    requires Written(v0, v, inum, off, bytes) && inum < |v.inodes|
    requires off <= v0.inodes[inum].size && off + |bytes| <= MAXSIZE
    requires var size := v0.inodes[inum].size;
             w == WithSize(v, inum, if off + |bytes| > size then off + |bytes| else size)
    ensures Shape(w) && |w.inodes| == |v0.inodes|
    ensures File(w, inum) == Spliced(File(v0, inum), off, bytes) && OthersSame(v0, w, {inum})
  {
    WrittenOwn(v0, v, inum, off, bytes, w);
    forall i: nat | i < |w.inodes| && i != inum ensures SameFile(v0, w, i) {
      forall o | 0 <= o < v0.inodes[i].size ensures ByteAt(w, i, o) == ByteAt(v0, i, o) {
        WrittenByte(v0, v, inum, off, bytes, w.inodes[inum].size, i, o);
      }
    }
  }

  lemma SameBytesTransitive(v0: Image, v1: Image, v2: Image)
    requires SameBytes(v1, v0) && SameBytes(v2, v1)
    ensures SameBytes(v2, v0)
  {
    forall i, off | 0 <= i < |v0.inodes| && 0 <= off < MAXSIZE ensures SameAt(v2, v0, i, off) {
      assert SameAt(v1, v0, i, off) && SameAt(v2, v1, i, off);
    }
  }

  /** f[..off] + data + the rest of f. */
  function Spliced(f: seq<Byte>, off: nat, data: seq<Byte>): seq<Byte>
    requires off <= |f|
  {
    f[..off] + data + (if off + |data| <= |f| then f[off + |data|..] else [])
  }

  // ---------------------------------------------------------------- blocks that stay

  predicate Kept(o: map<nat, Slot>, o': map<nat, Slot>, b: nat)
    requires b in o
  {
    b in o' && o'[b] == o[b]
  }

  /** No block was freed or moved. */
  ghost predicate Extends(o: map<nat, Slot>, o': map<nat, Slot>) {
    forall b {:trigger Kept(o, o', b)} :: b in o ==> Kept(o, o', b)
  }

  lemma ExtendsSelf(o: map<nat, Slot>)
    ensures Extends(o, o)
  {}

  lemma ExtendsTwice(o: map<nat, Slot>, o1: map<nat, Slot>, o2: map<nat, Slot>)
    requires Extends(o, o1) && Extends(o1, o2)
    ensures Extends(o, o2)
  {
    forall b | b in o ensures Kept(o, o2, b) {
      assert Kept(o, o1, b) && Kept(o1, o2, b);
    }
  }

  /** A slot that holds a block keeps it as long as no block is freed or moved. */
  lemma StillThere(sb: Super, v: Image, owner: map<nat, Slot>, w: Image, owner': map<nat, Slot>, s: Slot)
    requires Owned(sb, v, owner) && Owned(sb, w, owner') && |w.inodes| == |v.inodes| && ValidSlot(v, s)
    requires Ref(v, s) != 0
    requires Extends(owner, owner')
    ensures Ref(w, s) == Ref(v, s)
  {
    OwnerOf(sb, v, owner, s);
    assert Kept(owner, owner', Ref(v, s));
    SlotOwned(sb, w, owner', Ref(v, s));
  }

  /** w's inodes are v's with some empty pointers of inode inum filled in. */
  ghost predicate Filled(v: Image, w: Image, inum: nat) {
    && Shape(v) && Shape(w) && |w.inodes| == |v.inodes| && inum < |v.inodes|
    && w.inodes == v.inodes[inum := w.inodes[inum]] && w.inodes[inum].size == v.inodes[inum].size
    && forall k {:trigger v.inodes[inum].addrs[k]} {:trigger w.inodes[inum].addrs[k]} ::
         0 <= k < NADDRS && v.inodes[inum].addrs[k] != 0 ==> w.inodes[inum].addrs[k] == v.inodes[inum].addrs[k]
  }

  lemma SameOwnerSameRef(sb: Super, v: Image, owner: map<nat, Slot>, d: Image, s: Slot)
    requires Owned(sb, v, owner) && Owned(sb, d, owner) && |d.inodes| == |v.inodes| && ValidSlot(v, s)
    ensures Ref(d, s) == Ref(v, s)
  {
    OwnerOf(sb, v, owner, s);
    OwnerOf(sb, d, owner, s);
    if Ref(v, s) != 0 {
      SlotOwned(sb, d, owner, Ref(v, s));
    } else if Ref(d, s) != 0 {
      SlotOwned(sb, v, owner, Ref(d, s));
    }
  }

  /** An image's blocks are accounted for by `owner` exactly if its inodes hold the pointers that they hold in v. */
  lemma OwnedIff(sb: Super, v: Image, owner: map<nat, Slot>, d: Image)
    requires Owned(sb, v, owner) && Shape(d) && d.data == v.data && |d.inodes| == |v.inodes|
    ensures Owned(sb, d, owner) <==> forall i :: 0 <= i < |v.inodes| ==> d.inodes[i].addrs == v.inodes[i].addrs
  {
    if Owned(sb, d, owner) {
      forall i | 0 <= i < |v.inodes| ensures d.inodes[i].addrs == v.inodes[i].addrs {
        forall k | 0 <= k < NADDRS ensures d.inodes[i].addrs[k] == v.inodes[i].addrs[k] {
          SameOwnerSameRef(sb, v, owner, d, Slot(i, k));
        }
      }
    }
    if forall i :: 0 <= i < |v.inodes| ==> d.inodes[i].addrs == v.inodes[i].addrs {
      forall s | ValidSlot(v, s) ensures Ref(d, s) == Ref(v, s) {}
      SameRefsOwned(sb, v, owner, d);
    }
  }

  /** If a pointer was filled in since d's inodes, the block behind it is one that d does not know of. */
  lemma LostBlock(sb: Super, v: Image, owner: map<nat, Slot>, d: Image, inum: nat) returns (b: nat)
    requires Owned(sb, v, owner) && Filled(d, v, inum) && d.inodes != v.inodes && d.data == v.data
    ensures b in owner && forall s :: ValidSlot(d, s) ==> Ref(d, s) != b
  {
    assert d.inodes[inum].addrs != v.inodes[inum].addrs;
    var k :| 0 <= k < NADDRS && d.inodes[inum].addrs[k] != v.inodes[inum].addrs[k];
    b := v.inodes[inum].addrs[k];
    OwnerOf(sb, v, owner, Slot(inum, k));
    forall s | ValidSlot(d, s) ensures Ref(d, s) != b {
      OwnerOf(sb, v, owner, s);
    }
  }
}
