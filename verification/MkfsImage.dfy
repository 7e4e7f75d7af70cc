/**
 The image that mkfs/mkfs.c builds, as values: files without holes, how many blocks they take,
 and the root directory that lists them.
*/
module MkfsImage {
  import opened FsLayout
  import opened FsImage
  import opened FsBlocks
  import opened FsLogged

  const FSSIZE: nat := 1000
  const NINODES: nat := 200
  const LOGSIZE: nat := 30
  const ROOTINO: nat := 1
  const DIRSIZ: nat := 14
  const DIRENT: nat := 16       // sizeof(struct dirent)

  const NBITMAP: nat := FSSIZE / (BSIZE * 8) + 1
  const NINODEBLOCKS: nat := NINODES / IPB + 1
  const NMETA: nat := 2 + LOGSIZE + NINODEBLOCKS + NBITMAP

  const SB := Super(FSSIZE, NMETA)

  function EmptyInode(): Inode { Inode(0, seq(NADDRS, i => 0)) }

  function Zeroes(n: nat): (z: seq<Byte>)
    ensures |z| == n
  {
    seq(n, i => 0)
  }

  /** Zeroes up to the next block boundary, a whole block of them if d ends at one. */
  function Padded(d: seq<Byte>): (p: seq<Byte>)
    ensures |p| == (|d| / BSIZE + 1) * BSIZE && d <= p
  {
    d + Zeroes((|d| / BSIZE + 1) * BSIZE - |d|)
  }

  // ---------------------------------------------------------------- appended files have no holes

  /** A file that has got as far as `end` has exactly the blocks of its bytes, and zeroes behind them. */
  ghost predicate Neat(v: Image, i: nat, end: nat) {
    && Shape(v) && i < |v.inodes|
    && (forall bn: nat {:trigger Present(v, i, bn)} :: bn < MAXFILE ==> (Present(v, i, bn) <==> bn * BSIZE < end))
    && (Ref(v, Slot(i, NDIRECT)) != 0 <==> end > NDIRECT * BSIZE)
    && (forall o: nat {:trigger ByteAt(v, i, o)} :: end <= o < MAXSIZE ==> ByteAt(v, i, o) == 0)
  }

  /** How far file i has got while file inum has got as far as `end`. */
  function EndOf(v: Image, inum: nat, end: nat, i: nat): nat
    requires i < |v.inodes|
  {
    if i == inum then end else v.inodes[i].size
  }

  ghost predicate Tidy(v: Image, inum: nat, end: nat) {
    forall i {:trigger EndOf(v, inum, end, i)} :: 0 <= i < |v.inodes| ==> Neat(v, i, EndOf(v, inum, end, i))
  }

  ghost predicate AllNeat(v: Image) { Shape(v) && Tidy(v, |v.inodes|, 0) }

  lemma TidyOrNeat(v: Image, inum: nat)
    requires Shape(v) && inum < |v.inodes|
    ensures AllNeat(v) <==> Tidy(v, inum, v.inodes[inum].size)
  {
    forall i | 0 <= i < |v.inodes|
      ensures EndOf(v, inum, v.inodes[inum].size, i) == EndOf(v, |v.inodes|, 0, i)
    {
    }
  }

  lemma NeatAt(v: Image, i: nat)
    requires AllNeat(v) && i < |v.inodes|
    ensures Neat(v, i, v.inodes[i].size)
  {
    assert EndOf(v, |v.inodes|, 0, i) == v.inodes[i].size;
  }

  /** The next block has been added to file inum, and bytes written to it. */
  lemma NeatStep(a: Snap, b: Snap, inum: nat, pos: nat, bytes: seq<Byte>, end: nat)
    requires inum < |a.v.inodes| && Tidy(a.v, inum, pos) && Mapped(SB, a, b, inum, pos / BSIZE, pos / BSIZE + 1)
    requires Written(a.v, b.v, inum, pos, bytes) && end == pos + |bytes| && pos < end && pos % BSIZE + |bytes| <= BSIZE
    ensures Tidy(b.v, inum, end)
  {
    forall i | 0 <= i < |b.v.inodes| ensures Neat(b.v, i, EndOf(b.v, inum, end, i)) {
      assert Neat(a.v, i, EndOf(a.v, inum, pos, i));
      if i == inum {
        NeatOwn(a, b, inum, pos, bytes, end);
      } else {
        NeatOther(a, b, inum, pos, bytes, i);
      }
    }
  }

  lemma NeatOwn(a: Snap, b: Snap, inum: nat, pos: nat, bytes: seq<Byte>, end: nat)
    requires inum < |a.v.inodes| && Neat(a.v, inum, pos) && Mapped(SB, a, b, inum, pos / BSIZE, pos / BSIZE + 1)
    requires Written(a.v, b.v, inum, pos, bytes) && end == pos + |bytes| && pos < end && pos % BSIZE + |bytes| <= BSIZE
    ensures Neat(b.v, inum, end)
  {
    var fbn := pos / BSIZE;
    forall bn: nat | bn < MAXFILE ensures Present(b.v, inum, bn) <==> bn * BSIZE < end {
      assert SlotKept(a, b, inum, fbn, fbn + 1, SlotOf(inum, bn));
      assert Present(a.v, inum, bn) <==> bn * BSIZE < pos;
      assert bn * BSIZE < end <==> bn * BSIZE < pos || bn == fbn;
      if bn * BSIZE < pos {
        StillThere(SB, a.v, a.o, b.v, b.o, SlotOf(inum, bn));
      }
    }
    NeatIndirect(a, b, inum, pos, end);
    forall o: nat | end <= o < MAXSIZE ensures ByteAt(b.v, inum, o) == 0 {
      assert WrittenAt(a.v, b.v, inum, pos, bytes, inum, o) && ByteAt(a.v, inum, o) == 0;
    }
  }

  lemma NeatIndirect(a: Snap, b: Snap, inum: nat, pos: nat, end: nat)
    requires inum < |a.v.inodes| && Neat(a.v, inum, pos) && Mapped(SB, a, b, inum, pos / BSIZE, pos / BSIZE + 1)
    requires pos < end && pos % BSIZE + (end - pos) <= BSIZE
    ensures Ref(b.v, Slot(inum, NDIRECT)) != 0 <==> end > NDIRECT * BSIZE
  {
    var ind, fbn := Slot(inum, NDIRECT), pos / BSIZE;
    assert SlotKept(a, b, inum, fbn, fbn + 1, ind);
    if fbn >= NDIRECT {
      SlotMapped(SB, a, b, inum, fbn, fbn + 1, ind);
    }
  }

  lemma NeatOther(a: Snap, b: Snap, inum: nat, pos: nat, bytes: seq<Byte>, i: nat)
    requires inum < |a.v.inodes| && i < |a.v.inodes| && i != inum && Neat(a.v, i, a.v.inodes[i].size)
    requires Mapped(SB, a, b, inum, pos / BSIZE, pos / BSIZE + 1) && Written(a.v, b.v, inum, pos, bytes)
    ensures Neat(b.v, i, b.v.inodes[i].size)
  {
    var fbn := pos / BSIZE;
    forall bn: nat | bn < MAXFILE ensures Present(b.v, i, bn) == Present(a.v, i, bn) {
      assert SlotKept(a, b, inum, fbn, fbn + 1, SlotOf(i, bn));
    }
    assert SlotKept(a, b, inum, fbn, fbn + 1, Slot(i, NDIRECT));
    forall o: nat | a.v.inodes[i].size <= o < MAXSIZE ensures ByteAt(b.v, i, o) == 0 {
      assert WrittenAt(a.v, b.v, inum, pos, bytes, i, o) && ByteAt(a.v, i, o) == 0;
    }
  }

  /** Raising the size to what has been written leaves every file neat. */
  lemma NeatSize(v: Image, inum: nat, end: nat)
    requires inum < |v.inodes| && Shape(v) && Tidy(v, inum, end) && end <= MAXSIZE
    ensures AllNeat(WithSize(v, inum, end))
  {
    var w := WithSize(v, inum, end);
    forall i | 0 <= i < |w.inodes| ensures Neat(w, i, EndOf(w, inum, end, i)) {
      assert Neat(v, i, EndOf(v, inum, end, i)) && EndOf(w, inum, end, i) == EndOf(v, inum, end, i);
      forall bn: nat | bn < MAXFILE ensures Present(w, i, bn) == Present(v, i, bn) {
      }
      forall o: nat | o < MAXSIZE ensures ByteAt(w, i, o) == ByteAt(v, i, o) {
      }
    }
    TidyOrNeat(w, inum);
  }

  // ---------------------------------------------------------------- how many blocks a file takes

  /** Data blocks, and the indirect block. */
  function FileBlocks(n: nat): nat { (n + BSIZE - 1) / BSIZE + (if n > NDIRECT * BSIZE then 1 else 0) }

  /** How many blocks n more bytes add to a file of the given size. */
  function AddedBlocks(size: nat, n: nat): int { FileBlocks(size + n) - FileBlocks(size) }

  lemma FileBlocksGrow(n: nat, m: nat)
    requires n <= m
    ensures FileBlocks(n) <= FileBlocks(m)
  {}

  /** The empty slots that n more bytes of a neat file meet. */
  ghost function Missing(inum: nat, off: nat, n: nat): set<Slot> {
    DataSlots(inum, (off + BSIZE - 1) / BSIZE, (off + n + BSIZE - 1) / BSIZE)
    + (if off <= NDIRECT * BSIZE < off + n then {Slot(inum, NDIRECT)} else {})
  }

  lemma MissingCount(inum: nat, off: nat, n: nat)
    ensures |Missing(inum, off, n)| == FileBlocks(off + n) - FileBlocks(off)
  {
    var lo, hi := (off + BSIZE - 1) / BSIZE, (off + n + BSIZE - 1) / BSIZE;
    DataSlotsCount(inum, lo, hi);
    DataSlotsIff(inum, lo, hi, Slot(inum, NDIRECT));
  }

  /** What appending to a neat file needs is what the longer file has more. */
  lemma NeatNeed(v: Image, inum: nat, off: nat, n: nat)
    requires Neat(v, inum, off) && off + n <= MAXSIZE
    ensures Need(v, inum, off / BSIZE, EndBlock(off, n)) == FileBlocks(off + n) - FileBlocks(off)
  {
    var lo, hi := off / BSIZE, EndBlock(off, n);
    forall s ensures s in Empty(v, inum, lo, hi) <==> s in Missing(inum, off, n) {
      EmptyIff(v, inum, lo, hi, s);
      NeatSlot(v, inum, off, n, s);
    }
    assert Empty(v, inum, lo, hi) == Missing(inum, off, n);
    MissingCount(inum, off, n);
  }

  lemma NeatSlot(v: Image, inum: nat, off: nat, n: nat, s: Slot)
    requires Neat(v, inum, off) && off + n <= MAXSIZE
    ensures ValidSlot(v, s) && InRange(s, inum, off / BSIZE, EndBlock(off, n)) && Ref(v, s) == 0
        <==> s in Missing(inum, off, n)
  {
    DataSlotsIff(inum, (off + BSIZE - 1) / BSIZE, (off + n + BSIZE - 1) / BSIZE, s);
    if s.inum == inum && s.k != NDIRECT {
      var bn := if s.k < NDIRECT then s.k else s.k - 1;
      assert s == SlotOf(inum, bn);
      assert bn < MAXFILE ==> (Present(v, inum, bn) <==> bn * BSIZE < off);
      NeatBlock(off, n, bn);
    }
  }

  /** Blocks that n more bytes touch and that are not there yet. */
  lemma NeatBlock(off: nat, n: nat, bn: nat)
    ensures off / BSIZE <= bn < EndBlock(off, n) && bn * BSIZE >= off
        <==> (off + BSIZE - 1) / BSIZE <= bn < (off + n + BSIZE - 1) / BSIZE
    ensures off + n <= MAXSIZE ==> (off + n + BSIZE - 1) / BSIZE <= MAXFILE
  {}

  // ---------------------------------------------------------------- appending

  /** What writing at the end of a file and raising its size does to the files. */
  lemma AppendEffect(v0: Image, v: Image, inum: nat, bytes: seq<Byte>, end: nat)
    requires Shape(v0) && inum < |v0.inodes| && end == v0.inodes[inum].size + |bytes| <= MAXSIZE
    requires Written(v0, v, inum, v0.inodes[inum].size, bytes) && Tidy(v, inum, end)
    ensures var w := WithSize(v, inum, end);
            AllNeat(w) && OthersSame(v0, w, {inum}) && File(w, inum) == File(v0, inum) + bytes
  {
    var w, off := WithSize(v, inum, end), v0.inodes[inum].size;
    WrittenAllFiles(v0, v, inum, off, bytes, w);
    NeatSize(v, inum, end);
    assert Spliced(File(v0, inum), off, bytes) == File(v0, inum) + bytes;
  }

  /** A size raised over a neat file's end, within the next block: zeroes are added ... */
  lemma RaisedFile(v: Image, root: nat, size: nat)
    requires Shape(v) && root < |v.inodes| && Neat(v, root, v.inodes[root].size)
    requires size == (v.inodes[root].size / BSIZE + 1) * BSIZE <= MAXSIZE
    ensures var w := WithSize(v, root, size); Shape(w) && File(w, root) == Padded(File(v, root))
  {
    var w, end := WithSize(v, root, size), v.inodes[root].size;
    var f, g := Padded(File(v, root)), File(w, root);
    forall o | 0 <= o < size ensures g[o] == f[o] {
      assert ByteAt(w, root, o) == ByteAt(v, root, o);
      assert o >= end ==> ByteAt(v, root, o) == 0;
    }
  }

  /** ... the other files are left alone ... */
  lemma RaisedOthers(v: Image, root: nat, size: nat)
    requires Shape(v) && root < |v.inodes| && size <= MAXSIZE
    ensures Shape(WithSize(v, root, size)) && OthersSame(v, WithSize(v, root, size), {root})
  {
    var w := WithSize(v, root, size);
    forall i: nat | i < |v.inodes| && i != root ensures SameFile(v, w, i) {
      forall o | 0 <= o < v.inodes[i].size ensures ByteAt(w, i, o) == ByteAt(v, i, o) {
      }
    }
  }

  /** ... and blocks are not. */
  lemma RaisedHole(v: Image, root: nat, size: nat)
    requires Shape(v) && root < |v.inodes| && Neat(v, root, v.inodes[root].size)
    requires size == (v.inodes[root].size / BSIZE + 1) * BSIZE <= MAXSIZE
    ensures var w := WithSize(v, root, size);
            Shape(w) && (Present(w, root, v.inodes[root].size / BSIZE) <==> v.inodes[root].size % BSIZE != 0)
  {
    var w, bn := WithSize(v, root, size), v.inodes[root].size / BSIZE;
    assert Present(w, root, bn) == Present(v, root, bn);
  }

  // ---------------------------------------------------------------- mkfs's arguments

  const SLASH: Byte := 47
  const UNDERSCORE: Byte := 95
  const DOT: Byte := 46
  const USER: seq<Byte> := [117, 115, 101, 114, 47]   // "user/"

  /** An argument of mkfs, and what the file holds. */
  datatype Input = Input(path: seq<Byte>, contents: seq<Byte>)

  function Stripped(path: seq<Byte>): seq<Byte> {
    if |path| >= 5 && path[..5] == USER then path[5..] else path
  }

  function ShortName(path: seq<Byte>): seq<Byte> {
    var p := Stripped(path);
    if p != [] && p[0] == UNDERSCORE then p[1..] else p
  }

  /** struct dirent: a two-byte inode number and a name of at most DIRSIZ bytes, zero-filled. */
  function Dirent(inum: nat, name: seq<Byte>): (d: seq<Byte>)
    ensures |d| == DIRENT
  {
    [inum % 256, inum / 256 % 256] + (if |name| >= DIRSIZ then name[..DIRSIZ] else name + Zeroes(DIRSIZ - |name|))
  }

  /** The root directory after k files: itself twice, then one entry per file, numbered from 2. */
  function RootDir(files: seq<Input>, k: nat): (d: seq<Byte>)
    requires k <= |files|
    ensures |d| == DIRENT * (k + 2)
  {
    if k == 0 then Dirent(ROOTINO, [DOT]) + Dirent(ROOTINO, [DOT, DOT])
    else RootDir(files, k - 1) + Dirent(k + 1, ShortName(files[k - 1].path))
  }

  /** The blocks of the first k files ... */
  function ContentBlocks(files: seq<Input>, k: nat): nat
    requires k <= |files|
  {
    if k == 0 then 0 else ContentBlocks(files, k - 1) + FileBlocks(|files[k - 1].contents|)
  }

  /** ... and of the root directory that lists them. */
  function TotalBlocks(files: seq<Input>, k: nat): nat
    requires k <= |files|
  {
    FileBlocks(DIRENT * (k + 2)) + ContentBlocks(files, k)
  }

  /** No slash left in the name, and not too long. */
  predicate Admissible(file: Input) { SLASH !in Stripped(file.path) && |file.contents| <= MAXSIZE }

  /** What mkfs can build: admissible files, and blocks enough. */
  ghost predicate Acceptable(files: seq<Input>) {
    NMETA + TotalBlocks(files, |files|) <= FSSIZE && AllAdmissible(files, |files|)
  }

  /** The first k files are. */
  predicate AllAdmissible(files: seq<Input>, k: nat)
    requires k <= |files|
  {
    k == 0 || (AllAdmissible(files, k - 1) && Admissible(files[k - 1]))
  }

  lemma {:induction false} AdmissibleSoFar(files: seq<Input>, k: nat, m: nat)
    requires k <= m <= |files| && AllAdmissible(files, m)
    ensures AllAdmissible(files, k)
  {
    if k < m {
      AdmissibleSoFar(files, k, m - 1);
    }
  }

  /** A file that is not admissible, or one too many for the disk, spoils the whole. */
  lemma NotAcceptable(files: seq<Input>, k: nat)
    requires k < |files| && !(Admissible(files[k]) && NMETA + TotalBlocks(files, k + 1) <= FSSIZE)
    ensures !Acceptable(files)
  {
    if Acceptable(files) {
      BlocksSoFar(files, k + 1, |files|);
      AdmissibleSoFar(files, k + 1, |files|);
    }
  }

  lemma {:induction false} BlocksSoFar(files: seq<Input>, k: nat, m: nat)
    requires k <= m <= |files|
    ensures TotalBlocks(files, k) <= TotalBlocks(files, m)
  {
    if k < m {
      BlocksSoFar(files, k, m - 1);
      FileBlocksGrow(DIRENT * (m + 1), DIRENT * (m + 2));
    }
  }

  /** One more file and its directory entry. */
  lemma TotalStep(files: seq<Input>, k: nat)
    requires k < |files|
    ensures TotalBlocks(files, k + 1)
         == TotalBlocks(files, k) + AddedBlocks(DIRENT * (k + 2), DIRENT) + FileBlocks(|files[k].contents|)
  {}

  predicate FileHolds(v: Image, files: seq<Input>, i: nat)
    requires Shape(v) && i < |files| && i + 2 < |v.inodes|
  {
    File(v, i + 2) == files[i].contents
  }

  /** The files are in place once the first k arguments have been handled. */
  ghost predicate Holds(v: Image, files: seq<Input>, k: nat)
    requires k <= |files|
  {
    && Shape(v) && |v.inodes| == NINODES && k + 2 <= NINODES
    && File(v, ROOTINO) == RootDir(files, k)
    && forall i {:trigger FileHolds(v, files, i)} :: 0 <= i < k ==> FileHolds(v, files, i)
  }

  lemma HoldsNext(v: Image, w: Image, files: seq<Input>, k: nat)
    requires k < |files| && k + 3 <= NINODES && Holds(v, files, k) && OthersSame(v, w, {ROOTINO, k + 2})
    requires File(w, ROOTINO) == File(v, ROOTINO) + Dirent(k + 2, ShortName(files[k].path))
    requires File(w, k + 2) == files[k].contents
    ensures Holds(w, files, k + 1)
  {
    forall i | 0 <= i < k + 1 ensures FileHolds(w, files, i) {
      if i < k {
        assert FileHolds(v, files, i) && SameFile(v, w, i + 2);
      }
    }
  }

  /** Rounding the root directory up leaves the other files as they are. */
  lemma HoldsFixed(v: Image, w: Image, files: seq<Input>, i: nat)
    requires i < |files| && Holds(v, files, |files|) && OthersSame(v, w, {ROOTINO})
    ensures File(w, i + 2) == files[i].contents
  {
    assert FileHolds(v, files, i) && SameFile(v, w, i + 2);
  }
}
