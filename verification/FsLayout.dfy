/**
 The on-disk encodings that kernel/fs.c reads and writes in place: the free bitmap, and block
 numbers packed four bytes each into an indirect block.
*/
module FsLayout {

  const BSIZE: nat := 1024
  const BPB: nat := 8192        // bitmap bits per block
  const NDIRECT: nat := 12
  const NINDIRECT: nat := 256   // BSIZE / sizeof(uint)
  const MAXFILE: nat := 268

  type Byte = x: int | 0 <= x < 256
  type Block = b: seq<Byte> | |b| == BSIZE witness seq(BSIZE, i => 0)

  function ZeroBlock(): Block { seq(BSIZE, i => 0) }

  // ---------------------------------------------------------------- uints in a block

  function Word(b: Block, j: nat): nat
    requires j < NINDIRECT
  {
    b[4 * j] as int + 256 * (b[4 * j + 1] as int)
    + 65536 * (b[4 * j + 2] as int) + 16777216 * (b[4 * j + 3] as int)
  }

  function SetWord(b: Block, j: nat, v: nat): Block
    requires j < NINDIRECT && v < 0x1_0000_0000
  {
    b[4 * j := v % 256][4 * j + 1 := v / 256 % 256][4 * j + 2 := v / 65536 % 256]
     [4 * j + 3 := v / 16777216]
  }

  lemma WordAfterSet(b: Block, j: nat, v: nat, k: nat)
    requires j < NINDIRECT && k < NINDIRECT && v < 0x1_0000_0000
    ensures Word(SetWord(b, j, v), k) == if k == j then v else Word(b, k)
  {
    var r := SetWord(b, j, v);
    if k == j {
      assert r[4 * j] == v % 256 && r[4 * j + 1] == v / 256 % 256;
      assert r[4 * j + 2] == v / 65536 % 256 && r[4 * j + 3] == v / 16777216;
      assert v / 256 / 256 == v / 65536 && v / 65536 / 256 == v / 16777216;
    } else {
      assert forall i :: 0 <= i < BSIZE && (i < 4 * j || 4 * j + 4 <= i) ==> r[i] == b[i];
      assert 4 * k + 3 < 4 * j || 4 * j + 4 <= 4 * k;
    }
  }

  // ---------------------------------------------------------------- the free bitmap

  /** A bitmap byte as its eight bits: `1 << i` selects x[i]. */
  type BitByte = x: seq<bool> | |x| == 8 witness seq(8, i => false)
  type BitBlock = b: seq<BitByte> | |b| == BSIZE witness seq(BSIZE, j => seq(8, i => false))

  /** The bit of block b: block b / BPB of the bitmap, byte (b % BPB) / 8 of it, bit b % 8. */
  function Bit(bm: seq<BitBlock>, b: nat): bool
    requires b / BPB < |bm|
  {
    bm[b / BPB][b % BPB / 8][b % 8]
  }

  function PutBit(bm: seq<BitBlock>, q: nat, r: nat, i: nat, x: bool): seq<BitBlock>
    requires q < |bm| && r < BSIZE && i < 8
  {
    bm[q := bm[q][r := bm[q][r][i := x]]]
  }

  function SetBit(bm: seq<BitBlock>, b: nat): seq<BitBlock>
    requires b / BPB < |bm|
  {
    PutBit(bm, b / BPB, b % BPB / 8, b % 8, true)
  }

  function ClearBit(bm: seq<BitBlock>, b: nat): seq<BitBlock>
    requires b / BPB < |bm|
  {
    PutBit(bm, b / BPB, b % BPB / 8, b % 8, false)
  }

  lemma AfterPut(bm: seq<BitBlock>, q: nat, r: nat, i: nat, x: bool, q': nat, r': nat, i': nat)
    requires q < |bm| && r < BSIZE && i < 8 && q' < |bm| && r' < BSIZE && i' < 8
    ensures PutBit(bm, q, r, i, x)[q'][r'][i']
         == if q == q' && r == r' && i == i' then x else bm[q'][r'][i']
  {}

  lemma ModEight(a: nat, r: nat)
    ensures (8 * a + r) % 8 == r % 8
  {}

  /** A bit is found by its block, its byte and its place in the byte. */
  lemma BitParts(b: nat)
    ensures b == BPB * (b / BPB) + 8 * (b % BPB / 8) + b % 8
  {
    ModEight(1024 * (b / BPB), b % BPB);
  }

  lemma BitPosition(b: nat, c: nat)
    requires b / BPB == c / BPB && b % BPB / 8 == c % BPB / 8 && b % 8 == c % 8
    ensures b == c
  {
    BitParts(b);
    BitParts(c);
  }

  lemma BitAfterSet(bm: seq<BitBlock>, b: nat, c: nat)
    requires b / BPB < |bm| && c / BPB < |bm|
    ensures Bit(SetBit(bm, b), c) <==> c == b || Bit(bm, c)
  {
    AfterPut(bm, b / BPB, b % BPB / 8, b % 8, true, c / BPB, c % BPB / 8, c % 8);
    if b / BPB == c / BPB && b % BPB / 8 == c % BPB / 8 && b % 8 == c % 8 {
      BitPosition(b, c);
    }
  }

  lemma BitAfterClear(bm: seq<BitBlock>, b: nat, c: nat)
    requires b / BPB < |bm| && c / BPB < |bm|
    ensures Bit(ClearBit(bm, b), c) <==> c != b && Bit(bm, c)
  {
    AfterPut(bm, b / BPB, b % BPB / 8, b % 8, false, c / BPB, c % BPB / 8, c % 8);
    if b / BPB == c / BPB && b % BPB / 8 == c % BPB / 8 && b % 8 == c % 8 {
      BitPosition(b, c);
    }
  }

  /** The bit that balloc's inner loop tests. */
  lemma BitInBlock(bm: seq<BitBlock>, base: nat, bi: nat)
    requires base % BPB == 0 && bi < BPB && base / BPB < |bm|
    ensures (base + bi) / BPB == base / BPB
    ensures Bit(bm, base + bi) == bm[base / BPB][bi / 8][bi % 8]
  {
    var q := base / BPB;
    assert base == q * BPB && base + bi == (q * 1024) * 8 + bi;
    assert (base + bi) / BPB == q && (base + bi) % BPB == bi;
    assert (base + bi) % 8 == bi % 8;
  }
}
