/**
 The free list of user/umalloc.c as values.  Addresses and sizes are in header units.  The ring
 is listed from `base` upwards; its last block points back to `base`.
*/
module FreeList {

  datatype Block = Block(a: int, n: int)

  datatype Header = Header(ptr: int, size: int)

  function End(b: Block): int { b.a + b.n }

  ghost predicate Apart(x: Block, y: Block) { End(x) <= y.a || End(y) <= x.a }

  /** Address order with one wrap, always containing base, free blocks neither overlapping nor adjacent. */
  ghost predicate RingOk(base: int, ring: seq<Block>, brk: int) {
    && ring != [] && ring[0] == Block(base, 0)
    && (forall i, j :: 0 <= i < j < |ring| ==> End(ring[i]) < ring[j].a)
    && (forall i :: 1 <= i < |ring| ==> ring[i].n > 0 && End(ring[i]) <= brk)
  }

  /** b lies above base, below brk, and clear of every free block. */
  ghost predicate ClearOf(base: int, ring: seq<Block>, brk: int, b: Block) {
    && b.n > 0 && base < b.a && End(b) <= brk
    && forall i :: 1 <= i < |ring| ==> Apart(b, ring[i])
  }

  ghost predicate LiveOk(base: int, ring: seq<Block>, live: seq<Block>, brk: int) {
    && (forall k :: 0 <= k < |live| ==> ClearOf(base, ring, brk, live[k]))
    && (forall k, l :: 0 <= k < l < |live| ==> Apart(live[k], live[l]))
  }

  function Next(ring: seq<Block>, i: nat): nat
    requires i < |ring|
  {
    if i + 1 == |ring| then 0 else i + 1
  }

  /** The headers in memory spell out the ring. */
  ghost predicate Linked(mem: map<int, Header>, ring: seq<Block>) {
    forall i :: 0 <= i < |ring| ==> LinkedAt(mem, ring, i)
  }

  ghost predicate LinkedAt(mem: map<int, Header>, ring: seq<Block>, i: nat)
    requires i < |ring|
  {
    ring[i].a in mem && mem[ring[i].a] == Header(ring[Next(ring, i)].a, ring[i].n)
  }

  ghost predicate Recorded(mem: map<int, Header>, live: seq<Block>) {
    forall k :: 0 <= k < |live| ==> live[k].a in mem && mem[live[k].a].size == live[k].n
  }

  function Units(bs: seq<Block>): int {
    if bs == [] then 0 else bs[0].n + Units(bs[1..])
  }

  lemma {:induction false} UnitsConcat(a: seq<Block>, b: seq<Block>)
    ensures Units(a + b) == Units(a) + Units(b)
  {
    if a == [] {
      assert a + b == b;
    } else {
      UnitsConcat(a[1..], b);
      assert (a + b)[1..] == a[1..] + b;
    }
  }

  lemma UnitsSplit(a: seq<Block>, k: nat)
    requires k < |a|
    ensures Units(a) == Units(a[..k]) + a[k].n + Units(a[k + 1..])
  {
    var rest := [a[k]] + a[k + 1..];
    assert a == a[..k] + rest;
    UnitsConcat(a[..k], rest);
    UnitsConcat([a[k]], a[k + 1..]);
    UnitsOne(a[k]);
  }

  // ---------------------------------------------------------------- editing the ring

  /** Blocks k .. t-1 replaced by `mid`. */
  function Splice(ring: seq<Block>, k: nat, mid: seq<Block>, t: nat): (r: seq<Block>)
    requires k <= t <= |ring|
    ensures |r| == k + |mid| + |ring| - t
    ensures forall i :: 0 <= i < k ==> r[i] == ring[i]
    ensures forall i :: k <= i < k + |mid| ==> r[i] == mid[i - k]
    ensures forall i :: k + |mid| <= i < |r| ==> r[i] == ring[i - k - |mid| + t]
  {
    ring[..k] + mid + ring[t..]
  }

  lemma SpliceUnits(ring: seq<Block>, k: nat, mid: seq<Block>, t: nat)
    requires k <= t <= |ring|
    ensures Units(Splice(ring, k, mid, t)) == Units(ring) - Units(ring[k..t]) + Units(mid)
  {
    assert ring == ring[..k] + (ring[k..t] + ring[t..]);
    UnitsConcat(ring[..k], ring[k..t] + ring[t..]);
    UnitsConcat(ring[k..t], ring[t..]);
    assert Splice(ring, k, mid, t) == ring[..k] + (mid + ring[t..]);
    UnitsConcat(ring[..k], mid + ring[t..]);
    UnitsConcat(mid, ring[t..]);
  }

  /** The block that the last block of the spliced part must point to. */
  function After(ring: seq<Block>, t: nat): int
    requires ring != []
  {
    if t < |ring| then ring[t].a else ring[0].a
  }

  /** Headers after a splice that keeps the address of block k: only `mid` needs new ones. */
  ghost predicate Relinked(mem: map<int, Header>, mem': map<int, Header>, ring: seq<Block>, k: nat, mid: seq<Block>,
                           t: nat)
    requires k < t <= |ring| && 1 <= |mid| <= 2
  {
    && mid[0].a == ring[k].a
    && (forall i :: 0 <= i < |ring| && (i < k || t <= i) ==>
          ring[i].a in mem' && ring[i].a in mem && mem'[ring[i].a] == mem[ring[i].a])
    && (forall x :: 0 <= x < |mid| ==> mid[x].a in mem')
    && (forall x :: 0 <= x < |mid| ==>
          mem'[mid[x].a] == Header(if x + 1 < |mid| then mid[1].a else After(ring, t), mid[x].n))
  }

  lemma SpliceLinked(mem: map<int, Header>, mem': map<int, Header>, ring: seq<Block>, k: nat, mid: seq<Block>, t: nat)
    requires Linked(mem, ring) && k < t <= |ring| && 1 <= |mid| <= 2
    requires Relinked(mem, mem', ring, k, mid, t)
    ensures Linked(mem', Splice(ring, k, mid, t))
  {
    var r := Splice(ring, k, mid, t);
    assert r[0].a == ring[0].a;
    forall i | 0 <= i < |r| ensures LinkedAt(mem', r, i) {
      if i < k {
        assert LinkedAt(mem, ring, i);
        assert r[i + 1].a == ring[i + 1].a;
      } else if i < k + |mid| {
        assert r[i] == mid[i - k];
      } else {
        var o := i - k - |mid| + t;
        assert LinkedAt(mem, ring, o);
      }
    }
  }

  lemma UnitsOne(b: Block)
    ensures Units([b]) == b.n
  {}

  lemma UnitsTwo(b: Block, c: Block)
    ensures Units([b, c]) == b.n + c.n
  {
    UnitsOne(b);
    UnitsOne(c);
    UnitsConcat([b], [c]);
    assert [b] + [c] == [b, c];
  }

  /** `mid` fits between block k-1 and block t. */
  ghost predicate Fits(base: int, ring: seq<Block>, brk: int, k: nat, mid: seq<Block>, t: nat) {
    && k < t <= |ring| && |mid| <= 2
    && (k == 0 ==> mid != [] && mid[0] == Block(base, 0))
    && (forall i :: 0 <= i < |mid| ==> ring[k].a <= mid[i].a && End(mid[i]) <= brk)
    && (forall i :: 0 <= i < |mid| && k + i > 0 ==> mid[i].n > 0)
    && (|mid| == 2 ==> End(mid[0]) < mid[1].a)
    && (forall i :: 0 <= i < |mid| && t < |ring| ==> End(mid[i]) < ring[t].a)
  }

  lemma SpliceOk(base: int, ring: seq<Block>, brk: int, k: nat, mid: seq<Block>, t: nat)
    requires RingOk(base, ring, brk) && Fits(base, ring, brk, k, mid, t)
    ensures RingOk(base, Splice(ring, k, mid, t), brk)
  {
    var r := Splice(ring, k, mid, t);
    forall i, j | 0 <= i < j < |r| ensures End(r[i]) < r[j].a {
      if i < k {
        assert j >= k && j < k + |mid| ==> End(ring[i]) < ring[k].a;
      } else if i < k + |mid| && j >= k + |mid| {
        assert End(mid[i - k]) < ring[t].a;
        assert ring[t].a <= r[j].a;
      }
    }
  }

  // ---------------------------------------------------------------- insertion

  /** Block k is the one after which an address belongs. */
  ghost predicate Precedes(ring: seq<Block>, k: int, a: int) {
    0 <= k < |ring| && ring[k].a < a && (k + 1 < |ring| ==> a < ring[k + 1].a)
  }

  /** There is always an insertion point. */
  lemma {:induction false} InsertionPoint(base: int, ring: seq<Block>, brk: int, b: Block, k: nat) returns (r: nat)
    requires RingOk(base, ring, brk) && ClearOf(base, ring, brk, b)
    requires k < |ring| && ring[k].a < b.a
    ensures Precedes(ring, r, b.a)
    decreases |ring| - k
  {
    if k + 1 < |ring| && ring[k + 1].a < b.a {
      r := InsertionPoint(base, ring, brk, b, k + 1);
    } else {
      r := k;
    }
  }

  /** b touches the block above it / the block below it. */
  predicate TouchesUp(ring: seq<Block>, k: nat, b: Block) {
    k + 1 < |ring| && End(b) == ring[k + 1].a
  }

  predicate TouchesDown(ring: seq<Block>, k: nat, b: Block)
    requires k < |ring|
  {
    End(ring[k]) == b.a
  }

  function MergedUp(ring: seq<Block>, k: nat, b: Block): Block {
    if TouchesUp(ring, k, b) then Block(b.a, b.n + ring[k + 1].n) else b
  }

  function MergedBoth(ring: seq<Block>, k: nat, b: Block): seq<Block>
    requires k < |ring|
  {
    var m := MergedUp(ring, k, b);
    if TouchesDown(ring, k, b) then [Block(ring[k].a, ring[k].n + m.n)] else [ring[k], m]
  }

  function FirstAbove(ring: seq<Block>, k: nat, b: Block): nat {
    if TouchesUp(ring, k, b) then k + 2 else k + 1
  }

  /** free(): the ring with b inserted after block k and merged on both sides. */
  function Freed(ring: seq<Block>, k: nat, b: Block): seq<Block>
    requires k < |ring|
  {
    Splice(ring, k, MergedBoth(ring, k, b), FirstAbove(ring, k, b))
  }

  /** b lies strictly between its neighbours. */
  lemma Neighbours(base: int, ring: seq<Block>, brk: int, k: nat, b: Block)
    requires RingOk(base, ring, brk) && ClearOf(base, ring, brk, b) && Precedes(ring, k, b.a)
    ensures End(ring[k]) <= b.a && (k == 0 ==> End(ring[k]) < b.a)
    ensures k + 1 < |ring| ==> End(b) <= ring[k + 1].a
  {}

  /** Inserting keeps the ring ordered, disjoint and fully merged, and loses no units. */
  lemma FreedOk(base: int, ring: seq<Block>, brk: int, k: nat, b: Block)
    requires RingOk(base, ring, brk) && ClearOf(base, ring, brk, b) && Precedes(ring, k, b.a)
    ensures RingOk(base, Freed(ring, k, b), brk)
    ensures Units(Freed(ring, k, b)) == Units(ring) + b.n
  {
    Neighbours(base, ring, brk, k, b);
    var mid, t := MergedBoth(ring, k, b), FirstAbove(ring, k, b);
    assert Fits(base, ring, brk, k, mid, t);
    SpliceOk(base, ring, brk, k, mid, t);
    SpliceUnits(ring, k, mid, t);
    MidUnits(ring, k, b);
  }

  lemma MidUnits(ring: seq<Block>, k: nat, b: Block)
    requires k < |ring|
    ensures Units(MergedBoth(ring, k, b)) == Units(ring[k..FirstAbove(ring, k, b)]) + b.n
  {
    var m := MergedUp(ring, k, b);
    UnitsOne(ring[k]);
    UnitsTwo(ring[k], m);
    if TouchesUp(ring, k, b) {
      UnitsTwo(ring[k], ring[k + 1]);
      assert ring[k..k + 2] == [ring[k], ring[k + 1]];
    } else {
      assert ring[k..k + 1] == [ring[k]];
    }
  }

  /** A block clear of the ring and of b stays clear of the ring with b in it. */
  lemma FreedKeepsClear(base: int, ring: seq<Block>, brk: int, k: nat, b: Block, x: Block)
    requires RingOk(base, ring, brk) && ClearOf(base, ring, brk, b) && Precedes(ring, k, b.a)
    requires ClearOf(base, ring, brk, x) && Apart(x, b)
    ensures ClearOf(base, Freed(ring, k, b), brk, x)
  {}

  /** The headers after free() has stored them, p being the block before b. */
  function FreedMem(mem: map<int, Header>, p: int, b: Block): map<int, Header>
    requires p in mem && mem[p].ptr in mem
  {
    var q := mem[p].ptr;
    var h := if End(b) == q then Header(mem[q].ptr, b.n + mem[q].size) else Header(q, b.n);
    var mem1 := mem[b.a := h];
    if p + mem1[p].size == b.a then mem1[p := Header(h.ptr, mem1[p].size + h.size)]
    else mem1[p := Header(b.a, mem1[p].size)]
  }

  lemma FreedLinked(base: int, ring: seq<Block>, brk: int, mem: map<int, Header>, k: nat, b: Block)
    requires RingOk(base, ring, brk) && ClearOf(base, ring, brk, b) && Precedes(ring, k, b.a)
    requires Linked(mem, ring)
    ensures ring[k].a in mem && mem[ring[k].a].ptr in mem
    ensures Linked(FreedMem(mem, ring[k].a, b), Freed(ring, k, b))
  {
    Neighbours(base, ring, brk, k, b);
    assert LinkedAt(mem, ring, k) && LinkedAt(mem, ring, Next(ring, k));
    var mid, t := MergedBoth(ring, k, b), FirstAbove(ring, k, b);
    var mem' := FreedMem(mem, ring[k].a, b);
    forall i | 0 <= i < |ring| && (i < k || t <= i)
      ensures ring[i].a in mem' && ring[i].a in mem && mem'[ring[i].a] == mem[ring[i].a]
    {
      assert LinkedAt(mem, ring, i);
      NotAmong(base, ring, brk, k, b, i);
    }
    assert Relinked(mem, mem', ring, k, mid, t);
    SpliceLinked(mem, mem', ring, k, mid, t);
  }

  /** Another free block is neither the one before b nor at b. */
  lemma NotAmong(base: int, ring: seq<Block>, brk: int, k: nat, b: Block, i: nat)
    requires RingOk(base, ring, brk) && ClearOf(base, ring, brk, b) && Precedes(ring, k, b.a) && i < |ring| && i != k
    ensures ring[i].a != ring[k].a && ring[i].a != b.a
  {}

  lemma Different(base: int, ring: seq<Block>, brk: int, i: nat, j: nat)
    requires RingOk(base, ring, brk) && i < |ring| && j < |ring| && i != j
    ensures ring[i].a != ring[j].a
  {}

  // ---------------------------------------------------------------- removal

  /** malloc(): what is left of block j after n units have been cut off its end. */
  function Rest(ring: seq<Block>, j: nat, n: int): seq<Block>
    requires j < |ring|
  {
    if ring[j].n == n then [] else [Block(ring[j].a, ring[j].n - n)]
  }

  function Taken(ring: seq<Block>, j: nat, n: int): seq<Block>
    requires j < |ring|
  {
    Splice(ring, j, Rest(ring, j, n), j + 1)
  }

  /** The block malloc() hands out: the tail of block j. */
  function Handed(ring: seq<Block>, j: nat, n: int): Block
    requires j < |ring|
  {
    Block(End(ring[j]) - n, n)
  }

  lemma TakenOk(base: int, ring: seq<Block>, brk: int, j: nat, n: int)
    requires RingOk(base, ring, brk) && 1 <= j < |ring| && 0 < n <= ring[j].n
    ensures RingOk(base, Taken(ring, j, n), brk)
    ensures Units(Taken(ring, j, n)) == Units(ring) - n
    ensures ClearOf(base, Taken(ring, j, n), brk, Handed(ring, j, n))
  {
    TakenRing(base, ring, brk, j, n);
    TakenUnits(ring, j, n);
    TakenApart(base, ring, brk, j, n);
  }

  lemma TakenRing(base: int, ring: seq<Block>, brk: int, j: nat, n: int)
    requires RingOk(base, ring, brk) && 1 <= j < |ring| && 0 < n <= ring[j].n
    ensures RingOk(base, Taken(ring, j, n), brk)
  {
    RestFits(base, ring, brk, j, n);
    SpliceOk(base, ring, brk, j, Rest(ring, j, n), j + 1);
  }

  lemma RestFits(base: int, ring: seq<Block>, brk: int, j: nat, n: int)
    requires RingOk(base, ring, brk) && 1 <= j < |ring| && 0 < n <= ring[j].n
    ensures Fits(base, ring, brk, j, Rest(ring, j, n), j + 1)
  {}

  lemma TakenUnits(ring: seq<Block>, j: nat, n: int)
    requires j < |ring|
    ensures Units(Taken(ring, j, n)) == Units(ring) - n
  {
    SpliceUnits(ring, j, Rest(ring, j, n), j + 1);
    RestUnits(ring, j, n);
  }

  lemma RestUnits(ring: seq<Block>, j: nat, n: int)
    requires j < |ring|
    ensures Units(Rest(ring, j, n)) == Units(ring[j..j + 1]) - n
  {
    assert ring[j..j + 1] == [ring[j]];
    UnitsOne(ring[j]);
    UnitsOne(Block(ring[j].a, ring[j].n - n));
  }

  lemma TakenApart(base: int, ring: seq<Block>, brk: int, j: nat, n: int)
    requires RingOk(base, ring, brk) && 1 <= j < |ring| && 0 < n <= ring[j].n
    ensures ClearOf(base, Taken(ring, j, n), brk, Handed(ring, j, n))
  {}

  /** The headers after malloc() has taken n units from block p, the successor of prevp. */
  function TakenMem(mem: map<int, Header>, prevp: int, p: int, n: int): map<int, Header>
    requires p in mem && prevp in mem
  {
    if mem[p].size == n then mem[prevp := Header(mem[p].ptr, mem[prevp].size)]
    else
      var rest := mem[p].size - n;
      var mem1 := mem[p := Header(mem[p].ptr, rest)];
      var stale := if p + rest in mem1 then mem1[p + rest].ptr else 0;
      mem1[p + rest := Header(stale, n)]
  }

  lemma TakenLinked(base: int, ring: seq<Block>, brk: int, mem: map<int, Header>, j: nat, n: int)
    requires RingOk(base, ring, brk) && 1 <= j < |ring| && 0 < n <= ring[j].n
    requires Linked(mem, ring)
    ensures ring[j].a in mem && ring[j - 1].a in mem
    ensures var mem' := TakenMem(mem, ring[j - 1].a, ring[j].a, n);
            && Linked(mem', Taken(ring, j, n))
            && Handed(ring, j, n).a in mem' && mem'[Handed(ring, j, n).a].size == n
  {
    assert LinkedAt(mem, ring, j) && LinkedAt(mem, ring, j - 1);
    if ring[j].n == n {
      WholeLinked(base, ring, brk, mem, j);
    } else {
      TailLinked(base, ring, brk, mem, j, n);
    }
  }

  lemma WholeLinked(base: int, ring: seq<Block>, brk: int, mem: map<int, Header>, j: nat)
    requires RingOk(base, ring, brk) && 1 <= j < |ring| && Linked(mem, ring)
    requires LinkedAt(mem, ring, j) && LinkedAt(mem, ring, j - 1)
    ensures Linked(TakenMem(mem, ring[j - 1].a, ring[j].a, ring[j].n), Taken(ring, j, ring[j].n))
  {
    var mem' := TakenMem(mem, ring[j - 1].a, ring[j].a, ring[j].n);
    forall i | 0 <= i < |ring| && (i < j - 1 || j + 1 <= i)
      ensures ring[i].a in mem' && ring[i].a in mem && mem'[ring[i].a] == mem[ring[i].a]
    {
      assert LinkedAt(mem, ring, i);
      Different(base, ring, brk, i, j - 1);
    }
    SpliceLinked(mem, mem', ring, j - 1, [ring[j - 1]], j + 1);
    WholeTaken(ring, j);
  }

  lemma WholeTaken(ring: seq<Block>, j: nat)
    requires 1 <= j < |ring|
    ensures Splice(ring, j - 1, [ring[j - 1]], j + 1) == Taken(ring, j, ring[j].n)
  {}

  lemma TailLinked(base: int, ring: seq<Block>, brk: int, mem: map<int, Header>, j: nat, n: int)
    requires RingOk(base, ring, brk) && 1 <= j < |ring| && 0 < n < ring[j].n && Linked(mem, ring)
    requires LinkedAt(mem, ring, j) && LinkedAt(mem, ring, j - 1)
    ensures Linked(TakenMem(mem, ring[j - 1].a, ring[j].a, n), Taken(ring, j, n))
  {
    var mem' := TakenMem(mem, ring[j - 1].a, ring[j].a, n);
    forall i | 0 <= i < |ring| && (i < j || j + 1 <= i)
      ensures ring[i].a in mem' && ring[i].a in mem && mem'[ring[i].a] == mem[ring[i].a]
    {
      assert LinkedAt(mem, ring, i);
    }
    SpliceLinked(mem, mem', ring, j, Rest(ring, j, n), j + 1);
  }
}
