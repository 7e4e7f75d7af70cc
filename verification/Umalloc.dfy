/**
 user/umalloc.c as code: free(), morecore() and malloc() chasing header pointers.  sbrk is the
 environment: it refuses, or it grants the next region of the heap after a gap of its choice.
*/
module Umalloc {
  import opened FreeList

  const HEADER: nat := 16   // sizeof(Header)

  function NUnits(nbytes: nat): nat { (nbytes + HEADER - 1) / HEADER + 1 }

  /** Conversion to C's 32-bit int, the type of sbrk's argument. */
  function ToInt32(x: nat): int {
    var y := x % 0x1_0000_0000;
    if y < 0x8000_0000 then y else y - 0x1_0000_0000
  }

  /** What morecore asks sbrk for. */
  function Batch(nu: nat): nat { if nu < 4096 then 4096 else nu }

  /** A malloc'ed block has room for what was asked for. */
  lemma RoomForRequest(nbytes: nat)
    ensures NUnits(nbytes) >= 1 && (NUnits(nbytes) - 1) * HEADER >= nbytes
    ensures nbytes > 0 ==> (NUnits(nbytes) - 2) * HEADER < nbytes
  {}

  /** sbrk is asked for what morecore wants exactly when that is less than 2^27 units. */
  lemma SbrkArgumentExact(nu: nat)
    ensures ToInt32(nu * HEADER) == nu * HEADER <==> nu < 0x800_0000
  {}

  /** ... that is, for requests of at most 2^31 - 32 bytes; one byte more asks sbrk to shrink. */
  lemma LargestRequest(nbytes: nat)
    ensures NUnits(nbytes) < 0x800_0000 <==> nbytes <= 0x7FFF_FFE0
    ensures ToInt32(NUnits(0x7FFF_FFE1) * HEADER) == -0x8000_0000
  {}

  /** SbrkOverflow: the request does not fit sbrk's int; the real program goes on with a corrupt heap. */
  datatype Outcome = Allocated(ptr: int) | OutOfMemory | SbrkOverflow

  /** Blocks j strictly between f and i on the way round the ring. */
  ghost predicate Between(f: int, j: int, i: int) {
    if f < i then f < j < i else j > f || j < i
  }

  ghost predicate Scanned(ring: seq<Block>, f: int, i: int, n: int) {
    forall j :: 0 <= j < |ring| && Between(f, j, i) ==> ring[j].n < n
  }

  ghost predicate NoFit(ring: seq<Block>, n: int) { forall i :: 0 <= i < |ring| ==> ring[i].n < n }

  function Previous(ring: seq<Block>, i: nat): nat
    requires i < |ring|
  {
    if i == 0 then |ring| - 1 else i - 1
  }

  /** One step along the ring, from the start f or from a block that is too small. */
  lemma Advance(mem: map<int, Header>, ring: seq<Block>, f: nat, i: nat, n: int)
    requires Linked(mem, ring) && f < |ring| && i < |ring|
    requires i == f || (Scanned(ring, f, i, n) && ring[i].n < n)
    ensures LinkedAt(mem, ring, i) && LinkedAt(mem, ring, Next(ring, i))
    ensures Previous(ring, Next(ring, i)) == i && Scanned(ring, f, Next(ring, i), n)
    ensures i != f ==> Distance(|ring|, Next(ring, i), f) < Distance(|ring|, i, f)
  {}

  /** Back at f, the whole ring has been seen. */
  lemma RingScanned(ring: seq<Block>, f: nat, n: int)
    requires f < |ring| && Scanned(ring, f, f, n) && ring[f].n < n
    ensures forall j :: 0 <= j < |ring| ==> ring[j].n < n
  {}

  /** Steps from i to k along the ring. */
  function Distance(len: nat, i: nat, k: nat): int { if i <= k then k - i else k - i + len }

  /** free()'s search goes on exactly until it has reached the block before bp. */
  lemma StopsAtPredecessor(base: int, ring: seq<Block>, brk: int, b: Block, i: nat)
    requires RingOk(base, ring, brk) && i < |ring| && ClearOf(base, ring, brk, b)
    ensures var bp, p, q := b.a, ring[i].a, ring[Next(ring, i)].a;
      Precedes(ring, i, bp) <==> (bp > p && bp < q) || (p >= q && (bp > p || bp < q))
  {
    assert i + 1 == |ring| ==> ring[Next(ring, i)].a == base <= ring[i].a;
  }

  class Allocator {
    const base: int
    var mem: map<int, Header>
    var freep: int            // 0 until the first malloc
    var brk: int
    ghost var ring: seq<Block>
    ghost var live: seq<Block>
    ghost var f: nat          // freep is block f
    ghost var granted: int    // units received from sbrk

    ghost predicate Valid()
      reads this
    {
      && 0 < base < brk
      && if freep == 0 then ring == [] && live == [] && granted == 0 else Running()
    }

    ghost predicate Running()
      reads this
    {
      && 0 < base < brk
      && RingOk(base, ring, brk) && LiveOk(base, ring, live, brk)
      && Linked(mem, ring) && Recorded(mem, live)
      && f < |ring| && ring[f].a == freep
      && Units(ring) + Units(live) == granted
    }

    constructor (base: int, brk: int)
      requires 0 < base < brk
      ensures Valid() && freep == 0 && granted == 0 && this.brk == brk
    {
      this.base, this.brk, mem, freep := base, brk, map[], 0;
      ring, live, f, granted := [], [], 0, 0;
    }

    /** The search loop of free(): it stops, at the block before bp. */
    method FindPredecessor(bp: int, ghost b: Block) returns (p: int, ghost k: nat)
      requires RingOk(base, ring, brk) && Linked(mem, ring) && f < |ring| && ring[f].a == freep
      requires ClearOf(base, ring, brk, b) && b.a == bp
      ensures k < |ring| && Precedes(ring, k, bp) && p == ring[k].a
    {
      k := InsertionPoint(base, ring, brk, b, 0);
      p := freep;
      ghost var i: nat := f;
      assert LinkedAt(mem, ring, i);
      while !(bp > p && bp < mem[p].ptr)
        invariant i < |ring| && p == ring[i].a && LinkedAt(mem, ring, i)
        decreases Distance(|ring|, i, k)
      {
        StopsAtPredecessor(base, ring, brk, b, i);
        if p >= mem[p].ptr && (bp > p || bp < mem[p].ptr) {
          break;
        }
        p := mem[p].ptr;
        i := Next(ring, i);
        assert LinkedAt(mem, ring, i);
      }
      StopsAtPredecessor(base, ring, brk, b, i);
      k := i;
    }

    /** free() of a block that is neither free nor live any more. */
    method FreeBlock(bp: int, ghost b: Block)
      requires 0 < base < brk && RingOk(base, ring, brk) && LiveOk(base, ring, live, brk)
      requires Linked(mem, ring) && Recorded(mem, live) && f < |ring| && ring[f].a == freep
      requires Units(ring) + b.n + Units(live) == granted
      requires ClearOf(base, ring, brk, b) && b.a == bp && bp in mem && mem[bp].size == b.n
      requires forall k :: 0 <= k < |live| ==> Apart(live[k], b)
      modifies `mem, `freep, `ring, `f
      ensures Running()
      ensures exists k :: 0 <= k < |old(ring)| && Precedes(old(ring), k, bp) && f == k && ring == Freed(old(ring), k, b)
    {
      var p; ghost var k;
      p, k := FindPredecessor(bp, b);
      FreeKeeps(base, ring, live, brk, mem, k, b);
      Link(bp, p, b);
      freep := p;
      ring, f := Freed(ring, k, b), k;
    }

    /** free()'s stores: b is linked in after p, or merged with p and with the block above. */
    method Link(bp: int, p: int, ghost b: Block)
      requires p in mem && mem[p].ptr in mem && bp in mem && p != bp && b == Block(bp, mem[bp].size) && mem[p].ptr != bp
      modifies `mem
      ensures mem == FreedMem(old(mem), p, b)
    {
      var q := mem[p].ptr;
      if bp + mem[bp].size == q {
        mem := mem[bp := Header(mem[q].ptr, mem[bp].size + mem[q].size)];
      } else {
        mem := mem[bp := Header(q, mem[bp].size)];
      }
      if p + mem[p].size == bp {
        mem := mem[p := Header(mem[bp].ptr, mem[p].size + mem[bp].size)];
      } else {
        mem := mem[p := Header(bp, mem[p].size)];
      }
    }

    /** free(ap) for the live block l. */
    method Free(ap: int, ghost l: nat)
      requires Valid() && l < |live| && live[l].a == ap - 1
      modifies `mem, `freep, `ring, `f, `live
      ensures Valid() && freep != 0 && granted == old(granted)
      ensures live == old(live)[..l] + old(live)[l + 1..]
    {
      ghost var b := live[l];
      UnitsSplit(live, l);
      UnitsConcat(live[..l], live[l + 1..]);
      live := live[..l] + live[l + 1..];
      FreeBlock(ap - 1, b);
    }

    /** morecore(): at least 4096 units from sbrk, put on the free list. */
    method Morecore(nu0: nat, grants: bool, gap: nat) returns (ok: bool, overflow: bool, ghost g: nat)
      requires Running() && 0 < nu0
      modifies `mem, `freep, `ring, `f, `brk, `granted
      ensures Running() && live == old(live)
      ensures overflow <==> nu0 >= 0x800_0000
      ensures ok <==> !overflow && grants
      ensures !ok ==> ring == old(ring) && granted == old(granted) && brk == old(brk) && f == old(f)
      ensures ok ==> granted == old(granted) + Batch(nu0)
      ensures ok ==> g < |ring| && ring[g].n >= nu0
    {
      var nu := Batch(nu0);
      SbrkArgumentExact(nu);
      if ToInt32(nu * HEADER) != nu * HEADER {
        return false, true, 0;
      }
      if !grants {
        return false, false, 0;
      }
      var hp := brk + gap;
      ghost var b, ring0 := Block(hp, nu), ring;
      GrowBrk(base, ring, live, brk, mem, gap, nu);
      mem := mem[hp := Header(if hp in mem then mem[hp].ptr else 0, nu)];
      brk := hp + nu;
      granted := granted + nu;
      FreeBlock(hp, b);
      ghost var k :| 0 <= k < |ring0| && f == k && ring == Freed(ring0, k, b);
      g := FreedHolds(ring0, k, b);
      return true, false, g;
    }

    /** Unlinking or splitting the block p that follows prevp. */
    method Unlink(prevp: int, p: int, n: nat) returns (q: int)
      requires p in mem && prevp in mem
      modifies `mem
      ensures mem == TakenMem(old(mem), prevp, p, n)
      ensures q == if old(mem)[p].size == n then p else p + old(mem)[p].size - n
    {
      q := p;
      if mem[p].size == n {
        mem := mem[prevp := Header(mem[p].ptr, mem[prevp].size)];
      } else {
        mem := mem[p := Header(mem[p].ptr, mem[p].size - n)];
        q := p + mem[p].size;
        mem := mem[q := Header(if q in mem then mem[q].ptr else 0, n)];
      }
    }

    /** The end of malloc()'s loop body: take n units from block j, the successor of prevp. */
    method Take(prevp: int, p: int, n: nat, ghost j: nat) returns (r: int)
      requires Running() && 1 <= j < |ring| && 0 < n <= ring[j].n
      requires p == ring[j].a && prevp == ring[j - 1].a
      modifies `mem, `freep, `ring, `f, `live
      ensures Running() && freep == prevp
      ensures live == old(live) + [Block(r - 1, n)]
    {
      TakeKeeps(base, ring, live, brk, mem, j, n);
      var q := Unlink(prevp, p, n);
      freep := prevp;
      live := live + [Handed(ring, j, n)];
      ring, f := Taken(ring, j, n), j - 1;
      r := q + 1;
    }

    /** malloc(): first fit, growing the heap at most once. */
    method Malloc(nbytes: nat, grants: bool, gap: nat) returns (r: Outcome, grown: nat)
      requires Valid() && nbytes < 0x1_0000_0000
      modifies this
      ensures Valid()
      ensures grown <= 1 && granted == old(granted) + grown * Batch(NUnits(nbytes))
      ensures r.Allocated? ==> live == old(live) + [Block(r.ptr - 1, NUnits(nbytes))]
      ensures !r.Allocated? ==> live == old(live) && grown == 0
      ensures r.SbrkOverflow? <==> nbytes > 0x7FFF_FFE0 && NoFit(old(ring), NUnits(nbytes))
      ensures r.OutOfMemory? <==> nbytes <= 0x7FFF_FFE0 && !grants && NoFit(old(ring), NUnits(nbytes))
      ensures grown == 1 <==> nbytes <= 0x7FFF_FFE0 && grants && NoFit(old(ring), NUnits(nbytes))
    {
      LargestRequest(nbytes);
      if freep == 0 {
        Initialise();
      }
      r, grown := Search(NUnits(nbytes), grants, gap);
    }

    /** malloc()'s loop looks at p, block i, after prevp; the blocks between freep and p are too small. */
    ghost predicate At(i: nat, prevp: int, p: int, n: int)
      requires f < |ring|
      reads this
    {
      && i < |ring| && LinkedAt(mem, ring, i)
      && p == ring[i].a && prevp == ring[Previous(ring, i)].a
      && Scanned(ring, f, i, n)
    }

    /** The loop of malloc() from freep->ptr until a block fits or p == freep again. */
    method Scan(nunits: nat) returns (found: bool, prevp: int, p: int, ghost i: nat)
      requires Running() && nunits > 0
      ensures found ==> 1 <= i < |ring| && ring[i].n >= nunits && p == ring[i].a && prevp == ring[i - 1].a
      ensures found ==> Scanned(ring, f, i, nunits)
      ensures !found ==> forall j :: 0 <= j < |ring| ==> ring[j].n < nunits
    {
      Advance(mem, ring, f, f, nunits);
      prevp, i := freep, Next(ring, f);
      p := mem[prevp].ptr;
      while mem[p].size < nunits
        invariant At(i, prevp, p, nunits)
        decreases Distance(|ring|, i, f)
      {
        if p == freep {
          assert i == f;
          RingScanned(ring, f, nunits);
          return false, prevp, p, i;
        }
        Advance(mem, ring, f, i, nunits);
        prevp, p, i := p, mem[p].ptr, Next(ring, i);
      }
      found := true;
    }

    /** One pass over the ring: the first block that fits is taken. */
    method TryTake(nunits: nat) returns (found: bool, a: int)
      requires Running() && freep != 0 && nunits > 0
      modifies `mem, `freep, `ring, `f, `live
      ensures Running() && (found <==> !NoFit(old(ring), nunits))
      ensures found ==> freep != 0 && live == old(live) + [Block(a - 1, nunits)]
      ensures !found ==> freep == old(freep) && ring == old(ring) && live == old(live)
    {
      a := 0;
      var prevp, p;
      ghost var i: nat;
      found, prevp, p, i := Scan(nunits);
      if found {
        a := Take(prevp, p, nunits, i);
      }
    }

    /** The loop of malloc(); after morecore the scan starts again at the new freep. */
    method Search(nunits: nat, grants: bool, gap: nat) returns (r: Outcome, grown: nat)
      requires Running() && freep != 0 && nunits > 0
      modifies this
      ensures Running() && freep != 0
      ensures grown <= 1 && granted == old(granted) + grown * Batch(nunits)
      ensures r.Allocated? ==> live == old(live) + [Block(r.ptr - 1, nunits)]
      ensures !r.Allocated? ==> live == old(live) && grown == 0
      ensures r.SbrkOverflow? <==> nunits >= 0x800_0000 && NoFit(old(ring), nunits)
      ensures r.OutOfMemory? <==> nunits < 0x800_0000 && !grants && NoFit(old(ring), nunits)
      ensures grown == 1 <==> nunits < 0x800_0000 && grants && NoFit(old(ring), nunits)
    {
      grown := 0;
      ghost var g: nat := 0;
      while true
        invariant Running() && freep != 0 && live == old(live)
        invariant grown <= 1 && granted == old(granted) + grown * Batch(nunits)
        invariant grown == 0 ==> ring == old(ring)
        invariant grown == 1 ==> g < |ring| && ring[g].n >= nunits
        invariant grown == 1 ==> nunits < 0x800_0000 && grants && NoFit(old(ring), nunits)
        decreases 1 - grown
      {
        var found, a := TryTake(nunits);
        if found {
          return Allocated(a), grown;
        }
        var ok, overflow;
        ok, overflow, g := Morecore(nunits, grants, gap);
        if !ok {
          return if overflow then SbrkOverflow else OutOfMemory, grown;
        }
        grown := 1;
      }
    }

    /** The first call of malloc(): the ring is base alone. */
    method Initialise()
      requires Valid() && freep == 0
      modifies `mem, `freep, `ring, `f
      ensures Running() && freep != 0 && ring == [Block(base, 0)]
    {
      mem := mem[base := Header(base, 0)];
      freep := base;
      ring, f := [Block(base, 0)], 0;
      UnitsOne(ring[0]);
    }
  }

  /** Live blocks are not disturbed when another block is freed. */
  lemma LiveAfterFree(base: int, ring: seq<Block>, live: seq<Block>, brk: int, mem: map<int, Header>, k: nat, b: Block)
    requires RingOk(base, ring, brk) && LiveOk(base, ring, live, brk) && Linked(mem, ring) && Recorded(mem, live)
    requires ClearOf(base, ring, brk, b) && Precedes(ring, k, b.a)
    requires forall l :: 0 <= l < |live| ==> Apart(live[l], b)
    ensures ring[k].a in mem && mem[ring[k].a].ptr in mem
    ensures LiveOk(base, Freed(ring, k, b), live, brk) && Recorded(FreedMem(mem, ring[k].a, b), live)
  {
    assert LinkedAt(mem, ring, k) && LinkedAt(mem, ring, Next(ring, k));
    forall l | 0 <= l < |live|
      ensures ClearOf(base, Freed(ring, k, b), brk, live[l]) && live[l].a != b.a && live[l].a != ring[k].a
    {
      FreedKeepsClear(base, ring, brk, k, b, live[l]);
      assert k >= 1 ==> Apart(live[l], ring[k]);
    }
  }

  /** Everything Running() says still holds once b is on the free list. */
  lemma FreeKeeps(base: int, ring: seq<Block>, live: seq<Block>, brk: int, mem: map<int, Header>, k: nat, b: Block)
    requires RingOk(base, ring, brk) && LiveOk(base, ring, live, brk) && Linked(mem, ring) && Recorded(mem, live)
    requires ClearOf(base, ring, brk, b) && Precedes(ring, k, b.a)
    requires forall l :: 0 <= l < |live| ==> Apart(live[l], b)
    ensures var p, ring' := ring[k].a, Freed(ring, k, b);
      && p in mem && mem[p].ptr in mem && p != b.a && mem[p].ptr != b.a
      && RingOk(base, ring', brk) && LiveOk(base, ring', live, brk)
      && Linked(FreedMem(mem, p, b), ring') && Recorded(FreedMem(mem, p, b), live)
      && k < |ring'| && ring'[k].a == p && Units(ring') == Units(ring) + b.n
  {
    assert LinkedAt(mem, ring, k);
    FreedLinked(base, ring, brk, mem, k, b);
    FreedOk(base, ring, brk, k, b);
    LiveAfterFree(base, ring, live, brk, mem, k, b);
    if |ring| > 1 {
      NotAmong(base, ring, brk, k, b, Next(ring, k));
    }
  }

  lemma LiveAfterTake(base: int, ring: seq<Block>, live: seq<Block>, brk: int, j: nat, n: int)
    requires RingOk(base, ring, brk) && LiveOk(base, ring, live, brk)
    requires 1 <= j < |ring| && 0 < n <= ring[j].n
    ensures LiveOk(base, Taken(ring, j, n), live + [Handed(ring, j, n)], brk)
  {}

  /** Everything Running() says still holds once n units of block j are handed out. */
  lemma TakeKeeps(base: int, ring: seq<Block>, live: seq<Block>, brk: int, mem: map<int, Header>, j: nat, n: int)
    requires RingOk(base, ring, brk) && LiveOk(base, ring, live, brk) && Linked(mem, ring) && Recorded(mem, live)
    requires 1 <= j < |ring| && 0 < n <= ring[j].n
    ensures ring[j].a in mem && ring[j - 1].a in mem && mem[ring[j].a].size == ring[j].n
    ensures RingOk(base, Taken(ring, j, n), brk) && |Taken(ring, j, n)| >= j && Taken(ring, j, n)[j - 1] == ring[j - 1]
    ensures LiveOk(base, Taken(ring, j, n), live + [Handed(ring, j, n)], brk)
    ensures var mem' := TakenMem(mem, ring[j - 1].a, ring[j].a, n);
            Linked(mem', Taken(ring, j, n)) && Recorded(mem', live + [Handed(ring, j, n)])
    ensures Units(Taken(ring, j, n)) + Units(live + [Handed(ring, j, n)]) == Units(ring) + Units(live)
    ensures Handed(ring, j, n).n == n
  {
    assert LinkedAt(mem, ring, j) && LinkedAt(mem, ring, j - 1);
    TakenOk(base, ring, brk, j, n);
    TakenLinked(base, ring, brk, mem, j, n);
    LiveAfterTake(base, ring, live, brk, j, n);
    RecordedAfterTake(base, ring, live, brk, mem, j, n);
    UnitsConcat(live, [Handed(ring, j, n)]);
    UnitsOne(Handed(ring, j, n));
  }

  lemma RecordedAfterTake(base: int, ring: seq<Block>, live: seq<Block>, brk: int, mem: map<int, Header>, j: nat,
                          n: int)
    requires RingOk(base, ring, brk) && LiveOk(base, ring, live, brk) && Recorded(mem, live)
    requires 1 <= j < |ring| && 0 < n <= ring[j].n
    requires LinkedAt(mem, ring, j) && LinkedAt(mem, ring, j - 1)
    ensures Recorded(TakenMem(mem, ring[j - 1].a, ring[j].a, n), live + [Handed(ring, j, n)])
  {}

  /** Fresh memory above brk is clear of everything. */
  lemma GrowBrk(base: int, ring: seq<Block>, live: seq<Block>, brk: int, mem: map<int, Header>, gap: nat, nu: nat)
    requires 0 < base < brk && RingOk(base, ring, brk) && LiveOk(base, ring, live, brk) && nu > 0
    requires Linked(mem, ring) && Recorded(mem, live)
    ensures var b := Block(brk + gap, nu);
            var mem' := mem[b.a := Header(if b.a in mem then mem[b.a].ptr else 0, nu)];
            && RingOk(base, ring, End(b)) && LiveOk(base, ring, live, End(b)) && ClearOf(base, ring, End(b), b)
            && (forall k :: 0 <= k < |live| ==> Apart(live[k], b))
            && Linked(mem', ring) && Recorded(mem', live)
  {
    var b := Block(brk + gap, nu);
    var mem' := mem[b.a := Header(if b.a in mem then mem[b.a].ptr else 0, nu)];
    forall i | 0 <= i < |ring| ensures LinkedAt(mem', ring, i) {
      assert LinkedAt(mem, ring, i);
    }
    assert forall k :: 0 <= k < |live| ==> ClearOf(base, ring, brk, live[k]);
  }

  /** The freed block is part of some block of the new ring. */
  lemma FreedHolds(ring: seq<Block>, k: nat, b: Block) returns (g: nat)
    requires k < |ring| && ring[k].n >= 0 && (k + 1 < |ring| ==> ring[k + 1].n >= 0)
    ensures g < |Freed(ring, k, b)| && Freed(ring, k, b)[g].n >= b.n
  {
    var mid := MergedBoth(ring, k, b);
    g := k + |mid| - 1;
    assert Freed(ring, k, b)[g] == mid[|mid| - 1];
  }
}
