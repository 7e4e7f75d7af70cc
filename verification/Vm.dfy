/**
 kernel/vm.c and kernel/kalloc.c as code: page tables written in place over a pool of physical
 pages.  `pool` is the memory given to the allocator; a page of it is free or in `own`.
*/
module Vm {
  import opened PageTable
  import opened AddressSpace
  import opened FreeTables
  import opened TableCost
  import opened UserBytes

  datatype MapResult = Mapped | NoMemory | Remap | BadAddress

  datatype UnmapResult = Unmapped | NotAligned | NotMapped | OutOfRange

  /** p is on the free list or in use, and never both, exactly if it belongs to the pool. */
  ghost predicate PoolAt(free: seq<nat>, own: map<nat, Use>, pool: set<nat>, p: nat) {
    (p in pool <==> p in own || p in free) && !(p in own && p in free)
  }

  ghost predicate Distinct(free: seq<nat>) {
    forall i, j :: 0 <= i < j < |free| ==> free[i] != free[j]
  }

  /** Every page of the pool is on the free list once, or in use. */
  ghost predicate PoolOk(free: seq<nat>, own: map<nat, Use>, pool: set<nat>) {
    && 0 !in pool && |pool| <= MAXPOOL && Distinct(free)
    && forall p {:trigger PoolAt(free, own, pool, p)} :: PoolAt(free, own, pool, p)
  }

  /** PHYSTOP / PGSIZE */
  const MAXPOOL: nat := 0x8_8000

  ghost predicate MemOk(mem: map<nat, seq<int>>, pool: set<nat>) {
    forall p {:trigger MemAt(mem, p)} :: p in pool ==> MemAt(mem, p)
  }

  ghost predicate MemAt(mem: map<nat, seq<int>>, p: nat) { p in mem && |mem[p]| == PGSIZE }

  function PageRange(lo: nat, hi: nat): (r: set<nat>)
    ensures forall p :: p in r <==> lo <= p < hi
    ensures |r| <= hi
    decreases hi - lo
  {
    if lo < hi then PageRange(lo, hi - 1) + {hi - 1} else {}
  }

  lemma PageCount(lo: nat, hi: nat)
    requires lo <= hi
    ensures |PageRange(lo, hi)| == hi - lo
    decreases hi - lo
  {
    if lo < hi {
      PageCount(lo, hi - 1);
    }
  }

  /** Which pages are in use is what matters to the pool. */
  lemma PoolKept(free: seq<nat>, own: map<nat, Use>, own': map<nat, Use>, pool: set<nat>)
    requires PoolOk(free, own, pool) && own'.Keys == own.Keys
    ensures PoolOk(free, own', pool)
  {
    forall p ensures PoolAt(free, own', pool, p) {
      assert PoolAt(free, own, pool, p);
      assert p in own <==> p in own.Keys;
    }
  }

  /** PGROUNDUP(sz) / PGSIZE */
  function Pages(sz: nat): nat { (sz + PGSIZE - 1) / PGSIZE }

  /** A 32-bit unsigned sum. */
  function Wrap(x: int): (r: nat)
    ensures r < 0x1_0000_0000
    ensures 0 <= x < 0x1_0000_0000 ==> r == x
    ensures 0x1_0000_0000 <= x < 0x2_0000_0000 ==> r == x - 0x1_0000_0000
    ensures -0x1_0000_0000 <= x < 0 ==> r == x + 0x1_0000_0000
  {
    x % 0x1_0000_0000
  }

  function UserPerm(): Perm { Perm(true, true, true, true) }

  function ZeroPage(): seq<int> { seq(PGSIZE, _ => 0) }

  /** What mapping one page costs: the tables missing on the way, and it fails exactly if they cannot be had. */
  ghost predicate OnePage(at: map<Node, nat>, at': map<Node, nat>, s: nat, va: nat, r: MapResult,
                          before: nat, after: nat) {
    && (r.Mapped? ==> after == before - Missing(at, s, va, 0) && at'.Keys == at.Keys + Way(s, va))
    && (r.NoMemory? ==> before < Missing(at, s, va, 0))
  }

  /** PGROUNDDOWN(va + size - 1) / PGSIZE, in 64-bit arithmetic. */
  function LastPage(va: nat, size: nat): (last: nat)
    ensures 0 < size && va + size <= 0x1_0000_0000_0000_0000 ==> last == (va + size - 1) / PGSIZE
  {
    (va + size + 0xFFFF_FFFF_FFFF_FFFF) % 0x1_0000_0000_0000_0000 / PGSIZE
  }

  /** uvmalloc() has added pages n .. a to space s. */
  ghost predicate Growing(u: View, f: nat, v: View, f': nat, s: nat, n: nat, a: nat) {
    Ok(v, s, a) && Grown(u, v, s, n, a) && ZeroFilled(v, s, n, a, ZeroPage()) && Paid(u.at, f, v.at, f', s, n, a)
  }

  /** Space s has its n pages as before; new page tables may be left. */
  ghost predicate Undone(u: View, v: View, s: nat, n: nat) {
    && Ok(v, s, n) && Extends(u.at, v.at)
    && SameMap(u.tab, u.at, v.tab, v.at) && OnlyTables(u.own, v.own, s) && SameBytes(u.own, u.mem, v.mem)
  }

  lemma GrowingNone(u: View, f: nat, s: nat, n: nat)
    requires Ok(u, s, n)
    ensures Growing(u, f, u, f, s, n, n)
  {}

  lemma GrowingMore(u: View, f: nat, v: View, f1: nat, w: View, f2: nat, s: nat, n: nat, a: nat)
    requires Growing(u, f, v, f1, s, n, a) && Ok(w, s, a + 1) && Grown(v, w, s, a, a + 1) && ZeroAt(w, s, a, ZeroPage())
    requires w.at.Keys == v.at.Keys + Way(s, a) && f2 == f1 - 1 - Missing(v.at, s, a, 0)
    ensures Growing(u, f, w, f2, s, n, a + 1)
  {
    GrownMore(u, v, w, s, n, a, a + 1);
    ZeroMore(v, w, s, n, a, ZeroPage());
    PaidMore(u.at, f, v.at, f1, w.at, f2, s, n, a);
  }

  lemma GrowingEnds(u: View, f: nat, v: View, f1: nat, w: View, s: nat, n: nat, a: nat, b: nat)
    requires Growing(u, f, v, f1, s, n, a) && Grown(v, w, s, a, a) && f1 < 1 + Missing(v.at, s, a, 0) && a < b
    ensures Grown(u, w, s, n, a) && f < Cost(u.at, s, n, b)
  {
    GrownMore(u, v, w, s, n, a, a);
    CannotPay(u.at, f, v.at, f1, s, n, a, b);
  }

  lemma PaidUp(u: View, f: nat, v: View, f': nat, s: nat, n: nat, b: nat)
    requires Growing(u, f, v, f', s, n, b)
    ensures f >= Cost(u.at, s, n, b) && f' == f - Cost(u.at, s, n, b)
  {}

  lemma PagesBelow(a: nat, sz: nat)
    ensures a * PGSIZE < sz <==> a < Pages(sz)
  {}

  /** uvmcopy() has copied the first i of m pages of s to t. */
  ghost predicate Copying(u: View, f: nat, v: View, f': nat, s: nat, t: nat, m: nat, i: nat) {
    Ok(v, s, m) && Ok(v, t, i) && Grown(u, v, t, 0, i) && Copied(v, s, t, i) && Paid(u.at, f, v.at, f', t, 0, i)
  }

  lemma CopyingMore(u: View, f: nat, v: View, f1: nat, w: View, f2: nat, s: nat, t: nat, m: nat, i: nat)
    requires s != t && i < m && Copying(u, f, v, f1, s, t, m, i) && Ok(w, s, m) && Ok(w, t, i + 1)
    requires Grown(v, w, t, i, i + 1) && CopyOf(w, s, t, i)
    requires w.at.Keys == v.at.Keys + Way(t, i) && f2 == f1 - 1 - Missing(v.at, t, i, 0)
    ensures Copying(u, f, w, f2, s, t, m, i + 1)
  {
    GrownMore(u, v, w, t, 0, i, i + 1);
    CopiedMore(v, w, s, t, m, i);
    PaidMore(u.at, f, v.at, f1, w.at, f2, t, 0, i);
  }

  lemma CopyingEnds(u: View, f: nat, v: View, f1: nat, w: View, s: nat, t: nat, m: nat, i: nat)
    requires Copying(u, f, v, f1, s, t, m, i) && Grown(v, w, t, i, i) && f1 < 1 + Missing(v.at, t, i, 0) && i < m
    ensures Grown(u, w, t, 0, i) && f < Cost(u.at, t, 0, m)
  {
    GrownMore(u, v, w, t, 0, i, i);
    CannotPay(u.at, f, v.at, f1, t, 0, i, m);
  }

  class Memory {
    var tab: map<nat, seq<Pte>>
    var mem: map<nat, seq<int>>
    var free: seq<nat>
    ghost var at: map<Node, nat>
    ghost var own: map<nat, Use>
    ghost const pool: set<nat>

    ghost predicate Valid()
      reads this
    {
      && TreeOk(tab, at, own) && DataOk(tab, at, own) && PoolOk(free, own, pool)
      && MemOk(mem, pool)
    }

    /** kinit(): freerange() frees every whole page between end and PHYSTOP. */
    constructor (end: nat, phystop: nat)
      requires 0 < end && phystop <= 0x8800_0000
      ensures Valid() && own == map[] && at == map[] && pool == PageRange(Pages(end), phystop / PGSIZE)
      ensures forall p :: p in free <==> end <= p * PGSIZE && p * PGSIZE + PGSIZE <= phystop
    {
      var lo, hi := Pages(end), phystop / PGSIZE;
      pool := PageRange(lo, hi);
      own := map p | p in PageRange(lo, hi) :: Held;
      mem := map p | p in PageRange(lo, hi) :: ZeroPage();
      tab, at, free := map[], map[], [];
      new;
      var p := lo;
      while p < hi
        invariant lo <= p && (p <= hi || p == lo) && tab == map[] && at == map[]
        invariant PoolOk(free, own, pool) && MemOk(mem, pool) && pool == PageRange(lo, hi)
        invariant forall q :: q in own <==> p <= q < hi
        invariant forall q :: q in own ==> own[q] == Held
      {
        Kfree(p);
        p := p + 1;
      }
      assert own == map[];
      forall q: nat ensures q in free <==> lo <= q < hi {
        assert PoolAt(free, own, pool, q);
      }
    }

    /** kalloc(); 0 when memory has run out. */
    method Kalloc() returns (p: nat)
      requires Valid()
      modifies `free, `own, `mem
      ensures Valid()
      ensures p == 0 <==> old(free) == []
      ensures p == 0 ==> own == old(own) && mem == old(mem) && free == old(free)
      ensures p != 0 ==> p in pool && p !in old(own) && own == old(own)[p := Held] && free == old(free)[1..]
      ensures SameBytes(old(own), old(mem), mem)
    {
      p := 0;
      if free != [] {
        p := free[0];
        Pop(free, own, pool);
        free := free[1..];
        UsesKeepTree(tab, at, own, own[p := Held]);
        DataMoves(tab, at, own, tab, at, own[p := Held]);
        own := own[p := Held];
        Fill(p, seq(PGSIZE, _ => 5));
      }
    }

    /** memset() of a page, or memmove() into it. */
    method Fill(p: nat, bytes: seq<int>)
      requires MemOk(mem, pool) && |bytes| == PGSIZE
      modifies `mem
      ensures MemOk(mem, pool) && mem == old(mem)[p := bytes]
    {
      mem := mem[p := bytes];
      forall q | q in pool ensures MemAt(mem, q) {
        assert MemAt(old(mem), q);
      }
    }

    /** kfree() of a page in use, which is filled with junk. */
    method Kfree(p: nat)
      requires PoolOk(free, own, pool) && MemOk(mem, pool) && p in own
      modifies `free, `own, `mem
      ensures PoolOk(free, own, pool) && own == old(own) - {p} && free == [p] + old(free)
      ensures MemOk(mem, pool) && mem == old(mem)[p := seq(PGSIZE, _ => 1)]
    {
      Push(free, own, pool, p);
      Fill(p, seq(PGSIZE, _ => 1));
      free := [p] + free;
      own := own - {p};
    }

    /** A zeroed page table for entry i of node n, which is the page `table`. */
    method NewTable(table: nat, i: nat, ghost n: Node) returns (child: nat)
      requires Valid() && n in at && n.l > 0 && table == at[n] && i < ENTRIES
      requires NodeOk(tab, at, own, n) && !tab[table][i].v
      modifies `tab, `at, `own, `free, `mem
      ensures Valid() && SameMap(old(tab), old(at), tab, at)
      ensures Extends(old(at), at) && OnlyTables(old(own), own, n.s)
      ensures child != 0 ==> at == old(at)[Child(n, i) := child] && |free| == |old(free)| - 1
      ensures child == 0 ==> at == old(at) && free == old(free) == []
      ensures SameBytes(old(own), old(mem), mem)
    {
      child := Kalloc();
      if child != 0 {
        ghost var own1 := own;
        AddTable(tab, at, own, n, i, child);
        tab := tab[table := tab[table][i := Pte(true, NoPerm(), child)]];
        tab := tab[child := ZeroTable()];
        at := at[Child(n, i) := child];
        own := own[child := Table(Child(n, i))];
        PoolKept(free, own1, own, pool);
        DataMoves(old(tab), old(at), own1, tab, at, own);
      }
    }

    /** One level of walk(). */
    method WalkStep(s: nat, va: nat, level: nat, table: nat, alloc: bool) returns (ok: bool, child: nat)
      requires Valid() && va < MAXPAGES && 1 <= level <= 2
      requires OnPath(s, va, level) in at && table == at[OnPath(s, va, level)]
      modifies `tab, `at, `own, `free, `mem
      ensures Valid() && SameMap(old(tab), old(at), tab, at)
      ensures Extends(old(at), at) && OnlyTables(old(own), own, s)
      ensures ok ==> at == old(at)[OnPath(s, va, level - 1) := child]
      ensures ok ==> |free| == |old(free)| - if OnPath(s, va, level - 1) in old(at) then 0 else 1
      ensures !ok ==> at == old(at) && OnPath(s, va, level - 1) !in at && (free == old(free) == [] || !alloc)
      ensures !alloc ==> tab == old(tab) && at == old(at) && own == old(own) && free == old(free) && mem == old(mem)
      ensures SameBytes(old(own), old(mem), mem)
    {
      ghost var n := OnPath(s, va, level);
      PathSteps(s, va);
      assert NodeOk(tab, at, own, n);
      var i := Index(va, level);
      var e := tab[table][i];
      assert EntryOk(at, n, e, i);
      if e.v {
        return true, e.ppn;
      }
      if !alloc {
        return false, 0;
      }
      child := NewTable(table, i, n);
      ok := child != 0;
    }

    /** walk() below MAXVA: the table page that holds the leaf entry of va. */
    method Walk(s: nat, va: nat, alloc: bool) returns (ok: bool, table: nat)
      requires Valid() && va < MAXPAGES && Node(s, 2, 0) in at
      modifies `tab, `at, `own, `free, `mem
      ensures Valid() && SameMap(old(tab), old(at), tab, at)
      ensures Extends(old(at), at) && OnlyTables(old(own), own, s)
      ensures ok ==> OnPath(s, va, 0) in at && table == at[OnPath(s, va, 0)]
      ensures ok <==> Missing(old(at), s, va, 0) <= if alloc then |old(free)| else 0
      ensures ok ==> |free| == |old(free)| - Missing(old(at), s, va, 0) && at.Keys == old(at).Keys + Way(s, va)
      ensures !ok ==> free == [] || !alloc
      ensures !alloc ==> tab == old(tab) && at == old(at) && own == old(own) && free == old(free) && mem == old(mem)
      ensures !alloc && !ok ==> OnPath(s, va, 0) !in at
      ensures SameBytes(old(own), old(mem), mem)
    {
      PathSteps(s, va);
      assert NodeOk(tab, at, own, Node(s, 2, 0));
      ok, table := true, s;
      var level := 2;
      while level > 0
        invariant 0 <= level <= 2 && Valid() && SameMap(old(tab), old(at), tab, at)
        invariant Extends(old(at), at) && OnlyTables(old(own), own, s)
        invariant OnPath(s, va, level) in at && table == at[OnPath(s, va, level)]
        invariant !alloc ==> tab == old(tab) && at == old(at) && own == old(own) && free == old(free) && mem == old(mem)
        invariant SameBytes(old(own), old(mem), mem)
        invariant level == 2 ==> at == old(at)
        invariant level == 1 ==> at.Keys == old(at).Keys + {OnPath(s, va, 1)}
        invariant level == 0 ==> at.Keys == old(at).Keys + Way(s, va)
        invariant |free| == |old(free)| - Missing(old(at), s, va, level)
      {
        ok, table := WalkStep(s, va, level, table, alloc);
        if !ok {
          MissingOnPath(tab, at, own, s, va, level);
          return;
        }
        level := level - 1;
      }
    }

    /** One round of mappages(). */
    method MapOne(s: nat, va: nat, ppn: nat, perm: Perm) returns (r: MapResult)
      requires Valid() && Node(s, 2, 0) in at && IsLeaf(perm)
      modifies `tab, `at, `own, `free, `mem
      ensures Valid() && Extends(old(at), at) && OnlyTables(old(own), own, s)
      ensures MapEffect(old(tab), old(at), tab, at, s, va, if r.Mapped? then 1 else 0, ppn, perm)
      ensures r.NoMemory? ==> free == []
      ensures r.Remap? ==> Translate(old(tab), old(at), s, va).Some?
      ensures r.Mapped? ==> Translate(old(tab), old(at), s, va).None?
      ensures OnePage(old(at), at, s, va, r, |old(free)|, |free|)
      ensures r.BadAddress? <==> va >= MAXPAGES
      ensures SameBytes(old(own), old(mem), mem)
    {
      if va >= MAXPAGES {
        return BadAddress;
      }
      var ok, table := Walk(s, va, true);
      if !ok {
        return NoMemory;
      }
      assert NodeOk(tab, at, own, OnPath(s, va, 0));
      if tab[table][Index(va, 0)].v {
        return Remap;
      }
      assert Translate(tab, at, s, va).None?;
      SetLeaf(tab, at, own, s, va, Pte(true, perm, ppn));
      ghost var tab1 := tab;
      tab := tab[table := tab[table][Index(va, 0) := Pte(true, perm, ppn)]];
      DataAfterMap(tab1, at, tab, at, own, s, va, 1, ppn, perm);
      r := Mapped;
    }

    /** The loop of mappages(), in pages: k pages are mapped before it ends; it runs on if last < first. */
    method MapRange(s: nat, first: nat, last: nat, ppn: nat, perm: Perm) returns (r: MapResult, ghost k: nat)
      requires Valid() && Node(s, 2, 0) in at && IsLeaf(perm)
      modifies `tab, `at, `own, `free, `mem
      ensures Valid() && Extends(old(at), at) && OnlyTables(old(own), own, s)
      ensures MapEffect(old(tab), old(at), tab, at, s, first, k, ppn, perm)
      ensures NoneMapped(old(tab), old(at), s, first, k)
      ensures first <= last ==> k <= last - first + 1
      ensures r.Mapped? <==> first <= last && k == last - first + 1
      ensures r.NoMemory? ==> free == []
      ensures r.Remap? ==> Translate(old(tab), old(at), s, first + k).Some?
      ensures r.BadAddress? ==> first + k >= MAXPAGES
      ensures SameBytes(old(own), old(mem), mem)
      ensures first == last ==> OnePage(old(at), at, s, first, r, |old(free)|, |free|)
    {
      var a, pa := first, ppn;
      k := 0;
      while true
        invariant a == first + k && pa == ppn + k && (first <= last ==> a <= last)
        invariant Valid() && Extends(old(at), at) && OnlyTables(old(own), own, s)
        invariant MapEffect(old(tab), old(at), tab, at, s, first, k, ppn, perm)
        invariant NoneMapped(old(tab), old(at), s, first, k)
        invariant SameBytes(old(own), old(mem), mem)
        invariant k == 0 ==> at == old(at) && free == old(free)
        decreases MAXPAGES - a
      {
        ghost var tab1, at1 := tab, at;
        r := MapOne(s, a, pa, perm);
        NoneMore(old(tab), old(at), tab1, at1, s, first, k, ppn, perm);
        MapMore(old(tab), old(at), tab1, at1, tab, at, s, first, k, if r.Mapped? then 1 else 0, ppn, perm);
        if !r.Mapped? {
          return;
        }
        k := k + 1;
        if a == last {
          break;
        }
        a := a + 1;
        pa := pa + 1;
      }
    }

    /**
     mappages(): exactly the pages that [va, va + size) touches, in order.  With size 0 and an
     aligned address there is no last page: it maps on until something stops it.
    */
    method Mappages(s: nat, va: nat, size: nat, ppn: nat, perm: Perm) returns (r: MapResult, ghost k: nat)
      requires Valid() && Node(s, 2, 0) in at && IsLeaf(perm)
      requires va < 0x1_0000_0000_0000_0000 && size < 0x1_0000_0000_0000_0000
      modifies `tab, `at, `own, `free, `mem
      ensures Valid() && Extends(old(at), at) && OnlyTables(old(own), own, s)
      ensures MapEffect(old(tab), old(at), tab, at, s, va / PGSIZE, k, ppn, perm)
      ensures NoneMapped(old(tab), old(at), s, va / PGSIZE, k)
      ensures va / PGSIZE <= LastPage(va, size) ==> k <= LastPage(va, size) - va / PGSIZE + 1
      ensures r.Mapped? <==> va / PGSIZE <= LastPage(va, size) && k == LastPage(va, size) - va / PGSIZE + 1
      ensures r.NoMemory? ==> free == []
      ensures r.Remap? ==> Translate(old(tab), old(at), s, va / PGSIZE + k).Some?
      ensures r.BadAddress? ==> va / PGSIZE + k >= MAXPAGES
      ensures SameBytes(old(own), old(mem), mem)
      ensures va / PGSIZE == LastPage(va, size) ==> OnePage(old(at), at, s, va / PGSIZE, r, |old(free)|, |free|)
    {
      r, k := MapRange(s, va / PGSIZE, LastPage(va, size), ppn, perm);
    }

    /** One round of uvmunmap(). */
    method UnmapOne(s: nat, va: nat, doFree: bool) returns (r: UnmapResult)
      requires Valid() && Node(s, 2, 0) in at
      requires if doFree then Hole(tab, at, s, va) || DataPage(tab, at, own, s, va) else OtherPage(tab, at, own, s, va)
      modifies `tab, `at, `own, `free, `mem
      ensures Valid() && at == old(at) && SameBytes(own, old(mem), mem)
      ensures UnmapEffect(old(tab), at, tab, at, s, va, if r.Unmapped? then 1 else 0)
      ensures r.Unmapped? <==> va < MAXPAGES && Translate(old(tab), at, s, va).Some?
      ensures !r.NotAligned?
      ensures if doFree then FreedData(old(own), own, s, va, if r.Unmapped? then 1 else 0) else own == old(own)
    {
      if va >= MAXPAGES {
        return OutOfRange;
      }
      var ok, table := Walk(s, va, false);
      if !ok {
        return NotMapped;
      }
      ghost var n := OnPath(s, va, 0);
      assert NodeOk(tab, at, own, n);
      var e := tab[table][Index(va, 0)];
      if !e.v {
        return NotMapped;
      }
      assert EntryOk(at, n, e, Index(va, 0));
      assert IsLeaf(e.perm);  // the panic "uvmunmap: not a leaf" is unreachable
      ghost var own1 := own;
      if doFree {
        Kfree(e.ppn);
      }
      UsesKeepTree(tab, at, own1, own);
      assert NodeOk(tab, at, own, n);
      SetLeaf(tab, at, own, s, va, Zero());
      tab := tab[table := tab[table][Index(va, 0) := Zero()]];
      DataAfterUnmap(old(tab), at, own1, tab, own, s, va, e.ppn);
      r := Unmapped;
    }

    /** uvmunmap(), with npages pages all mapped to pages to be freed, or all to others. */
    method Uvmunmap(s: nat, va: nat, npages: nat, doFree: bool) returns (r: UnmapResult, ghost k: nat)
      requires Valid() && Node(s, 2, 0) in at
      requires forall a: nat :: va / PGSIZE <= a < va / PGSIZE + npages ==>
                 if doFree then Hole(tab, at, s, a) || DataPage(tab, at, own, s, a) else OtherPage(tab, at, own, s, a)
      modifies `tab, `at, `own, `free, `mem
      ensures Valid() && at == old(at) && SameBytes(own, old(mem), mem) && k <= npages
      ensures UnmapEffect(old(tab), at, tab, at, s, va / PGSIZE, k)
      ensures if doFree then FreedData(old(own), own, s, va / PGSIZE, k) else own == old(own)
      ensures r.NotAligned? <==> va % PGSIZE != 0
      ensures r.Unmapped? ==> k == npages
      ensures r.Unmapped? <==> va % PGSIZE == 0 && AllMapped(old(tab), at, s, va / PGSIZE, npages)
    {
      k := 0;
      if va % PGSIZE != 0 {
        return NotAligned, 0;
      }
      var a := va / PGSIZE;
      while a < va / PGSIZE + npages
        invariant a == va / PGSIZE + k && k <= npages
        invariant Valid() && at == old(at) && SameBytes(own, old(mem), mem)
        invariant AllMapped(old(tab), at, s, va / PGSIZE, k)
        invariant UnmapEffect(old(tab), at, tab, at, s, va / PGSIZE, k)
        invariant if doFree then FreedData(old(own), own, s, va / PGSIZE, k) else own == old(own)
      {
        StillThere(old(tab), at, old(own), tab, own, s, va / PGSIZE, k, doFree);
        ghost var tab1, own1 := tab, own;
        r := UnmapOne(s, a, doFree);
        if !r.Unmapped? {
          return;
        }
        UnmapMore(old(tab), at, tab1, at, tab, at, s, va / PGSIZE, k, 1);
        if doFree {
          FreedMore(old(own), own1, own, s, va / PGSIZE, k, 1);
        }
        k := k + 1;
        a := a + 1;
      }
      r := Unmapped;
    }

    /** uvmdealloc(): no panic, exactly the pages above newsz go back. */
    method Uvmdealloc(s: nat, oldsz: nat, newsz: nat) returns (r: nat)
      requires Valid() && UserOk(tab, at, own, s, Pages(oldsz))
      modifies `tab, `at, `own, `free, `mem
      ensures Valid() && at == old(at) && SameBytes(own, old(mem), mem)
      ensures r == if newsz < oldsz then newsz else oldsz
      ensures UserOk(tab, at, own, s, Pages(r))
      ensures UnmapEffect(old(tab), at, tab, at, s, Pages(r), Pages(oldsz) - Pages(r))
      ensures FreedData(old(own), own, s, Pages(r), Pages(oldsz) - Pages(r))
    {
      if newsz >= oldsz {
        return oldsz;
      }
      ghost var n, k := Pages(newsz), Pages(oldsz) - Pages(newsz);
      if Pages(newsz) < Pages(oldsz) {
        DataMapped(tab, at, own, s, n, k, n + k);
        assert Pages(newsz) * PGSIZE / PGSIZE == n;
        var u; ghost var done;
        u, done := Uvmunmap(s, Pages(newsz) * PGSIZE, Pages(oldsz) - Pages(newsz), true);
        UserShrinks(old(tab), at, old(own), tab, own, s, n, k);
      }
      r := newsz;
    }

    ghost function Now(): View
      reads this
    {
      View(tab, at, own, mem)
    }

    /** One round of uvmalloc(). */
    method GrowOne(s: nat, a: nat) returns (ok: bool)
      requires Valid() && UserOk(tab, at, own, s, a) && a < TRAPFRAME
      modifies `tab, `at, `own, `free, `mem
      ensures Valid() && Grown(old(Now()), Now(), s, a, if ok then a + 1 else a)
      ensures Ok(Now(), s, if ok then a + 1 else a)
      ensures ok ==> ZeroAt(Now(), s, a, ZeroPage())
      ensures ok <==> |old(free)| >= 1 + Missing(old(at), s, a, 0)
      ensures ok ==> |free| == |old(free)| - 1 - Missing(old(at), s, a, 0) && at.Keys == old(at).Keys + Way(s, a)
    {
      var q := Kalloc();
      if q == 0 {
        return false;
      }
      Fill(q, ZeroPage());
      assert own - {q} == old(own) && Hole(tab, at, s, a);
      ok := MapHeld(s, a, q, UserPerm());
      if ok {
        UserGrows(old(tab), old(at), old(own), tab, at, own, s, a, q, UserPerm());
      } else {
        OthersKept(old(Now()), Now(), s, a, a, s, a);
      }
    }

    /** One round of uvmalloc(), or its failure path. */
    method GrowNext(s: nat, a: nat, n: nat, ghost u: View, ghost f: nat, ghost b: nat) returns (ok: bool)
      requires Valid() && Growing(u, f, Now(), |free|, s, n, a) && n <= a < b && Ok(u, s, n)
      requires DataOk(u.tab, u.at, u.own)
      modifies `tab, `at, `own, `free, `mem
      ensures Valid() && (ok ==> Growing(u, f, Now(), |free|, s, n, a + 1))
      ensures !ok ==> Undone(u, Now(), s, n) && f < Cost(u.at, s, n, b)
    {
      BelowTrapframe(s, a);
      ghost var v, f1 := Now(), |free|;
      ok := GrowOne(s, a);
      if ok {
        GrowingMore(u, f, v, f1, Now(), |free|, s, n, a);
      } else {
        GrowingEnds(u, f, v, f1, Now(), s, n, a, b);
        UndoGrow(s, a, n, u);
      }
    }

    /** The loop of uvmalloc(). */
    method GrowTo(s: nat, n: nat, newsz: nat, ghost u: View, ghost f: nat, ghost b: nat) returns (ok: bool)
      requires Valid() && Ok(u, s, n) && n <= b == Pages(newsz) && u == Now() && f == |free|
      modifies `tab, `at, `own, `free, `mem
      ensures Valid() && (if ok then Growing(u, f, Now(), |free|, s, n, b) else Undone(u, Now(), s, n))
      ensures ok <==> f >= Cost(u.at, s, n, b)
    {
      GrowingNone(u, f, s, n);
      var a := n;
      while a * PGSIZE < newsz
        invariant n <= a <= b && Valid() && Growing(u, f, Now(), |free|, s, n, a)
        decreases b - a
      {
        PagesBelow(a, newsz);
        ok := GrowNext(s, a, n, u, f, b);
        if !ok {
          return;
        }
        a := a + 1;
      }
      PagesBelow(a, newsz);
      assert a == b;
      PaidUp(u, f, Now(), |free|, s, n, b);
      ok := true;
    }

    /** uvmalloc(): all pages up to newsz, zeroed, or none; 0 reports failure. */
    method Uvmalloc(s: nat, oldsz: nat, newsz: nat) returns (r: nat, ok: bool)
      requires Valid() && UserOk(tab, at, own, s, Pages(oldsz))
      modifies `tab, `at, `own, `free, `mem
      ensures Valid() && r == if !ok then 0 else if newsz < oldsz then oldsz else newsz
      ensures ok ==> Ok(Now(), s, Pages(r)) && Grown(old(Now()), Now(), s, Pages(oldsz), Pages(r))
      ensures ok ==> ZeroFilled(Now(), s, Pages(oldsz), Pages(r), ZeroPage())
      ensures !ok ==> SameMap(old(tab), old(at), tab, at) && OnlyTables(old(own), own, s)
      ensures !ok ==> SameBytes(old(own), old(mem), mem)
      ensures !ok ==> Ok(Now(), s, Pages(oldsz)) && Extends(old(at), at)
      ensures ok <==> |old(free)| >= Cost(old(at), s, Pages(oldsz), Pages(newsz))
      ensures ok ==> |free| == |old(free)| - Cost(old(at), s, Pages(oldsz), Pages(newsz))
    {
      if newsz < oldsz {
        return oldsz, true;
      }
      ok := GrowTo(s, Pages(oldsz), newsz, Now(), |free|, Pages(newsz));
      r := if ok then newsz else 0;
    }

    /** The failure path of uvmalloc(): give pages n .. a back. */
    method UndoGrow(s: nat, a: nat, n: nat, ghost u: View)
      requires Valid() && Ok(Now(), s, a) && Ok(u, s, n) && DataOk(u.tab, u.at, u.own) && Grown(u, Now(), s, n, a)
      modifies `tab, `at, `own, `free, `mem
      ensures Valid() && Undone(u, Now(), s, n)
    {
      assert Pages(a * PGSIZE) == a && Pages(n * PGSIZE) == n;
      var d := Uvmdealloc(s, a * PGSIZE, n * PGSIZE);
      Restored(u, old(Now()), Now(), s, n, a);
    }

    /** The failure path of uvmcopy(): unmap and free what was copied. */
    method UndoCopy(s: nat, t: nat, i: nat, ghost m: nat, ghost u: View)
      requires Valid() && s != t && Ok(Now(), s, m) && Ok(Now(), t, i)
      requires Ok(u, t, 0) && DataOk(u.tab, u.at, u.own) && Grown(u, Now(), t, 0, i)
      modifies `tab, `at, `own, `free, `mem
      ensures Valid() && Ok(Now(), t, 0) && Ok(Now(), s, m) && Extends(u.at, at)
      ensures SameMap(u.tab, u.at, tab, at) && OnlyTables(u.own, own, t) && SameBytes(u.own, u.mem, mem)
    {
      DataMapped(tab, at, own, t, 0, i, i);
      var r; ghost var k;
      r, k := Uvmunmap(t, 0, i, true);
      Restored(u, old(Now()), Now(), t, 0, i);
      UserShrinks(old(tab), at, old(own), tab, own, t, 0, i);
      UserKept(old(tab), old(at), old(own), tab, at, own, s, m);
    }

    /** A user space never reaches the fixed pages: the pool is too small. */
    lemma BelowTrapframe(s: nat, n: nat)
      requires Valid() && UserOk(tab, at, own, s, n)
      ensures n <= MAXPOOL < TRAPFRAME
    {
      forall p | p in own ensures p in pool {
        assert PoolAt(free, own, pool, p);
      }
      UserFits(tab, at, own, s, n, n, pool);
    }

    /** The entry that uvmcopy() finds for page i: its panics are unreachable. */
    method EntryOf(s: nat, i: nat, ghost m: nat) returns (e: Pte)
      requires Valid() && Ok(Now(), s, m) && i < m
      modifies `tab, `at, `own, `free, `mem
      ensures Now() == old(Now()) && free == old(free)
      ensures Translate(tab, at, s, i) == Some(e) && IsLeaf(e.perm) && IsData(own, e.ppn, s, i) && MemAt(mem, e.ppn)
    {
      assert DataPage(tab, at, own, s, i);
      var found, table := Walk(s, i, false);
      assert NodeOk(tab, at, own, OnPath(s, i, 0));
      e := tab[table][Index(i, 0)];
      assert EntryOk(at, OnPath(s, i, 0), e, Index(i, 0));
      assert PoolAt(free, own, pool, e.ppn) && MemAt(mem, e.ppn);
    }

    /** One round of uvmcopy(). */
    method CopyOne(s: nat, t: nat, i: nat, ghost m: nat) returns (ok: bool)
      requires Valid() && s != t && Ok(Now(), s, m) && Ok(Now(), t, i) && i < m
      modifies `tab, `at, `own, `free, `mem
      ensures Valid() && Grown(old(Now()), Now(), t, i, if ok then i + 1 else i)
      ensures Ok(Now(), s, m) && Ok(Now(), t, if ok then i + 1 else i)
      ensures ok ==> CopyOf(Now(), s, t, i)
      ensures ok <==> |old(free)| >= 1 + Missing(old(at), t, i, 0)
      ensures ok ==> |free| == |old(free)| - 1 - Missing(old(at), t, i, 0) && at.Keys == old(at).Keys + Way(t, i)
    {
      var e := EntryOf(s, i, m);
      var q := Kalloc();
      if q == 0 {
        return false;
      }
      Fill(q, mem[e.ppn]);
      assert own - {q} == old(own) && Hole(tab, at, t, i);
      ok := MapHeld(t, i, q, e.perm);
      OthersKept(old(Now()), Now(), t, i, if ok then i + 1 else i, s, m);
      if ok {
        UserGrows(old(tab), old(at), old(own), tab, at, own, t, i, q, e.perm);
        ContentsKept(old(Now()), Now(), t, i, i + 1, s, i);
      } else {
        OthersKept(old(Now()), Now(), t, i, i, t, i);
      }
    }

    /** uvmcopy() into an empty space: an exact copy, or nothing. */
    method Uvmcopy(s: nat, t: nat, sz: nat) returns (ok: bool)
      requires Valid() && s != t && Ok(Now(), s, Pages(sz)) && Ok(Now(), t, 0)
      modifies `tab, `at, `own, `free, `mem
      ensures Valid() && Ok(Now(), s, Pages(sz))
      ensures ok ==> Ok(Now(), t, Pages(sz)) && Grown(old(Now()), Now(), t, 0, Pages(sz))
      ensures ok ==> Copied(Now(), s, t, Pages(sz))
      ensures !ok ==> SameMap(old(tab), old(at), tab, at) && OnlyTables(old(own), own, t)
      ensures !ok ==> SameBytes(old(own), old(mem), mem)
      ensures !ok ==> Ok(Now(), t, 0) && Extends(old(at), at)
      ensures ok <==> |old(free)| >= Cost(old(at), t, 0, Pages(sz))
      ensures ok ==> |free| == |old(free)| - Cost(old(at), t, 0, Pages(sz))
    {
      ghost var u, f, m := Now(), |free|, Pages(sz);
      var i := 0;
      while i * PGSIZE < sz
        invariant 0 <= i <= m && Valid() && Copying(u, f, Now(), |free|, s, t, m, i)
      {
        ghost var v, f1 := Now(), |free|;
        ok := CopyOne(s, t, i, m);
        if !ok {
          CopyingEnds(u, f, v, f1, Now(), s, t, m, i);
          UndoCopy(s, t, i, m, u);
          return;
        }
        CopyingMore(u, f, v, f1, Now(), |free|, s, t, m, i);
        i := i + 1;
      }
      ok := true;
    }

    /**
     freewalk() of the page that holds node n; the caller clears its own entry.  False is the panic
     "freewalk: leaf", raised exactly if a leaf is left.
    */
    method Freewalk(table: nat, ghost n: Node) returns (ok: bool)
      requires Valid() && n in at && table == at[n]
      modifies `tab, `at, `own, `free, `mem
      ensures ok <==> NoLeaf(old(tab), old(at), n)
      ensures ok ==> Removed(old(at), old(own), at, own, n) && PoolOk(free, own, pool)
      ensures ok ==> MemOk(mem, pool) && SameBytes(own, old(mem), mem)
      ensures ok ==> SameTables(old(tab), tab, at, n)
      ensures ok ==> TreeOk(Cleared(tab, old(at), n), at, own)
      ensures ok ==> SameMap(old(tab), old(at), Cleared(tab, old(at), n), at)
      decreases n.l, 1
    {
      assert NodeOk(tab, at, own, n);
      NothingTrimmed(at, own, n);
      var i := 0;
      while i < ENTRIES
        invariant 0 <= i <= ENTRIES && Valid() && n in at && table == at[n] && NodeOk(tab, at, own, n)
        invariant Trimmed(old(at), old(own), at, own, n, i) && NoLeafBefore(old(tab), old(at), n, i)
        invariant SameTables(old(tab), tab, at, n) && SameMap(old(tab), old(at), tab, at)
        invariant SameBytes(own, old(mem), mem)
        invariant forall j :: 0 <= j < i ==> !tab[table][j].v
        invariant forall j :: i <= j < ENTRIES ==> tab[table][j] == old(tab)[table][j]
      {
        ok := FreeEntry(table, i, n, old(Now()));
        if !ok {
          return;
        }
        i := i + 1;
      }
      NoLeafAtAll(old(tab), old(at), n);
      FreeBlank(table, n, old(Now()));
      ok := true;
    }

    /** The end of freewalk(): the table page itself goes back. */
    method FreeBlank(table: nat, ghost n: Node, ghost u: View)
      requires Valid() && n in at && table == at[n] && NodeOk(tab, at, own, n)
      requires Trimmed(u.at, u.own, at, own, n, ENTRIES) && SameMap(u.tab, u.at, tab, at)
      requires forall j :: 0 <= j < ENTRIES ==> !tab[table][j].v
      modifies `at, `own, `free, `mem
      ensures Removed(u.at, u.own, at, own, n) && PoolOk(free, own, pool) && at == old(at) - {n}
      ensures MemOk(mem, pool) && Sub(own, old(own)) && SameBytes(own, old(mem), mem)
      ensures TreeOk(Cleared(tab, u.at, n), at, own) && SameMap(u.tab, u.at, Cleared(tab, u.at, n), at)
    {
      DropNode(tab, at, own, n);
      TrimEnd(tab, u.at, u.own, at, own, n, at - {n}, own - {table});
      Kfree(table);
      at := at - {n};
    }

    /** One round of freewalk(). */
    method FreeEntry(table: nat, i: nat, ghost n: Node, ghost u: View) returns (ok: bool)
      requires Valid() && n in at && table == at[n] && NodeOk(tab, at, own, n) && i < ENTRIES
      requires TreeOk(u.tab, u.at, u.own) && NoLeafBefore(u.tab, u.at, n, i) && n in u.at && u.at[n] == table
      requires Trimmed(u.at, u.own, at, own, n, i) && SameTables(u.tab, tab, at, n) && SameMap(u.tab, u.at, tab, at)
      requires table in u.tab && |u.tab[table]| == ENTRIES && tab[table][i] == u.tab[table][i]
      modifies `tab, `at, `own, `free, `mem
      ensures !ok ==> !NoLeaf(u.tab, u.at, n)
      ensures ok ==> Valid() && n in at && table == at[n] && NodeOk(tab, at, own, n)
      ensures ok ==> Trimmed(u.at, u.own, at, own, n, i + 1) && NoLeafBefore(u.tab, u.at, n, i + 1)
      ensures ok ==> SameTables(u.tab, tab, at, n) && SameMap(u.tab, u.at, tab, at)
      ensures ok ==> tab[table] == old(tab)[table][i := tab[table][i]] && !tab[table][i].v
      ensures ok ==> Sub(own, old(own)) && SameBytes(own, old(mem), mem)
      decreases n.l, 0, 1
    {
      var e := tab[table][i];
      ghost var v := Now();
      assert EntryOk(at, n, e, i);
      if e.v && !IsLeaf(e.perm) {
        ok := FreeChild(table, i, e.ppn, n);
        if ok {
          NoLeafStep(u, v, n, i);
          TrimMore(u.at, u.own, v.at, v.own, at, own, n, i);
        } else if NoLeaf(u.tab, u.at, n) {
          NoLeafChild(u.tab, v.tab, u.at, v.at, n, i);
        }
      } else if e.v {
        assert !Blank(u.tab, u.at, n);
        ok := false;   // panic("freewalk: leaf")
      } else {
        ok := true;
        if n.l > 0 {
          NothingBelow(tab, at, own, n, i);
          NoLeafStep(u, v, n, i);
          TrimMore(u.at, u.own, at, own, at, own, n, i);
        } else {
          LeavesTrimmed(u.at, u.own, at, own, n, i);
        }
      }
    }

    /** Freeing the table that entry i of n leads to, and clearing the entry. */
    method FreeChild(table: nat, i: nat, child: nat, ghost n: Node) returns (ok: bool)
      requires Valid() && n in at && table == at[n] && NodeOk(tab, at, own, n) && i < ENTRIES && n.l > 0
      requires Child(n, i) in at && at[Child(n, i)] == child
      modifies `tab, `at, `own, `free, `mem
      ensures ok <==> NoLeaf(old(tab), old(at), Child(n, i))
      ensures ok ==> Valid() && n in at && table == at[n] && NodeOk(tab, at, own, n)
      ensures ok ==> Removed(old(at), old(own), at, own, Child(n, i))
      ensures ok ==> SameTables(old(tab), tab, at, n) && SameMap(old(tab), old(at), tab, at)
      ensures ok ==> tab[table] == old(tab)[table][i := Zero()] && SameBytes(own, old(mem), mem)
      decreases n.l, 0, 0
    {
      ParentOfChild(n, i);
      ok := Freewalk(child, Child(n, i));
      if !ok {
        return;
      }
      assert NodeRemoved(old(at), at, Child(n, i), n) && NodeRemoved(old(at), at, Child(n, i), Child(n, i));
      tab := tab[table := tab[table][i := Zero()]];
      DataMoves(old(tab), old(at), old(own), tab, at, own);
      assert NodeOk(tab, at, own, n);
      forall m | m in at && m != n ensures at[m] != table {
        assert NodeOk(tab, at, own, m);
      }
    }

    /** uvmfree() of a space whose fixed pages are unmapped: every page it has goes back. */
    method Uvmfree(s: nat, sz: nat)
      requires Valid() && Ok(Now(), s, Pages(sz)) && Hole(tab, at, s, TRAPFRAME) && Hole(tab, at, s, TRAMPOLINE)
      modifies `tab, `at, `own, `free, `mem
      ensures Valid() && Returned(old(own), own, s) && SameBytes(own, old(mem), mem)
      ensures OthersSame(old(tab), old(at), tab, at, s) && forall m :: m in at ==> m.s != s
      ensures forall m :: m in old(at) && m.s != s ==> m in at
    {
      ghost var n := Pages(sz);
      if sz > 0 {
        var r; ghost var k;
        DataMapped(tab, at, own, s, 0, n, n);
        r, k := Uvmunmap(s, 0, Pages(sz), true);
      }
      ghost var v := Now();
      forall va: nat ensures Translate(tab, at, s, va).None? {
        assert n <= va && va != TRAPFRAME && va != TRAMPOLINE ==> Hole(old(tab), old(at), s, va);
      }
      NoTranslationNoLeaf(tab, at, own, s);
      assert NodeOk(tab, at, own, Node(s, 2, 0));
      var freed := Freewalk(s, Node(s, 2, 0));
      DataMoves(v.tab, v.at, v.own, tab, at, own);
      AllReturned(old(Now()), v, Now(), s, n);
      forall m | m in old(at) && m.s != s ensures m in at {
        assert NodeRemoved(v.at, at, Node(s, 2, 0), m);
      }
    }

    /** Unmapping one of the two fixed pages. */
    method UnmapFixed(s: nat, f: nat, ghost n: nat)
      requires Valid() && Ok(Now(), s, n) && (f == TRAPFRAME || f == TRAMPOLINE) && Translate(tab, at, s, f).Some?
      modifies `tab, `at, `own, `free, `mem
      ensures Valid() && Ok(Now(), s, n) && at == old(at) && SameBytes(own, old(mem), mem) && own == old(own)
      ensures UnmapEffect(old(tab), at, tab, at, s, f, 1) && Hole(tab, at, s, f)
    {
      var r; ghost var k;
      assert f * PGSIZE / PGSIZE == f;
      r, k := Uvmunmap(s, f * PGSIZE, 1, false);
      FixedGone(old(tab), at, own, tab, s, n, f);
    }

    /** proc_freepagetable(): no panic, and every data and table page of the space is free again. */
    method ProcFreepagetable(s: nat, sz: nat)
      requires Valid() && Ok(Now(), s, Pages(sz))
      requires Translate(tab, at, s, TRAMPOLINE).Some? && Translate(tab, at, s, TRAPFRAME).Some?
      modifies `tab, `at, `own, `free, `mem
      ensures Valid() && Returned(old(own), own, s) && SameBytes(own, old(mem), mem)
      ensures OthersSame(old(tab), old(at), tab, at, s) && forall m :: m in at ==> m.s != s
      ensures forall m :: m in old(at) && m.s != s ==> m in at
    {
      UnmapFixed(s, TRAMPOLINE, Pages(sz));
      UnmapFixed(s, TRAPFRAME, Pages(sz));
      Uvmfree(s, sz);
    }

    /** uvmcreate(); 0 when memory has run out. */
    method Uvmcreate() returns (s: nat)
      requires Valid()
      modifies `tab, `at, `own, `free, `mem
      ensures Valid() && SameMap(old(tab), old(at), tab, at) && SameBytes(old(own), old(mem), mem)
      ensures Extends(old(at), at)
      ensures s != 0 ==> Ok(Now(), s, 0) && s !in old(own) && own == old(own)[s := Table(Node(s, 2, 0))]
      ensures s != 0 ==> Hole(tab, at, s, TRAPFRAME) && Hole(tab, at, s, TRAMPOLINE)
      ensures s == 0 ==> own == old(own) && free == old(free) == []
      ensures s != 0 ==> at == old(at)[Node(s, 2, 0) := s] && |free| == |old(free)| - 1
      ensures s != 0 ==> Stranger(old(own), s) && OnlyTables(old(own), own, s) && forall m :: m in old(at) ==> m.s != s
    {
      s := Kalloc();
      if s != 0 {
        ghost var own1 := own;
        AddRoot(tab, at, own, s);
        NoRootNoPages(old(tab), old(at), old(own), s);
        tab := tab[s := ZeroTable()];
        at := at[Node(s, 2, 0) := s];
        own := own[s := Table(Node(s, 2, 0))];
        PoolKept(free, own1, own, pool);
        DataMoves(old(tab), old(at), own1, tab, at, own);
        forall va: nat ensures Hole(tab, at, s, va) {}
      }
    }

    /** mappages() of one of the two fixed pages. */
    method MapFixed(s: nat, f: nat, ppn: nat, perm: Perm) returns (ok: bool)
      requires Valid() && Ok(Now(), s, 0) && (f == TRAPFRAME || f == TRAMPOLINE) && Hole(tab, at, s, f)
      requires IsLeaf(perm) && !IsData(own, ppn, s, f)
      modifies `tab, `at, `own, `free, `mem
      ensures Valid() && Ok(Now(), s, 0) && OnlyTables(old(own), own, s) && Extends(old(at), at)
      ensures SameBytes(old(own), old(mem), mem)
      ensures MapEffect(old(tab), old(at), tab, at, s, f, if ok then 1 else 0, ppn, perm)
      ensures ok <==> |old(free)| >= Missing(old(at), s, f, 0)
      ensures ok ==> |free| == |old(free)| - Missing(old(at), s, f, 0) && at.Keys == old(at).Keys + Way(s, f)
    {
      assert f * PGSIZE / PGSIZE == f && (f * PGSIZE + PGSIZE - 1) / PGSIZE == f;
      var r; ghost var k;
      r, k := Mappages(s, f * PGSIZE, PGSIZE, ppn, perm);
      ok := r.Mapped?;
      if ok {
        FixedAdded(old(Now()), Now(), s, f, ppn, perm);
      } else {
        UserKept(old(tab), old(at), old(own), tab, at, own, s, 0);
      }
    }

    /** proc_pagetable(): an empty space with its fixed pages, for three pages, or nothing at all. */
    method ProcPagetable(trampoline: nat, trapframe: nat) returns (s: nat)
      requires Valid() && trampoline !in pool && trapframe in own && own[trapframe] == Held
      modifies `tab, `at, `own, `free, `mem
      ensures Valid() && SameBytes(old(own), old(mem), mem)
      ensures s != 0 ==> Ok(Now(), s, 0) && OnlyTables(old(own), own, s) && OthersSame(old(tab), old(at), tab, at, s)
      ensures s != 0 ==> Stranger(old(own), s) && Extends(old(at), at)
      ensures s == 0 ==> SameRest(old(Now()), Now())
      ensures s != 0 ==>
        && Translate(tab, at, s, TRAMPOLINE) == Some(Pte(true, Perm(true, false, true, false), trampoline))
        && Translate(tab, at, s, TRAPFRAME) == Some(Pte(true, Perm(true, true, false, false), trapframe))
      ensures s == 0 ==> own == old(own)
      ensures s != 0 <==> |old(free)| >= 3
      ensures |free| == if s == 0 then |old(free)| else |old(free)| - 3
      ensures s != 0 ==> Bare(at, s)
    {
      PoolCount(free, own, pool);
      s := Uvmcreate();
      if s == 0 {
        return;
      }
      assert PoolAt(free, own, pool, trampoline);
      ghost var at1 := at;
      var ok := MapFixed(s, TRAMPOLINE, trampoline, Perm(true, false, true, false));
      ghost var own1 := own;
      if !ok {
        Uvmfree(s, 0);
        NothingKept(old(own), own1, own, s);
        PoolCount(free, own, pool);
        return 0;
      }
      SharedTables(tab, at, own, s);
      ghost var at2 := at;
      ok := MapFixed(s, TRAPFRAME, trapframe, Perm(true, true, false, false));
      assert ok;  // the second mapping needs no new table, so its failure path is never taken
      BareSpace(old(at), at1, at2, at, s);
    }

    /** growproc(): sizes are 32-bit unsigned, so the sum wraps. */
    method Growproc(s: nat, sz: nat, n: int) returns (ok: bool, sz': nat)
      requires Valid() && Ok(Now(), s, Pages(sz)) && sz < 0x1_0000_0000 && -0x8000_0000 <= n < 0x8000_0000
      modifies `tab, `at, `own, `free, `mem
      ensures Valid() && Ok(Now(), s, Pages(sz')) && sz' < 0x1_0000_0000 && Extends(old(at), at)
      ensures sz' == if ok && 0 <= sz + n < 0x1_0000_0000 then sz + n else sz
      ensures !ok ==> n > 0 && SameMap(old(tab), old(at), tab, at) && OnlyTables(old(own), own, s)
      ensures !ok ==> SameBytes(old(own), old(mem), mem)
      ensures ok <==> n <= 0 || |old(free)| >= Cost(old(at), s, Pages(sz), Pages(Wrap(sz + n)))
      ensures ok && n > 0 ==> Grown(old(Now()), Now(), s, Pages(sz), Pages(sz'))
      ensures ok && n > 0 ==> ZeroFilled(Now(), s, Pages(sz), Pages(sz'), ZeroPage())
      ensures n <= 0 ==> UnmapEffect(old(tab), old(at), tab, at, s, Pages(sz'), Pages(sz) - Pages(sz'))
      ensures n <= 0 ==> FreedData(old(own), own, s, Pages(sz'), Pages(sz) - Pages(sz'))
      ensures n <= 0 ==> SameBytes(own, old(mem), mem)
    {
      if n > 0 {
        var r, grown := Uvmalloc(s, sz, Wrap(sz + n));
        if r == 0 {
          return false, sz;
        }
        return true, r;
      } else if n < 0 {
        var r := Uvmdealloc(s, sz, Wrap(sz + n));
        return true, r;
      }
      return true, sz;
    }

    /** walkaddr(), in pages; 0 when va is not a user page. */
    method Walkaddr(s: nat, va: nat) returns (p: nat)
      requires Valid() && Node(s, 2, 0) in at
      modifies `tab, `at, `own, `free, `mem
      ensures Now() == old(Now()) && free == old(free)
      ensures p != 0 <==> Reachable(Now(), s, va)
      ensures p != 0 ==> p == PageOf(Now(), s, va)
    {
      if va >= MAXPAGES {
        return 0;
      }
      var ok, table := Walk(s, va, false);
      if !ok {
        return 0;
      }
      assert NodeOk(tab, at, own, OnPath(s, va, 0));
      var e := tab[table][Index(va, 0)];
      if !e.v || !e.perm.u {
        return 0;
      }
      return e.ppn;
    }

    /** copyout(): the first `done` bytes have arrived, all of them unless a page is out of reach. */
    method Copyout(s: nat, dstva: nat, src: seq<int>) returns (ok: bool, ghost done: nat)
      requires Valid() && Node(s, 2, 0) in at && Private(Now(), s)
      modifies `tab, `at, `own, `free, `mem
      ensures Valid() && tab == old(tab) && at == old(at) && own == old(own) && free == old(free)
      ensures done <= |src| && Stored(old(Now()), Now(), s, dstva, src[..done])
      ensures ok <==> done == |src|
      ensures !ok ==> !Reachable(Now(), s, (dstva + done) / PGSIZE)
    {
      done := 0;
      var len, dst, from := |src|, dstva, 0;
      while len > 0
        invariant Valid() && tab == old(tab) && at == old(at) && own == old(own) && free == old(free)
        invariant 0 <= from == done && 0 <= len && from + len == |src| && dst == dstva + from
        invariant Private(Now(), s) && Stored(old(Now()), Now(), s, dstva, src[..done])
      {
        var page := Walkaddr(s, dst / PGSIZE);
        if page == 0 {
          return false, done;
        }
        var n := PGSIZE - dst % PGSIZE;
        if n > len {
          n := len;
        }
        ghost var v := Now();
        CopyChunk(s, dst, page, src[from..from + n]);
        StoreNext(old(Now()), v, Now(), s, dstva, src, from, n);
        len, from, dst, done := len - n, from + n, dst + n, done + n;
      }
      ok := true;
    }

    /** memmove() to a user page. */
    method CopyChunk(s: nat, dst: nat, page: nat, bytes: seq<int>)
      requires Valid() && Private(Now(), s) && Reachable(Now(), s, dst / PGSIZE)
      requires page == PageOf(Now(), s, dst / PGSIZE)
      requires dst % PGSIZE + |bytes| <= PGSIZE
      modifies `mem
      ensures Valid() && Private(Now(), s) && Stored(old(Now()), Now(), s, dst, bytes)
    {
      assert DataPage(tab, at, own, s, dst / PGSIZE);
      assert PoolAt(free, own, pool, page) && MemAt(mem, page);
      PatchStores(Now(), s, dst, bytes);
      Fill(page, Patched(mem[page], dst % PGSIZE, bytes));
      forall va: nat ensures Reachable(Now(), s, va) == Reachable(old(Now()), s, va) {}
    }

    /** copyin(): the bytes from srcva on, up to the first page out of reach. */
    method Copyin(s: nat, srcva: nat, len0: nat) returns (ok: bool, dst: seq<int>)
      requires Valid() && Node(s, 2, 0) in at && Private(Now(), s)
      modifies `tab, `at, `own, `free, `mem
      ensures Now() == old(Now()) && free == old(free)
      ensures |dst| <= len0 && forall j :: 0 <= j < |dst| ==> ByteAt(Now(), s, srcva + j) == Some(dst[j])
      ensures ok <==> |dst| == len0
      ensures !ok ==> !Reachable(Now(), s, (srcva + |dst|) / PGSIZE)
    {
      var len, src := len0, srcva;
      dst := [];
      while len > 0
        invariant Now() == old(Now()) && free == old(free)
        invariant 0 <= len && |dst| + len == len0 && src == srcva + |dst|
        invariant forall j :: 0 <= j < |dst| ==> ByteAt(Now(), s, srcva + j) == Some(dst[j])
      {
        var page := Walkaddr(s, src / PGSIZE);
        if page == 0 {
          return false, dst;
        }
        assert DataPage(tab, at, own, s, src / PGSIZE);
        assert PoolAt(free, own, pool, page) && MemAt(mem, page);
        var n := PGSIZE - src % PGSIZE;
        if n > len {
          n := len;
        }
        var chunk := mem[page][src % PGSIZE..src % PGSIZE + n];
        forall j | 0 <= j < n ensures ByteAt(Now(), s, src + j) == Some(chunk[j]) {
          assert (src + j) / PGSIZE == src / PGSIZE && (src + j) % PGSIZE == src % PGSIZE + j;
        }
        Appended(Now(), s, srcva, dst, chunk);
        dst := dst + chunk;
        len, src := len - n, src + n;
      }
      ok := true;
    }

    /** What copyout() has written, copyin() reads back. */
    method CopyoutThenCopyin(s: nat, va: nat, src: seq<int>) returns (ok: bool, dst: seq<int>)
      requires Valid() && Node(s, 2, 0) in at && Private(Now(), s)
      modifies `tab, `at, `own, `free, `mem
      ensures Valid() && (ok ==> dst == src)
      ensures ok <==> RangeReachable(old(Now()), s, va, |src|)
    {
      dst := [];
      ghost var done, u := 0, Now();
      ok, done := Copyout(s, va, src);
      SameReach(u, Now(), s, va, |src|);
      if !ok {
        assert !Reachable(u, s, (va + done) / PGSIZE);
        return;
      }
      assert src[..done] == src;
      BytesReachable(Now(), s, va, |src|);
      ok, dst := Copyin(s, va, |src|);
      forall j | 0 <= j < |src| ensures dst[j] == src[j] {
        assert ByteAt(Now(), s, va + j) == Some(src[j]);
      }
    }

    /** mappages() of one page just allocated, which becomes a data page or is given back. */
    method MapHeld(s: nat, a: nat, q: nat, perm: Perm) returns (ok: bool)
      requires Valid() && Node(s, 2, 0) in at && a < TRAPFRAME && Hole(tab, at, s, a) && IsLeaf(perm)
      requires q in own && own[q] == Held
      modifies `tab, `at, `own, `free, `mem
      ensures Valid() && Extends(old(at), at) && SameBytes(old(own) - {q}, old(mem), mem)
      ensures ok ==> GrewData(old(own) - {q}, own, s, a, 1) && IsData(own, q, s, a)
      ensures ok ==> SameBytes(old(own), old(mem), mem)
      ensures ok ==> MapEffect(old(tab), old(at), tab, at, s, a, 1, q, perm)
      ensures !ok ==> SameMap(old(tab), old(at), tab, at) && OnlyTables(old(own) - {q}, own, s)
      ensures ok <==> |old(free)| >= Missing(old(at), s, a, 0)
      ensures ok ==> |free| == |old(free)| - Missing(old(at), s, a, 0) && at.Keys == old(at).Keys + Way(s, a)
    {
      var r; ghost var k;
      assert a * PGSIZE / PGSIZE == a && (a * PGSIZE + PGSIZE - 1) / PGSIZE == a;
      r, k := Mappages(s, a * PGSIZE, PGSIZE, q, perm);
      ok := r.Mapped?;
      if ok {
        Adopt(q, s, a);
      } else {
        UsesKeepTree(tab, at, own, own - {q});
        DataMoves(tab, at, own, tab, at, own - {q});
        Kfree(q);
      }
    }

    /** The page q, just mapped at a, becomes a data page of s. */
    ghost method Adopt(q: nat, s: nat, a: nat)
      requires Valid() && q in own && own[q] == Held
      requires Translate(tab, at, s, a).Some? && Translate(tab, at, s, a).value.ppn == q
      modifies `own
      ensures Valid() && own == old(own)[q := Data(s, a)]
    {
      ghost var own' := own[q := Data(s, a)];
      UsesKeepTree(tab, at, own, own');
      PoolKept(free, own, own', pool);
      forall p | p in own' ensures DataAt(tab, at, own', p) {
        assert p in own && DataAt(tab, at, own, p);
      }
      own := own';
    }
  }

  /** copyin() appends a chunk. */
  lemma Appended(v: View, s: nat, srcva: nat, dst: seq<int>, chunk: seq<int>)
    requires forall j :: 0 <= j < |dst| ==> ByteAt(v, s, srcva + j) == Some(dst[j])
    requires forall j :: 0 <= j < |chunk| ==> ByteAt(v, s, srcva + |dst| + j) == Some(chunk[j])
    ensures forall j :: 0 <= j < |dst + chunk| ==> ByteAt(v, s, srcva + j) == Some((dst + chunk)[j])
  {}

  /** Free pages and pages in use make up the pool. */
  lemma PoolCount(free: seq<nat>, own: map<nat, Use>, pool: set<nat>)
    requires PoolOk(free, own, pool)
    ensures |free| + |own| == |pool|
  {
    var fs := SeqSet(free);
    forall p ensures (p in pool <==> p in own.Keys + fs) && !(p in own.Keys && p in fs) {
      assert PoolAt(free, own, pool, p);
    }
    assert own.Keys !! fs && pool == own.Keys + fs;
  }

  function SeqSet(free: seq<nat>): (r: set<nat>)
    requires Distinct(free)
    ensures |r| == |free| && forall p :: p in r <==> p in free
  {
    if free == [] then {} else
      assert forall p :: p in free <==> p == free[0] || p in free[1..];
      {free[0]} + SeqSet(free[1..])
  }

  /** The two fixed pages have the same tables: the second one costs nothing. */
  lemma SharedTables(tab: map<nat, seq<Pte>>, at: map<Node, nat>, own: map<nat, Use>, s: nat)
    requires TreeOk(tab, at, own) && Translate(tab, at, s, TRAMPOLINE).Some?
    ensures Missing(at, s, TRAPFRAME, 0) == 0
  {
    PathSteps(s, TRAMPOLINE);
    ParentOfChild(OnPath(s, TRAMPOLINE, 1), Index(TRAMPOLINE, 1));
    assert NodeOk(tab, at, own, OnPath(s, TRAMPOLINE, 0));
    assert OnPath(s, TRAPFRAME, 0) == OnPath(s, TRAMPOLINE, 0) && OnPath(s, TRAPFRAME, 1) == OnPath(s, TRAMPOLINE, 1);
  }

  lemma Pop(free: seq<nat>, own: map<nat, Use>, pool: set<nat>)
    requires PoolOk(free, own, pool) && free != []
    ensures free[0] in pool && free[0] !in own && free[0] != 0
    ensures PoolOk(free[1..], own[free[0] := Held], pool)
  {
    assert free[0] in free && PoolAt(free, own, pool, free[0]);
    var free', own' := free[1..], own[free[0] := Held];
    forall p ensures PoolAt(free', own', pool, p) {
      assert PoolAt(free, own, pool, p);
      assert p in free <==> p == free[0] || p in free';
    }
  }

  lemma Push(free: seq<nat>, own: map<nat, Use>, pool: set<nat>, p: nat)
    requires PoolOk(free, own, pool) && p in own
    ensures PoolOk([p] + free, own - {p}, pool)
  {
    assert PoolAt(free, own, pool, p);
    forall q ensures PoolAt([p] + free, own - {p}, pool, q) {
      assert PoolAt(free, own, pool, q);
    }
  }

  /** Pages not yet reached by uvmunmap() are as they were. */
  lemma StillThere(tab: map<nat, seq<Pte>>, at: map<Node, nat>, own: map<nat, Use>, tab': map<nat, seq<Pte>>,
                   own': map<nat, Use>, s: nat, first: nat, k: nat, doFree: bool)
    requires UnmapEffect(tab, at, tab', at, s, first, k)
    requires if doFree then FreedData(own, own', s, first, k) else own' == own
    ensures Translate(tab', at, s, first + k) == Translate(tab, at, s, first + k)
    ensures DataPage(tab, at, own, s, first + k) ==> DataPage(tab', at, own', s, first + k)
    ensures !doFree && OtherPage(tab, at, own, s, first + k) ==> OtherPage(tab', at, own', s, first + k)
  {}

  /** If a node on the way is missing, so is the leaf table. */
  lemma MissingOnPath(tab: map<nat, seq<Pte>>, at: map<Node, nat>, own: map<nat, Use>, s: nat, va: nat, level: nat)
    requires TreeOk(tab, at, own) && va < MAXPAGES && 1 <= level <= 2 && OnPath(s, va, level - 1) !in at
    ensures OnPath(s, va, 0) !in at
  {
    PathSteps(s, va);
    ParentOfChild(OnPath(s, va, 1), Index(va, 1));
    assert OnPath(s, va, 0) in at ==> NodeOk(tab, at, own, OnPath(s, va, 0));
  }
}
