/**
 User address spaces over page tables, as values: pages 0 .. n hold data pages that belong to
 the space, and nothing else is mapped but the two fixed pages at the top.
*/
module AddressSpace {
  import opened PageTable

  /** Pages first .. first + k of s now lead to ppn, ppn + 1, ...; nothing else has changed. */
  ghost predicate MapEffect(tab: map<nat, seq<Pte>>, at: map<Node, nat>, tab': map<nat, seq<Pte>>, at': map<Node, nat>,
                            s: nat, first: nat, k: nat, ppn: nat, perm: Perm) {
    forall t: nat, va: nat :: Translate(tab', at', t, va) ==
      if t == s && first <= va < first + k then Some(Pte(true, perm, ppn + va - first)) else Translate(tab, at, t, va)
  }

  /** Pages first .. first + k of s are no longer mapped; nothing else has changed. */
  ghost predicate UnmapEffect(tab: map<nat, seq<Pte>>, at: map<Node, nat>, tab': map<nat, seq<Pte>>,
                              at': map<Node, nat>, s: nat, first: nat, k: nat) {
    forall t: nat, va: nat :: Translate(tab', at', t, va) ==
      if t == s && first <= va < first + k then None else Translate(tab, at, t, va)
  }

  /** Nothing outside pages first .. first + k of s has changed. */
  ghost predicate SameOutside(tab: map<nat, seq<Pte>>, at: map<Node, nat>, tab': map<nat, seq<Pte>>,
                              at': map<Node, nat>, s: nat, first: nat, k: nat) {
    forall t: nat, va: nat :: !(t == s && first <= va < first + k) ==>
      Translate(tab', at', t, va) == Translate(tab, at, t, va)
  }

  ghost predicate NoneMapped(tab: map<nat, seq<Pte>>, at: map<Node, nat>, s: nat, first: nat, k: nat) {
    forall va: nat :: first <= va < first + k ==> Translate(tab, at, s, va).None?
  }

  /** New uses are page tables of s, and nothing in use changes. */
  ghost predicate OnlyTables(own: map<nat, Use>, own': map<nat, Use>, s: nat) {
    && (forall p :: p in own ==> p in own' && own'[p] == own[p])
    && (forall p :: p in own' && p !in own ==> TableOf(own'[p], s))
  }

  ghost predicate TableOf(u: Use, s: nat) { u.Table? && u.node.s == s }

  ghost predicate DataIn(u: Use, s: nat, first: nat, k: nat) { u.Data? && u.s == s && first <= u.va < first + k }

  /** New uses are page tables of s and data pages first .. first + k of s. */
  ghost predicate GrewData(own: map<nat, Use>, own': map<nat, Use>, s: nat, first: nat, k: nat) {
    && (forall p :: p in own ==> p in own' && own'[p] == own[p])
    && (forall p :: p in own' && p !in own ==> TableOf(own'[p], s) || DataIn(own'[p], s, first, k))
  }

  /** The data pages first .. first + k of s have been given back. */
  ghost predicate FreedData(own: map<nat, Use>, own': map<nat, Use>, s: nat, first: nat, k: nat) {
    && (forall p :: p in own' ==> p in own && own'[p] == own[p] && !DataIn(own[p], s, first, k))
    && (forall p :: p in own && !DataIn(own[p], s, first, k) ==> p in own')
  }

  ghost predicate IsData(own: map<nat, Use>, p: nat, s: nat, va: nat) { p in own && own[p] == Data(s, va) }

  /** va is mapped to a data page of its own, or to something else. */
  ghost predicate DataPage(tab: map<nat, seq<Pte>>, at: map<Node, nat>, own: map<nat, Use>, s: nat, va: nat) {
    var t := Translate(tab, at, s, va); t.Some? && IsData(own, t.value.ppn, s, va)
  }

  ghost predicate OtherPage(tab: map<nat, seq<Pte>>, at: map<Node, nat>, own: map<nat, Use>, s: nat, va: nat) {
    var t := Translate(tab, at, s, va); t.Some? ==> !IsData(own, t.value.ppn, s, va)
  }

  ghost predicate Hole(tab: map<nat, seq<Pte>>, at: map<Node, nat>, s: nat, va: nat) {
    Translate(tab, at, s, va).None?
  }

  /** A user address space of n pages. */
  ghost predicate UserOk(tab: map<nat, seq<Pte>>, at: map<Node, nat>, own: map<nat, Use>, s: nat, n: nat) {
    && Node(s, 2, 0) in at && n <= TRAPFRAME
    && (forall va: nat {:trigger DataPage(tab, at, own, s, va)} :: va < n ==> DataPage(tab, at, own, s, va))
    && (forall va: nat {:trigger Hole(tab, at, s, va)} :: n <= va && va != TRAPFRAME && va != TRAMPOLINE ==>
          Hole(tab, at, s, va))
    && OtherPage(tab, at, own, s, TRAPFRAME) && OtherPage(tab, at, own, s, TRAMPOLINE)
  }

  /** Pages first .. first + k of s are addresses and are mapped. */
  ghost predicate AllMapped(tab: map<nat, seq<Pte>>, at: map<Node, nat>, s: nat, first: nat, k: nat) {
    forall va: nat :: first <= va < first + k ==> va < MAXPAGES && Translate(tab, at, s, va).Some?
  }

  lemma DataMapped(tab: map<nat, seq<Pte>>, at: map<Node, nat>, own: map<nat, Use>, s: nat, first: nat, k: nat, n: nat)
    requires UserOk(tab, at, own, s, n) && first + k <= n
    ensures AllMapped(tab, at, s, first, k)
    ensures forall va: nat :: first <= va < first + k ==> DataPage(tab, at, own, s, va)
  {
    forall va: nat | first <= va < first + k ensures Translate(tab, at, s, va).Some? {
      assert DataPage(tab, at, own, s, va);
    }
  }

  lemma MapMore(tab: map<nat, seq<Pte>>, at: map<Node, nat>, tab1: map<nat, seq<Pte>>, at1: map<Node, nat>,
                tab2: map<nat, seq<Pte>>, at2: map<Node, nat>, s: nat, first: nat, k: nat, d: nat, ppn: nat, perm: Perm)
    requires MapEffect(tab, at, tab1, at1, s, first, k, ppn, perm)
    requires MapEffect(tab1, at1, tab2, at2, s, first + k, d, ppn + k, perm)
    ensures MapEffect(tab, at, tab2, at2, s, first, k + d, ppn, perm)
  {}

  /** If the next page is not mapped now, it was not mapped before either. */
  lemma NoneMore(tab: map<nat, seq<Pte>>, at: map<Node, nat>, tab1: map<nat, seq<Pte>>, at1: map<Node, nat>,
                 s: nat, first: nat, k: nat, ppn: nat, perm: Perm)
    requires MapEffect(tab, at, tab1, at1, s, first, k, ppn, perm) && NoneMapped(tab, at, s, first, k)
    ensures Translate(tab1, at1, s, first + k) == Translate(tab, at, s, first + k)
    ensures Translate(tab1, at1, s, first + k).None? ==> NoneMapped(tab, at, s, first, k + 1)
  {}

  lemma UnmapMore(tab: map<nat, seq<Pte>>, at: map<Node, nat>, tab1: map<nat, seq<Pte>>, at1: map<Node, nat>,
                  tab2: map<nat, seq<Pte>>, at2: map<Node, nat>, s: nat, first: nat, k: nat, d: nat)
    requires UnmapEffect(tab, at, tab1, at1, s, first, k) && UnmapEffect(tab1, at1, tab2, at2, s, first + k, d)
    ensures UnmapEffect(tab, at, tab2, at2, s, first, k + d)
  {}

  /** Moving data uses along with unchanged translations. */
  lemma DataMoves(tab: map<nat, seq<Pte>>, at: map<Node, nat>, own: map<nat, Use>,
                  tab': map<nat, seq<Pte>>, at': map<Node, nat>, own': map<nat, Use>)
    requires DataOk(tab, at, own) && SameMap(tab, at, tab', at')
    requires forall p :: p in own' && own'[p].Data? ==> p in own && own[p] == own'[p]
    ensures DataOk(tab', at', own')
  {
    forall p | p in own' ensures DataAt(tab', at', own', p) {
      assert own'[p].Data? ==> DataAt(tab, at, own, p);
    }
  }

  /** Mapping pages that were not mapped disturbs no data page. */
  lemma DataAfterMap(tab: map<nat, seq<Pte>>, at: map<Node, nat>, tab': map<nat, seq<Pte>>, at': map<Node, nat>,
                     own: map<nat, Use>, s: nat, first: nat, k: nat, ppn: nat, perm: Perm)
    requires DataOk(tab, at, own) && NoneMapped(tab, at, s, first, k)
    requires MapEffect(tab, at, tab', at', s, first, k, ppn, perm)
    ensures DataOk(tab', at', own)
  {
    forall p | p in own ensures DataAt(tab', at', own, p) {
      assert DataAt(tab, at, own, p);
    }
  }

  /** Unmapping one page, whose data page, if it has one, is given back. */
  lemma DataAfterUnmap(tab: map<nat, seq<Pte>>, at: map<Node, nat>, own: map<nat, Use>,
                       tab': map<nat, seq<Pte>>, own': map<nat, Use>, s: nat, va: nat, p: nat)
    requires DataOk(tab, at, own) && UnmapEffect(tab, at, tab', at, s, va, 1)
    requires Translate(tab, at, s, va).Some? && Translate(tab, at, s, va).value.ppn == p
    requires own' == if IsData(own, p, s, va) then own - {p} else own
    ensures DataOk(tab', at, own')
    ensures FreedData(own, own', s, va, 1)
  {
    forall q | q in own ensures DataIn(own[q], s, va, 1) <==> q == p && IsData(own, p, s, va) {
      assert DataAt(tab, at, own, q);
    }
    forall q | q in own' ensures DataAt(tab', at, own', q) {
      assert DataAt(tab, at, own, q);
    }
  }

  lemma FreedMore(own: map<nat, Use>, own1: map<nat, Use>, own2: map<nat, Use>, s: nat, first: nat, k: nat, d: nat)
    requires FreedData(own, own1, s, first, k) && FreedData(own1, own2, s, first + k, d)
    ensures FreedData(own, own2, s, first, k + d)
  {}

  /** A space that grows by one data page. */
  lemma UserGrows(tab: map<nat, seq<Pte>>, at: map<Node, nat>, own: map<nat, Use>,
                  tab': map<nat, seq<Pte>>, at': map<Node, nat>, own': map<nat, Use>, s: nat, n: nat, p: nat,
                  perm: Perm)
    requires UserOk(tab, at, own, s, n) && n < TRAPFRAME && Node(s, 2, 0) in at'
    requires MapEffect(tab, at, tab', at', s, n, 1, p, perm)
    requires GrewData(own, own', s, n, 1) && IsData(own', p, s, n)
    requires DataOk(tab, at, own)
    ensures UserOk(tab', at', own', s, n + 1)
  {
    forall va: nat | va < n + 1 ensures DataPage(tab', at', own', s, va) {
      assert va < n ==> DataPage(tab, at, own, s, va);
    }
    forall va: nat | n + 1 <= va && va != TRAPFRAME && va != TRAMPOLINE ensures Hole(tab', at', s, va) {
      assert Hole(tab, at, s, va);
    }
  }

  /** Another space does not notice. */
  lemma UserKept(tab: map<nat, seq<Pte>>, at: map<Node, nat>, own: map<nat, Use>,
                 tab': map<nat, seq<Pte>>, at': map<Node, nat>, own': map<nat, Use>, s: nat, n: nat)
    requires UserOk(tab, at, own, s, n) && Node(s, 2, 0) in at'
    requires forall va: nat :: Translate(tab', at', s, va) == Translate(tab, at, s, va)
    requires forall p, va: nat :: IsData(own', p, s, va) <==> IsData(own, p, s, va)
    ensures UserOk(tab', at', own', s, n)
  {
    forall va: nat | va < n ensures DataPage(tab', at', own', s, va) {
      assert DataPage(tab, at, own, s, va);
    }
    forall va: nat | n <= va && va != TRAPFRAME && va != TRAMPOLINE ensures Hole(tab', at', s, va) {
      assert Hole(tab, at, s, va);
    }
  }

  /** A space that shrinks to n pages. */
  lemma UserShrinks(tab: map<nat, seq<Pte>>, at: map<Node, nat>, own: map<nat, Use>,
                    tab': map<nat, seq<Pte>>, own': map<nat, Use>, s: nat, n: nat, k: nat)
    requires UserOk(tab, at, own, s, n + k)
    requires UnmapEffect(tab, at, tab', at, s, n, k) && FreedData(own, own', s, n, k)
    ensures UserOk(tab', at, own', s, n)
  {
    forall va: nat | va < n ensures DataPage(tab', at, own', s, va) {
      assert DataPage(tab, at, own, s, va);
    }
    forall va: nat | n <= va && va != TRAPFRAME && va != TRAMPOLINE ensures Hole(tab', at, s, va) {
      assert n + k <= va ==> Hole(tab, at, s, va);
    }
  }

  /** A space has no more pages than there are pages in use. */
  lemma {:induction false} UserFits(tab: map<nat, seq<Pte>>, at: map<Node, nat>, own: map<nat, Use>, s: nat, n: nat,
                                    m: nat, ps: set<nat>)
    requires UserOk(tab, at, own, s, n) && m <= n
    requires forall p :: p in own && DataIn(own[p], s, 0, m) ==> p in ps
    ensures m <= |ps|
    decreases m
  {
    if m > 0 {
      assert DataPage(tab, at, own, s, m - 1);
      var p := Translate(tab, at, s, m - 1).value.ppn;
      UserFits(tab, at, own, s, n, m - 1, ps - {p});
    }
  }

  /** Growing and then giving the same pages back leaves only new page tables. */
  lemma GrewAndFreed(tab: map<nat, seq<Pte>>, at: map<Node, nat>, own: map<nat, Use>, own1: map<nat, Use>,
                     own2: map<nat, Use>, s: nat, n: nat, k: nat)
    requires DataOk(tab, at, own) && UserOk(tab, at, own, s, n) && n + k <= TRAPFRAME
    requires GrewData(own, own1, s, n, k) && FreedData(own1, own2, s, n, k)
    ensures OnlyTables(own, own2, s)
  {
    forall p | p in own ensures !DataIn(own[p], s, n, k) {
      NoDataAbove(tab, at, own, s, n, p);
    }
  }

  lemma NoDataAbove(tab: map<nat, seq<Pte>>, at: map<Node, nat>, own: map<nat, Use>, s: nat, n: nat, p: nat)
    requires DataOk(tab, at, own) && UserOk(tab, at, own, s, n) && p in own
    ensures own[p].Data? && own[p].s == s ==> own[p].va < n
  {
    assert DataAt(tab, at, own, p);
    assert own[p].Data? && own[p].s == s && own[p].va >= n && own[p].va != TRAPFRAME && own[p].va != TRAMPOLINE
      ==> Hole(tab, at, s, own[p].va);
  }

  /** A moment of memory, for comparing two. */
  datatype View = View(tab: map<nat, seq<Pte>>, at: map<Node, nat>, own: map<nat, Use>, mem: map<nat, seq<int>>)

  ghost predicate Extends(at: map<Node, nat>, at': map<Node, nat>) {
    forall n :: n in at ==> n in at' && at'[n] == at[n]
  }

  /** Pages that were in use keep their contents. */
  ghost predicate SameBytes(own: map<nat, Use>, mem: map<nat, seq<int>>, mem': map<nat, seq<int>>) {
    forall q :: q in own && q in mem ==> q in mem' && mem'[q] == mem[q]
  }

  /** From u to v, space s gained data pages n .. a and nothing else changed but for new page tables. */
  ghost predicate Grown(u: View, v: View, s: nat, n: nat, a: nat) {
    && n <= a && Extends(u.at, v.at) && SameBytes(u.own, u.mem, v.mem)
    && SameOutside(u.tab, u.at, v.tab, v.at, s, n, a - n) && GrewData(u.own, v.own, s, n, a - n)
  }

  lemma GrownMore(u: View, v: View, w: View, s: nat, n: nat, a: nat, b: nat)
    requires Grown(u, v, s, n, a) && Grown(v, w, s, a, b)
    ensures Grown(u, w, s, n, b)
  {}

  ghost predicate Ok(v: View, s: nat, n: nat) { UserOk(v.tab, v.at, v.own, s, n) }

  /** What page va of s holds. */
  function Contents(v: View, s: nat, va: nat): Option<seq<int>> {
    var t := Translate(v.tab, v.at, s, va);
    if t.Some? && t.value.ppn in v.mem then Some(v.mem[t.value.ppn]) else None
  }

  /** A page that stays where it is keeps its contents while a space grows. */
  lemma ContentsKept(u: View, v: View, s: nat, n: nat, a: nat, t: nat, va: nat)
    requires Grown(u, v, s, n, a) && !(t == s && n <= va < a)
    requires DataPage(u.tab, u.at, u.own, t, va) && Contents(u, t, va).Some?
    ensures Contents(v, t, va) == Contents(u, t, va) && Translate(v.tab, v.at, t, va) == Translate(u.tab, u.at, t, va)
  {}

  /** Growing a space and unmapping the same pages restores every translation and leaves only new tables. */
  lemma Restored(u: View, v: View, w: View, s: nat, n: nat, a: nat)
    requires Ok(u, s, n) && DataOk(u.tab, u.at, u.own) && a <= TRAPFRAME && Grown(u, v, s, n, a)
    requires UnmapEffect(v.tab, v.at, w.tab, w.at, s, n, a - n) && FreedData(v.own, w.own, s, n, a - n)
    ensures SameMap(u.tab, u.at, w.tab, w.at) && OnlyTables(u.own, w.own, s)
  {
    GrewAndFreed(u.tab, u.at, u.own, v.own, w.own, s, n, a - n);
    forall t: nat, va: nat ensures Translate(w.tab, w.at, t, va) == Translate(u.tab, u.at, t, va) {
      if t == s && n <= va < a {
        assert Hole(u.tab, u.at, s, va);
      } else {
        assert Translate(v.tab, v.at, t, va) == Translate(u.tab, u.at, t, va);
      }
    }
  }

  /** Another space does not notice. */
  lemma OthersKept(u: View, v: View, s: nat, n: nat, a: nat, t: nat, m: nat)
    requires Grown(u, v, s, n, a) && Ok(u, t, m) && (s != t || n == a)
    ensures Ok(v, t, m)
  {
    forall p, va: nat ensures IsData(v.own, p, t, va) <==> IsData(u.own, p, t, va) {}
    UserKept(u.tab, u.at, u.own, v.tab, v.at, v.own, t, m);
  }

  /** Page va is the user's and holds zeroes. */
  ghost predicate ZeroAt(v: View, s: nat, va: nat, zero: seq<int>) {
    var t := Translate(v.tab, v.at, s, va);
    t.Some? && t.value.perm.u && Contents(v, s, va) == Some(zero)
  }

  ghost predicate ZeroFilled(v: View, s: nat, n: nat, a: nat, zero: seq<int>) {
    forall va: nat {:trigger ZeroAt(v, s, va, zero)} :: n <= va < a ==> ZeroAt(v, s, va, zero)
  }

  lemma ZeroMore(u: View, v: View, s: nat, n: nat, a: nat, zero: seq<int>)
    requires Ok(u, s, a) && ZeroFilled(u, s, n, a, zero) && Grown(u, v, s, a, a + 1) && ZeroAt(v, s, a, zero)
    ensures ZeroFilled(v, s, n, a + 1, zero)
  {
    forall va: nat | n <= va < a ensures ZeroAt(v, s, va, zero) {
      assert ZeroAt(u, s, va, zero) && DataPage(u.tab, u.at, u.own, s, va);
      ContentsKept(u, v, s, a, a + 1, s, va);
    }
  }

  /** Page va of t is a copy of page va of s, with the same permissions. */
  ghost predicate CopyOf(v: View, s: nat, t: nat, va: nat) {
    var x, y := Translate(v.tab, v.at, s, va), Translate(v.tab, v.at, t, va);
    && x.Some? && y.Some? && y.value.perm == x.value.perm
    && Contents(v, t, va) == Contents(v, s, va) && Contents(v, s, va).Some?
  }

  ghost predicate Copied(v: View, s: nat, t: nat, n: nat) {
    forall va: nat :: va < n ==> CopyOf(v, s, t, va)
  }

  lemma CopiedMore(u: View, v: View, s: nat, t: nat, m: nat, n: nat)
    requires Ok(u, s, m) && Ok(u, t, n) && n < m && s != t && Copied(u, s, t, n)
    requires Grown(u, v, t, n, n + 1) && CopyOf(v, s, t, n)
    ensures Copied(v, s, t, n + 1)
  {
    forall va: nat | va < n ensures CopyOf(v, s, t, va) {
      assert CopyOf(u, s, t, va);
      assert DataPage(u.tab, u.at, u.own, s, va) && DataPage(u.tab, u.at, u.own, t, va);
      ContentsKept(u, v, t, n, n + 1, s, va);
      ContentsKept(u, v, t, n, n + 1, t, va);
    }
  }
}
