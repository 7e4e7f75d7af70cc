/** Taking page tables down and setting them up, as values (freewalk, uvmcreate in kernel/vm.c). */
module FreeTables {
  import opened PageTable
  import opened AddressSpace

  /** m is n or below it. */
  predicate Under(n: Node, m: Node) { m == n || Parent(m) == n || Parent(Parent(m)) == n }

  /** The entry of n that leads to m. */
  function Branch(n: Node, m: Node): nat {
    if Parent(m) == n then m.q % ENTRIES else Parent(m).q % ENTRIES
  }

  /** m is below one of the first i entries of n. */
  predicate Below(n: Node, i: nat, m: Node) { m != n && Under(n, m) && Branch(n, m) < i }

  lemma UnderChild(n: Node, i: nat, m: Node)
    requires 0 < n.l <= 2 && i < ENTRIES
    ensures Under(Child(n, i), m) <==> m != n && Under(n, m) && Branch(n, m) == i
  {}

  ghost predicate Sub<K(!new), V>(a: map<K, V>, b: map<K, V>) {
    forall k :: k in a ==> k in b && a[k] == b[k]
  }

  /** The nodes below the first i entries of n, and their pages, are gone. */
  ghost predicate Trimmed(at: map<Node, nat>, own: map<nat, Use>, at': map<Node, nat>, own': map<nat, Use>, n: Node,
                          i: nat) {
    && Sub(at', at) && Sub(own', own)
    && (forall m {:trigger NodeTrimmed(at, at', n, i, m)} :: NodeTrimmed(at, at', n, i, m))
    && (forall p {:trigger PageTrimmed(own, own', n, i, p)} :: PageTrimmed(own, own', n, i, p))
  }

  ghost predicate NodeTrimmed(at: map<Node, nat>, at': map<Node, nat>, n: Node, i: nat, m: Node) {
    (m in at' <==> m in at && !Below(n, i, m)) && (m in at' ==> at'[m] == at[m])
  }

  ghost predicate PageTrimmed(own: map<nat, Use>, own': map<nat, Use>, n: Node, i: nat, p: nat) {
    (p in own' <==> p in own && !(own[p].Table? && Below(n, i, own[p].node))) && (p in own' ==> own'[p] == own[p])
  }

  /** n and everything below it is gone. */
  ghost predicate Removed(at: map<Node, nat>, own: map<nat, Use>, at': map<Node, nat>, own': map<nat, Use>, n: Node) {
    && Sub(at', at) && Sub(own', own)
    && (forall m {:trigger NodeRemoved(at, at', n, m)} :: NodeRemoved(at, at', n, m))
    && (forall p {:trigger PageRemoved(own, own', n, p)} :: PageRemoved(own, own', n, p))
  }

  ghost predicate NodeRemoved(at: map<Node, nat>, at': map<Node, nat>, n: Node, m: Node) {
    (m in at' <==> m in at && !Under(n, m)) && (m in at' ==> at'[m] == at[m])
  }

  ghost predicate PageRemoved(own: map<nat, Use>, own': map<nat, Use>, n: Node, p: nat) {
    (p in own' <==> p in own && !(own[p].Table? && Under(n, own[p].node))) && (p in own' ==> own'[p] == own[p])
  }

  lemma TrimMore(at: map<Node, nat>, own: map<nat, Use>, at1: map<Node, nat>, own1: map<nat, Use>,
                 at2: map<Node, nat>, own2: map<nat, Use>, n: Node, i: nat)
    requires 0 < n.l <= 2 && i < ENTRIES
    requires Trimmed(at, own, at1, own1, n, i) && Removed(at1, own1, at2, own2, Child(n, i))
    ensures Trimmed(at, own, at2, own2, n, i + 1)
  {
    var k := i + 1;
    forall m ensures NodeTrimmed(at, at2, n, k, m) {
      UnderChild(n, i, m);
      assert NodeTrimmed(at, at1, n, i, m) && NodeRemoved(at1, at2, Child(n, i), m);
    }
    forall p ensures PageTrimmed(own, own2, n, k, p) {
      assert PageTrimmed(own, own1, n, i, p) && PageRemoved(own1, own2, Child(n, i), p);
      if p in own && own[p].Table? {
        UnderChild(n, i, own[p].node);
      }
    }
  }

  /** If an entry of n is not in use, nothing is below it. */
  lemma NothingBelow(tab: map<nat, seq<Pte>>, at: map<Node, nat>, own: map<nat, Use>, n: Node, i: nat)
    requires TreeOk(tab, at, own) && n in at && n.l > 0 && i < ENTRIES && Child(n, i) !in at
    ensures Removed(at, own, at, own, Child(n, i)) && NoLeaf(tab, at, Child(n, i))
  {
    var c := Child(n, i);
    assert NodeOk(tab, at, own, n);
    forall m ensures NodeRemoved(at, at, c, m) {
      if m in at {
        assert NodeOk(tab, at, own, m);
        assert m.l < 2 ==> NodeOk(tab, at, own, Parent(m));
      }
    }
    forall p ensures PageRemoved(own, own, c, p) {
      if p in own {
        assert PageOk(at, own, p);
        assert own[p].Table? ==> NodeRemoved(at, at, c, own[p].node);
      }
    }
    forall m | m in at ensures !Under(c, m) {
      assert NodeRemoved(at, at, c, m);
    }
  }

  lemma TrimEnd(tab: map<nat, seq<Pte>>, at: map<Node, nat>, own: map<nat, Use>, at1: map<Node, nat>,
                own1: map<nat, Use>, n: Node, at2: map<Node, nat>, own2: map<nat, Use>)
    requires TreeOk(tab, at1, own1) && Trimmed(at, own, at1, own1, n, ENTRIES) && n in at1
    requires at2 == at1 - {n} && own2 == own1 - {at1[n]}
    ensures Removed(at, own, at2, own2, n)
  {
    assert NodeOk(tab, at1, own1, n);
    forall m ensures NodeRemoved(at, at2, n, m) {
      assert NodeTrimmed(at, at1, n, ENTRIES, m);
    }
    forall p ensures PageRemoved(own, own2, n, p) {
      assert PageTrimmed(own, own1, n, ENTRIES, p);
      assert p in own1 ==> PageOk(at1, own1, p);
    }
  }

  /** A table of leaves has nothing below it. */
  lemma LeavesTrimmed(at: map<Node, nat>, own: map<nat, Use>, at': map<Node, nat>, own': map<nat, Use>, n: Node, i: nat)
    requires Trimmed(at, own, at', own', n, i) && n.l == 0
    ensures Trimmed(at, own, at', own', n, i + 1)
  {
    var k := i + 1;
    forall m ensures NodeTrimmed(at, at', n, k, m) {
      assert NodeTrimmed(at, at', n, i, m);
    }
    forall p ensures PageTrimmed(own, own', n, k, p) {
      assert PageTrimmed(own, own', n, i, p);
    }
  }

  lemma NothingTrimmed(at: map<Node, nat>, own: map<nat, Use>, n: Node)
    ensures Trimmed(at, own, at, own, n, 0)
  {}

  ghost predicate Blank(tab: map<nat, seq<Pte>>, at: map<Node, nat>, m: Node) {
    m in at && at[m] in tab && |tab[at[m]]| == ENTRIES && forall i :: 0 <= i < ENTRIES ==> !tab[at[m]][i].v
  }

  /** No leaf is mapped below n. */
  ghost predicate NoLeaf(tab: map<nat, seq<Pte>>, at: map<Node, nat>, n: Node) {
    forall m {:trigger Blank(tab, at, m)} :: m in at && Under(n, m) && m.l == 0 ==> Blank(tab, at, m)
  }

  /** The nodes that remain have the tables they had, but for n. */
  ghost predicate SameTables(tab: map<nat, seq<Pte>>, tab': map<nat, seq<Pte>>, at': map<Node, nat>, n: Node) {
    forall m :: m in at' && m != n && at'[m] in tab ==> at'[m] in tab' && tab'[at'[m]] == tab[at'[m]]
  }

  lemma NoLeafChild(tab: map<nat, seq<Pte>>, tab': map<nat, seq<Pte>>, at: map<Node, nat>, at': map<Node, nat>,
                    n: Node, i: nat)
    requires 0 < n.l <= 2 && i < ENTRIES && NoLeaf(tab, at, n) && SameTables(tab, tab', at', n)
    requires forall m :: m in at' ==> m in at && at'[m] == at[m]
    ensures NoLeaf(tab', at', Child(n, i))
  {
    forall m | m in at' && Under(Child(n, i), m) && m.l == 0 ensures Blank(tab', at', m) {
      UnderChild(n, i, m);
      assert Blank(tab, at, m);
    }
  }

  /** No leaf is mapped in the first i entries of n, or below them. */
  ghost predicate NoLeafBefore(tab: map<nat, seq<Pte>>, at: map<Node, nat>, n: Node, i: nat) {
    if n.l == 0 then
      && n in at && at[n] in tab && |tab[at[n]]| == ENTRIES
      && forall j :: 0 <= j < i <= ENTRIES ==> !tab[at[n]][j].v
    else forall m {:trigger Blank(tab, at, m)} :: m in at && Below(n, i, m) && m.l == 0 ==> Blank(tab, at, m)
  }

  /** freewalk() has looked below entry i: what it finds there is what was there when it started. */
  lemma NoLeafStep(u: View, v: View, n: Node, i: nat)
    requires TreeOk(u.tab, u.at, u.own) && 0 < n.l <= 2 && i < ENTRIES && NoLeafBefore(u.tab, u.at, n, i)
    requires Trimmed(u.at, u.own, v.at, v.own, n, i) && SameTables(u.tab, v.tab, v.at, n)
    requires NoLeaf(v.tab, v.at, Child(n, i))
    ensures NoLeafBefore(u.tab, u.at, n, i + 1)
  {
    var k := i + 1;
    forall m | m in u.at && Below(n, k, m) && m.l == 0 ensures Blank(u.tab, u.at, m) {
      if !Below(n, i, m) {
        UnderChild(n, i, m);
        assert NodeTrimmed(u.at, v.at, n, i, m) && Blank(v.tab, v.at, m) && NodeOk(u.tab, u.at, u.own, m);
      }
    }
  }

  lemma NoLeafAtAll(tab: map<nat, seq<Pte>>, at: map<Node, nat>, n: Node)
    requires n in at && n.l <= 2 && NoLeafBefore(tab, at, n, ENTRIES)
    ensures NoLeaf(tab, at, n)
  {
    forall m | m in at && Under(n, m) && m.l == 0 ensures Blank(tab, at, m) {
      assert m != n ==> Below(n, ENTRIES, m);
    }
  }

  /** A space with no translation has no leaf. */
  lemma NoTranslationNoLeaf(tab: map<nat, seq<Pte>>, at: map<Node, nat>, own: map<nat, Use>, s: nat)
    requires TreeOk(tab, at, own) && forall va: nat :: Translate(tab, at, s, va).None?
    ensures NoLeaf(tab, at, Node(s, 2, 0))
  {
    forall m | m in at && Under(Node(s, 2, 0), m) && m.l == 0 ensures Blank(tab, at, m) {
      assert NodeOk(tab, at, own, m);
      forall i | 0 <= i < ENTRIES ensures !tab[at[m]][i].v {
        assert OnPath(s, m.q * ENTRIES + i, 0) == m && Index(m.q * ENTRIES + i, 0) == i;
        assert Translate(tab, at, s, m.q * ENTRIES + i).None?;
      }
    }
  }

  /** Every node of a space is below its root. */
  lemma AllUnderRoot(tab: map<nat, seq<Pte>>, at: map<Node, nat>, own: map<nat, Use>, m: Node)
    requires TreeOk(tab, at, own) && m in at
    ensures Under(Node(m.s, 2, 0), m) && Node(m.s, 2, 0) in at && at[Node(m.s, 2, 0)] == m.s
  {
    assert NodeOk(tab, at, own, m);
    if m.l < 2 {
      assert NodeOk(tab, at, own, Parent(m));
      if m.l < 1 {
        assert NodeOk(tab, at, own, Parent(Parent(m)));
      }
    }
  }

  /** uvmcreate(): a zeroed page is an empty tree. */
  lemma AddRoot(tab: map<nat, seq<Pte>>, at: map<Node, nat>, own: map<nat, Use>, p: nat)
    requires TreeOk(tab, at, own) && p in own && own[p] == Held
    ensures forall m :: m in at ==> m.s != p
    ensures TreeOk(tab[p := ZeroTable()], at[Node(p, 2, 0) := p], own[p := Table(Node(p, 2, 0))])
    ensures SameMap(tab, at, tab[p := ZeroTable()], at[Node(p, 2, 0) := p])
  {
    var r := Node(p, 2, 0);
    var tab', at', own' := tab[p := ZeroTable()], at[r := p], own[p := Table(r)];
    forall m | m in at ensures m.s != p {
      AllUnderRoot(tab, at, own, m);
      assert NodeOk(tab, at, own, Node(m.s, 2, 0));
    }
    forall m | m in at' ensures NodeOk(tab', at', own', m) {
      assert m != r ==> NodeOk(tab, at, own, m);
      forall i | 0 <= i < ENTRIES ensures EntryOk(at', m, tab'[at'[m]][i], i) {
        assert m != r ==> EntryOk(at, m, tab[at[m]][i], i);
      }
    }
    forall q | q in own' ensures PageOk(at', own', q) {
      assert q in own && PageOk(at, own, q);
    }
    forall s: nat, va: nat ensures Translate(tab', at', s, va) == Translate(tab, at, s, va) {
      if OnPath(s, va, 0) in at {
        assert NodeOk(tab, at, own, OnPath(s, va, 0));
      }
    }
  }

  ghost predicate Belongs(u: Use, s: nat) { TableOf(u, s) || (u.Data? && u.s == s) }

  /** Every page of space s, data and tables, has been given back, and no other. */
  ghost predicate Returned(own: map<nat, Use>, own': map<nat, Use>, s: nat) {
    && (forall p :: p in own' <==> p in own && !Belongs(own[p], s))
    && (forall p :: p in own' ==> own'[p] == own[p])
  }

  lemma AllReturned(u: View, v: View, w: View, s: nat, n: nat)
    requires TreeOk(v.tab, v.at, v.own) && DataOk(u.tab, u.at, u.own) && Ok(u, s, n)
    requires FreedData(u.own, v.own, s, 0, n) && Removed(v.at, v.own, w.at, w.own, Node(s, 2, 0))
    ensures Returned(u.own, w.own, s) && forall m :: m in w.at ==> m.s != s
  {
    forall p | p in u.own ensures Belongs(u.own[p], s) <==> TableOf(u.own[p], s) || DataIn(u.own[p], s, 0, n) {
      NoDataAbove(u.tab, u.at, u.own, s, n, p);
    }
    forall m | m in w.at ensures m.s != s {
      assert NodeRemoved(v.at, w.at, Node(s, 2, 0), m);
      AllUnderRoot(v.tab, v.at, v.own, m);
    }
    forall p ensures (p in w.own <==> p in u.own && !Belongs(u.own[p], s)) && (p in w.own ==> w.own[p] == u.own[p]) {
      assert PageRemoved(v.own, w.own, Node(s, 2, 0), p);
      if p in v.own && v.own[p].Table? {
        assert PageOk(v.at, v.own, p);
        AllUnderRoot(v.tab, v.at, v.own, v.own[p].node);
      }
    }
  }

  /** Translations of the other spaces are as they were. */
  ghost predicate OthersSame(tab: map<nat, seq<Pte>>, at: map<Node, nat>, tab': map<nat, seq<Pte>>,
                             at': map<Node, nat>, s: nat) {
    forall t: nat, va: nat :: t != s ==> Translate(tab', at', t, va) == Translate(tab, at, t, va)
  }

  /** Unmapping a fixed page. */
  lemma FixedGone(tab: map<nat, seq<Pte>>, at: map<Node, nat>, own: map<nat, Use>, tab': map<nat, seq<Pte>>, s: nat,
                  n: nat, f: nat)
    requires UserOk(tab, at, own, s, n) && (f == TRAPFRAME || f == TRAMPOLINE)
    requires UnmapEffect(tab, at, tab', at, s, f, 1)
    ensures UserOk(tab', at, own, s, n) && Hole(tab', at, s, f)
    ensures forall va: nat :: va != f ==> Translate(tab', at, s, va) == Translate(tab, at, s, va)
  {
    forall va: nat | va < n ensures DataPage(tab', at, own, s, va) {
      assert DataPage(tab, at, own, s, va);
    }
    forall va: nat | n <= va && va != TRAPFRAME && va != TRAMPOLINE ensures Hole(tab', at, s, va) {
      assert Hole(tab, at, s, va);
    }
  }

  /** Mapping a fixed page. */
  lemma FixedAdded(u: View, v: View, s: nat, f: nat, ppn: nat, perm: Perm)
    requires Ok(u, s, 0) && (f == TRAPFRAME || f == TRAMPOLINE) && OnlyTables(u.own, v.own, s) && Extends(u.at, v.at)
    requires MapEffect(u.tab, u.at, v.tab, v.at, s, f, 1, ppn, perm) && !IsData(u.own, ppn, s, f)
    ensures Ok(v, s, 0)
  {
    forall va: nat | va != TRAPFRAME && va != TRAMPOLINE ensures Hole(v.tab, v.at, s, va) {
      assert Hole(u.tab, u.at, s, va);
    }
  }

  ghost predicate Stranger(own: map<nat, Use>, s: nat) { forall p :: p in own ==> !Belongs(own[p], s) }

  /** A space without a root owns nothing. */
  lemma NoRootNoPages(tab: map<nat, seq<Pte>>, at: map<Node, nat>, own: map<nat, Use>, s: nat)
    requires TreeOk(tab, at, own) && DataOk(tab, at, own) && forall m :: m in at ==> m.s != s
    ensures Stranger(own, s)
  {
    forall p | p in own ensures !Belongs(own[p], s) {
      assert PageOk(at, own, p) && DataAt(tab, at, own, p);
    }
  }

  /** Everything a new space took has been given back. */
  lemma NothingKept(own: map<nat, Use>, own1: map<nat, Use>, own2: map<nat, Use>, s: nat)
    requires Stranger(own, s) && OnlyTables(own, own1, s) && Returned(own1, own2, s)
    ensures own2 == own
  {}

  /** Every space that had a root still has it, and is translated as before. */
  ghost predicate SameRest(u: View, v: View) {
    && (forall t: nat {:trigger Node(t, 2, 0)} :: Node(t, 2, 0) in u.at ==> Node(t, 2, 0) in v.at)
    && (forall t: nat, va: nat :: Node(t, 2, 0) in u.at ==>
          Translate(v.tab, v.at, t, va) == Translate(u.tab, u.at, t, va))
  }
}
