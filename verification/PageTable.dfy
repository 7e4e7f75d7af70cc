/**
 Sv39 page tables as values (kernel/vm.c, kernel/riscv.h).  Pages and virtual addresses are
 counted in pages.  A node of a tree is named by its root page, its level and its place at that
 level; `at` says which physical page holds a node and `own` what every page in use is for.
*/
module PageTable {

  const PGSIZE: nat := 4096
  const ENTRIES: nat := 512
  const MAXPAGES: nat := 0x400_0000        // MAXVA / PGSIZE
  const TRAMPOLINE: nat := MAXPAGES - 1
  const TRAPFRAME: nat := MAXPAGES - 2

  datatype Option<T> = None | Some(value: T)

  /** r, w, x, u: the permission bits of a page-table entry. */
  datatype Perm = Perm(r: bool, w: bool, x: bool, u: bool)

  datatype Pte = Pte(v: bool, perm: Perm, ppn: nat)

  datatype Node = Node(s: nat, l: nat, q: nat)

  /** A page of memory holds a page table, user data, or something just allocated. */
  datatype Use = Table(node: Node) | Data(s: nat, va: nat) | Held

  function NoPerm(): Perm { Perm(false, false, false, false) }

  function Zero(): Pte { Pte(false, NoPerm(), 0) }

  function ZeroTable(): seq<Pte> { seq(ENTRIES, _ => Zero()) }

  predicate IsLeaf(p: Perm) { p.r || p.w || p.x }

  function Child(n: Node, i: nat): Node
    requires n.l > 0
  {
    Node(n.s, n.l - 1, n.q * ENTRIES + i)
  }

  function Parent(n: Node): Node { Node(n.s, n.l + 1, n.q / ENTRIES) }

  /** PX(level, va) */
  function Index(va: nat, level: nat): nat {
    (if level == 0 then va else if level == 1 then va / 0x200 else va / 0x4_0000) % ENTRIES
  }

  /** The node of the given level on the way to va. */
  function OnPath(s: nat, va: nat, level: nat): Node {
    Node(s, level, if level == 0 then va / 0x200 else if level == 1 then va / 0x4_0000 else va / 0x800_0000)
  }

  /** Each entry on the way leads to the next node on the way; the root is the only node of level 2. */
  lemma PathSteps(s: nat, va: nat)
    requires va < MAXPAGES
    ensures OnPath(s, va, 2) == Node(s, 2, 0)
    ensures Child(OnPath(s, va, 2), Index(va, 2)) == OnPath(s, va, 1)
    ensures Child(OnPath(s, va, 1), Index(va, 1)) == OnPath(s, va, 0)
  {}

  ghost predicate EntryOk(at: map<Node, nat>, n: Node, e: Pte, i: nat) {
    if n.l == 0 then e.v ==> IsLeaf(e.perm)
    else (e.v <==> Child(n, i) in at) && (e.v ==> e.perm == NoPerm() && e.ppn == at[Child(n, i)])
  }

  ghost predicate NodeOk(tab: map<nat, seq<Pte>>, at: map<Node, nat>, own: map<nat, Use>, n: Node)
    requires n in at
  {
    && at[n] in own && own[at[n]] == Table(n) && at[n] in tab && |tab[at[n]]| == ENTRIES
    && (if n.l < 2 then Parent(n) in at else n.l == 2 && n.q == 0 && at[n] == n.s)
    && forall i :: 0 <= i < ENTRIES ==> EntryOk(at, n, tab[at[n]][i], i)
  }

  /** Every tree is well formed, and no page serves as two nodes. */
  ghost predicate TreeOk(tab: map<nat, seq<Pte>>, at: map<Node, nat>, own: map<nat, Use>) {
    && (forall n {:trigger NodeOk(tab, at, own, n)} :: n in at ==> NodeOk(tab, at, own, n))
    && (forall p {:trigger PageOk(at, own, p)} :: p in own ==> PageOk(at, own, p))
  }

  ghost predicate PageOk(at: map<Node, nat>, own: map<nat, Use>, p: nat)
    requires p in own
  {
    own[p].Table? ==> own[p].node in at && at[own[p].node] == p
  }

  /** The leaf entry of va, if there is a valid one. */
  function Translate(tab: map<nat, seq<Pte>>, at: map<Node, nat>, s: nat, va: nat): Option<Pte> {
    var n := OnPath(s, va, 0);
    if n in at && at[n] in tab && |tab[at[n]]| == ENTRIES && tab[at[n]][Index(va, 0)].v
    then Some(tab[at[n]][Index(va, 0)]) else None
  }

  /** Nothing is translated differently. */
  ghost predicate SameMap(tab: map<nat, seq<Pte>>, at: map<Node, nat>, tab': map<nat, seq<Pte>>, at': map<Node, nat>) {
    forall s: nat, va: nat :: Translate(tab', at', s, va) == Translate(tab, at, s, va)
  }

  /** Data pages are where their owner's table says. */
  ghost predicate DataOk(tab: map<nat, seq<Pte>>, at: map<Node, nat>, own: map<nat, Use>) {
    forall p {:trigger DataAt(tab, at, own, p)} :: p in own ==> DataAt(tab, at, own, p)
  }

  ghost predicate DataAt(tab: map<nat, seq<Pte>>, at: map<Node, nat>, own: map<nat, Use>, p: nat)
    requires p in own
  {
    own[p].Data? ==> var t := Translate(tab, at, own[p].s, own[p].va); t.Some? && t.value.ppn == p
  }

  function WithEntry(tab: map<nat, seq<Pte>>, p: nat, i: nat, e: Pte): map<nat, seq<Pte>>
    requires p in tab && i < |tab[p]|
  {
    tab[p := tab[p][i := e]]
  }

  /** Hanging a zeroed table page p under entry i of node n. */
  lemma AddTable(tab: map<nat, seq<Pte>>, at: map<Node, nat>, own: map<nat, Use>, n: Node, i: nat, p: nat)
    requires TreeOk(tab, at, own) && n in at && n.l > 0 && i < ENTRIES && NodeOk(tab, at, own, n)
    requires !tab[at[n]][i].v && p in own && own[p] == Held
    ensures at[n] != p && Child(n, i) !in at
    ensures var tab' := WithEntry(tab, at[n], i, Pte(true, NoPerm(), p))[p := ZeroTable()];
            var at', own' := at[Child(n, i) := p], own[p := Table(Child(n, i))];
            TreeOk(tab', at', own') && SameMap(tab, at, tab', at')
  {
    var c := Child(n, i);
    var tab' := WithEntry(tab, at[n], i, Pte(true, NoPerm(), p))[p := ZeroTable()];
    var at', own' := at[c := p], own[p := Table(c)];
    assert EntryOk(at, n, tab[at[n]][i], i);
    assert Parent(c) == n;
    forall m | m in at' ensures NodeOk(tab', at', own', m) {
      if m == c {
        forall j | 0 <= j < ENTRIES ensures EntryOk(at', c, tab'[p][j], j) {
          if c.l > 0 {
            ChildOfMissing(tab, at, own, c, j);
          }
        }
      } else {
        assert NodeOk(tab, at, own, m);
        forall j | 0 <= j < ENTRIES ensures EntryOk(at', m, tab'[at'[m]][j], j) {
          assert EntryOk(at, m, tab[at[m]][j], j);
          if m.l > 0 && Child(m, j) == c {
            ParentOfChild(m, j);
          }
        }
      }
    }
    forall q | q in own' ensures PageOk(at', own', q) {
      assert q in own && PageOk(at, own, q);
    }
    forall s: nat, va: nat ensures Translate(tab', at', s, va) == Translate(tab, at, s, va) {
      var m := OnPath(s, va, 0);
      if m in at {
        assert NodeOk(tab, at, own, m);
      }
    }
  }

  lemma ParentOfChild(n: Node, i: nat)
    requires n.l > 0 && i < ENTRIES
    ensures Parent(Child(n, i)) == n
  {}

  lemma ChildOfMissing(tab: map<nat, seq<Pte>>, at: map<Node, nat>, own: map<nat, Use>, n: Node, i: nat)
    requires TreeOk(tab, at, own) && n !in at && 0 < n.l <= 2 && i < ENTRIES
    ensures Child(n, i) !in at
  {
    ParentOfChild(n, i);
    assert Child(n, i) in at ==> NodeOk(tab, at, own, Child(n, i));
  }

  /** Changing one leaf entry changes one translation. */
  lemma SetLeaf(tab: map<nat, seq<Pte>>, at: map<Node, nat>, own: map<nat, Use>, s: nat, va: nat, e: Pte)
    requires TreeOk(tab, at, own) && OnPath(s, va, 0) in at && NodeOk(tab, at, own, OnPath(s, va, 0))
    requires e.v ==> IsLeaf(e.perm)
    ensures var tab' := WithEntry(tab, at[OnPath(s, va, 0)], Index(va, 0), e);
            && TreeOk(tab', at, own)
            && Translate(tab', at, s, va) == (if e.v then Some(e) else None)
            && forall t: nat, vb: nat :: (t, vb) != (s, va) ==> Translate(tab', at, t, vb) == Translate(tab, at, t, vb)
  {
    var n := OnPath(s, va, 0);
    var tab' := WithEntry(tab, at[n], Index(va, 0), e);
    forall m | m in at ensures NodeOk(tab', at, own, m) {
      assert NodeOk(tab, at, own, m);
      assert m != n ==> at[m] != at[n];
    }
    forall t: nat, vb: nat | (t, vb) != (s, va) ensures Translate(tab', at, t, vb) == Translate(tab, at, t, vb) {
      SlotsDistinct(tab, at, own, s, va, t, vb);
    }
  }

  /** Distinct pages, or different spaces, have distinct leaf slots. */
  lemma SlotsDistinct(tab: map<nat, seq<Pte>>, at: map<Node, nat>, own: map<nat, Use>, s: nat, va: nat, t: nat, vb: nat)
    requires TreeOk(tab, at, own) && (s, va) != (t, vb)
    requires OnPath(s, va, 0) in at
    ensures OnPath(t, vb, 0) in at ==>
              (at[OnPath(s, va, 0)], Index(va, 0)) != (at[OnPath(t, vb, 0)], Index(vb, 0))
  {
    assert NodeOk(tab, at, own, OnPath(s, va, 0));
    if OnPath(t, vb, 0) in at {
      assert NodeOk(tab, at, own, OnPath(t, vb, 0));
    }
  }

  /** The tables once the entry that leads to n is cleared. */
  function Cleared(tab: map<nat, seq<Pte>>, at: map<Node, nat>, n: Node): map<nat, seq<Pte>> {
    if n.l < 2 && Parent(n) in at && at[Parent(n)] in tab && |tab[at[Parent(n)]]| == ENTRIES
    then WithEntry(tab, at[Parent(n)], n.q % ENTRIES, Zero()) else tab
  }

  /** Removing a node whose entries are all invalid. */
  lemma DropNode(tab: map<nat, seq<Pte>>, at: map<Node, nat>, own: map<nat, Use>, n: Node)
    requires TreeOk(tab, at, own) && n in at && NodeOk(tab, at, own, n)
    requires forall i :: 0 <= i < ENTRIES ==> !tab[at[n]][i].v
    ensures TreeOk(Cleared(tab, at, n), at - {n}, own - {at[n]})
    ensures SameMap(tab, at, Cleared(tab, at, n), at - {n})
  {
    var tab', at', own' := Cleared(tab, at, n), at - {n}, own - {at[n]};
    if n.l < 2 {
      assert NodeOk(tab, at, own, Parent(n));
    }
    forall m | m in at' ensures NodeOk(tab', at', own', m) {
      DropNodeOther(tab, at, own, n, m);
    }
    forall q | q in own' ensures PageOk(at', own', q) {
      assert PageOk(at, own, q);
    }
    forall s: nat, va: nat ensures Translate(tab', at', s, va) == Translate(tab, at, s, va) {
      var m := OnPath(s, va, 0);
      if m in at {
        assert NodeOk(tab, at, own, m);
      }
    }
  }

  lemma DropNodeOther(tab: map<nat, seq<Pte>>, at: map<Node, nat>, own: map<nat, Use>, n: Node, m: Node)
    requires TreeOk(tab, at, own) && n in at && NodeOk(tab, at, own, n)
    requires forall i :: 0 <= i < ENTRIES ==> !tab[at[n]][i].v
    requires n.l < 2 ==> NodeOk(tab, at, own, Parent(n))
    requires m in at && m != n
    ensures NodeOk(Cleared(tab, at, n), at - {n}, own - {at[n]}, m)
  {
    var tab', at' := Cleared(tab, at, n), at - {n};
    assert NodeOk(tab, at, own, m);
    var i := m.q % ENTRIES;
    assert m.l < 2 && Parent(m) == n ==> Child(n, i) == m;
    assert EntryOk(at, n, tab[at[n]][i], i);
    forall j | 0 <= j < ENTRIES ensures EntryOk(at', m, tab'[at'[m]][j], j) {
      assert EntryOk(at, m, tab[at[m]][j], j);
      if m.l > 0 && Child(m, j) == n {
        ParentOfChild(m, j);
        assert j == n.q % ENTRIES;
      }
      if n.l < 2 && m == Parent(n) && j == n.q % ENTRIES {
        assert Child(m, j) == n;
      }
    }
  }

  /** What non-table pages are used for does not matter to the trees. */
  lemma UsesKeepTree(tab: map<nat, seq<Pte>>, at: map<Node, nat>, own: map<nat, Use>, own': map<nat, Use>)
    requires TreeOk(tab, at, own)
    requires forall p :: p in own && own[p].Table? ==> p in own' && own'[p] == own[p]
    requires forall p :: p in own' && own'[p].Table? ==> p in own && own[p] == own'[p]
    ensures TreeOk(tab, at, own')
  {
    forall n | n in at ensures NodeOk(tab, at, own', n) {
      assert NodeOk(tab, at, own, n);
    }
    forall q | q in own' ensures PageOk(at, own', q) {
      assert own'[q].Table? ==> PageOk(at, own, q);
    }
  }
}
