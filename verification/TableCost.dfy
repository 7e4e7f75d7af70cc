/**
 What mapping a range of pages costs: a page each, and the page tables that are not there yet
 (walk and mappages of kernel/vm.c).
*/
module TableCost {
  import opened PageTable

  /** How many tables of levels `level` .. 1 are missing on the way to va. */
  function Missing(at: map<Node, nat>, s: nat, va: nat, level: nat): nat {
    (if level <= 1 && OnPath(s, va, 1) !in at then 1 else 0) + (if level == 0 && OnPath(s, va, 0) !in at then 1 else 0)
  }

  /** The tables below the root on the way to va. */
  ghost function Way(s: nat, va: nat): set<Node> { {OnPath(s, va, 1)} + {OnPath(s, va, 0)} }

  /** The tables below the root on the way to pages n .. a. */
  ghost function Tables(s: nat, n: nat, a: nat): set<Node>
    decreases a
  {
    if a <= n then {} else Tables(s, n, a - 1) + Way(s, a - 1)
  }

  /** 1 if the table m is neither there nor made on the way to pages n .. a. */
  ghost function New(at: map<Node, nat>, s: nat, n: nat, a: nat, m: Node): nat {
    if m in at || m in Tables(s, n, a) then 0 else 1
  }

  /** The pages that mapping pages n .. a takes: themselves, and each table still missing once. */
  ghost function Cost(at: map<Node, nat>, s: nat, n: nat, a: nat): nat
    decreases a
  {
    if a <= n then 0
    else
      Cost(at, s, n, a - 1) + 1
      + New(at, s, n, a - 1, OnPath(s, a - 1, 1)) + New(at, s, n, a - 1, OnPath(s, a - 1, 0))
  }

  /** Pages n .. a have been mapped, and paid for from the free list. */
  ghost predicate Paid(at: map<Node, nat>, free: nat, at': map<Node, nat>, free': int, s: nat, n: nat, a: nat) {
    at'.Keys == at.Keys + Tables(s, n, a) && free' == free - Cost(at, s, n, a)
  }

  /** One page more takes itself and the tables missing by now. */
  lemma OneMore(at: map<Node, nat>, at1: map<Node, nat>, s: nat, n: nat, a: nat)
    requires n <= a && at1.Keys == at.Keys + Tables(s, n, a)
    ensures Cost(at, s, n, a + 1) == Cost(at, s, n, a) + 1 + Missing(at1, s, a, 0)
  {
    forall m ensures New(at, s, n, a, m) == if m in at1 then 0 else 1 {
      assert m in at1 <==> m in at1.Keys;
    }
  }

  lemma PaidMore(at: map<Node, nat>, free: nat, at1: map<Node, nat>, free1: nat, at2: map<Node, nat>, free2: nat,
                 s: nat, n: nat, a: nat)
    requires n <= a && Paid(at, free, at1, free1, s, n, a)
    requires at2.Keys == at1.Keys + Way(s, a) && free2 == free1 - 1 - Missing(at1, s, a, 0)
    ensures Paid(at, free, at2, free2, s, n, a + 1)
  {
    OneMore(at, at1, s, n, a);
  }

  lemma {:induction false} CostGrows(at: map<Node, nat>, s: nat, n: nat, a: nat, b: nat)
    requires n <= a <= b
    ensures Cost(at, s, n, a) <= Cost(at, s, n, b)
    decreases b
  {
    if a < b {
      CostGrows(at, s, n, a, b - 1);
    }
  }

  /** If there is not enough for the next page, there was not enough for the whole range. */
  lemma CannotPay(at: map<Node, nat>, free: nat, at1: map<Node, nat>, free1: nat, s: nat, n: nat, a: nat, b: nat)
    requires n <= a < b && Paid(at, free, at1, free1, s, n, a) && free1 < 1 + Missing(at1, s, a, 0)
    ensures free < Cost(at, s, n, b)
  {
    OneMore(at, at1, s, n, a);
    CostGrows(at, s, n, a + 1, b);
  }

  // ---------------------------------------------------------------- a space without user pages

  /** Below the root, s has no tables but those of the two fixed pages. */
  ghost predicate Bare(at: map<Node, nat>, s: nat) {
    forall m :: m in at && m.s == s && m.l < 2 ==> m == OnPath(s, TRAMPOLINE, m.l)
  }

  /** A root that was no node before, and the ways to the fixed pages. */
  lemma BareSpace(at: map<Node, nat>, at1: map<Node, nat>, at2: map<Node, nat>, at3: map<Node, nat>, s: nat)
    requires (forall m :: m in at ==> m.s != s) && at1 == at[Node(s, 2, 0) := s]
    requires at2.Keys == at1.Keys + Way(s, TRAMPOLINE) && at3.Keys == at2.Keys + Way(s, TRAPFRAME)
    ensures Bare(at3, s)
  {
    forall m | m in at3 && m.s == s && m.l < 2 ensures m == OnPath(s, TRAMPOLINE, m.l) {
      assert m in at3.Keys;
      assert m in Way(s, TRAMPOLINE) || m in Way(s, TRAPFRAME);
    }
  }

  /** Leaf tables and middle tables for n pages. */
  function TableCount(n: nat): nat { (n + 0x1FF) / 0x200 + (n + 0x3_FFFF) / 0x4_0000 }

  predicate AmongFirst(m: Node, s: nat, n: nat) {
    m.s == s && ((m.l == 0 && m.q < (n + 0x1FF) / 0x200) || (m.l == 1 && m.q < (n + 0x3_FFFF) / 0x4_0000))
  }

  lemma {:induction false} FirstTables(s: nat, n: nat, m: Node)
    ensures m in Tables(s, 0, n) <==> AmongFirst(m, s, n)
  {
    if n > 0 {
      FirstTables(s, n - 1, m);
    }
  }

  lemma CeilingStep(k: nat)
    ensures TableCount(k + 1)
         == TableCount(k) + (if k % 0x200 == 0 then 1 else 0) + (if k % 0x4_0000 == 0 then 1 else 0)
  {
    assert (k + 1 + 0x1FF) / 0x200 == (k + 0x1FF) / 0x200 + if k % 0x200 == 0 then 1 else 0;
    assert (k + 1 + 0x3_FFFF) / 0x4_0000 == (k + 0x3_FFFF) / 0x4_0000 + if k % 0x4_0000 == 0 then 1 else 0;
  }

  /** A page needs a new table exactly if it is the first one under that table. */
  lemma FirstUnder(at: map<Node, nat>, s: nat, k: nat)
    requires Bare(at, s) && k < 0x8_8000
    ensures New(at, s, 0, k, OnPath(s, k, 1)) + New(at, s, 0, k, OnPath(s, k, 0)) == TableCount(k + 1) - TableCount(k)
  {
    var x, y := OnPath(s, k, 1), OnPath(s, k, 0);
    FirstTables(s, k, x);
    FirstTables(s, k, y);
    assert x != OnPath(s, TRAMPOLINE, 1) && y != OnPath(s, TRAMPOLINE, 0);
    assert x !in at && y !in at;
    CeilingStep(k);
  }

  /** All tables of a bare space are still to be made. */
  lemma {:induction false} BareCost(at: map<Node, nat>, s: nat, n: nat)
    requires Bare(at, s) && n <= 0x8_8000
    ensures Cost(at, s, 0, n) == n + TableCount(n)
  {
    if n > 0 {
      BareCost(at, s, n - 1);
      FirstUnder(at, s, n - 1);
    }
  }
}
