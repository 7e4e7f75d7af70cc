/**
 Any number of processes and threads over one pool of pages: allocproc, allocthread, growproc,
 fork, freethread and freeproc of kernel/proc.c as far as memory goes.  Every page of the pool is
 free or accounted for by one process, and no process's bytes change by what another one does.
*/
module Processes {
  import opened PageTable
  import opened AddressSpace
  import opened FreeTables
  import opened TableCost
  import opened UserBytes
  import opened Vm

  const NPROC: nat := 64
  const NTHREAD: nat := 8

  /** T_UNUSED, T_ZOMBIE, and all other states in one. */
  datatype ThreadState = Unused | Alive | Zombie

  /** t->kstack, which the first thread does not allocate, and t->user_trap_frame_backup; 0 is none. */
  datatype Thread = Thread(state: ThreadState, kstack: nat, backup: nat)

  /** p->sz, the page of p's trapframes, p->threads. */
  datatype Proc = Proc(sz: nat, trapframe: nat, threads: seq<Thread>)

  /** What a process holds a page for, besides its address space. */
  datatype Role = Trapframe | Kstack(i: nat) | Backup(i: nat)

  datatype Holder = Holder(s: nat, r: Role)

  predicate HasRole(p: Proc, r: Role) { r.Trapframe? || r.i < |p.threads| }

  function PageFor(p: Proc, r: Role): nat {
    if !HasRole(p, r) then 0
    else match r
      case Trapframe => p.trapframe
      case Kstack(i) => p.threads[i].kstack
      case Backup(i) => p.threads[i].backup
  }

  function WithPage(p: Proc, r: Role, q: nat): Proc
    requires HasRole(p, r)
  {
    match r
    case Trapframe => p.(trapframe := q)
    case Kstack(i) => p.(threads := p.threads[i := p.threads[i].(kstack := q)])
    case Backup(i) => p.(threads := p.threads[i := p.threads[i].(backup := q)])
  }

  function NoThreads(): seq<Thread> { seq(NTHREAD, _ => Thread(Unused, 0, 0)) }

  /** A live or dead thread has its pages, an unused one has none. */
  ghost predicate ThreadsOk(p: Proc) {
    && |p.threads| == NTHREAD && p.trapframe != 0
    && forall i :: 0 <= i < NTHREAD ==> ThreadOk(p.threads[i], i)
  }

  /** The process table. */
  ghost predicate TableOk(procs: map<nat, Proc>) {
    |procs| <= NPROC && forall s {:trigger ThreadsOk(procs[s])} :: s in procs ==> ThreadsOk(procs[s])
  }

  lemma TableSet(procs: map<nat, Proc>, s: nat, p: Proc)
    requires TableOk(procs) && ThreadsOk(p) && (s in procs || |procs| < NPROC)
    ensures TableOk(procs[s := p]) && |procs[s := p]| == |procs| + if s in procs then 0 else 1
  {
    var procs' := procs[s := p];
    assert procs'.Keys == procs.Keys + {s};
    forall t | t in procs' ensures ThreadsOk(procs'[t]) {
      assert t != s ==> ThreadsOk(procs[t]);
    }
  }

  ghost predicate ThreadOk(t: Thread, i: nat) {
    if t.state.Unused? then t.kstack == 0 && t.backup == 0 else t.backup != 0 && (t.kstack == 0 <==> i == 0)
  }

  /** The two fixed pages are there, for the supervisor only. */
  ghost predicate FixedOk(v: View, s: nat) {
    var a, b := Translate(v.tab, v.at, s, TRAMPOLINE), Translate(v.tab, v.at, s, TRAPFRAME);
    a.Some? && !a.value.perm.u && b.Some? && !b.value.perm.u
  }

  ghost predicate SpaceOk(v: View, s: nat, p: Proc) {
    Ok(v, s, Pages(p.sz)) && p.sz < 0x1_0000_0000 && FixedOk(v, s)
  }

  /** The page held for r is held for nothing else. */
  ghost predicate RoleOk(own: map<nat, Use>, procs: map<nat, Proc>, holder: map<nat, Holder>, s: nat, r: Role)
    requires s in procs
  {
    var q := PageFor(procs[s], r);
    q != 0 ==> q in own && own[q] == Held && q in holder && holder[q] == Holder(s, r)
  }

  /** A page in use belongs to a process. */
  ghost predicate Accounted(own: map<nat, Use>, procs: map<nat, Proc>, holder: map<nat, Holder>, q: nat)
    requires q in own
  {
    match own[q]
    case Table(n) => n.s in procs
    case Data(s, va) => s in procs
    case Held => q != 0 && q in holder && holder[q].s in procs && PageFor(procs[holder[q].s], holder[q].r) == q
  }

  ghost predicate AllOk(v: View, procs: map<nat, Proc>, holder: map<nat, Holder>) {
    && (forall s {:trigger SpaceOk(v, s, procs[s])} :: s in procs ==> SpaceOk(v, s, procs[s]))
    && (forall q {:trigger Accounted(v.own, procs, holder, q)} :: q in v.own ==> Accounted(v.own, procs, holder, q))
    && (forall s, r {:trigger RoleOk(v.own, procs, holder, s, r)} :: s in procs ==> RoleOk(v.own, procs, holder, s, r))
  }

  // ---------------------------------------------------------------- what one process does to the others

  /** Page q is one of process s. */
  ghost predicate UsedBy(own: map<nat, Use>, holder: map<nat, Holder>, q: nat, s: nat) {
    q in own && (Belongs(own[q], s) || (own[q].Held? && q in holder && holder[q].s == s))
  }

  /** A page that is not one of s stays what it is, byte for byte, and no page becomes such a page. */
  ghost predicate PageSame(u: View, h: map<nat, Holder>, v: View, h': map<nat, Holder>, s: nat, q: nat) {
    && (q in u.own && !UsedBy(u.own, h, q, s) ==>
          && q in v.own && v.own[q] == u.own[q] && !UsedBy(v.own, h', q, s)
          && (q in h ==> q in h' && h'[q] == h[q]) && (q in u.mem ==> q in v.mem && v.mem[q] == u.mem[q]))
    && (q in v.own && !UsedBy(v.own, h', q, s) ==> q in u.own && !UsedBy(u.own, h, q, s))
  }

  /** Space t keeps its root, and is translated as before. */
  ghost predicate SpaceSame(u: View, v: View, t: nat) {
    && (Node(t, 2, 0) in u.at ==> Node(t, 2, 0) in v.at)
    && forall va: nat :: Translate(v.tab, v.at, t, va) == Translate(u.tab, u.at, t, va)
  }

  /** From u to v, only the pages and the translations of s have changed. */
  ghost predicate Step(u: View, h: map<nat, Holder>, v: View, h': map<nat, Holder>, s: nat) {
    && (forall t {:trigger SpaceSame(u, v, t)} :: t != s ==> SpaceSame(u, v, t))
    && (forall q {:trigger PageSame(u, h, v, h', s, q)} :: PageSame(u, h, v, h', s, q))
  }

  lemma StepTwice(u: View, h: map<nat, Holder>, v: View, h1: map<nat, Holder>, w: View, h2: map<nat, Holder>, s: nat)
    requires Step(u, h, v, h1, s) && Step(v, h1, w, h2, s)
    ensures Step(u, h, w, h2, s)
  {
    forall t: nat | t != s ensures SpaceSame(u, w, t) {
      assert SpaceSame(u, v, t) && SpaceSame(v, w, t);
    }
    forall q ensures PageSame(u, h, w, h2, s, q) {
      assert PageSame(u, h, v, h1, s, q) && PageSame(v, h1, w, h2, s, q);
    }
  }

  /** Every byte that process t can reach is as it was. */
  ghost predicate Untouched(u: View, v: View, t: nat) {
    forall a: nat {:trigger ByteAt(v, t, a)} :: ByteAt(v, t, a) == ByteAt(u, t, a)
  }

  lemma ProcessIsPrivate(v: View, s: nat, p: Proc)
    requires SpaceOk(v, s, p)
    ensures Private(v, s)
  {
    UserSpaceIsPrivate(v, s, Pages(p.sz));
  }

  /** Every page in use has its bytes. */
  ghost predicate Backed(v: View) { forall q :: q in v.own ==> q in v.mem }

  /** Isolation: what a step of s changes, another process cannot see. */
  lemma StepIsolates(u: View, h: map<nat, Holder>, v: View, h': map<nat, Holder>, s: nat, t: nat, p: Proc)
    requires Step(u, h, v, h', s) && t != s && SpaceOk(u, t, p) && Backed(u)
    ensures Untouched(u, v, t)
  {
    ProcessIsPrivate(u, t, p);
    assert SpaceSame(u, v, t);
    forall a: nat ensures ByteAt(v, t, a) == ByteAt(u, t, a) {
      var va := a / PGSIZE;
      assert Translate(v.tab, v.at, t, va) == Translate(u.tab, u.at, t, va);
      assert Reachable(v, t, va) == Reachable(u, t, va);
      if Reachable(u, t, va) {
        assert DataPage(u.tab, u.at, u.own, t, va);
        assert PageSame(u, h, v, h', s, PageOf(u, t, va));
      }
    }
  }

  lemma AllIsolated(u: View, procs: map<nat, Proc>, h: map<nat, Holder>, v: View, h': map<nat, Holder>, s: nat)
    requires Step(u, h, v, h', s) && AllOk(u, procs, h) && Backed(u)
    ensures forall t :: t in procs && t != s ==> Untouched(u, v, t)
  {
    forall t | t in procs && t != s ensures Untouched(u, v, t) {
      assert SpaceOk(u, t, procs[t]);
      StepIsolates(u, h, v, h', s, t, procs[t]);
    }
  }

  lemma SpaceKept(u: View, h: map<nat, Holder>, v: View, h': map<nat, Holder>, s: nat, t: nat, p: Proc)
    requires SpaceOk(u, t, p) && t != s && Step(u, h, v, h', s)
    ensures SpaceOk(v, t, p)
  {
    assert SpaceSame(u, v, t);
    forall q, va: nat ensures IsData(v.own, q, t, va) <==> IsData(u.own, q, t, va) {
      assert PageSame(u, h, v, h', s, q);
    }
    UserKept(u.tab, u.at, u.own, v.tab, v.at, v.own, t, Pages(p.sz));
  }

  /** The pages that p holds are accounted to s, and to nothing else. */
  ghost predicate Holds(own: map<nat, Use>, h: map<nat, Holder>, s: nat, p: Proc) {
    && (forall r {:trigger HoldsFor(own, h, s, p, r)} :: HoldsFor(own, h, s, p, r))
    && (forall q {:trigger HeldFor(own, h, s, p, q)} :: HeldFor(own, h, s, p, q))
  }

  ghost predicate HoldsFor(own: map<nat, Use>, h: map<nat, Holder>, s: nat, p: Proc, r: Role) {
    var q := PageFor(p, r);
    q != 0 ==> q in own && own[q] == Held && q in h && h[q] == Holder(s, r)
  }

  ghost predicate HeldFor(own: map<nat, Use>, h: map<nat, Holder>, s: nat, p: Proc, q: nat) {
    q in own && own[q] == Held && q in h && h[q].s == s ==> q != 0 && PageFor(p, h[q].r) == q
  }

  lemma HoldsAlready(v: View, procs: map<nat, Proc>, h: map<nat, Holder>, s: nat)
    requires AllOk(v, procs, h) && s in procs
    ensures Holds(v.own, h, s, procs[s])
  {
    forall r ensures HoldsFor(v.own, h, s, procs[s], r) {
      assert RoleOk(v.own, procs, h, s, r);
    }
    forall q ensures HeldFor(v.own, h, s, procs[s], q) {
      if q in v.own {
        assert Accounted(v.own, procs, h, q);
      }
    }
  }

  /** One process changes or appears, all others are left alone. */
  lemma OneChanges(u: View, procs: map<nat, Proc>, h: map<nat, Holder>, v: View, h': map<nat, Holder>, s: nat, p: Proc)
    requires AllOk(u, procs, h) && Step(u, h, v, h', s) && SpaceOk(v, s, p) && Holds(v.own, h', s, p)
    ensures AllOk(v, procs[s := p], h')
  {
    var procs' := procs[s := p];
    forall t | t in procs' ensures SpaceOk(v, t, procs'[t]) {
      if t != s {
        assert SpaceOk(u, t, procs[t]);
        SpaceKept(u, h, v, h', s, t, procs[t]);
      }
    }
    forall q | q in v.own ensures Accounted(v.own, procs', h', q) {
      if UsedBy(v.own, h', q, s) {
        assert HeldFor(v.own, h', s, p, q);
      } else {
        assert PageSame(u, h, v, h', s, q);
        assert Accounted(u.own, procs, h, q);
      }
    }
    forall t, r | t in procs' ensures RoleOk(v.own, procs', h', t, r) {
      if t == s {
        assert HoldsFor(v.own, h', s, p, r);
      } else {
        assert RoleOk(u.own, procs, h, t, r);
        assert PageSame(u, h, v, h', s, PageFor(procs[t], r));
      }
    }
  }

  /** Process s is gone, with all its pages. */
  lemma OneRemoved(u: View, procs: map<nat, Proc>, h: map<nat, Holder>, v: View, h': map<nat, Holder>, s: nat)
    requires AllOk(u, procs, h) && Step(u, h, v, h', s) && forall q :: !UsedBy(v.own, h', q, s)
    ensures AllOk(v, procs - {s}, h')
  {
    var procs' := procs - {s};
    forall t | t in procs' ensures SpaceOk(v, t, procs'[t]) {
      assert SpaceOk(u, t, procs[t]);
      SpaceKept(u, h, v, h', s, t, procs[t]);
    }
    forall q | q in v.own ensures Accounted(v.own, procs', h', q) {
      assert PageSame(u, h, v, h', s, q);
      assert Accounted(u.own, procs, h, q);
    }
    forall t, r | t in procs' ensures RoleOk(v.own, procs', h', t, r) {
      assert RoleOk(u.own, procs, h, t, r);
      assert PageSame(u, h, v, h', s, PageFor(procs[t], r));
    }
  }

  /** If s was no process before and is none afterwards, exactly the same pages are in use. */
  lemma NothingLost(u: View, procs: map<nat, Proc>, h: map<nat, Holder>, v: View, procs': map<nat, Proc>,
                    h': map<nat, Holder>, s: nat)
    requires AllOk(u, procs, h) && AllOk(v, procs', h') && Step(u, h, v, h', s) && s !in procs && s !in procs'
    ensures v.own == u.own
  {
    forall q ensures (q in u.own <==> q in v.own) && (q in u.own ==> v.own[q] == u.own[q]) {
      assert q in u.own ==> Accounted(u.own, procs, h, q);
      assert q in v.own ==> Accounted(v.own, procs', h', q);
      assert PageSame(u, h, v, h', s, q);
    }
  }

  // ---------------------------------------------------------------- single steps

  /** A page of nobody becomes one that s holds for r. */
  lemma HoldStep(u: View, h: map<nat, Holder>, v: View, s: nat, r: Role, q: nat)
    requires q !in u.own && v.tab == u.tab && v.at == u.at && v.own == u.own[q := Held]
    requires SameBytes(u.own, u.mem, v.mem)
    ensures Step(u, h, v, h[q := Holder(s, r)], s)
  {}

  /** A page that s holds is given back. */
  lemma DropStep(u: View, h: map<nat, Holder>, v: View, s: nat, q: nat)
    requires q in u.own && u.own[q] == Held && q in h && h[q].s == s
    requires v.tab == u.tab && v.at == u.at && v.own == u.own - {q} && v.mem.Keys >= u.mem.Keys
    requires forall x :: x in u.mem && x != q ==> v.mem[x] == u.mem[x]
    ensures Step(u, h, v, h - {q}, s)
  {}

  /** Only pages of the space s come and go. */
  lemma SpaceStep(u: View, h: map<nat, Holder>, v: View, s: nat)
    requires OthersSame(u.tab, u.at, v.tab, v.at, s)
    requires forall t: nat :: t != s && Node(t, 2, 0) in u.at ==> Node(t, 2, 0) in v.at
    requires forall q :: q in u.own && !Belongs(u.own[q], s) ==>
               q in v.own && v.own[q] == u.own[q] && (q in u.mem ==> q in v.mem && v.mem[q] == u.mem[q])
    requires forall q :: q in v.own && !Belongs(v.own[q], s) ==> q in u.own && u.own[q] == v.own[q]
    ensures Step(u, h, v, h, s)
  {}

  /** What growproc() has done to the space of p. */
  ghost predicate Grew(u: View, v: View, s: nat, p: Proc, sz: nat, ok: bool, n: int) {
    && Ok(v, s, Pages(sz)) && sz < 0x1_0000_0000 && Extends(u.at, v.at)
    && (!ok ==> sz == p.sz && SameMap(u.tab, u.at, v.tab, v.at) && OnlyTables(u.own, v.own, s))
    && (!ok ==> SameBytes(u.own, u.mem, v.mem))
    && (ok && n > 0 ==> Grown(u, v, s, Pages(p.sz), Pages(sz)) && ZeroFilled(v, s, Pages(p.sz), Pages(sz), ZeroPage()))
    && (ok && n <= 0 ==>
          && Pages(sz) <= Pages(p.sz) && SameBytes(v.own, u.mem, v.mem)
          && UnmapEffect(u.tab, u.at, v.tab, v.at, s, Pages(sz), Pages(p.sz) - Pages(sz))
          && FreedData(u.own, v.own, s, Pages(sz), Pages(p.sz) - Pages(sz)))
  }

  /** growproc() touches nothing but data pages and tables of s, and leaves the fixed pages mapped. */
  lemma GrowStep(u: View, h: map<nat, Holder>, v: View, s: nat, p: Proc, sz: nat, ok: bool, n: int)
    requires SpaceOk(u, s, p) && Grew(u, v, s, p, sz, ok, n)
    ensures SpaceOk(v, s, p.(sz := sz)) && Step(u, h, v, h, s)
  {
    SpaceStep(u, h, v, s);
  }

  /** Of n pages n' are left or there are n' now: the old bytes, then zeroes, and nothing beyond. */
  ghost predicate Resized(u: View, v: View, s: nat, n: nat, n': nat) {
    forall a: nat {:trigger ByteAt(v, s, a)} :: ByteAt(v, s, a) ==
      if a / PGSIZE >= n' then None else if a / PGSIZE < n then ByteAt(u, s, a) else Some(0)
  }

  lemma GrowBytes(u: View, v: View, s: nat, p: Proc, sz: nat, ok: bool, n: int)
    requires SpaceOk(u, s, p) && Backed(u) && Grew(u, v, s, p, sz, ok, n) && SpaceOk(v, s, p.(sz := sz)) && 0 !in v.own
    ensures Resized(u, v, s, Pages(p.sz), Pages(sz))
  {
    forall a: nat ensures ByteAt(v, s, a) ==
      if a / PGSIZE >= Pages(sz) then None else if a / PGSIZE < Pages(p.sz) then ByteAt(u, s, a) else Some(0)
    {
      var va := a / PGSIZE;
      if va >= Pages(sz) {
        BeyondEnd(v, s, p.(sz := sz), va);
      } else if va < Pages(p.sz) {
        assert DataPage(u.tab, u.at, u.own, s, va) && DataPage(v.tab, v.at, v.own, s, va);
        assert Translate(v.tab, v.at, s, va) == Translate(u.tab, u.at, s, va);
      } else {
        assert ZeroAt(v, s, va, ZeroPage()) && DataPage(v.tab, v.at, v.own, s, va);
      }
    }
  }

  /** No byte beyond the end of a process can be reached. */
  lemma BeyondEnd(v: View, s: nat, p: Proc, va: nat)
    requires SpaceOk(v, s, p) && va >= Pages(p.sz)
    ensures !Reachable(v, s, va)
  {
    assert va != TRAPFRAME && va != TRAMPOLINE ==> Hole(v.tab, v.at, s, va);
  }

  lemma CopyStep(u: View, h: map<nat, Holder>, v: View, t: nat, p: Proc, sz: nat, ok: bool)
    requires SpaceOk(u, t, p) && p.sz == 0 && sz < 0x1_0000_0000
    requires ok ==> Ok(v, t, Pages(sz)) && Grown(u, v, t, 0, Pages(sz))
    requires !ok ==> Ok(v, t, 0) && SameMap(u.tab, u.at, v.tab, v.at) && OnlyTables(u.own, v.own, t)
    requires !ok ==> SameBytes(u.own, u.mem, v.mem) && Extends(u.at, v.at)
    ensures SpaceOk(v, t, if ok then p.(sz := sz) else p) && Step(u, h, v, h, t)
  {
    SpaceStep(u, h, v, t);
  }

  /** The pages that s holds are the same as long as only its space changes. */
  lemma HoldsStill(u: View, v: View, h: map<nat, Holder>, s: nat, p: Proc, p': Proc)
    requires Holds(u.own, h, s, p) && p' == p.(sz := p'.sz)
    requires forall q :: q in u.own && u.own[q] == Held <==> q in v.own && v.own[q] == Held
    ensures Holds(v.own, h, s, p')
  {
    forall r ensures HoldsFor(v.own, h, s, p', r) {
      assert HoldsFor(u.own, h, s, p, r);
    }
    forall q ensures HeldFor(v.own, h, s, p', q) {
      assert HeldFor(u.own, h, s, p, q);
    }
  }

  /** One more page is held. */
  lemma HoldsMore(own: map<nat, Use>, h: map<nat, Holder>, s: nat, p: Proc, r: Role, q: nat)
    requires Holds(own, h, s, p) && HasRole(p, r) && PageFor(p, r) == 0 && q != 0 && q !in own
    ensures Holds(own[q := Held], h[q := Holder(s, r)], s, WithPage(p, r, q))
  {
    var own', h', p' := own[q := Held], h[q := Holder(s, r)], WithPage(p, r, q);
    forall x ensures HoldsFor(own', h', s, p', x) {
      assert HoldsFor(own, h, s, p, x);
    }
    forall x ensures HeldFor(own', h', s, p', x) {
      assert HeldFor(own, h, s, p, x);
    }
  }

  /** One page less is held. */
  lemma HoldsLess(own: map<nat, Use>, h: map<nat, Holder>, s: nat, p: Proc, r: Role, q: nat)
    requires Holds(own, h, s, p) && HasRole(p, r) && 0 != q == PageFor(p, r)
    ensures q in own && own[q] == Held && q in h && h[q] == Holder(s, r)
    ensures Holds(own - {q}, h - {q}, s, WithPage(p, r, 0))
  {
    assert HoldsFor(own, h, s, p, r);
    var own', h', p' := own - {q}, h - {q}, WithPage(p, r, 0);
    forall x ensures HoldsFor(own', h', s, p', x) {
      assert HoldsFor(own, h, s, p, x);
    }
    forall x ensures HeldFor(own', h', s, p', x) {
      assert HeldFor(own, h, s, p, x);
    }
  }

  /** Holding or dropping a page is not seen in a space. */
  lemma SpaceUnmoved(u: View, v: View, s: nat, p: Proc, p': Proc)
    requires SpaceOk(u, s, p) && p'.sz == p.sz && v.tab == u.tab && v.at == u.at
    requires forall q, va: nat :: IsData(v.own, q, s, va) <==> IsData(u.own, q, s, va)
    ensures SpaceOk(v, s, p')
  {
    UserKept(u.tab, u.at, u.own, v.tab, v.at, v.own, s, Pages(p.sz));
  }

  /** What kalloc() of a page for r means. */
  lemma TakeEffect(u: View, procs: map<nat, Proc>, h: map<nat, Holder>, v: View, s: nat, r: Role, q: nat)
    requires AllOk(u, procs, h) && s in procs && HasRole(procs[s], r) && PageFor(procs[s], r) == 0 && q != 0
    requires q !in u.own
    requires v.tab == u.tab && v.at == u.at && v.own == u.own[q := Held] && SameBytes(u.own, u.mem, v.mem)
    ensures Step(u, h, v, h[q := Holder(s, r)], s)
    ensures AllOk(v, procs[s := WithPage(procs[s], r, q)], h[q := Holder(s, r)])
  {
    var p, p' := procs[s], WithPage(procs[s], r, q);
    assert SpaceOk(u, s, p);
    HoldsAlready(u, procs, h, s);
    HoldStep(u, h, v, s, r, q);
    HoldsMore(u.own, h, s, p, r, q);
    SpaceUnmoved(u, v, s, p, p');
    OneChanges(u, procs, h, v, h[q := Holder(s, r)], s, p');
  }

  /** What kfree() of the page held for r means. */
  lemma DropEffect(u: View, procs: map<nat, Proc>, h: map<nat, Holder>, v: View, s: nat, r: Role, q: nat)
    requires AllOk(u, procs, h) && s in procs && HasRole(procs[s], r) && 0 != q == PageFor(procs[s], r)
    requires v.tab == u.tab && v.at == u.at && v.own == u.own - {q} && v.mem.Keys >= u.mem.Keys
    requires forall x :: x in u.mem && x != q ==> v.mem[x] == u.mem[x]
    ensures Step(u, h, v, h - {q}, s) && AllOk(v, procs[s := WithPage(procs[s], r, 0)], h - {q})
  {
    var p, p' := procs[s], WithPage(procs[s], r, 0);
    assert SpaceOk(u, s, p);
    HoldsAlready(u, procs, h, s);
    HoldsLess(u.own, h, s, p, r, q);
    DropStep(u, h, v, s, q);
    SpaceUnmoved(u, v, s, p, p');
    OneChanges(u, procs, h, v, h - {q}, s, p');
  }

  lemma DropsHeld(v: View, procs: map<nat, Proc>, h: map<nat, Holder>, s: nat, r: Role)
    requires AllOk(v, procs, h) && s in procs && PageFor(procs[s], r) != 0
    ensures PageFor(procs[s], r) in v.own && v.own[PageFor(procs[s], r)] == Held
  {
    assert RoleOk(v.own, procs, h, s, r);
  }

  /** A space that owns nothing yet belongs to no process. */
  lemma NewRoot(v: View, procs: map<nat, Proc>, h: map<nat, Holder>, s: nat, tf: nat)
    requires AllOk(v, procs, h) && TreeOk(v.tab, v.at, v.own) && tf !in v.own && Stranger(v.own[tf := Held], s)
    ensures s !in procs && Holds(v.own, h, s, Proc(0, 0, NoThreads()))
  {
    if s in procs {
      assert SpaceOk(v, s, procs[s]);
      assert NodeOk(v.tab, v.at, v.own, Node(s, 2, 0));
      assert Belongs(v.own[tf := Held][s], s);
    }
    forall q ensures HeldFor(v.own, h, s, Proc(0, 0, NoThreads()), q) {
      if q in v.own {
        assert Accounted(v.own, procs, h, q);
      }
    }
  }

  /** allocproc() has taken the trapframe page tf and made the space s. */
  lemma AllocStep(u: View, procs: map<nat, Proc>, h: map<nat, Holder>, u1: View, v: View, s: nat, tf: nat)
    requires AllOk(u, procs, h) && TreeOk(u.tab, u.at, u.own) && tf !in u.own && tf != 0
    requires u1.tab == u.tab && u1.at == u.at && u1.own == u.own[tf := Held] && SameBytes(u.own, u.mem, u1.mem)
    requires Ok(v, s, 0) && FixedOk(v, s) && OnlyTables(u1.own, v.own, s) && OthersSame(u1.tab, u1.at, v.tab, v.at, s)
    requires Stranger(u1.own, s) && Extends(u1.at, v.at) && SameBytes(u1.own, u1.mem, v.mem)
    ensures s !in procs && Step(u, h, v, h[tf := Holder(s, Trapframe)], s)
    ensures AllOk(v, procs[s := Proc(0, tf, NoThreads())], h[tf := Holder(s, Trapframe)])
  {
    var h', p := h[tf := Holder(s, Trapframe)], Proc(0, tf, NoThreads());
    NewRoot(u, procs, h, s, tf);
    HoldStep(u, h, u1, s, Trapframe, tf);
    SpaceStep(u1, h', v, s);
    StepTwice(u, h, u1, h', v, h', s);
    HoldsMore(u.own, h, s, Proc(0, 0, NoThreads()), Trapframe, tf);
    HoldsStill(u1, v, h', s, p, p);
    assert Pages(0) == 0;
    OneChanges(u, procs, h, v, h', s, p);
  }

  /** allocproc() has failed and given everything back. */
  lemma AllocFails(u: View, procs: map<nat, Proc>, h: map<nat, Holder>, v: View)
    requires AllOk(u, procs, h) && v.own == u.own && SameRest(u, v) && SameBytes(u.own, u.mem, v.mem) && Backed(u)
    ensures AllOk(v, procs, h) && forall t :: t in procs ==> Untouched(u, v, t)
  {
    forall s | s in procs ensures SpaceOk(v, s, procs[s]) && Untouched(u, v, s) {
      assert SpaceOk(u, s, procs[s]);
      UserKept(u.tab, u.at, u.own, v.tab, v.at, v.own, s, Pages(procs[s].sz));
      ProcessIsPrivate(u, s, procs[s]);
      forall a: nat ensures ByteAt(v, s, a) == ByteAt(u, s, a) {
        assert Reachable(v, s, a / PGSIZE) == Reachable(u, s, a / PGSIZE);
      }
    }
    forall q | q in v.own ensures Accounted(v.own, procs, h, q) {
      assert Accounted(u.own, procs, h, q);
    }
    forall s, r | s in procs ensures RoleOk(v.own, procs, h, s, r) {
      assert RoleOk(u.own, procs, h, s, r);
    }
  }

  lemma SameStep(u: View, h: map<nat, Holder>, s: nat)
    ensures Step(u, h, u, h, s)
  {}

  lemma SamePages(own: map<nat, Use>, h: map<nat, Holder>, s: nat, p: Proc, p': Proc)
    requires Holds(own, h, s, p) && forall r :: PageFor(p', r) == PageFor(p, r)
    ensures Holds(own, h, s, p')
  {
    forall r ensures HoldsFor(own, h, s, p', r) {
      assert HoldsFor(own, h, s, p, r);
    }
    forall q ensures HeldFor(own, h, s, p', q) {
      assert HeldFor(own, h, s, p, q);
    }
  }

  lemma NothingRemoved(procs: map<nat, Proc>, s: nat, own: map<nat, Use>)
    requires s in procs && 0 !in own
    ensures procs[s := procs[s]] == procs && own - {0} == own
  {}

  lemma MinusTwice(own: map<nat, Use>, a: nat, b: nat)
    ensures own - {a} - {b} == own - {a, b}
  {}

  lemma NothingDropped(p: Proc, r: Role)
    requires HasRole(p, r) && PageFor(p, r) == 0
    ensures WithPage(p, r, 0) == p
  {
    if r.Kstack? {
      assert p.threads[r.i := p.threads[r.i].(kstack := 0)] == p.threads;
    } else if r.Backup? {
      assert p.threads[r.i := p.threads[r.i].(backup := 0)] == p.threads;
    }
  }

  function WithState(p: Proc, i: nat, st: ThreadState): Proc
    requires i < |p.threads|
  {
    p.(threads := p.threads[i := p.threads[i].(state := st)])
  }

  function WithoutThread(p: Proc, i: nat): Proc
    requires i < |p.threads|
  {
    p.(threads := p.threads[i := Thread(Unused, 0, 0)])
  }

  /** What freethread() does to the fields of a thread. */
  lemma ThreadGone(p: Proc, i: nat)
    requires i < |p.threads|
    ensures WithState(WithPage(WithPage(p, Kstack(i), 0), Backup(i), 0), i, Unused) == WithoutThread(p, i)
  {
    var q := WithState(WithPage(WithPage(p, Kstack(i), 0), Backup(i), 0), i, Unused);
    assert q.threads == WithoutThread(p, i).threads;
  }

  /** The first slot of the thread table that allocthread() takes; NTHREAD if there is none. */
  function FreeSlot(ts: seq<Thread>): (i: nat)
    ensures i <= |ts| && (i < |ts| ==> !ts[i].state.Alive?) && forall j :: 0 <= j < i ==> ts[j].state.Alive?
  {
    if ts == [] || !ts[0].state.Alive? then 0 else 1 + FreeSlot(ts[1..])
  }

  /** Pages that starting a thread in slot i takes. */
  function Needs(i: nat): nat { if i == 0 then 1 else 2 }

  /** allocthread() will succeed: there is a slot, and the pages, which a dead thread leaves behind. */
  predicate CanStart(p: Proc, free: nat) {
    var i := FreeSlot(p.threads);
    i < |p.threads| && (p.threads[i].state.Zombie? || free >= Needs(i))
  }

  function WithThread(p: Proc, i: nat, t: Thread): Proc
    requires i < |p.threads|
  {
    p.(threads := p.threads[i := t])
  }

  lemma NoThreadGone(p: Proc, i: nat)
    requires i < |p.threads| && p.threads[i] == Thread(Unused, 0, 0)
    ensures WithoutThread(p, i) == p
  {
    assert p.threads[i := Thread(Unused, 0, 0)] == p.threads;
  }

  lemma ThreadReplaced(p: Proc, i: nat, t: Thread)
    requires i < |p.threads|
    ensures WithThread(WithoutThread(p, i), i, t) == WithThread(p, i, t)
  {
    assert WithThread(WithoutThread(p, i), i, t).threads == WithThread(p, i, t).threads;
  }

  lemma ThreadStarted(p: Proc, i: nat, k: nat, b: nat)
    requires i < |p.threads| && p.threads[i] == Thread(Unused, 0, 0)
    ensures WithState(WithPage(WithPage(p, Kstack(i), k), Backup(i), b), i, Alive)
         == WithThread(p, i, Thread(Alive, k, b))
  {
    var q := WithState(WithPage(WithPage(p, Kstack(i), k), Backup(i), b), i, Alive);
    assert q.threads == WithThread(p, i, Thread(Alive, k, b)).threads;
  }

  lemma ChangedAndRemoved(procs: map<nat, Proc>, procs': map<nat, Proc>, s: nat)
    requires s in procs && s in procs' && procs' == procs[s := procs'[s]]
    ensures procs' - {s} == procs - {s}
  {}

  lemma PutAndRemoved(procs: map<nat, Proc>, t: nat, p: Proc)
    requires t !in procs
    ensures procs[t := p] - {t} == procs
  {}

  /** The pages that a copy of p's memory takes in a new space. */
  function CopyCost(p: Proc): nat { Pages(p.sz) + TableCount(Pages(p.sz)) }

  datatype ForkResult = Forked | NoThread | NoPages

  /** t is a copy of s: the same size, permissions and bytes, and a thread to run it. */
  ghost predicate ForkedFrom(v: View, procs: map<nat, Proc>, s: nat, t: nat) {
    && s in procs && t in procs && procs[t].sz == procs[s].sz && Copied(v, s, t, Pages(procs[s].sz))
    && procs[t].threads != [] && procs[t].threads[0].state.Alive?
  }

  class System {
    const m: Memory
    const trampoline: nat
    var procs: map<nat, Proc>
    ghost var holder: map<nat, Holder>

    ghost predicate Core()
      reads this, m
    {
      m.Valid() && trampoline !in m.pool && AllOk(m.Now(), procs, holder)
    }

    ghost predicate Valid()
      reads this, m
    {
      Core() && TableOk(procs)
    }

    constructor (m: Memory, trampoline: nat)
      requires m.Valid() && m.own == map[] && trampoline !in m.pool
      ensures Valid() && procs == map[] && this.m == m
    {
      this.m, this.trampoline, procs, holder := m, trampoline, map[], map[];
    }

    lemma InUse()
      requires m.Valid()
      ensures Backed(m.Now()) && 0 !in m.own && |m.free| + |m.own| == |m.pool|
    {
      PoolCount(m.free, m.own, m.pool);
      forall q ensures q in m.own ==> q in m.mem && q != 0 {
        assert PoolAt(m.free, m.own, m.pool, q) && (q in m.pool ==> MemAt(m.mem, q));
      }
    }

    /** When no process is left, every page of the pool is on the free list, once. */
    lemma AllFree()
      requires Valid() && procs == map[]
      ensures forall p :: p in m.pool <==> p in m.free
      ensures forall i, j :: 0 <= i < j < |m.free| ==> m.free[i] != m.free[j]
    {
      forall q ensures q !in m.own {
        assert q in m.own ==> Accounted(m.own, procs, holder, q);
      }
      forall p: nat ensures p in m.pool <==> p in m.free {
        assert PoolAt(m.free, m.own, m.pool, p);
      }
    }

    /** kalloc() of a page that process s holds for r. */
    method Take(s: nat, r: Role) returns (ok: bool)
      requires Core() && s in procs && HasRole(procs[s], r) && PageFor(procs[s], r) == 0
      modifies `procs, `holder, m
      ensures Core() && Step(old(m.Now()), old(holder), m.Now(), holder, s) && m.at == old(m.at)
      ensures ok <==> |old(m.free)| > 0
      ensures !ok ==> procs == old(procs) && m.own == old(m.own) && |m.free| == |old(m.free)|
      ensures ok ==> s in procs && var q := PageFor(procs[s], r);
        && q != 0 && q !in old(m.own) && m.own == old(m.own)[q := Held] && |m.free| == |old(m.free)| - 1
        && procs == old(procs)[s := WithPage(old(procs)[s], r, q)]
    {
      ghost var u := m.Now();
      var q := m.Kalloc();
      if q == 0 {
        SameStep(u, holder, s);
        return false;
      }
      TakeEffect(u, procs, holder, m.Now(), s, r, q);
      procs := procs[s := WithPage(procs[s], r, q)];
      holder := holder[q := Holder(s, r)];
      ok := true;
    }

    /** kfree() of the page that process s holds for r, if it holds one. */
    method Drop(s: nat, r: Role)
      requires Core() && s in procs && HasRole(procs[s], r)
      modifies `procs, `holder, m
      ensures Core() && Step(old(m.Now()), old(holder), m.Now(), holder, s) && m.at == old(m.at)
      ensures procs == old(procs)[s := WithPage(old(procs)[s], r, 0)]
      ensures m.own == old(m.own) - {PageFor(old(procs)[s], r)}
      ensures |m.free| == |old(m.free)| + if PageFor(old(procs)[s], r) == 0 then 0 else 1
    {
      ghost var u := m.Now();
      var q := PageFor(procs[s], r);
      if q == 0 {
        InUse();
        NothingDropped(procs[s], r);
        NothingRemoved(procs, s, m.own);
        SameStep(u, holder, s);
        return;
      }
      DropsHeld(u, procs, holder, s, r);
      KfreeHeld(q);
      DropEffect(u, procs, holder, m.Now(), s, r, q);
      procs := procs[s := WithPage(procs[s], r, 0)];
      holder := holder - {q};
    }

    /** kfree() of a page that is neither a table nor data. */
    method KfreeHeld(q: nat)
      requires m.Valid() && q in m.own && m.own[q] == Held
      modifies m
      ensures m.Valid() && m.tab == old(m.tab) && m.at == old(m.at) && m.own == old(m.own) - {q}
      ensures m.mem == old(m.mem)[q := seq(PGSIZE, _ => 1)] && |m.free| == |old(m.free)| + 1
    {
      UsesKeepTree(m.tab, m.at, m.own, m.own - {q});
      DataMoves(m.tab, m.at, m.own, m.tab, m.at, m.own - {q});
      m.Kfree(q);
    }

    /** allocproc(): a process with an empty space for four pages, or nothing taken. */
    method Alloc() returns (s: nat)
      requires Valid()
      modifies `procs, `holder, m
      ensures Valid() && forall t :: t in old(procs) ==> Untouched(old(m.Now()), m.Now(), t)
      ensures s != 0 <==> |old(procs)| < NPROC && |old(m.free)| >= 4
      ensures s == 0 ==> procs == old(procs) && m.own == old(m.own) && |m.free| == |old(m.free)|
      ensures s != 0 ==> s !in old(procs) && s in procs
      ensures s != 0 ==> procs == old(procs)[s := Proc(0, procs[s].trapframe, NoThreads())]
      ensures s != 0 ==> |m.free| == |old(m.free)| - 4 && Step(old(m.Now()), old(holder), m.Now(), holder, s)
      ensures s != 0 ==> Bare(m.at, s) && |procs| == |old(procs)| + 1
    {
      ghost var u := m.Now();
      InUse();
      if |procs| == NPROC {
        forall t | t in procs ensures Untouched(u, u, t) {
        }
        return 0;
      }
      var tf := m.Kalloc();
      if tf == 0 {
        return 0;
      }
      ghost var u1 := m.Now();
      s := m.ProcPagetable(trampoline, tf);
      if s == 0 {
        GiveBack(tf, u);
        return;
      }
      Admit(s, tf, u, u1);
    }

    /** The success path of allocproc(). */
    method Admit(s: nat, tf: nat, ghost u: View, ghost u1: View)
      requires m.Valid() && trampoline !in m.pool && AllOk(u, procs, holder) && Backed(u) && TreeOk(u.tab, u.at, u.own)
      requires tf !in u.own && tf != 0 && TableOk(procs) && |procs| < NPROC
      requires u1.tab == u.tab && u1.at == u.at && u1.own == u.own[tf := Held] && SameBytes(u.own, u.mem, u1.mem)
      requires Ok(m.Now(), s, 0) && FixedOk(m.Now(), s) && OnlyTables(u1.own, m.own, s)
      requires OthersSame(u1.tab, u1.at, m.tab, m.at, s)
      requires Stranger(u1.own, s) && Extends(u1.at, m.at) && SameBytes(u1.own, u1.mem, m.mem)
      modifies `procs, `holder
      ensures Valid() && s !in old(procs) && procs == old(procs)[s := Proc(0, tf, NoThreads())]
      ensures |procs| == |old(procs)| + 1
      ensures Step(u, old(holder), m.Now(), holder, s)
      ensures forall t :: t in old(procs) ==> Untouched(u, m.Now(), t)
    {
      AllocStep(u, procs, holder, u1, m.Now(), s, tf);
      AllIsolated(u, procs, holder, m.Now(), holder[tf := Holder(s, Trapframe)], s);
      TableSet(procs, s, Proc(0, tf, NoThreads()));
      procs := procs[s := Proc(0, tf, NoThreads())];
      holder := holder[tf := Holder(s, Trapframe)];
    }

    /** The failure path of allocproc(): freeproc() gives the trapframe page back. */
    method GiveBack(tf: nat, ghost u: View)
      requires m.Valid() && trampoline !in m.pool && AllOk(u, procs, holder) && Backed(u) && tf !in u.own
      requires tf != 0 && m.own == u.own[tf := Held] && SameRest(u, m.Now()) && SameBytes(u.own, u.mem, m.mem)
      modifies m
      ensures Core() && m.own == u.own && |m.free| == |old(m.free)| + 1
      ensures forall t :: t in procs ==> Untouched(u, m.Now(), t)
    {
      KfreeHeld(tf);
      assert m.own == u.own;
      AllocFails(u, procs, holder, m.Now());
    }

    /** The kernel stack of thread i goes back; the first thread's is not from the pool. */
    method DropStack(s: nat, i: nat)
      requires Core() && s in procs && i < |procs[s].threads| && (i == 0 ==> procs[s].threads[0].kstack == 0)
      modifies `procs, `holder, m
      ensures Core() && Step(old(m.Now()), old(holder), m.Now(), holder, s) && m.at == old(m.at)
      ensures procs == old(procs)[s := WithPage(old(procs)[s], Kstack(i), 0)]
      ensures m.own == old(m.own) - {old(procs)[s].threads[i].kstack}
      ensures |m.free| == |old(m.free)| + if old(procs)[s].threads[i].kstack == 0 then 0 else 1
    {
      if i != 0 {
        Drop(s, Kstack(i));
      } else {
        InUse();
        NothingDropped(procs[s], Kstack(0));
        NothingRemoved(procs, s, m.own);
        SameStep(m.Now(), holder, s);
      }
    }

    /** The pages of thread i go back. */
    method DropPages(s: nat, i: nat)
      requires Core() && s in procs && i < |procs[s].threads| && (i == 0 ==> procs[s].threads[0].kstack == 0)
      modifies `procs, `holder, m
      ensures Core() && Step(old(m.Now()), old(holder), m.Now(), holder, s) && m.at == old(m.at)
      ensures procs == old(procs)[s := WithPage(WithPage(old(procs)[s], Kstack(i), 0), Backup(i), 0)]
      ensures var t := old(procs)[s].threads[i];
        && m.own == old(m.own) - {t.kstack, t.backup}
        && |m.free| == |old(m.free)| + (if t.kstack == 0 then 0 else 1) + (if t.backup == 0 then 0 else 1)
    {
      ghost var u, h, t := m.Now(), holder, procs[s].threads[i];
      DropStack(s, i);
      ghost var u1, h1 := m.Now(), holder;
      Drop(s, Backup(i));
      StepTwice(u, h, u1, h1, m.Now(), holder, s);
      MinusTwice(u.own, t.kstack, t.backup);
    }

    /** freethread(). */
    method FreeThread(s: nat, i: nat)
      requires Core() && s in procs && i < |procs[s].threads| && (i == 0 ==> procs[s].threads[0].kstack == 0)
      modifies `procs, `holder, m
      ensures Core() && Step(old(m.Now()), old(holder), m.Now(), holder, s) && m.at == old(m.at)
      ensures procs == old(procs)[s := WithoutThread(old(procs)[s], i)]
      ensures var t := old(procs)[s].threads[i];
        && m.own == old(m.own) - {t.kstack, t.backup}
        && |m.free| == |old(m.free)| + (if t.kstack == 0 then 0 else 1) + (if t.backup == 0 then 0 else 1)
    {
      ThreadGone(procs[s], i);
      DropPages(s, i);
      SetState(s, i, Unused);
    }

    /** t->state = st, which no page depends on. */
    method SetState(s: nat, i: nat, st: ThreadState)
      requires Core() && s in procs && i < |procs[s].threads|
      modifies `procs
      ensures Core()
      ensures procs == old(procs)[s := WithState(old(procs)[s], i, st)]
    {
      ghost var p, p' := procs[s], WithState(procs[s], i, st);
      assert SpaceOk(m.Now(), s, p);
      HoldsAlready(m.Now(), procs, holder, s);
      SameStep(m.Now(), holder, s);
      SamePages(m.own, holder, s, p, p');
      OneChanges(m.Now(), procs, holder, m.Now(), holder, s, p');
      procs := procs[s := WithState(procs[s], i, st)];
    }

    /** A kernel stack for thread i, unless it is the first. */
    method TakeStack(s: nat, i: nat) returns (ok: bool, ghost k: nat)
      requires Core() && s in procs && i < |procs[s].threads| && procs[s].threads[i].kstack == 0
      modifies `procs, `holder, m
      ensures Core() && Step(old(m.Now()), old(holder), m.Now(), holder, s) && m.at == old(m.at)
      ensures ok <==> |old(m.free)| >= Needs(i) - 1
      ensures !ok ==> procs == old(procs) && m.own == old(m.own) && |m.free| == |old(m.free)|
      ensures ok ==> procs == old(procs)[s := WithPage(old(procs)[s], Kstack(i), k)] && (k == 0 <==> i == 0)
      ensures ok ==> k !in old(m.own)
      ensures ok ==> m.own == (if i == 0 then old(m.own) else old(m.own)[k := Held])
      ensures ok ==> |m.free| == |old(m.free)| - (Needs(i) - 1)
    {
      ok, k := true, 0;
      if i != 0 {
        ok := Take(s, Kstack(i));
        k := PageFor(procs[s], Kstack(i));
      } else {
        InUse();
        NothingDropped(procs[s], Kstack(0));
        NothingRemoved(procs, s, m.own);
        SameStep(m.Now(), holder, s);
      }
    }

    /** allocthread() once it has found an unused slot: the pages of the new thread, or none. */
    method StartThread(s: nat, i: nat) returns (ok: bool)
      requires Core() && s in procs && i < |procs[s].threads| && procs[s].threads[i] == Thread(Unused, 0, 0)
      modifies `procs, `holder, m
      ensures Core() && Step(old(m.Now()), old(holder), m.Now(), holder, s) && m.at == old(m.at)
      ensures s in procs && i < |procs[s].threads|
      ensures ok <==> |old(m.free)| >= Needs(i)
      ensures !ok ==> procs == old(procs) && m.own == old(m.own)
      ensures ok ==> procs == old(procs)[s := WithThread(old(procs)[s], i, procs[s].threads[i])]
      ensures ok ==> procs[s].threads[i].state.Alive? && ThreadOk(procs[s].threads[i], i)
      ensures ok ==> |m.free| == |old(m.free)| - Needs(i)
    {
      ghost var u, h, p := m.Now(), holder, procs[s];
      NoThreadGone(p, i);
      InUse();
      ghost var k;
      ok, k := TakeStack(s, i);
      ghost var u1, h1 := m.Now(), holder;
      if ok {
        ok := Take(s, Backup(i));
        StepTwice(u, h, u1, h1, m.Now(), holder, s);
      }
      ghost var u2, h2 := m.Now(), holder;
      if !ok {
        GiveUp(s, i, p, u);
        StepTwice(u, h, u2, h2, m.Now(), holder, s);
        return;
      }
      ThreadStarted(p, i, k, PageFor(procs[s], Backup(i)));
      SetState(s, i, Alive);
    }

    /** The failure path of allocthread(): freethread() gives back what was taken. */
    method GiveUp(s: nat, i: nat, ghost p: Proc, ghost u: View)
      requires Core() && s in procs && i < |p.threads| == |procs[s].threads| && p.threads[i] == Thread(Unused, 0, 0)
      requires procs[s] == WithPage(p, Kstack(i), procs[s].threads[i].kstack) && 0 !in u.own
      requires var k := procs[s].threads[i].kstack;
        && (i == 0 ==> k == 0) && k !in u.own && m.own == if k == 0 then u.own else u.own[k := Held]
      modifies `procs, `holder, m
      ensures Core() && Step(old(m.Now()), old(holder), m.Now(), holder, s) && m.at == old(m.at)
      ensures procs == old(procs)[s := p] && m.own == u.own
    {
      ghost var t := procs[s].threads[i];
      assert WithoutThread(procs[s], i).threads == p.threads;
      FreeThread(s, i);
      assert m.own == u.own;
    }

    /** allocthread()'s search. */
    method FindSlot(s: nat) returns (i: nat)
      requires s in procs && |procs[s].threads| == NTHREAD
      ensures i == FreeSlot(procs[s].threads)
    {
      i := 0;
      while i < NTHREAD && procs[s].threads[i].state.Alive?
        invariant 0 <= i <= NTHREAD && forall j :: 0 <= j < i ==> procs[s].threads[j].state.Alive?
      {
        i := i + 1;
      }
    }

    /** allocthread(): a thread in the first slot without a live one, with its pages, or nothing taken. */
    method AllocThread(s: nat) returns (ok: bool)
      requires Valid() && s in procs
      modifies `procs, `holder, m
      ensures Valid() && Step(old(m.Now()), old(holder), m.Now(), holder, s) && m.at == old(m.at) && s in procs
      ensures forall t :: t in old(procs) && t != s ==> Untouched(old(m.Now()), m.Now(), t)
      ensures ok <==> CanStart(old(procs)[s], |old(m.free)|)
      ensures |procs| == |old(procs)|
      ensures !ok ==> procs == old(procs) && m.own == old(m.own)
      ensures ok ==> var i := FreeSlot(old(procs)[s].threads);
        && i < |procs[s].threads| && procs[s].threads[i].state.Alive?
        && procs == old(procs)[s := WithThread(old(procs)[s], i, procs[s].threads[i])]
        && |m.free| == |old(m.free)| - if old(procs)[s].threads[i].state.Zombie? then 0 else Needs(i)
    {
      ghost var u, h, old_procs := m.Now(), holder, procs;
      InUse();
      assert ThreadsOk(procs[s]);
      var i := FindSlot(s);
      if i == NTHREAD {
        SameStep(u, h, s);
        AllIsolated(u, procs, h, u, h, s);
        return false;
      }
      assert ThreadOk(procs[s].threads[i], i);
      ClearSlot(s, i);
      ghost var u1, h1 := m.Now(), holder;
      ok := StartThread(s, i);
      ThreadReplaced(old_procs[s], i, procs[s].threads[i]);
      TableSet(old_procs, s, procs[s]);
      StepTwice(u, h, u1, h1, m.Now(), holder, s);
      AllIsolated(u, old_procs, h, m.Now(), holder, s);
    }

    /** kthread_exit() of a thread that is not the last: its pages stay until it is joined or its slot is needed. */
    method ExitThread(s: nat, i: nat)
      requires Valid() && s in procs && i < |procs[s].threads| && procs[s].threads[i].state.Alive?
      modifies `procs
      ensures Valid() && procs == old(procs)[s := WithState(old(procs)[s], i, Zombie)]
    {
      assert ThreadsOk(procs[s]) && ThreadOk(procs[s].threads[i], i);
      SetState(s, i, Zombie);
    }

    /** join() of a dead thread. */
    method JoinThread(s: nat, i: nat)
      requires Valid() && s in procs && i < |procs[s].threads| && procs[s].threads[i].state.Zombie?
      modifies `procs, `holder, m
      ensures Valid() && procs == old(procs)[s := WithoutThread(old(procs)[s], i)]
      ensures |m.free| == |old(m.free)| + Needs(i)
      ensures forall t :: t in old(procs) && t != s ==> Untouched(old(m.Now()), m.Now(), t)
    {
      InUse();
      assert ThreadsOk(procs[s]) && ThreadOk(procs[s].threads[i], i);
      ghost var u, h, p := m.Now(), holder, procs;
      FreeThread(s, i);
      AllIsolated(u, p, h, m.Now(), holder, s);
    }

    /** allocthread() on a slot without a live thread: a dead one is freed first. */
    method ClearSlot(s: nat, i: nat)
      requires Core() && s in procs && i < |procs[s].threads| && !procs[s].threads[i].state.Alive?
      requires ThreadOk(procs[s].threads[i], i)
      modifies `procs, `holder, m
      ensures Core() && Step(old(m.Now()), old(holder), m.Now(), holder, s) && m.at == old(m.at)
      ensures procs == old(procs)[s := WithoutThread(old(procs)[s], i)]
      ensures if old(procs)[s].threads[i].state.Zombie? then |m.free| == |old(m.free)| + Needs(i)
              else procs == old(procs) && m.own == old(m.own) && m.free == old(m.free)
    {
      if procs[s].threads[i].state.Zombie? {
        FreeThread(s, i);
      } else {
        NoThreadGone(procs[s], i);
        assert procs[s := procs[s]] == procs;
        SameStep(m.Now(), holder, s);
      }
    }

    /** growproc() of process s: a new size, with zeroes in the pages added, or nothing that a process could notice. */
    method Grow(s: nat, n: int) returns (ok: bool)
      requires Valid() && s in procs && -0x8000_0000 <= n < 0x8000_0000
      modifies `procs, m
      ensures Valid() && s in procs && procs == old(procs)[s := old(procs)[s].(sz := procs[s].sz)]
      ensures var sz := old(procs)[s].sz;
        && procs[s].sz == (if ok && 0 <= sz + n < 0x1_0000_0000 then sz + n else sz)
        && (ok <==> n <= 0 || |old(m.free)| >= Cost(old(m.at), s, Pages(sz), Pages(Wrap(sz + n))))
        && Resized(old(m.Now()), m.Now(), s, Pages(sz), Pages(procs[s].sz))
      ensures forall t :: t in old(procs) && t != s ==> Untouched(old(m.Now()), m.Now(), t)
    {
      assert SpaceOk(m.Now(), s, procs[s]);
      ghost var u, p := m.Now(), procs[s];
      InUse();
      var sz;
      ok, sz := m.Growproc(s, procs[s].sz, n);
      SizeSet(u, s, p, sz, ok, n);
      procs := procs[s := procs[s].(sz := sz)];
    }

    /** What growproc() means for the process and for the others. */
    lemma SizeSet(u: View, s: nat, p: Proc, sz: nat, ok: bool, n: int)
      requires AllOk(u, procs, holder) && s in procs && procs[s] == p && Backed(u) && Grew(u, m.Now(), s, p, sz, ok, n)
      requires m.Valid() && TableOk(procs)
      ensures AllOk(m.Now(), procs[s := p.(sz := sz)], holder) && TableOk(procs[s := p.(sz := sz)])
      ensures Resized(u, m.Now(), s, Pages(p.sz), Pages(sz))
      ensures forall t :: t in procs && t != s ==> Untouched(u, m.Now(), t)
    {
      assert SpaceOk(u, s, p);
      InUse();
      GrowStep(u, holder, m.Now(), s, p, sz, ok, n);
      GrowBytes(u, m.Now(), s, p, sz, ok, n);
      assert ThreadsOk(p);
      TableSet(procs, s, p.(sz := sz));
      SpaceChanged(u, m.Now(), s, p.(sz := sz));
      AllIsolated(u, procs, holder, m.Now(), holder, s);
    }

    /** Only the space of s has changed, and its size. */
    lemma SpaceChanged(u: View, v: View, s: nat, p: Proc)
      requires AllOk(u, procs, holder) && s in procs && p == procs[s].(sz := p.sz)
      requires SpaceOk(v, s, p) && Step(u, holder, v, holder, s)
      requires forall q :: q in u.own && u.own[q] == Held <==> q in v.own && v.own[q] == Held
      ensures AllOk(v, procs[s := p], holder)
    {
      HoldsAlready(u, procs, holder, s);
      HoldsStill(u, v, holder, s, procs[s], p);
      OneChanges(u, procs, holder, v, holder, s, p);
    }

    /** What a copy of s in the bare space t takes. */
    lemma CopyTakes(s: nat, t: nat)
      requires Core() && s in procs && Bare(m.at, t)
      ensures Cost(m.at, t, 0, Pages(procs[s].sz)) == CopyCost(procs[s])
    {
      assert SpaceOk(m.Now(), s, procs[s]);
      m.BelowTrapframe(s, Pages(procs[s].sz));
      BareCost(m.at, t, Pages(procs[s].sz));
    }

    /** The memory part of fork(), for a child just allocated. */
    method CopyInto(s: nat, t: nat) returns (ok: bool)
      requires Valid() && s in procs && t in procs && s != t && procs[t].sz == 0 && Bare(m.at, t)
      modifies `procs, m
      ensures Valid() && Step(old(m.Now()), holder, m.Now(), holder, t)
      ensures procs == if ok then old(procs)[t := old(procs)[t].(sz := old(procs)[s].sz)] else old(procs)
      ensures ok ==> Copied(m.Now(), s, t, Pages(procs[s].sz))
      ensures ok <==> |old(m.free)| >= CopyCost(old(procs)[s])
    {
      var sz := procs[s].sz;
      assert SpaceOk(m.Now(), s, procs[s]) && SpaceOk(m.Now(), t, procs[t]) && Pages(0) == 0;
      ghost var u := m.Now();
      CopyTakes(s, t);
      ok := m.Uvmcopy(s, t, sz);
      CopyStep(u, holder, m.Now(), t, procs[t], sz, ok);
      SpaceChanged(u, m.Now(), t, if ok then procs[t].(sz := sz) else procs[t]);
      if ok {
        assert ThreadsOk(procs[t]);
        TableSet(procs, t, procs[t].(sz := sz));
        procs := procs[t := procs[t].(sz := sz)];
      } else {
        assert procs[t := procs[t]] == procs;
      }
    }

    /** freeproc()'s loop over the threads. */
    method FreeThreads(s: nat)
      requires Core() && s in procs && |procs[s].threads| == NTHREAD
      requires forall i :: 0 <= i < NTHREAD ==> ThreadOk(procs[s].threads[i], i)
      modifies `procs, `holder, m
      ensures Core() && Step(old(m.Now()), old(holder), m.Now(), holder, s)
      ensures procs == old(procs)[s := old(procs)[s].(threads := NoThreads())]
    {
      ghost var u, h, p := m.Now(), holder, procs[s];
      SameStep(u, h, s);
      assert procs[s := procs[s]] == procs;
      var i := 0;
      while i < NTHREAD
        invariant 0 <= i <= NTHREAD && Core() && Step(u, h, m.Now(), holder, s)
        invariant s in procs && procs == old(procs)[s := p.(threads := procs[s].threads)]
        invariant |procs[s].threads| == NTHREAD
        invariant forall j :: 0 <= j < NTHREAD ==>
          procs[s].threads[j] == if j < i then Thread(Unused, 0, 0) else p.threads[j]
      {
        assert ThreadOk(p.threads[i], i);
        if !procs[s].threads[i].state.Unused? {
          ghost var u1, h1 := m.Now(), holder;
          FreeThread(s, i);
          StepTwice(u, h, u1, h1, m.Now(), holder, s);
        }
        i := i + 1;
      }
      assert procs[s].threads == NoThreads();
    }

    /** The end of freeproc(): the address space goes back, and with it the process. */
    method FreeSpace(s: nat)
      requires Core() && s in procs && procs[s].trapframe == 0 && procs[s].threads == NoThreads()
      modifies `procs, m
      ensures Core() && Step(old(m.Now()), holder, m.Now(), holder, s) && procs == old(procs) - {s}
    {
      assert SpaceOk(m.Now(), s, procs[s]);
      ghost var u, p := m.Now(), procs[s];
      m.ProcFreepagetable(s, procs[s].sz);
      SpaceStep(u, holder, m.Now(), s);
      HoldsAlready(u, procs, holder, s);
      forall q ensures !UsedBy(m.own, holder, q, s) {
        assert HeldFor(u.own, holder, s, p, q);
        assert forall r :: PageFor(p, r) == 0;
      }
      OneRemoved(u, procs, holder, m.Now(), holder, s);
      procs := procs - {s};
    }

    /** freeproc(): no panic, and every page of the process is free again. */
    method Free(s: nat)
      requires Valid() && s in procs
      modifies `procs, `holder, m
      ensures Valid() && procs == old(procs) - {s} && Step(old(m.Now()), old(holder), m.Now(), holder, s)
      ensures forall t :: t in procs ==> Untouched(old(m.Now()), m.Now(), t)
    {
      ghost var u, h, old_procs := m.Now(), holder, procs;
      InUse();
      assert ThreadsOk(procs[s]);
      Drop(s, Trapframe);
      ghost var u1, h1 := m.Now(), holder;
      FreeThreads(s);
      StepTwice(u, h, u1, h1, m.Now(), holder, s);
      ChangedAndRemoved(old_procs, procs, s);
      u1, h1 := m.Now(), holder;
      FreeSpace(s);
      StepTwice(u, h, u1, h1, m.Now(), holder, s);
      AllIsolated(u, old_procs, h, m.Now(), holder, s);
    }

    /** fork() once the child t has been allocated. */
    method Populate(s: nat, t: nat) returns (r: ForkResult)
      requires Valid() && s in procs && t in procs && s != t && procs[t].sz == 0 && procs[t].threads == NoThreads()
      requires Bare(m.at, t)
      modifies `procs, `holder, m
      ensures Valid() && Step(old(m.Now()), old(holder), m.Now(), holder, t)
      ensures r.NoThread? <==> |old(m.free)| == 0
      ensures r.Forked? <==> |old(m.free)| >= 1 + CopyCost(old(procs)[s])
      ensures r.NoThread? ==> procs == old(procs) && m.own == old(m.own)
      ensures r.NoPages? ==> procs == old(procs) - {t}
      ensures r.Forked? ==> t in procs && procs == old(procs)[t := procs[t]] && ForkedFrom(m.Now(), procs, s, t)
    {
      ghost var u, h, p := m.Now(), holder, procs;
      assert FreeSlot(procs[t].threads) == 0;
      var ok := AllocThread(t);
      if !ok {
        return NoThread;
      }
      ghost var u1, h1 := m.Now(), holder;
      ok := CopyInto(s, t);
      StepTwice(u, h, u1, h1, m.Now(), holder, t);
      if ok {
        return Forked;
      }
      u1, h1 := m.Now(), holder;
      Free(t);
      StepTwice(u, h, u1, h1, m.Now(), holder, t);
      assert procs == p - {t};
      return NoPages;
    }

    /**
     fork() as far as memory goes: a child with an exact copy of the parent's memory, or -1.  When
     allocthread() fails, the child just allocated is not freed: this happens exactly with four
     free pages left, and then its place in the process table and the pages stay taken.
    */
    method Fork(s: nat) returns (t: nat)
      requires Valid() && s in procs
      modifies `procs, `holder, m
      ensures Valid() && forall x :: x in old(procs) ==> Untouched(old(m.Now()), m.Now(), x)
      ensures t != 0 ==> t !in old(procs) && t in procs && procs == old(procs)[t := procs[t]]
      ensures t != 0 ==> ForkedFrom(m.Now(), procs, s, t)
      ensures t != 0 <==> |old(procs)| < NPROC && |old(m.free)| >= 5 + CopyCost(old(procs)[s])
      ensures t == 0 ==> (procs == old(procs) <==> !(|old(procs)| < NPROC && |old(m.free)| == 4))
      ensures t == 0 && procs == old(procs) ==> m.own == old(m.own)
      ensures t == 0 && procs != old(procs) ==> |procs| == |old(procs)| + 1 && |m.own| == |old(m.own)| + 4
    {
      ghost var u, h, p := m.Now(), holder, procs;
      InUse();
      t := Alloc();
      if t == 0 {
        return;
      }
      InUse();
      ghost var u1, h1, p1 := m.Now(), holder, procs;
      var r := Populate(s, t);
      StepTwice(u, h, u1, h1, m.Now(), holder, t);
      AllIsolated(u, p, h, m.Now(), holder, t);
      match r
      case Forked =>
      case NoThread =>
        assert t in procs && t !in p;
        return 0;
      case NoPages =>
        PutAndRemoved(p, t, p1[t]);
        NothingLost(u, p, h, m.Now(), procs, holder, t);
        return 0;
    }

    /** Bytes change, but no table and no use of a page. */
    lemma OnlyBytes(u: View, v: View)
      requires AllOk(u, procs, holder) && v == u.(mem := v.mem)
      ensures AllOk(v, procs, holder)
    {
      forall s | s in procs ensures SpaceOk(v, s, procs[s]) {
        assert SpaceOk(u, s, procs[s]);
      }
      forall q | q in v.own ensures Accounted(v.own, procs, holder, q) {
        assert Accounted(u.own, procs, holder, q);
      }
      forall s, r | s in procs ensures RoleOk(v.own, procs, holder, s, r) {
        assert RoleOk(u.own, procs, holder, s, r);
      }
    }

    /** copyout() to process s: the first `done` bytes arrive, and no other byte of any process changes. */
    method Copyout(s: nat, dstva: nat, src: seq<int>) returns (ok: bool, ghost done: nat)
      requires Valid() && s in procs
      modifies m
      ensures Valid() && m.Now() == old(m.Now()).(mem := m.mem) && done <= |src| && (ok <==> done == |src|)
      ensures !ok ==> !Reachable(m.Now(), s, (dstva + done) / PGSIZE)
      ensures forall a: nat :: ByteAt(m.Now(), s, a)
                == if dstva <= a < dstva + done then Some(src[a - dstva]) else ByteAt(old(m.Now()), s, a)
      ensures forall t :: t in procs && t != s ==> Untouched(old(m.Now()), m.Now(), t)
    {
      ghost var u := m.Now();
      assert SpaceOk(u, s, procs[s]);
      ProcessIsPrivate(u, s, procs[s]);
      ok, done := m.Copyout(s, dstva, src);
      OnlyBytes(u, m.Now());
      forall t | t in procs && t != s ensures Untouched(u, m.Now(), t) {
        assert SpaceOk(u, t, procs[t]);
        ProcessIsPrivate(u, t, procs[t]);
      }
    }

    /** copyin() from process s: the bytes from srcva on, up to the first page out of reach; nothing changes. */
    method Copyin(s: nat, srcva: nat, len: nat) returns (ok: bool, dst: seq<int>)
      requires Valid() && s in procs
      modifies m
      ensures Valid() && m.Now() == old(m.Now())
      ensures |dst| <= len && (ok <==> |dst| == len)
      ensures forall j :: 0 <= j < |dst| ==> ByteAt(m.Now(), s, srcva + j) == Some(dst[j])
      ensures !ok ==> !Reachable(m.Now(), s, (srcva + |dst|) / PGSIZE)
    {
      assert SpaceOk(m.Now(), s, procs[s]);
      ProcessIsPrivate(m.Now(), s, procs[s]);
      ok, dst := m.Copyin(s, srcva, len);
    }

    /** What copyout() has written to a process, copyin() reads back, exactly if every page touched can be reached. */
    method CopyoutThenCopyin(s: nat, va: nat, src: seq<int>) returns (ok: bool, dst: seq<int>)
      requires Valid() && s in procs
      modifies m
      ensures Valid() && (ok ==> dst == src)
      ensures ok <==> RangeReachable(old(m.Now()), s, va, |src|)
      ensures forall t :: t in procs && t != s ==> Untouched(old(m.Now()), m.Now(), t)
    {
      dst := [];
      ghost var done, u := 0, m.Now();
      ok, done := Copyout(s, va, src);
      SameReach(u, m.Now(), s, va, |src|);
      if !ok {
        assert !Reachable(u, s, (va + done) / PGSIZE);
        return;
      }
      BytesReachable(m.Now(), s, va, |src|);
      ok, dst := Copyin(s, va, |src|);
      forall j | 0 <= j < |src| ensures dst[j] == src[j] {
        assert ByteAt(m.Now(), s, va + j) == Some(src[j]);
      }
    }
  }

  lemma MachinePages(n: nat)
    ensures var r := PageRange(Pages(PGSIZE), (n + 1) * PGSIZE / PGSIZE); |r| == n && n + 1 !in r
  {
    assert (n + 1) * PGSIZE / PGSIZE == n + 1 && Pages(PGSIZE) == 1;
    PageCount(1, n + 1);
  }

  /** A machine with n pages. */
  method Machine(n: nat) returns (sys: System)
    requires (n + 1) * PGSIZE <= 0x8800_0000
    ensures fresh(sys) && fresh(sys.m) && sys.Valid() && sys.procs == map[] && |sys.m.free| == n
  {
    MachinePages(n);
    var m := new Memory(PGSIZE, (n + 1) * PGSIZE);
    PoolCount(m.free, m.own, m.pool);
    sys := new System(m, n + 1);
  }

  /** With nine pages, one process and its thread leave four. */
  method FourPagesLeft() returns (sys: System, s: nat)
    ensures fresh(sys) && fresh(sys.m) && sys.Valid() && s in sys.procs && |sys.procs| == 1 && |sys.m.free| == 4
  {
    sys := Machine(9);
    s := sys.Alloc();
    assert FreeSlot(sys.procs[s].threads) == 0;
    var ok := sys.AllocThread(s);
  }

  /** Then fork() fails and the child stays. */
  method ForkWithFourPagesLeft() returns (sys: System, t: nat)
    ensures sys.Valid() && t == 0 && |sys.procs| == 2 && sys.m.free == []
  {
    var s;
    sys, s := FourPagesLeft();
    sys.InUse();
    t := sys.Fork(s);
    sys.InUse();
  }
}
