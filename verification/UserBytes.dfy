/** The bytes of a user address space, as copyin and copyout of kernel/vm.c see them. */
module UserBytes {
  import opened PageTable
  import opened AddressSpace

  /** walkaddr() finds the page. */
  predicate Reachable(v: View, s: nat, va: nat) {
    var t := Translate(v.tab, v.at, s, va);
    va < MAXPAGES && t.Some? && t.value.perm.u && t.value.ppn != 0
  }

  function PageOf(v: View, s: nat, va: nat): nat
    requires Reachable(v, s, va)
  {
    Translate(v.tab, v.at, s, va).value.ppn
  }

  function ByteAt(v: View, s: nat, a: nat): Option<int> {
    if !Reachable(v, s, a / PGSIZE) then None
    else
      var p := PageOf(v, s, a / PGSIZE);
      if p in v.mem && a % PGSIZE < |v.mem[p]| then Some(v.mem[p][a % PGSIZE]) else None
  }

  /** Every page that [va, va + len) touches can be reached. */
  ghost predicate RangeReachable(v: View, s: nat, va: nat, len: nat) {
    forall p: nat {:trigger Reachable(v, s, p)} ::
      len > 0 && va < p * PGSIZE + PGSIZE && p * PGSIZE < va + len ==> Reachable(v, s, p)
  }

  /** Where there is a byte at every address, every page can be reached. */
  lemma BytesReachable(v: View, s: nat, va: nat, len: nat)
    requires forall a: nat :: va <= a < va + len ==> ByteAt(v, s, a).Some?
    ensures RangeReachable(v, s, va, len)
  {
    forall p: nat | len > 0 && va < p * PGSIZE + PGSIZE && p * PGSIZE < va + len ensures Reachable(v, s, p) {
      var a: nat := if va < p * PGSIZE then p * PGSIZE else va;
      assert a / PGSIZE == p && ByteAt(v, s, a).Some?;
    }
  }

  /** Which pages can be reached depends on the tables only. */
  lemma SameReach(v: View, w: View, s: nat, va: nat, len: nat)
    requires w.tab == v.tab && w.at == v.at
    ensures RangeReachable(w, s, va, len) <==> RangeReachable(v, s, va, len)
    ensures forall p: nat :: Reachable(w, s, p) == Reachable(v, s, p)
  {
    assert forall p: nat :: Reachable(w, s, p) == Reachable(v, s, p);
  }

  /** The pages a user can reach in s are data pages of s. */
  ghost predicate Private(v: View, s: nat) {
    forall va: nat {:trigger Reachable(v, s, va)} :: Reachable(v, s, va) ==> DataPage(v.tab, v.at, v.own, s, va)
  }

  /** In a user space whose fixed pages are for the supervisor only, they are. */
  lemma UserSpaceIsPrivate(v: View, s: nat, n: nat)
    requires Ok(v, s, n)
    requires forall f :: f == TRAPFRAME || f == TRAMPOLINE ==>
               var t := Translate(v.tab, v.at, s, f); t.Some? ==> !t.value.perm.u
    ensures Private(v, s)
  {
    forall va: nat | Reachable(v, s, va) ensures DataPage(v.tab, v.at, v.own, s, va) {
      assert va != TRAPFRAME && va != TRAMPOLINE;
      assert n <= va ==> Hole(v.tab, v.at, s, va);
    }
  }

  /** Bytes dst .. dst + |src| of s read as src, and no other byte of a private space has changed. */
  ghost predicate Stored(v: View, w: View, s: nat, dst: nat, src: seq<int>) {
    forall t: nat, a: nat :: Private(v, t) ==>
      ByteAt(w, t, a) == if t == s && dst <= a < dst + |src| then Some(src[a - dst]) else ByteAt(v, t, a)
  }

  function Patched(page: seq<int>, off: nat, src: seq<int>): seq<int>
    requires off + |src| <= |page|
  {
    page[..off] + src + page[off + |src|..]
  }

  /** memmove() into one page. */
  lemma PatchStores(v: View, s: nat, dst: nat, src: seq<int>)
    requires Private(v, s) && Reachable(v, s, dst / PGSIZE) && dst % PGSIZE + |src| <= PGSIZE
    requires PageOf(v, s, dst / PGSIZE) in v.mem && |v.mem[PageOf(v, s, dst / PGSIZE)]| == PGSIZE
    ensures var p := PageOf(v, s, dst / PGSIZE);
            Stored(v, v.(mem := v.mem[p := Patched(v.mem[p], dst % PGSIZE, src)]), s, dst, src)
  {}

  /** The first `from` bytes of src have been stored, and now n more. */
  lemma StoreNext(u: View, v: View, w: View, s: nat, dst: nat, src: seq<int>, from: nat, n: nat)
    requires from + n <= |src| && Stored(u, v, s, dst, src[..from])
    requires Stored(v, w, s, dst + from, src[from..from + n])
    requires v.tab == u.tab && v.at == u.at && v.own == u.own
    ensures Stored(u, w, s, dst, src[..from + n])
  {
    StoreMore(u, v, w, s, dst, src[..from], src[from..from + n]);
    assert src[..from] + src[from..from + n] == src[..from + n];
  }

  /** Two stores, one after the other. */
  lemma StoreMore(u: View, v: View, w: View, s: nat, dst: nat, x: seq<int>, y: seq<int>)
    requires Stored(u, v, s, dst, x) && Stored(v, w, s, dst + |x|, y)
    requires v.tab == u.tab && v.at == u.at && v.own == u.own
    ensures Stored(u, w, s, dst, x + y)
  {
    forall t: nat, a: nat | Private(u, t)
      ensures ByteAt(w, t, a) == if t == s && dst <= a < dst + |x + y| then Some((x + y)[a - dst]) else ByteAt(u, t, a)
    {
      forall va: nat ensures Reachable(v, t, va) == Reachable(u, t, va) {}
      assert Private(v, t);
    }
  }
}
